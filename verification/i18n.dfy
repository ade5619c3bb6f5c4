/** Translation lookup with `{{placeholder}}` substitution, and the choice of the initial
    language from the browser's language tag. The dictionaries are parameters. */
module I18n {
  import opened Types
  import opened Text

  datatype Language = En | PtBR

  type Dictionary = map<string, string>

  /** `getInitialLanguage`: the primary subtag, `navigator.language.split('-')[0]`, decides. */
  function GetInitialLanguage(navigatorLanguage: string): Language {
    var primary := navigatorLanguage[..IndexOf(navigatorLanguage, '-')];
    if primary == "pt" then PtBR else En
  }

  /** Every Portuguese tag (`pt`, `pt-BR`, `pt-PT`, ...) selects Brazilian Portuguese; every
      other tag, including `ptx` and the empty one, selects English. */
  lemma InitialLanguageIff(navigatorLanguage: string)
    ensures GetInitialLanguage(navigatorLanguage) == PtBR <==>
      navigatorLanguage == "pt" || (|navigatorLanguage| >= 3 && navigatorLanguage[..3] == "pt-")
  {
    var s := navigatorLanguage;
    var k := IndexOf(s, '-');
    if |s| >= 3 && s[..3] == "pt-" {
      IndexOfAt(s, '-', 2);
    }
    if s == "pt" {
      IndexOfAt(s, '-', 2);
    }
    if s[..k] == "pt" {
      assert k == 2;
    }
  }

  /** `dict[key]` used as a condition: present and not the empty string. */
  predicate Truthy(dict: Dictionary, key: string) {
    key in dict && dict[key] != ""
  }

  /** `langDict[key] || translations.en[key] || key`. */
  function Lookup(langDict: Dictionary, enDict: Dictionary, key: string): string {
    if Truthy(langDict, key) then langDict[key]
    else if Truthy(enDict, key) then enDict[key]
    else key
  }

  /** The lookup returns a non-empty translation of the current language when there is one,
      otherwise a non-empty English one, otherwise the key; an empty translation counts as
      missing at both levels. */
  lemma LookupFallback(langDict: Dictionary, enDict: Dictionary, key: string)
    ensures !Truthy(langDict, key) ==> Lookup(langDict, enDict, key) == Lookup(map[], enDict, key)
    ensures Lookup(langDict[key := ""], enDict, key) == Lookup(langDict - {key}, enDict, key)
    ensures Lookup(langDict, enDict[key := ""], key) == Lookup(langDict, enDict - {key}, key)
    ensures key != "" ==> Lookup(langDict, enDict, key) != ""
  {
  }

  // ---------------------------------------------------------------------------
  // String.prototype.replace with a string pattern

  /** `p` occurs in `s` at index `i`. */
  predicate Occurs(s: string, p: string, i: nat) {
    i + |p| <= |s| && s[i..i + |p|] == p
  }

  /** The first occurrence of `p` at or after `i`. */
  function Find(s: string, p: string, i: nat): (r: Option<nat>)
    requires i <= |s|
    ensures r.Some? ==> i <= r.value && Occurs(s, p, r.value)
    decreases |s| - i
  {
    if Occurs(s, p, i) then Some(i) else if i == |s| then None else Find(s, p, i + 1)
  }

  /** `Find` returns the first occurrence, and `None` only when there is none. */
  lemma {:induction false} FindIsFirst(s: string, p: string, i: nat)
    requires i <= |s|
    ensures Find(s, p, i).Some? ==> forall j :: i <= j < Find(s, p, i).value ==> !Occurs(s, p, j)
    ensures Find(s, p, i).None? ==> forall j :: i <= j <= |s| ==> !Occurs(s, p, j)
    decreases |s| - i
  {
    if !Occurs(s, p, i) && i < |s| {
      FindIsFirst(s, p, i + 1);
    }
  }

  /** The first occurrence is determined by where it is. */
  lemma {:induction false} FindAt(s: string, p: string, i: nat, k: nat)
    requires i <= k <= |s| && Occurs(s, p, k)
    requires forall j :: i <= j < k ==> !Occurs(s, p, j)
    ensures Find(s, p, i) == Some(k)
    decreases k - i
  {
    if i < k {
      FindAt(s, p, i + 1, k);
    }
  }

  /** The replacement text after `$` patterns are expanded: `$$` is `$`, `$&` the match,
      `` $` `` the text before it, `$'` the text after it; any other `$` is kept (a string
      pattern has no capture groups). */
  function Expand(replacement: string, before: string, matched: string, after: string): string
    decreases |replacement|
  {
    if replacement == [] then []
    else if replacement[0] == '$' && |replacement| >= 2 then
      var tail := Expand(replacement[2..], before, matched, after);
      match replacement[1]
      case '$' => "$" + tail
      case '&' => matched + tail
      case '`' => before + tail
      case '\'' => after + tail
      case _ => "$" + Expand(replacement[1..], before, matched, after)
    else [replacement[0]] + Expand(replacement[1..], before, matched, after)
  }

  /** A replacement without `$` is inserted as it is. */
  lemma {:induction false} ExpandLiteral(replacement: string, before: string, matched: string, after: string)
    requires '$' !in replacement
    ensures Expand(replacement, before, matched, after) == replacement
    decreases |replacement|
  {
    if replacement != [] {
      ExpandLiteral(replacement[1..], before, matched, after);
      assert replacement == [replacement[0]] + replacement[1..];
    }
  }

  /** `s` with the `n` characters at `i` replaced by `inserted`. */
  function Splice(s: string, i: nat, n: nat, inserted: string): string
    requires i + n <= |s|
  {
    s[..i] + inserted + s[i + n..]
  }

  /** An occurrence after the spliced part survives, shifted by the change in length. */
  lemma SpliceKeepsLater(s: string, i: nat, n: nat, inserted: string, p: string, j: nat)
    requires i + n <= j && Occurs(s, p, j)
    ensures Occurs(Splice(s, i, n, inserted), p, j - n + |inserted|)
  {
    var front, back := s[..i] + inserted, s[i + n..];
    assert Splice(s, i, n, inserted) == front + back;
    OccursInSuffix(s, p, i + n, j);
    OccursAfter(front, back, p, j - (i + n));
  }

  /** `s.replace(pattern, replacement)` for a string pattern: only the first occurrence. */
  function ReplaceFirst(s: string, pattern: string, replacement: string): string {
    var found := Find(s, pattern, 0);
    if found.None? then s else Splice(s, found.value, |pattern|, Inserted(s, pattern, replacement, found.value))
  }

  /** The text that replaces the occurrence of `pattern` at `i`. */
  function Inserted(s: string, pattern: string, replacement: string, i: nat): string
    requires i + |pattern| <= |s|
  {
    Expand(replacement, s[..i], pattern, s[i + |pattern|..])
  }

  /** Without an occurrence nothing changes. */
  lemma ReplaceFirstAbsent(s: string, pattern: string, replacement: string)
    requires forall k :: 0 <= k <= |s| ==> !Occurs(s, pattern, k)
    ensures ReplaceFirst(s, pattern, replacement) == s
  {
  }

  /** The text after the first occurrence is kept, so every later occurrence survives, shifted
      by the difference in length between the match and its replacement. */
  lemma ReplaceFirstKeepsLater(s: string, pattern: string, replacement: string, j: nat)
    requires Find(s, pattern, 0).Some? && Occurs(s, pattern, j) && j >= Find(s, pattern, 0).value + |pattern|
    ensures var i := Find(s, pattern, 0).value;
      Occurs(ReplaceFirst(s, pattern, replacement), pattern, j - |pattern| + |Inserted(s, pattern, replacement, i)|)
  {
    var i := Find(s, pattern, 0).value;
    SpliceKeepsLater(s, i, |pattern|, Inserted(s, pattern, replacement, i), pattern, j);
  }

  /** An occurrence in a suffix, counted from the suffix's start. */
  lemma OccursInSuffix(s: string, p: string, a: nat, j: nat)
    requires a <= j && Occurs(s, p, j)
    ensures Occurs(s[a..], p, j - a)
  {
    assert s[a..][j - a..j - a + |p|] == s[j..j + |p|];
  }

  /** An occurrence in the right part of a concatenation. */
  lemma OccursAfter(front: string, back: string, p: string, m: nat)
    requires Occurs(back, p, m)
    ensures Occurs(front + back, p, |front| + m)
  {
    assert (front + back)[|front| + m..|front| + m + |p|] == back[m..m + |p|];
  }

  /** A replacement without `$` replaces exactly the first occurrence by itself. */
  lemma ReplaceFirstLiteral(s: string, pattern: string, replacement: string)
    requires '$' !in replacement && Find(s, pattern, 0).Some?
    ensures var i := Find(s, pattern, 0).value;
      ReplaceFirst(s, pattern, replacement) == s[..i] + replacement + s[i + |pattern|..]
  {
    var i := Find(s, pattern, 0).value;
    ExpandLiteral(replacement, s[..i], pattern, s[i + |pattern|..]);
  }

  // ---------------------------------------------------------------------------
  // The `t` function

  /** One entry of the replacements object, in `Object.keys` order. */
  datatype Replacement = Replacement(name: string, value: string)

  function Placeholder(name: string): string {
    "{{" + name + "}}"
  }

  /** The replacements applied in order, each to the result of the previous ones. */
  function Translated(text: string, replacements: seq<Replacement>): string {
    if replacements == [] then text
    else
      var last := replacements[|replacements| - 1];
      ReplaceFirst(Translated(text, replacements[..|replacements| - 1]), Placeholder(last.name), last.value)
  }

  /** `t(key, replacements)`: the lookup, then one `replace` per replacement name. */
  method T(langDict: Dictionary, enDict: Dictionary, key: string, replacements: Option<seq<Replacement>>)
    returns (translation: string)
    ensures replacements.None? ==> translation == Lookup(langDict, enDict, key)
    ensures replacements.Some? ==> translation == Translated(Lookup(langDict, enDict, key), replacements.value)
  {
    translation := Lookup(langDict, enDict, key);
    if replacements.Some? {
      var reps := replacements.value;
      for i := 0 to |reps|
        invariant translation == Translated(Lookup(langDict, enDict, key), reps[..i])
      {
        assert reps[..i + 1][..i] == reps[..i];
        translation := ReplaceFirst(translation, Placeholder(reps[i].name), reps[i].value);
      }
      assert reps[..|reps|] == reps;
    }
  }

  /** Applying replacements one list after another is applying the joined list: a later
      replacement works on the text the earlier ones produced. */
  lemma {:induction false} TranslatedAppend(text: string, a: seq<Replacement>, b: seq<Replacement>)
    ensures Translated(text, a + b) == Translated(Translated(text, a), b)
    decreases |b|
  {
    if b == [] {
      assert a + b == a;
    } else {
      assert (a + b)[..|a + b| - 1] == a + b[..|b| - 1];
      TranslatedAppend(text, a, b[..|b| - 1]);
    }
  }

  /** A placeholder occurring once with a `$`-free value is replaced by the value. */
  lemma TranslatedOne(before: string, name: string, value: string, after: string)
    requires '$' !in value
    requires forall k :: 0 <= k < |before| ==> !Occurs(before + Placeholder(name) + after, Placeholder(name), k)
    ensures Translated(before + Placeholder(name) + after, [Replacement(name, value)]) == before + value + after
  {
    var p := Placeholder(name);
    var s := before + p + after;
    assert [Replacement(name, value)][..0] == [];
    assert s[|before|..|before| + |p|] == p;
    FindAt(s, p, 0, |before|);
    ReplaceFirstLiteral(s, p, value);
    assert s[..|before|] == before;
    assert s[|before| + |p|..] == after;
  }
}
