/** String helpers shared by the whole model: JavaScript's white space and trimming,
    character runs (the building block of the hand-written regular-expression matchers),
    decimal numerals as JavaScript prints integers, and ASCII upper-casing. */
module Text {

  /** The characters that `String.prototype.trim` removes and that the regular-expression
      class `\s` matches: WhiteSpace and LineTerminator of ECMAScript. */
  predicate IsWhitespace(c: char) {
    if c < '\U{00A0}' then
      c == ' ' || '\t' <= c <= '\r'  // tab, line feed, vertical tab, form feed, carriage return
    else
      || c == '\U{00A0}' || c == '\U{1680}' || '\U{2000}' <= c <= '\U{200A}'
      || c == '\U{2028}' || c == '\U{2029}' || c == '\U{202F}' || c == '\U{205F}'
      || c == '\U{3000}' || c == '\U{FEFF}'
  }

  /** The class `[A-Z]`. */
  predicate IsUpper(c: char) { 'A' <= c <= 'Z' }

  /** The class `\d`, which is ASCII-only in JavaScript. */
  predicate IsDigit(c: char) { '0' <= c <= '9' }

  /** The class `[A-Z0-9]`. */
  predicate IsUpperOrDigit(c: char) { IsUpper(c) || IsDigit(c) }

  predicate AllWhitespace(s: string) { forall i :: 0 <= i < |s| ==> IsWhitespace(s[i]) }

  predicate AllDigits(s: string) { forall i :: 0 <= i < |s| ==> IsDigit(s[i]) }

  /** The end of the run of white space that starts at index `i`. */
  function WhitespaceRunEnd(s: string, i: nat): (j: nat)
    requires i <= |s|
    ensures i <= j <= |s|
    ensures forall k :: i <= k < j ==> IsWhitespace(s[k])
    ensures j == |s| || !IsWhitespace(s[j])
    decreases |s| - i
  {
    if i < |s| && IsWhitespace(s[i]) then WhitespaceRunEnd(s, i + 1) else i
  }

  /** A run of white space that starts inside the right part of a concatenation stays there. */
  lemma {:induction false} WhitespaceRunEndAfter(a: string, b: string, i: nat)
    requires i <= |b|
    ensures WhitespaceRunEnd(a + b, |a| + i) == |a| + WhitespaceRunEnd(b, i)
    decreases |b| - i
  {
    if i < |b| {
      assert (a + b)[|a| + i] == b[i];
      if IsWhitespace(b[i]) {
        WhitespaceRunEndAfter(a, b, i + 1);
      }
    }
  }

  /** The start of the run of white space that ends just before index `j`. */
  function WhitespaceRunStart(s: string, j: nat): (i: nat)
    requires j <= |s|
    ensures i <= j
    ensures forall k :: i <= k < j ==> IsWhitespace(s[k])
    ensures i == 0 || !IsWhitespace(s[i - 1])
  {
    if j > 0 && IsWhitespace(s[j - 1]) then WhitespaceRunStart(s, j - 1) else j
  }

  /** `s.trimStart()`: the suffix left once the leading white space is gone. */
  function TrimStart(s: string): (r: string)
    ensures |r| <= |s| && r == s[|s| - |r|..]
    ensures forall i :: 0 <= i < |s| - |r| ==> IsWhitespace(s[i])
    ensures r == [] || !IsWhitespace(r[0])
  {
    s[WhitespaceRunEnd(s, 0)..]
  }

  /** `s.trimEnd()`: the prefix left once the trailing white space is gone. */
  function TrimEnd(s: string): (r: string)
    ensures |r| <= |s| && r == s[..|r|]
    ensures forall i :: |r| <= i < |s| ==> IsWhitespace(s[i])
    ensures r == [] || !IsWhitespace(r[|r| - 1])
  {
    s[..WhitespaceRunStart(s, |s|)]
  }

  /** `s.trim()`. */
  function Trim(s: string): string {
    TrimEnd(TrimStart(s))
  }

  /** TrimStart is determined by where the first non-white-space character is. */
  lemma TrimStartAt(s: string, k: nat)
    requires k <= |s| && (forall i :: 0 <= i < k ==> IsWhitespace(s[i]))
    requires k == |s| || !IsWhitespace(s[k])
    ensures TrimStart(s) == s[k..]
  {
    var j := |s| - |TrimStart(s)|;
    assert j < |s| ==> !IsWhitespace(s[j]);
  }

  /** TrimEnd is determined by where the last non-white-space character is. */
  lemma TrimEndAt(s: string, k: nat)
    requires k <= |s| && (forall i :: k <= i < |s| ==> IsWhitespace(s[i]))
    requires k == 0 || !IsWhitespace(s[k - 1])
    ensures TrimEnd(s) == s[..k]
  {
    var j := |TrimEnd(s)|;
    assert j > 0 ==> !IsWhitespace(s[j - 1]);
  }

  lemma TrimEndOfBlank(s: string)
    requires TrimStart(s) == []
    ensures TrimStart(TrimEnd(s)) == []
  {
    TrimEndAt(s, 0);
  }

  lemma TrimStartOfPrefix(s: string, k: nat, e: nat)
    requires k < e <= |s| && (forall i :: 0 <= i < k ==> IsWhitespace(s[i])) && !IsWhitespace(s[k])
    ensures TrimStart(s[..e]) == s[k..e]
  {
    var p := s[..e];
    assert forall i :: 0 <= i < e ==> p[i] == s[i];
    TrimStartAt(p, k);
  }

  lemma TrimEndOfSuffix(s: string, k: nat, e: nat)
    requires k < e <= |s| && (forall i :: e <= i < |s| ==> IsWhitespace(s[i])) && !IsWhitespace(s[e - 1])
    ensures TrimEnd(s[k..]) == s[k..e]
  {
    var q := s[k..];
    assert forall i :: 0 <= i < |q| ==> q[i] == s[k + i];
    TrimEndAt(q, e - k);
  }

  lemma TrimEndOfNonBlank(s: string)
    requires TrimStart(s) != []
    ensures TrimStart(TrimEnd(s)) == TrimEnd(TrimStart(s))
  {
    var k := |s| - |TrimStart(s)|;
    var e := |TrimEnd(s)|;
    assert !IsWhitespace(s[k]);
    assert k < e;
    TrimStartOfPrefix(s, k, e);
    TrimEndOfSuffix(s, k, e);
  }

  /** A string that neither starts nor ends with white space is left as it is. */
  lemma TrimUnpadded(s: string)
    requires s != [] && !IsWhitespace(s[0]) && !IsWhitespace(s[|s| - 1])
    ensures Trim(s) == s
  {
    assert TrimStart(s) == s by { TrimStartAt(s, 0); }
    assert TrimEnd(s) == s by { TrimEndAt(s, |s|); }
  }

  /** Trimming keeps a contiguous part of the input. */
  lemma TrimKeepsChars(s: string)
    ensures forall c :: c in Trim(s) ==> c in s
  {
    var a := TrimStart(s);
    var t := Trim(s);
    assert forall k :: 0 <= k < |t| ==> t[k] == a[k] == s[|s| - |a| + k];
  }

  /** A trimmed string neither starts nor ends with white space. */
  lemma TrimEnds(s: string)
    ensures Trim(s) == [] || (!IsWhitespace(Trim(s)[0]) && !IsWhitespace(Trim(s)[|Trim(s)| - 1]))
  {
    var a := TrimStart(s);
    var t := Trim(s);
    if t != [] {
      assert t[0] == a[0];
    }
  }

  /** The order in which the two ends are trimmed does not matter. */
  lemma TrimEndsCommute(s: string)
    ensures TrimStart(TrimEnd(s)) == TrimEnd(TrimStart(s))
  {
    if TrimStart(s) == [] {
      TrimEndOfBlank(s);
    } else {
      TrimEndOfNonBlank(s);
    }
  }

  lemma TrimStartIdempotent(s: string)
    ensures TrimStart(TrimStart(s)) == TrimStart(s)
  {
    TrimStartAt(TrimStart(s), 0);
  }

  lemma TrimEndIdempotent(s: string)
    ensures TrimEnd(TrimEnd(s)) == TrimEnd(s)
  {
    var t := TrimEnd(s);
    TrimEndAt(t, |t|);
  }

  /** Trimming is idempotent: `s.trim().trim() === s.trim()`. */
  lemma TrimIdempotent(s: string)
    ensures Trim(Trim(s)) == Trim(s)
  {
    var a := TrimStart(s);
    TrimEndsCommute(a);
    TrimStartIdempotent(s);
    TrimEndIdempotent(a);
  }

  /** Trimming one end first does not change the result of trimming both. */
  lemma TrimAfterOneEnd(s: string)
    ensures Trim(TrimStart(s)) == Trim(s)
    ensures Trim(TrimEnd(s)) == Trim(s)
  {
    TrimStartIdempotent(s);
    TrimEndsCommute(s);
    TrimEndIdempotent(TrimStart(s));
  }

  /** A trimmed string is empty exactly when the input was all white space. */
  lemma TrimEmptyIff(s: string)
    ensures Trim(s) == [] <==> AllWhitespace(s)
  {
    var a := TrimStart(s);
    if Trim(s) != [] {
      var t := Trim(s);
      assert t[0] == a[0] == s[|s| - |a|];
    }
  }

  /** Trimming the end leaves nothing exactly when the input was all white space. */
  lemma TrimEndEmptyIff(s: string)
    ensures TrimEnd(s) == [] <==> AllWhitespace(s)
  {
    var r := TrimEnd(s);
    if r != [] {
      assert r[|r| - 1] == s[|r| - 1];
    }
  }

  /** Leading white space added in front of a string is trimmed away. */
  lemma TrimStartPrepend(w: string, s: string)
    requires AllWhitespace(w)
    ensures TrimStart(w + s) == TrimStart(s)
  {
    var r := TrimStart(s);
    var k := |w| + (|s| - |r|);
    forall i | 0 <= i < k ensures IsWhitespace((w + s)[i]) {
      if i >= |w| { assert (w + s)[i] == s[i - |w|]; }
    }
    if k < |w + s| { assert (w + s)[k] == r[0]; }
    TrimStartAt(w + s, k);
    assert (w + s)[k..] == r;
  }

  /** `TrimEnd` of a concatenation: the left part is only trimmed when the right part is all white space. */
  lemma TrimEndAppend(a: string, b: string)
    ensures TrimEnd(a + b) == if TrimEnd(b) == [] then TrimEnd(a) else a + TrimEnd(b)
  {
    var s := a + b;
    var tb := TrimEnd(b);
    if tb == [] {
      var ta := TrimEnd(a);
      forall i | |ta| <= i < |s| ensures IsWhitespace(s[i]) {
        if i >= |a| { assert s[i] == b[i - |a|]; } else { assert s[i] == a[i]; }
      }
      if |ta| > 0 { assert s[|ta| - 1] == a[|ta| - 1]; }
      TrimEndAt(s, |ta|);
      assert s[..|ta|] == ta;
    } else {
      var k := |a| + |tb|;
      forall i | k <= i < |s| ensures IsWhitespace(s[i]) {
        assert s[i] == b[i - |a|];
      }
      assert s[k - 1] == b[|tb| - 1];
      TrimEndAt(s, k);
      assert s[..k] == a + tb;
    }
  }

  /** The end of the longest run of characters satisfying `p` that starts at index `i`:
      how a greedy `p+` or `p*` in a regular expression consumes its input. */
  function RunEnd(s: string, i: nat, p: char -> bool): (j: nat)
    requires i <= |s|
    ensures i <= j <= |s|
    ensures forall k :: i <= k < j ==> p(s[k])
    ensures j == |s| || !p(s[j])
    decreases |s| - i
  {
    if i < |s| && p(s[i]) then RunEnd(s, i + 1, p) else i
  }

  /** A run is determined by where it stops. */
  lemma RunEndAt(s: string, i: nat, p: char -> bool, j: nat)
    requires i <= j <= |s|
    requires forall k :: i <= k < j ==> p(s[k])
    requires j == |s| || !p(s[j])
    ensures RunEnd(s, i, p) == j
  {
    var r := RunEnd(s, i, p);
    assert r < |s| ==> !p(s[r]);
    assert j < |s| ==> !p(s[j]);
  }

  /** A run over a concatenation either stops inside the left part or continues into the right one. */
  lemma RunEndAppend(s: string, t: string, i: nat, p: char -> bool)
    requires i <= |s|
    ensures RunEnd(s + t, i, p) == if RunEnd(s, i, p) < |s| then RunEnd(s, i, p) else |s| + RunEnd(t, 0, p)
  {
    var st := s + t;
    var r := RunEnd(s, i, p);
    if r < |s| {
      assert st[r] == s[r];
      RunEndAt(st, i, p, r);
    } else {
      var q := RunEnd(t, 0, p);
      forall k | i <= k < |s| + q ensures p(st[k]) {
        if k < |s| { assert st[k] == s[k]; } else { assert st[k] == t[k - |s|]; }
      }
      if |s| + q < |st| { assert st[|s| + q] == t[q]; }
      RunEndAt(st, i, p, |s| + q);
    }
  }

  /** Index of the first occurrence of `c`, or `|s|` when there is none. */
  function IndexOf(s: string, c: char): (k: nat)
    ensures k <= |s|
    ensures k < |s| ==> s[k] == c
    ensures forall i :: 0 <= i < k ==> s[i] != c
  {
    if s == [] then 0 else if s[0] == c then 0 else 1 + IndexOf(s[1..], c)
  }

  /** The first occurrence is determined by where it is. */
  lemma IndexOfAt(s: string, c: char, k: nat)
    requires k <= |s|
    requires forall i :: 0 <= i < k ==> s[i] != c
    requires k == |s| || s[k] == c
    ensures IndexOf(s, c) == k
  {
    var r := IndexOf(s, c);
    assert r < |s| ==> s[r] == c;
    assert k < |s| ==> s[k] == c;
  }

  /** The first `c` of `a + [c] + b` is the one after `a` when `a` has none. */
  lemma IndexOfJoined(a: string, c: char, b: string)
    requires c !in a
    ensures IndexOf(a + [c] + b, c) == |a|
  {
    var s := a + [c] + b;
    assert forall i :: 0 <= i < |a| ==> s[i] == a[i];
    IndexOfAt(s, c, |a|);
  }

  lemma IndexOfAbsent(s: string, c: char)
    requires c !in s
    ensures IndexOf(s, c) == |s|
  {
    IndexOfAt(s, c, |s|);
  }

  /** Number of occurrences of `c` in `s`. */
  function Count(s: string, c: char): nat {
    if s == [] then 0 else Count(s[..|s| - 1], c) + (if s[|s| - 1] == c then 1 else 0)
  }

  lemma {:induction false} CountAppend(a: string, b: string, c: char)
    ensures Count(a + b, c) == Count(a, c) + Count(b, c)
    decreases |b|
  {
    if b == [] {
      assert a + b == a;
    } else {
      assert (a + b)[..|a + b| - 1] == a + b[..|b| - 1];
      CountAppend(a, b[..|b| - 1], c);
    }
  }

  lemma {:induction false} CountAbsent(s: string, c: char)
    ensures Count(s, c) == 0 <==> c !in s
  {
    if s != [] {
      var init := s[..|s| - 1];
      CountAbsent(init, c);
      assert s == init + [s[|s| - 1]];
      assert c in s <==> c in init || s[|s| - 1] == c;
    }
  }

  /** One occurrence of `c` after a stretch without it. */
  lemma CountAfter(a: string, c: char, b: string)
    requires c !in a
    ensures Count(a + [c] + b, c) == 1 + Count(b, c)
  {
    CountAppend(a + [c], b, c);
    CountAppend(a, [c], c);
    CountAbsent(a, c);
    assert [c][..0] == [];
  }

  /** ASCII part of `toUpperCase`: `a`..`z` become `A`..`Z`, everything else is kept. */
  function UpperChar(c: char): char {
    if 'a' <= c <= 'z' then (c as int - 'a' as int + 'A' as int) as char else c
  }

  function ToUpper(s: string): (r: string)
    ensures |r| == |s| && forall i :: 0 <= i < |s| ==> r[i] == UpperChar(s[i])
  {
    if s == [] then [] else [UpperChar(s[0])] + ToUpper(s[1..])
  }

  function DigitChar(d: nat): (c: char)
    requires d < 10
    ensures IsDigit(c)
  {
    ('0' as int + d) as char
  }

  /** `${n}` for a non-negative integer: its decimal numeral, without leading zeros. */
  function NatToString(n: nat): (r: string)
    ensures r != [] && AllDigits(r)
    ensures n > 0 ==> r[0] != '0'
    decreases n
  {
    if n < 10 then [DigitChar(n)] else NatToString(n / 10) + [DigitChar(n % 10)]
  }

  /** The value of a decimal numeral. */
  function DigitsValue(s: string): nat
    requires AllDigits(s)
  {
    if s == [] then 0 else DigitsValue(s[..|s| - 1]) * 10 + (s[|s| - 1] as int - '0' as int)
  }

  /** Reading back a printed numeral gives the number. */
  lemma {:induction false} NatToStringRoundTrip(n: nat)
    ensures DigitsValue(NatToString(n)) == n
    decreases n
  {
    if n >= 10 {
      NatToStringRoundTrip(n / 10);
      var s := NatToString(n);
      assert s[..|s| - 1] == NatToString(n / 10);
    }
  }
}
