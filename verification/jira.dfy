/** The local parts of the issue-tracker client: the work-log duration format, the
    issue-key check made before logging, and the search query built from a typed term. */
module Jira {
  import opened Text
  import opened Types

  // ---------------------------------------------------------------------------
  // Durations

  /** `formatSecondsForJira`: `"<H>h <M>m"` with empty parts left out, at least one minute. */
  function FormatSecondsForJira(totalSeconds: int): (r: string)
    ensures totalSeconds >= 60 ==> r == DurationText(totalSeconds / 3600, (totalSeconds % 3600) / 60)
  {
    if totalSeconds < 60 then "1m"
    else
      var hours, minutes := totalSeconds / 3600, (totalSeconds % 3600) / 60;
      assert hours > 0 || minutes > 0 by { DurationPartsBounds(totalSeconds); }
      TrimDurationParts(hours, minutes);
      Trim(JoinDurationParts(hours, minutes))
  }

  /** The untrimmed `timeString`: `"<H>h "` when there are hours, then `"<M>m"` when there are minutes. */
  function JoinDurationParts(hours: nat, minutes: nat): string {
    (if hours > 0 then NatToString(hours) + "h " else "")
    + (if minutes > 0 then NatToString(minutes) + "m" else "")
  }

  /** The duration text of `h` hours and `m` minutes, at least one of them positive. */
  function DurationText(h: nat, m: nat): string {
    if h > 0 && m > 0 then NatToString(h) + "h " + NatToString(m) + "m"
    else if h > 0 then NatToString(h) + "h"
    else NatToString(m) + "m"
  }

  /** Trimming removes only the space left after the hours when there are no minutes. */
  lemma TrimDurationParts(h: nat, m: nat)
    requires h > 0 || m > 0
    ensures Trim(JoinDurationParts(h, m)) == DurationText(h, m)
  {
    var x := JoinDurationParts(h, m);
    if h > 0 && m > 0 {
      var hs, ms := NatToString(h), NatToString(m);
      assert x == hs + (['h', ' '] + ms + ['m']);
      assert x == DurationText(h, m);
      assert x[0] == hs[0] && IsDigit(hs[0]);
      TrimUnpadded(x);
    } else if h > 0 {
      var hs := NatToString(h);
      var d := hs + ['h'];
      assert x == d + [' '];
      assert d[0] == hs[0] && IsDigit(hs[0]);
      TrimUnpadded(d);
      TrimEndAppend(d, [' ']);
      assert TrimEnd([' ']) == [];
      TrimStartAt(x, 0);
    } else {
      var ms := NatToString(m);
      assert x == ms + ['m'];
      assert x[0] == ms[0] && IsDigit(ms[0]);
      TrimUnpadded(x);
    }
  }

  /** From a minute on, there are fewer than 60 leftover minutes and at least one non-empty part. */
  lemma DurationPartsBounds(s: int)
    requires s >= 60
    ensures var h, m := s / 3600, (s % 3600) / 60; m < 60 && (h > 0 || m > 0)
  {
  }

  /** The value of a non-empty numeral, `None` when it has a non-digit. */
  function NumeralValue(s: string): Option<nat> {
    if s == [] || !IsDigit(s[|s| - 1]) then None
    else
      var d := s[|s| - 1] as int - '0' as int;
      if |s| == 1 then Some(d)
      else match NumeralValue(s[..|s| - 1])
        case Some(v) => Some(v * 10 + d)
        case None => None
  }

  lemma {:induction false} NumeralValueOf(n: nat)
    ensures NumeralValue(NatToString(n)) == Some(n)
    decreases n
  {
    if n >= 10 {
      NumeralValueOf(n / 10);
      var s := NatToString(n);
      assert s[..|s| - 1] == NatToString(n / 10);
    }
  }

  /** How the tracker reads one part of a duration: `<digits>h` or `<digits>m`, in seconds. */
  function ParseDurationPart(part: string): Option<nat> {
    if |part| < 2 then None
    else match NumeralValue(part[..|part| - 1])
      case None => None
      case Some(amount) =>
        if part[|part| - 1] == 'h' then Some(amount * 3600)
        else if part[|part| - 1] == 'm' then Some(amount * 60)
        else None
  }

  /** How the tracker reads a duration of one part or of two parts separated by a space. */
  function ParseJiraDuration(text: string): Option<nat> {
    var i := IndexOf(text, ' ');
    if i == |text| then ParseDurationPart(text)
    else
      match (ParseDurationPart(text[..i]), ParseDurationPart(text[i + 1..]))
      case (Some(a), Some(b)) => Some(a + b)
      case _ => None
  }

  lemma ParsePartOf(n: nat, unit: char)
    requires unit == 'h' || unit == 'm'
    ensures ParseDurationPart(NatToString(n) + [unit]) == Some(n * (if unit == 'h' then 3600 else 60))
  {
    var part := NatToString(n) + [unit];
    assert part[..|part| - 1] == NatToString(n);
    NumeralValueOf(n);
  }

  lemma WholeMinutes(s: int)
    requires s >= 0
    ensures s - s % 60 == (s / 3600) * 3600 + ((s % 3600) / 60) * 60
  {
    var h, r := s / 3600, s % 3600;
    var m, q := r / 60, r % 60;
    assert s == 60 * (60 * h + m) + q;
  }

  /** A part of digits and a unit contains no space. */
  lemma NoSpaceInPart(n: nat, unit: char)
    requires unit != ' '
    ensures ' ' !in NatToString(n) + [unit]
  {
    var ns := NatToString(n);
    forall k | 0 <= k < |ns| + 1 ensures (ns + [unit])[k] != ' ' {
      if k < |ns| { assert IsDigit(ns[k]); }
    }
  }

  /** Two parts joined by a space are read part by part. */
  lemma ParseJoined(a: string, b: string, x: nat, y: nat)
    requires ' ' !in a && ParseDurationPart(a) == Some(x) && ParseDurationPart(b) == Some(y)
    ensures ParseJiraDuration(a + [' '] + b) == Some(x + y)
  {
    var t := a + [' '] + b;
    IndexOfJoined(a, ' ', b);
    assert t[..|a|] == a;
    assert t[|a| + 1..] == b;
  }

  lemma ParseTwoParts(h: nat, m: nat)
    ensures ParseJiraDuration(NatToString(h) + "h " + NatToString(m) + "m") == Some(h * 3600 + m * 60)
  {
    var hp, mp := NatToString(h) + ['h'], NatToString(m) + ['m'];
    NoSpaceInPart(h, 'h');
    ParsePartOf(h, 'h');
    ParsePartOf(m, 'm');
    ParseJoined(hp, mp, h * 3600, m * 60);
    TwoPartsText(NatToString(h), NatToString(m));
  }

  lemma TwoPartsText(hs: string, ms: string)
    ensures hs + "h " + ms + "m" == (hs + ['h']) + [' '] + (ms + ['m'])
  {
  }

  lemma ParseOnePart(n: nat, unit: char)
    requires unit == 'h' || unit == 'm'
    ensures ParseJiraDuration(NatToString(n) + [unit]) == Some(n * (if unit == 'h' then 3600 else 60))
  {
    NoSpaceInPart(n, unit);
    IndexOfAbsent(NatToString(n) + [unit], ' ');
    ParsePartOf(n, unit);
  }

  lemma ParseDurationText(h: nat, m: nat)
    requires h > 0 || m > 0
    ensures ParseJiraDuration(DurationText(h, m)) == Some(h * 3600 + m * 60)
  {
    if h > 0 && m > 0 {
      ParseTwoParts(h, m);
    } else if h > 0 {
      assert DurationText(h, m) == NatToString(h) + ['h'];
      ParseOnePart(h, 'h');
    } else {
      assert DurationText(h, m) == NatToString(m) + ['m'];
      ParseOnePart(m, 'm');
    }
  }

  /** A formatted duration is the text of some hours and fewer than 60 minutes that add up to
      the whole minutes of the input, or to one minute for anything shorter than a minute. */
  lemma FormatIsWholeMinutes(s: int)
    ensures exists h: nat, m: nat :: && m < 60 && (h > 0 || m > 0)
                                     && FormatSecondsForJira(s) == DurationText(h, m)
                                     && h * 3600 + m * 60 == WholeMinuteSeconds(s)
  {
    if s < 60 {
      assert FormatSecondsForJira(s) == DurationText(0, 1);
    } else {
      var h, m := s / 3600, (s % 3600) / 60;
      DurationPartsBounds(s);
      WholeMinutes(s);
      assert FormatSecondsForJira(s) == DurationText(h, m);
    }
  }

  /** What the tracker records for a formatted duration: the whole minutes of the input,
      and one minute for anything shorter than a minute (zero and negative included). */
  lemma {:induction false} FormatParsesBack(s: int)
    ensures ParseJiraDuration(FormatSecondsForJira(s)) == Some(WholeMinuteSeconds(s))
  {
    FormatIsWholeMinutes(s);
    var h: nat, m: nat :| && m < 60 && (h > 0 || m > 0) && FormatSecondsForJira(s) == DurationText(h, m)
                          && h * 3600 + m * 60 == WholeMinuteSeconds(s);
    TextParsesAs(FormatSecondsForJira(s), h, m, WholeMinuteSeconds(s));
  }

  function WholeMinuteSeconds(s: int): nat {
    if s < 60 then 60 else s - s % 60
  }

  lemma TextParsesAs(x: string, h: nat, m: nat, w: nat)
    requires (h > 0 || m > 0) && x == DurationText(h, m) && w == h * 3600 + m * 60
    ensures ParseJiraDuration(x) == Some(w)
  {
    ParseDurationText(h, m);
  }

  // ---------------------------------------------------------------------------
  // Issue keys

  /** Where a match of `[A-Z][A-Z0-9]+-\d+` anchored at the start of `s` ends, or 0 when there
      is none. The runs are greedy; backtracking cannot find another match, because the
      `[A-Z0-9]+` run must be followed by `-`, which it cannot contain, and whatever follows
      `\d+` in the two patterns that use it (`$`, or `:?\s*`) accepts the longest run. */
  function KeyMatchEnd(s: string): (n: nat)
    ensures n <= |s|
  {
    if s == [] || !IsUpper(s[0]) then 0
    else
      var i := RunEnd(s, 1, IsUpperOrDigit);
      if i < 2 || i == |s| || s[i] != '-' then 0
      else
        var j := RunEnd(s, i + 1, IsDigit);
        if j == i + 1 then 0 else j
  }

  /** `/^[A-Z][A-Z0-9]+-\d+$/.test(s)`, the validation in `logWorkToJira`. */
  predicate IsValidIssueKey(s: string) {
    s != [] && KeyMatchEnd(s) == |s|
  }

  /** The same key format read declaratively: split at the first `-`, a capital letter and at
      least one more capital or digit before it, and at least one digit and nothing else after it. */
  predicate KeyShape(s: string) {
    var i := IndexOf(s, '-');
    && 2 <= i < |s| - 1
    && IsUpper(s[0])
    && (forall k :: 1 <= k < i ==> IsUpperOrDigit(s[k]))
    && AllDigits(s[i + 1..])
  }

  /** The hand-written matcher accepts exactly the strings of the key format. */
  lemma IssueKeyMatcherCorrect(s: string)
    ensures IsValidIssueKey(s) <==> KeyShape(s)
  {
    if KeyShape(s) {
      var i := IndexOf(s, '-');
      RunEndAt(s, 1, IsUpperOrDigit, i);
      assert forall k :: i + 1 <= k < |s| ==> IsDigit(s[k]) by {
        forall k | i + 1 <= k < |s| ensures IsDigit(s[k]) {
          assert s[k] == s[i + 1..][k - i - 1];
        }
      }
      RunEndAt(s, i + 1, IsDigit, |s|);
    }
    if IsValidIssueKey(s) {
      var i := RunEnd(s, 1, IsUpperOrDigit);
      assert forall k :: 0 <= k < i ==> s[k] != '-' by {
        forall k | 0 <= k < i ensures s[k] != '-' {
          if k > 0 { assert IsUpperOrDigit(s[k]); }
        }
      }
      assert IndexOf(s, '-') == i;
      assert RunEnd(s, i + 1, IsDigit) == |s|;
      var digits := s[i + 1..];
      assert forall k :: 0 <= k < |digits| ==> digits[k] == s[i + 1 + k];
    }
  }

  /** A key matched at the start of a longer text is itself a valid key. */
  lemma MatchedKeyIsValid(s: string)
    requires KeyMatchEnd(s) > 0
    ensures IsValidIssueKey(s[..KeyMatchEnd(s)])
  {
    var n := KeyMatchEnd(s);
    var key := s[..n];
    assert s == key + s[n..];
    var i := RunEnd(s, 1, IsUpperOrDigit);
    RunEndAppend(key, s[n..], 1, IsUpperOrDigit);
    RunEndAppend(key, s[n..], i + 1, IsDigit);
    assert key[i] == s[i];
  }

  /** A valid key followed by a non-digit (or nothing) is matched exactly. */
  lemma KeyMatchEndOfKey(key: string, rest: string)
    requires IsValidIssueKey(key)
    requires rest == [] || !IsDigit(rest[0])
    ensures KeyMatchEnd(key + rest) == |key|
  {
    var s := key + rest;
    var i := RunEnd(key, 1, IsUpperOrDigit);
    RunEndAppend(key, rest, 1, IsUpperOrDigit);
    RunEndAppend(key, rest, i + 1, IsDigit);
    assert s[0] == key[0] && s[i] == key[i];
    assert RunEnd(rest, 0, IsDigit) == 0;
  }

  // ---------------------------------------------------------------------------
  // Work log

  /** The request `logWorkToJira` sends: the issue's work-log path, the formatted duration
      and the comment text (the local time is a parameter). */
  datatype WorklogRequest = WorklogRequest(path: string, timeSpent: string, comment: string)

  /** `logWorkToJira` up to the network call: an invalid key throws before any request. */
  function LogWorkRequest(issueKey: string, timeSpentSeconds: int, localTime: string): (r: Result<WorklogRequest>)
    ensures r.Success? <==> IsValidIssueKey(issueKey)
    ensures r.Success? ==> ParseJiraDuration(r.value.timeSpent)
                           == Some(if timeSpentSeconds < 60 then 60 else timeSpentSeconds - timeSpentSeconds % 60)
  {
    if !IsValidIssueKey(issueKey) then Failure("Invalid Jira issue key format")
    else
      FormatParsesBack(timeSpentSeconds);
      Success(WorklogRequest("issue/" + issueKey + "/worklog", FormatSecondsForJira(timeSpentSeconds),
                             "Time logged from taime app on " + localTime))
  }

  // ---------------------------------------------------------------------------
  // Search

  predicate IsJqlSpecial(c: char) { c == '\'' || c == '"' || c == ';' }

  /** `s.replace(/['";]/g, '')`. */
  function RemoveJqlSpecials(s: string): (r: string)
    ensures forall c :: c in r ==> c in s && !IsJqlSpecial(c)
    ensures forall c :: c in s && !IsJqlSpecial(c) ==> c in r
  {
    if s == [] then []
    else (if IsJqlSpecial(s[0]) then [] else [s[0]]) + RemoveJqlSpecials(s[1..])
  }

  /** The search term after sanitising: specials removed, then trimmed. */
  function SanitizeSearchTerm(term: string): string {
    Trim(RemoveJqlSpecials(term))
  }

  /** The body `searchJiraIssues` posts to the search endpoint. */
  datatype SearchBody = SearchBody(jql: string, maxResults: nat, fields: seq<string>)

  /** The text clause: the term as a prefix of the summary or the description, or as the key. */
  function SearchClause(t: string): string {
    "(summary ~ " + Quoted(t + "*") + " OR description ~ " + Quoted(t + "*") + " OR key = " + Quoted(ToUpper(t)) + ")"
  }

  /** A JQL string literal: `s` between double quotes. */
  function Quoted(s: string): string {
    "\"" + s + "\""
  }

  /** A quoted text without quotes of its own has exactly the two delimiting ones. */
  lemma QuotedCount(s: string)
    requires '"' !in s
    ensures Count(Quoted(s), '"') == 2
  {
    CountAfter([], '"', s + "\"");
    assert Quoted(s) == [] + "\"" + (s + "\"");
    CountAfter(s, '"', []);
    assert s + "\"" == s + "\"" + [];
  }

  /** The project filter, present when a project key is configured and not empty (an empty
      string is falsy). */
  function ProjectFilter(projectKey: Option<string>): string {
    if projectKey.Some? && projectKey.value != [] then "project = '" + ToUpper(projectKey.value) + "' AND "
    else ""
  }

  const JqlOrder := " ORDER BY updated DESC"

  /** `searchJiraIssues` up to the network call: `None` when nothing is left of the term
      (it returns `[]` without a request), otherwise the request body. */
  function SearchRequest(config: JiraConfig, searchTerm: string): Option<SearchBody> {
    var t := SanitizeSearchTerm(searchTerm);
    if t == [] then None
    else Some(SearchBody(ProjectFilter(config.projectKey) + SearchClause(t) + JqlOrder, 10,
                         ["summary", "key", "issuetype", "status"]))
  }

  /** Sanitising leaves no quote or semicolon and no white space at either end, and doing it again changes nothing. */
  lemma SanitizeProperties(term: string)
    ensures var t := SanitizeSearchTerm(term);
      && (forall c :: c in t ==> !IsJqlSpecial(c))
      && (t == [] || (!IsWhitespace(t[0]) && !IsWhitespace(t[|t| - 1])))
      && SanitizeSearchTerm(t) == t
  {
    var r := RemoveJqlSpecials(term);
    var t := Trim(r);
    TrimKeepsChars(r);
    TrimEnds(r);
    RemoveSpecialsIdentity(t);
    TrimIdempotent(r);
  }

  lemma {:induction false} RemoveSpecialsIdentity(s: string)
    requires forall c :: c in s ==> !IsJqlSpecial(c)
    ensures RemoveJqlSpecials(s) == s
  {
    if s != [] {
      assert s[0] in s;
      assert forall c :: c in s[1..] ==> c in s;
      RemoveSpecialsIdentity(s[1..]);
      assert [s[0]] + s[1..] == s;
    }
  }

  /** Upper-casing brings in no character that is not a letter. */
  lemma UpperKeepsAbsent(s: string, c: char)
    requires c !in s && !('a' <= c <= 'z') && !('A' <= c <= 'Z')
    ensures c !in ToUpper(s)
  {
    var u := ToUpper(s);
    forall k | 0 <= k < |u| ensures u[k] != c {
      assert u[k] == UpperChar(s[k]);
    }
  }

  /** The text clause has the six double quotes of its three string literals and no
      semicolon when the term has none of either. */
  lemma SearchClauseQuotes(t: string)
    requires '"' !in t && ';' !in t
    ensures Count(SearchClause(t), '"') == 6 && ';' !in SearchClause(t)
  {
    var ut := ToUpper(t);
    UpperKeepsAbsent(t, '"');
    UpperKeepsAbsent(t, ';');
    ClauseCounts(t, '"');
    ClauseCounts(t, ';');
    LiteralCounts();
    QuotedCount(t + "*");
    QuotedCount(ut);
    CountAbsent(Quoted(t + "*"), ';');
    CountAbsent(Quoted(ut), ';');
    CountAbsent(SearchClause(t), ';');
  }

  /** The occurrences of `ch` in the text clause, piece by piece. */
  lemma ClauseCounts(t: string, ch: char)
    ensures Count(SearchClause(t), ch) ==
      Count("(summary ~ ", ch) + 2 * Count(Quoted(t + "*"), ch) + Count(" OR description ~ ", ch)
      + Count(" OR key = ", ch) + Count(Quoted(ToUpper(t)), ch) + Count(")", ch)
  {
    var a, b, c, d := "(summary ~ ", " OR description ~ ", " OR key = ", ")";
    var qt, qu := Quoted(t + "*"), Quoted(ToUpper(t));
    CountAppend(a, qt, ch);
    CountAppend(a + qt, b, ch);
    CountAppend(a + qt + b, qt, ch);
    CountAppend(a + qt + b + qt, c, ch);
    CountAppend(a + qt + b + qt + c, qu, ch);
    CountAppend(a + qt + b + qt + c + qu, d, ch);
  }

  /** The fixed pieces of the text clause have no double quote and no semicolon. */
  lemma LiteralCounts()
    ensures Count("(summary ~ ", '"') == 0 && Count("(summary ~ ", ';') == 0
    ensures Count(" OR description ~ ", '"') == 0 && Count(" OR description ~ ", ';') == 0
    ensures Count(" OR key = ", '"') == 0 && Count(" OR key = ", ';') == 0
    ensures Count(")", '"') == 0 && Count(")", ';') == 0
  {
    CountAbsent("(summary ~ ", '"');
    CountAbsent("(summary ~ ", ';');
    CountAbsent(" OR description ~ ", '"');
    CountAbsent(" OR description ~ ", ';');
    CountAbsent(" OR key = ", '"');
    CountAbsent(" OR key = ", ';');
    CountAbsent(")", '"');
    CountAbsent(")", ';');
  }

  /** The project filter opens with `project = '` when it is present, which is exactly when a
      non-empty key is configured. */
  lemma ProjectFilterPrefix(projectKey: Option<string>)
    ensures var f := ProjectFilter(projectKey);
      && (projectKey.None? || projectKey.value == [] ==> f == [])
      && (projectKey.Some? && projectKey.value != [] ==> |f| >= 11 && f[..11] == "project = '")
  {
    if projectKey.Some? && projectKey.value != [] {
      var f := ProjectFilter(projectKey);
      assert f == "project = '" + (ToUpper(projectKey.value) + "' AND ");
    }
  }

  /** The project filter adds no double quote and no semicolon unless the key has one. */
  lemma ProjectFilterQuotes(projectKey: Option<string>)
    ensures projectKey.Some? && '"' !in projectKey.value ==> Count(ProjectFilter(projectKey), '"') == 0
    ensures projectKey.Some? && ';' !in projectKey.value ==> ';' !in ProjectFilter(projectKey)
    ensures projectKey.None? ==> Count(ProjectFilter(projectKey), '"') == 0 && ProjectFilter(projectKey) == []
  {
    if projectKey.Some? && projectKey.value != [] {
      var pk := projectKey.value;
      if '"' !in pk {
        UpperKeepsAbsent(pk, '"');
        CountAbsent(ProjectFilter(projectKey), '"');
      }
      if ';' !in pk {
        UpperKeepsAbsent(pk, ';');
      }
    }
  }

  /** The order clause has no double quote and no semicolon. */
  lemma JqlOrderQuotes()
    ensures Count(JqlOrder, '"') == 0 && ';' !in JqlOrder
  {
    CountAbsent(JqlOrder, '"');
  }

  /** What the query looks like: `None` exactly when the sanitised term is empty; the
      project filter comes first exactly when a non-empty project key is configured; the
      order clause always ends it; and the term cannot open or close a string literal or end
      the statement, since the query has exactly the six double quotes of its three literals
      and only the semicolons of the project key. */
  lemma SearchRequestShape(config: JiraConfig, searchTerm: string)
    ensures SearchRequest(config, searchTerm).None? <==> SanitizeSearchTerm(searchTerm) == []
    ensures SearchRequest(config, searchTerm).Some? ==>
      var q := SearchRequest(config, searchTerm).value.jql;
      var pk := if config.projectKey.Some? then config.projectKey.value else [];
      && |q| >= |JqlOrder| && q[|q| - |JqlOrder|..] == JqlOrder
      && (pk != [] <==> (|q| >= 11 && q[..11] == "project = '"))
      && ('"' !in pk ==> Count(q, '"') == 6)
      && (';' !in pk ==> ';' !in q)
  {
    var t := SanitizeSearchTerm(searchTerm);
    if t != [] {
      SanitizeProperties(searchTerm);
      var pre, clause := ProjectFilter(config.projectKey), SearchClause(t);
      var q := pre + clause + JqlOrder;
      assert SearchRequest(config, searchTerm).value.jql == q;
      SearchClauseQuotes(t);
      ProjectFilterPrefix(config.projectKey);
      ProjectFilterQuotes(config.projectKey);
      JqlOrderQuotes();
      assert clause[0] == '(';
      QueryShape(pre, clause);
    }
  }

  /** A query assembled from a filter, a clause opening with `(` and the order clause. */
  lemma QueryShape(pre: string, clause: string)
    requires clause != [] && clause[0] == '('
    requires pre == [] || (|pre| >= 11 && pre[..11] == "project = '")
    ensures var q := pre + clause + JqlOrder;
      && |q| >= |JqlOrder| && q[|q| - |JqlOrder|..] == JqlOrder
      && (pre != [] <==> (|q| >= 11 && q[..11] == "project = '"))
      && Count(q, '"') == Count(pre, '"') + Count(clause, '"') + Count(JqlOrder, '"')
      && (forall c :: c in q <==> c in pre || c in clause || c in JqlOrder)
  {
    var q := pre + clause + JqlOrder;
    CountAppend(pre, clause, '"');
    CountAppend(pre + clause, JqlOrder, '"');
    assert q[|q| - |JqlOrder|..] == JqlOrder;
    if pre != [] {
      assert q[..11] == pre[..11];
    } else {
      assert q[0] == '(';
    }
  }
}
