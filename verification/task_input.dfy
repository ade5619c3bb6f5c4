/** The task-name input of the home page: `handleAddTask` reads an optional leading issue key
    from the typed text, and `handleSelectIssue` fills the input from an issue picked in the
    search results. */
module TaskInput {
  import opened Types
  import opened Text
  import opened Jira

  /** What `handleAddTask` makes of the typed text: the task's name and its issue key, if any. */
  datatype NewTaskName = NewTaskName(name: string, jiraIssueKey: Option<string>)

  /** Where the match of `^([A-Z][A-Z0-9]+-\d+):?\s*` ends in `s`, or 0 when there is none:
      the key, then one colon if there is one, then the run of white space after it. */
  function KeyPrefixEnd(s: string): (n: nat)
    ensures n <= |s|
    ensures KeyMatchEnd(s) == 0 ==> n == 0
    ensures KeyMatchEnd(s) > 0 ==> KeyMatchEnd(s) <= n
  {
    var k := KeyMatchEnd(s);
    if k == 0 then 0
    else WhitespaceRunEnd(s, if k < |s| && s[k] == ':' then k + 1 else k)
  }

  /** `handleAddTask`'s reading of the input; `None` when nothing is left after trimming, in
      which case no task is added. */
  function ParseTaskName(taskName: string): Option<NewTaskName> {
    ParseTrimmed(Trim(taskName))
  }

  /** The reading of the trimmed input: a leading key is split off the name, and the key
      itself becomes the name when nothing else remains. */
  function ParseTrimmed(trimmed: string): Option<NewTaskName> {
    if trimmed == [] then None
    else
      var k := KeyMatchEnd(trimmed);
      if k == 0 then Some(NewTaskName(trimmed, None))
      else
        var key := trimmed[..k];
        var rest := Trim(trimmed[KeyPrefixEnd(trimmed)..]);
        Some(NewTaskName(if rest == [] then key else rest, Some(key)))
  }

  /** `s` opens with the issue key `s[..n]`, which is not followed by a further digit. */
  predicate StartsWithKey(s: string, n: nat) {
    0 < n <= |s| && IsValidIssueKey(s[..n]) && (n == |s| || !IsDigit(s[n]))
  }

  /** The matcher finds a key exactly when the text opens with one, and then finds that one. */
  lemma KeyMatchEndIff(s: string)
    ensures KeyMatchEnd(s) > 0 <==> exists n :: StartsWithKey(s, n)
    ensures forall n :: StartsWithKey(s, n) ==> KeyMatchEnd(s) == n
  {
    var k := KeyMatchEnd(s);
    if k > 0 {
      MatchedKeyIsValid(s);
      var i := RunEnd(s, 1, IsUpperOrDigit);
      assert k == RunEnd(s, i + 1, IsDigit);
      assert StartsWithKey(s, k);
    }
    forall n: nat | StartsWithKey(s, n) ensures KeyMatchEnd(s) == n {
      assert s == s[..n] + s[n..];
      KeyMatchEndOfKey(s[..n], s[n..]);
    }
  }

  /** What `handleAddTask` promises about the text it stores: nothing is added for blank input;
      the name is never empty; without a key the name is the trimmed input; a key is taken
      exactly when the trimmed input opens with one, and it passes the work-log key check. */
  lemma ParseTaskNameProperties(taskName: string)
    ensures ParseTaskName(taskName).None? <==> AllWhitespace(taskName)
    ensures ParseTaskName(taskName).Some? ==> ParseTaskName(taskName).value.name != []
    ensures ParseTaskName(taskName).Some? ==>
      var p, t := ParseTaskName(taskName).value, Trim(taskName);
      && (p.jiraIssueKey.Some? <==> exists n :: StartsWithKey(t, n))
      && (p.jiraIssueKey.None? ==> p.name == t)
      && (p.jiraIssueKey.Some? ==> var key := p.jiraIssueKey.value;
            IsValidIssueKey(key) && StartsWithKey(t, |key|) && t[..|key|] == key)
  {
    TrimEmptyIff(taskName);
    var t := Trim(taskName);
    KeyMatchEndIff(t);
    if t != [] && KeyMatchEnd(t) > 0 {
      MatchedKeyIsValid(t);
    }
  }

  /** The text `handleSelectIssue` puts in the input: `"<key>: <summary>"`. */
  function SelectedIssueText(key: string, summary: string): string {
    key + ":" + (" " + summary)
  }

  /** Trimming the selected-issue text only trims the end of the summary. */
  lemma TrimSelectedIssueText(key: string, summary: string)
    requires IsValidIssueKey(key)
    ensures Trim(SelectedIssueText(key, summary)) ==
      if AllWhitespace(summary) then key + ":" else key + ":" + (" " + TrimEnd(summary))
  {
    var head := key + ":";
    TrimEndEmptyIff(summary);
    TrimEndAppend(" ", summary);
    if AllWhitespace(summary) {
      TrimEndAt(" ", 0);
      TrimEndAppend(head, " " + summary);
      TrimEndAt(head, |head|);
    } else {
      TrimEndAppend(head, " " + summary);
    }
    assert (head + (" " + summary))[0] == key[0];
    StartsUnpadded(head + (" " + summary));
  }

  /** Text that opens with a capital letter has nothing to trim at the start. */
  lemma StartsUnpadded(s: string)
    requires s != [] && IsUpper(s[0])
    ensures Trim(s) == TrimEnd(s)
  {
    TrimStartAt(s, 0);
  }

  /** After a key and a colon, the rest of the pattern swallows the leading white space of what follows. */
  lemma KeyColonPrefix(key: string, rest: string)
    requires IsValidIssueKey(key)
    ensures var s := key + ":" + rest;
      && KeyMatchEnd(s) == |key|
      && s[..|key|] == key
      && s[KeyPrefixEnd(s)..] == TrimStart(rest)
  {
    var s := key + ":" + rest;
    KeyColonMatch(key, rest);
    assert s[|key|] == ':';
    WhitespaceRunEndAfter(key + ":", rest, 0);
    var p := WhitespaceRunEnd(rest, 0);
    assert s[|key| + 1 + p..] == rest[p..];
  }

  lemma KeyColonMatch(key: string, rest: string)
    requires IsValidIssueKey(key)
    ensures KeyMatchEnd(key + ":" + rest) == |key|
  {
    assert key + ":" + rest == key + (":" + rest);
    KeyMatchEndOfKey(key, ":" + rest);
  }

  /** Picking an issue and adding the task gives back the issue's key, and as the name the
      trimmed summary, or the key when the summary is blank. */
  lemma SelectIssueRoundTrip(key: string, summary: string)
    requires IsValidIssueKey(key)
    ensures ParseTaskName(SelectedIssueText(key, summary)) ==
      Some(NewTaskName(if AllWhitespace(summary) then key else Trim(summary), Some(key)))
  {
    TrimSelectedIssueText(key, summary);
    if AllWhitespace(summary) {
      SelectBlankSummary(key);
    } else {
      SelectSummary(key, summary);
    }
  }

  lemma SelectBlankSummary(key: string)
    requires IsValidIssueKey(key)
    ensures ParseTrimmed(key + ":") == Some(NewTaskName(key, Some(key)))
  {
    KeyColonPrefix(key, []);
    assert key + ":" == key + ":" + [];
  }

  lemma SelectSummary(key: string, summary: string)
    requires IsValidIssueKey(key) && !AllWhitespace(summary)
    ensures ParseTrimmed(key + ":" + (" " + TrimEnd(summary))) == Some(NewTaskName(Trim(summary), Some(key)))
  {
    var te := TrimEnd(summary);
    var t := key + ":" + (" " + te);
    TrimEmptyIff(summary);
    KeyColonPrefix(key, " " + te);
    TrimStartPrepend(" ", te);
    TrimAfterOneEnd(te);
    TrimAfterOneEnd(summary);
  }
}
