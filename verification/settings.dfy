/** The settings page: the weekly-hours goal and its input, the issue-tracker credentials and
    their connection test, and clearing all data. The stores it writes are fields of one class;
    the outcome of the connection test and the user's confirmation are parameters, and the
    toast each handler shows is returned as its type. */
module Settings {
  import opened Types
  import opened Text
  import Toasts

  // ---------------------------------------------------------------------------
  // The hours input

  /** `parseInt(s, 10)`: leading white space is skipped, then an optional sign and the longest
      run of decimal digits is read; without a digit the result is NaN (`None`). */
  function ParseInt(s: string): Option<int> {
    ParseSigned(TrimStart(s))
  }

  /** `parseInt` after the leading white space. */
  function ParseSigned(t: string): Option<int> {
    var signLength := if t != [] && (t[0] == '+' || t[0] == '-') then 1 else 0;
    var digits := LeadingDigits(t[signLength..]);
    if digits == [] then None
    else
      var value: int := DigitsValue(digits);
      Some(if signLength == 1 && t[0] == '-' then -value else value)
  }

  /** The longest prefix of decimal digits. */
  function LeadingDigits(s: string): (r: string)
    ensures AllDigits(r) && |r| <= |s|
  {
    if s == [] || !IsDigit(s[0]) then [] else [s[0]] + LeadingDigits(s[1..])
  }

  /** The digits read are those before the first character that is not a digit. */
  lemma {:induction false} LeadingDigitsAppend(digits: string, rest: string)
    requires AllDigits(digits)
    requires rest == [] || !IsDigit(rest[0])
    ensures LeadingDigits(digits + rest) == digits
  {
    if digits == [] {
      assert digits + rest == rest;
    } else {
      assert (digits + rest)[1..] == digits[1..] + rest;
      LeadingDigitsAppend(digits[1..], rest);
      assert digits == [digits[0]] + digits[1..];
    }
  }

  /** `handleHoursChange`: NaN and negative numbers become 0 and numbers above 60 become 60. */
  function ClampHours(input: string): (hours: int)
    ensures 0 <= hours <= 60
    ensures ParseInt(input).Some? && 0 <= ParseInt(input).value <= 60 ==> hours == ParseInt(input).value
  {
    Clamped(ParseInt(input))
  }

  /** The clamp applied to a parsed number. */
  function Clamped(parsed: Option<int>): (hours: int)
    ensures 0 <= hours <= 60
  {
    var value := if parsed.None? || parsed.value < 0 then 0 else parsed.value;
    if value > 60 then 60 else value
  }

  /** Text that does not start with white space is read as it is. */
  lemma ParseIntUnpadded(body: string)
    requires body == [] || !IsWhitespace(body[0])
    ensures ParseInt(body) == ParseSigned(body)
  {
    TrimStartAt(body, 0);
  }

  /** Leading white space is skipped. */
  lemma ParseIntPadded(padding: string, body: string)
    requires AllWhitespace(padding)
    requires body == [] || !IsWhitespace(body[0])
    ensures ParseInt(padding + body) == ParseSigned(body)
  {
    TrimStartPrepend(padding, body);
    ParseIntUnpadded(body);
  }

  /** A sign, a run of digits and a text that does not go on with a digit: the digits are read,
      with their sign. */
  lemma ParseSignedDigits(sign: string, digits: string, rest: string)
    requires sign == "" || sign == "+" || sign == "-"
    requires digits != [] && AllDigits(digits)
    requires rest == [] || !IsDigit(rest[0])
    ensures ParseSigned(sign + digits + rest) == Some(if sign == "-" then -(DigitsValue(digits) as int) else DigitsValue(digits))
  {
    var body := sign + digits + rest;
    assert body[|sign|..] == digits + rest;
    assert sign == "" ==> body[0] == digits[0];
    LeadingDigitsAppend(digits, rest);
  }

  /** A numeral, after any white space and before anything that is not a digit, is read as
      its value, with its sign. */
  lemma ParseIntNumeral(padding: string, sign: string, digits: string, rest: string)
    requires AllWhitespace(padding)
    requires sign == "" || sign == "+" || sign == "-"
    requires digits != [] && AllDigits(digits)
    requires rest == [] || !IsDigit(rest[0])
    ensures ParseInt(padding + (sign + digits + rest)) == Some(if sign == "-" then -(DigitsValue(digits) as int) else DigitsValue(digits))
  {
    var body := sign + digits + rest;
    assert body[0] == if sign == "" then digits[0] else sign[0];
    ParseIntPadded(padding, body);
    ParseSignedDigits(sign, digits, rest);
  }

  /** Input without any digit is NaN, so it clears the hours to 0. */
  lemma ParseIntNoDigits(s: string)
    requires forall i :: 0 <= i < |s| ==> !IsDigit(s[i])
    ensures ParseInt(s) == None && ClampHours(s) == 0
  {
    var t := TrimStart(s);
    var signLength := if t != [] && (t[0] == '+' || t[0] == '-') then 1 else 0;
    assert signLength < |t| ==> t[signLength] == s[|s| - |t| + signLength];
  }

  /** Typed digits are kept up to 60 and cut to 60 above; with a minus sign they give 0. */
  lemma ClampHoursOfDigits(digits: string)
    requires digits != [] && AllDigits(digits)
    ensures ClampHours(digits) == if DigitsValue(digits) > 60 then 60 else DigitsValue(digits)
    ensures DigitsValue(digits) > 0 ==> ClampHours("-" + digits) == 0
  {
    ParseIntNumeral("", "", digits, "");
    assert "" + ("" + digits + "") == digits;
    ParseIntNumeral("", "-", digits, "");
    assert "" + ("-" + digits + "") == "-" + digits;
  }

  /** A typed number is kept up to 60 and cut to 60 above; a negative one becomes 0. */
  lemma ClampHoursOfNumber(n: nat)
    ensures ClampHours(NatToString(n)) == if n > 60 then 60 else n
    ensures n > 0 ==> ClampHours("-" + NatToString(n)) == 0
  {
    ClampHoursOfDigits(NatToString(n));
    NatToStringRoundTrip(n);
  }

  // ---------------------------------------------------------------------------
  // The issue-tracker credentials

  /** The three credential inputs of the form, as typed. */
  datatype JiraForm = JiraForm(domain: string, email: string, apiToken: string)

  /** The configuration the form describes: each input trimmed, and only when none of them is
      blank; the project key is not part of the form. */
  function EnteredConfig(form: JiraForm): (r: Option<JiraConfig>)
    ensures r.Some? <==> !AllWhitespace(form.domain) && !AllWhitespace(form.email) && !AllWhitespace(form.apiToken)
    ensures r.Some? ==> r.value.projectKey.None?
  {
    TrimEmptyIff(form.domain);
    TrimEmptyIff(form.email);
    TrimEmptyIff(form.apiToken);
    if Trim(form.domain) != [] && Trim(form.email) != [] && Trim(form.apiToken) != [] then
      Some(JiraConfig(Trim(form.domain), Trim(form.email), Trim(form.apiToken), None))
    else None
  }

  /** The form showing a stored configuration. */
  function FormOf(config: JiraConfig): JiraForm {
    JiraForm(config.domain, config.email, config.apiToken)
  }

  /** An entered configuration has no surrounding white space and no blank field, and the form
      refilled with it describes it again. */
  lemma EnteredConfigNormalised(form: JiraForm)
    requires EnteredConfig(form).Some?
    ensures var c := EnteredConfig(form).value;
      && c.domain != [] && c.email != [] && c.apiToken != []
      && EnteredConfig(FormOf(c)) == Some(c)
  {
    TrimIdempotent(form.domain);
    TrimIdempotent(form.email);
    TrimIdempotent(form.apiToken);
  }

  datatype TestStatus = TestSuccess | TestError

  /** The outcome of the connection call: a boolean answer, or `None` when it throws. */
  type CallOutcome = Option<bool>

  /** The stores and the form state of the settings page. */
  class SettingsPage {
    var goal: Option<Goal>
    var hours: int
    var insightsEnabled: bool
    var history: History
    var tasks: seq<Task>
    var progress: UserProgress
    var jiraConfig: Option<JiraConfig>
    var jiraForm: JiraForm
    var jiraTestStatus: Option<TestStatus>

    /** The page as it opens: the form shows the stored goal (`goal?.weeklyHours || 0`) and
        the stored credentials, and no test has run. */
    constructor(goal: Option<Goal>, jiraConfig: Option<JiraConfig>, history: History, tasks: seq<Task>, progress: UserProgress)
      ensures this.goal == goal && this.jiraConfig == jiraConfig
      ensures this.history == history && this.tasks == tasks && this.progress == progress
      ensures hours == (if goal.Some? then goal.value.weeklyHours else 0)
      ensures insightsEnabled == (goal.Some? && goal.value.realtimeInsightsEnabled)
      ensures jiraForm == if jiraConfig.Some? then FormOf(jiraConfig.value) else JiraForm([], [], [])
      ensures jiraTestStatus.None?
    {
      this.goal := goal;
      this.jiraConfig := jiraConfig;
      this.history := history;
      this.tasks := tasks;
      this.progress := progress;
      hours := if goal.Some? then goal.value.weeklyHours else 0;
      insightsEnabled := goal.Some? && goal.value.realtimeInsightsEnabled;
      jiraForm := if jiraConfig.Some? then FormOf(jiraConfig.value) else JiraForm([], [], []);
      jiraTestStatus := None;
    }

    /** `handleHoursChange`: the typed text, clamped. */
    method HoursChange(input: string)
      modifies this
      ensures hours == ClampHours(input)
      ensures 0 <= hours <= 60
      ensures goal == old(goal) && insightsEnabled == old(insightsEnabled)
      ensures jiraConfig == old(jiraConfig) && jiraForm == old(jiraForm) && jiraTestStatus == old(jiraTestStatus)
      ensures history == old(history) && tasks == old(tasks) && progress == old(progress)
    {
      hours := ClampHours(input);
    }

    /** `handleSaveGeneralSettings`: stores the goal shown in the form. */
    method SaveGeneralSettings() returns (notice: Toasts.ToastType)
      modifies this
      ensures goal == Some(Goal(hours, insightsEnabled)) && notice == Toasts.Success
      ensures hours == old(hours) && insightsEnabled == old(insightsEnabled)
      ensures jiraConfig == old(jiraConfig) && jiraForm == old(jiraForm) && jiraTestStatus == old(jiraTestStatus)
      ensures history == old(history) && tasks == old(tasks) && progress == old(progress)
    {
      goal := Some(Goal(hours, insightsEnabled));
      notice := Toasts.Success;
    }

    /** Typing in the credential inputs; any change clears the last test's status. */
    method EditJiraForm(form: JiraForm)
      modifies this
      ensures jiraForm == form
      ensures jiraTestStatus == if form == old(jiraForm) then old(jiraTestStatus) else None
      ensures goal == old(goal) && hours == old(hours) && insightsEnabled == old(insightsEnabled)
      ensures jiraConfig == old(jiraConfig)
      ensures history == old(history) && tasks == old(tasks) && progress == old(progress)
    {
      if form != jiraForm {
        jiraTestStatus := None;
      }
      jiraForm := form;
    }

    /** `handleSaveJiraConfig`: stores the trimmed credentials when none is blank, and
        otherwise shows an error and keeps the stored ones. Storing them refills the form with
        the trimmed values, which clears the test status when trimming changed an input. */
    method SaveJiraConfig() returns (notice: Toasts.ToastType)
      modifies this
      ensures var entered := EnteredConfig(old(jiraForm));
        && (entered.Some? ==> notice == Toasts.Success && jiraConfig == entered && jiraForm == FormOf(entered.value))
        && (entered.None? ==> notice == Toasts.Error && jiraConfig == old(jiraConfig) && jiraForm == old(jiraForm))
      ensures jiraTestStatus == if jiraForm == old(jiraForm) then old(jiraTestStatus) else None
      ensures goal == old(goal) && hours == old(hours) && insightsEnabled == old(insightsEnabled)
      ensures history == old(history) && tasks == old(tasks) && progress == old(progress)
    {
      var entered := EnteredConfig(jiraForm);
      if entered.Some? {
        jiraConfig := entered;
        notice := Toasts.Success;
        var refilled := FormOf(entered.value);
        if refilled != jiraForm {
          jiraTestStatus := None;
        }
        jiraForm := refilled;
      } else {
        notice := Toasts.Error;
      }
    }

    /** `handleTestJiraConnection`: with a blank input it shows an error and makes no call;
        otherwise it sends the trimmed credentials and records whether the call answered
        `true` (a thrown error counts as a failure). Nothing is stored. */
    method TestJiraConnection(outcome: CallOutcome) returns (sent: Option<JiraConfig>, notice: Toasts.ToastType)
      modifies this
      ensures sent == EnteredConfig(old(jiraForm))
      ensures sent.None? ==> notice == Toasts.Error && jiraTestStatus == old(jiraTestStatus)
      ensures sent.Some? ==> jiraTestStatus == Some(if outcome == Some(true) then TestSuccess else TestError)
      ensures sent.Some? ==> notice == if outcome == Some(true) then Toasts.Success else Toasts.Error
      ensures goal == old(goal) && hours == old(hours) && insightsEnabled == old(insightsEnabled)
      ensures jiraConfig == old(jiraConfig) && jiraForm == old(jiraForm)
      ensures history == old(history) && tasks == old(tasks) && progress == old(progress)
    {
      sent := EnteredConfig(jiraForm);
      if sent.None? {
        notice := Toasts.Error;
        return;
      }
      jiraTestStatus := None;
      match outcome {
        case Some(success) =>
          jiraTestStatus := Some(if success then TestSuccess else TestError);
          notice := if success then Toasts.Success else Toasts.Error;
        case None =>
          jiraTestStatus := Some(TestError);
          notice := Toasts.Error;
      }
    }

    /** `handleClearData`: only after confirmation, empties the history and the task list and
        restarts progress at 0 points, level 1. */
    method ClearData(confirmed: bool) returns (notice: Option<Toasts.ToastType>)
      modifies this
      ensures confirmed ==> history == map[] && tasks == [] && progress == UserProgress(0, 1) && notice == Some(Toasts.Success)
      ensures !confirmed ==> history == old(history) && tasks == old(tasks) && progress == old(progress) && notice.None?
      ensures goal == old(goal) && hours == old(hours) && insightsEnabled == old(insightsEnabled)
      ensures jiraConfig == old(jiraConfig) && jiraForm == old(jiraForm) && jiraTestStatus == old(jiraTestStatus)
    {
      notice := None;
      if confirmed {
        history := map[];
        tasks := [];
        progress := UserProgress(0, 1);
        notice := Some(Toasts.Success);
      }
    }
  }
}
