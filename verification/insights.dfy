/** The real-time insight trigger: each time the hook's effect runs (on every tick of the
    active task), it decides whether to ask for notification permission and whether to
    request an insight, remembering the elapsed time of the last request. The insight service
    and the Notification API are outside the model: whether permission is still needed is a
    parameter, and the request is returned rather than sent. */
module Insights {
  import opened Types
  import Toasts

  /** 25 minutes, in seconds. */
  const INSIGHT_INTERVAL: int := 25 * 60

  /** The two refs the hook keeps across runs. */
  datatype InsightState = InsightState(lastInsightTime: int, hasRequestedPermission: bool)

  /** An insight request for the active task at its current elapsed time. */
  datatype InsightRequest = InsightRequest(taskName: string, elapsedSeconds: int)

  /** What one run of the effect does: the new refs, whether it asks for permission, and the
      request it sends, if any. */
  datatype Transition = Transition(state: InsightState, askPermission: bool, request: Option<InsightRequest>)

  /** The inputs of one run. `needsPermission` is "the Notification API exists and permission
      is not granted". */
  datatype Observation = Observation(activeTask: Option<Task>, isEnabled: bool, needsPermission: bool)

  /** One run of the effect. */
  function Next(st: InsightState, o: Observation): Transition {
    if o.activeTask.None? || !o.isEnabled then
      Transition(st.(lastInsightTime := 0), false, None)
    else
      var ask := !st.hasRequestedPermission && o.needsPermission;
      var task := o.activeTask.value;
      if task.elapsedSeconds > 0 && task.elapsedSeconds - st.lastInsightTime >= INSIGHT_INTERVAL then
        Transition(InsightState(task.elapsedSeconds, true), ask, Some(InsightRequest(task.name, task.elapsedSeconds)))
      else
        Transition(st.(hasRequestedPermission := true), ask, None)
  }

  predicate Active(o: Observation) {
    o.activeTask.Some? && o.isEnabled
  }

  /** Without an active task, or with the feature off, the timer restarts from 0 and nothing
      is asked or requested. */
  lemma InactiveResets(st: InsightState, o: Observation)
    requires !Active(o)
    ensures Next(st, o) == Transition(InsightState(0, st.hasRequestedPermission), false, None)
  {
  }

  /** A request is sent exactly when the task has time and at least 25 minutes of it passed
      since the last request; it carries the task's name and time, which become the new mark. */
  lemma FiresIff(st: InsightState, o: Observation)
    ensures Next(st, o).request.Some? <==>
      Active(o) && o.activeTask.value.elapsedSeconds > 0 &&
      o.activeTask.value.elapsedSeconds >= st.lastInsightTime + INSIGHT_INTERVAL
    ensures Next(st, o).request.Some? ==>
      Next(st, o).request.value == InsightRequest(o.activeTask.value.name, o.activeTask.value.elapsedSeconds) &&
      Next(st, o).state.lastInsightTime == o.activeTask.value.elapsedSeconds
    ensures Next(st, o).request.None? && Active(o) ==> Next(st, o).state.lastInsightTime == st.lastInsightTime
  {
  }

  /** While a task runs, the mark never goes back, whichever task it is: switching straight
      from one task to another keeps the mark of the first. */
  lemma ActiveKeepsMark(st: InsightState, o: Observation)
    requires Active(o)
    ensures Next(st, o).state.lastInsightTime >= st.lastInsightTime
    ensures Next(st, o).state.hasRequestedPermission
  {
  }

  /** Permission is asked for only on an active run before it was ever asked for, and only
      when it is still needed. */
  lemma AskIff(st: InsightState, o: Observation)
    ensures Next(st, o).askPermission <==> Active(o) && !st.hasRequestedPermission && o.needsPermission
    ensures st.hasRequestedPermission ==> Next(st, o).state.hasRequestedPermission
  {
  }

  /** What a sequence of runs produces, from a given state. */
  datatype Trace = Trace(state: InsightState, permissionRequests: nat, requests: seq<InsightRequest>)

  function Run(st: InsightState, obs: seq<Observation>): Trace {
    if obs == [] then Trace(st, 0, [])
    else
      var prev := Run(st, obs[..|obs| - 1]);
      var t := Next(prev.state, obs[|obs| - 1]);
      Trace(t.state,
            prev.permissionRequests + (if t.askPermission then 1 else 0),
            prev.requests + (if t.request.Some? then [t.request.value] else []))
  }

  /** Over any sequence of runs, permission is asked for at most once, and never again once
      it was. */
  lemma {:induction false} PermissionAskedAtMostOnce(st: InsightState, obs: seq<Observation>)
    ensures Run(st, obs).permissionRequests <= 1
    ensures st.hasRequestedPermission ==> Run(st, obs).permissionRequests == 0 && Run(st, obs).state.hasRequestedPermission
    ensures Run(st, obs).permissionRequests == 1 ==> Run(st, obs).state.hasRequestedPermission
  {
    if obs != [] {
      var init := obs[..|obs| - 1];
      PermissionAskedAtMostOnce(st, init);
      AskIff(Run(st, init).state, obs[|obs| - 1]);
    }
  }

  predicate AllActive(obs: seq<Observation>) {
    forall k :: 0 <= k < |obs| ==> Active(obs[k])
  }

  /** Within one stretch of active runs, the first request comes at least 25 minutes after the
      starting mark and each later one at least 25 minutes after the previous one; the mark is
      the time of the last request. */
  lemma {:induction false} RequestsSpaced(st: InsightState, obs: seq<Observation>)
    requires AllActive(obs)
    ensures var rs := Run(st, obs).requests;
      && (|rs| > 0 ==> rs[0].elapsedSeconds >= st.lastInsightTime + INSIGHT_INTERVAL)
      && (forall k :: 0 <= k < |rs| - 1 ==> rs[k + 1].elapsedSeconds >= rs[k].elapsedSeconds + INSIGHT_INTERVAL)
      && Run(st, obs).state.lastInsightTime == if |rs| == 0 then st.lastInsightTime else rs[|rs| - 1].elapsedSeconds
  {
    if obs != [] {
      var init := obs[..|obs| - 1];
      assert AllActive(init) by {
        forall k | 0 <= k < |init| ensures Active(init[k]) {
          assert init[k] == obs[k];
        }
      }
      RequestsSpaced(st, init);
      FiresIff(Run(st, init).state, obs[|obs| - 1]);
    }
  }

  /** The hook's refs, kept across runs of its effect. */
  class RealtimeInsights {
    var lastInsightTime: int
    var hasRequestedPermission: bool

    function State(): InsightState
      reads this
    {
      InsightState(lastInsightTime, hasRequestedPermission)
    }

    /** `useRef(0)` and `useRef(false)`. */
    constructor()
      ensures State() == InsightState(0, false)
    {
      lastInsightTime := 0;
      hasRequestedPermission := false;
    }

    /** One run of the effect. */
    method Step(o: Observation) returns (askPermission: bool, request: Option<InsightRequest>)
      modifies this
      ensures State() == Next(old(State()), o).state
      ensures askPermission == Next(old(State()), o).askPermission
      ensures request == Next(old(State()), o).request
    {
      askPermission, request := false, None;
      if o.activeTask.None? || !o.isEnabled {
        lastInsightTime := 0;
        return;
      }
      if o.isEnabled && !hasRequestedPermission {
        askPermission := o.needsPermission;
        hasRequestedPermission := true;
      }
      var task := o.activeTask.value;
      if task.elapsedSeconds > 0 && task.elapsedSeconds - lastInsightTime >= INSIGHT_INTERVAL {
        lastInsightTime := task.elapsedSeconds;
        request := Some(InsightRequest(task.name, task.elapsedSeconds));
      }
    }
  }

  /** The answer to a request: an empty insight shows nothing; any other one is shown as an
      `info` toast. */
  method ShowInsight(insight: string, queue: Toasts.ToastQueue, now: int)
    modifies queue
    ensures insight == [] ==> queue.toasts == old(queue.toasts)
    ensures insight != [] ==> queue.toasts == old(queue.toasts) + [Toasts.ToastMessage(now, insight, Toasts.Info)]
  {
    if insight != [] {
      var _ := queue.AddToast(insight, Some(Toasts.Info), now);
    }
  }
}
