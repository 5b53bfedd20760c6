/** The presenter (`CookTimerPresenter`): the timer's two states, the
    transitions the view's events and the one-second timer drive, and the
    calls each transition makes on the view.

    Qt is replaced by values: the timer's `isActive()` is the `active`
    flag, `datetime.datetime.now()` is the whole-second argument `now`,
    the selected combo box id and the prompt's answer are arguments, and
    each transition returns the new state together with the calls it made
    on the view, in order. */
module Presenter {
  import opened Wrappers
  import opened Catalog
  import opened View
  import TimeFormat

  /** What `_loadCookTypeFromView` settles on: `_curCookName` and `_curCookTime`. */
  datatype CookSelection = CookSelection(name: string, seconds: int)

  /** The fields a start sets: `_curCookName`, `_totalTime` (as seconds),
      `_startTime` and `_stopTime`. */
  datatype Session = Session(cookName: string, totalTime: int, startTime: int, stopTime: int)

  /** `active` is whether the tick timer runs. `session` is None until the
      first start; a stop leaves the last run's fields in place. */
  datatype State = State(active: bool, session: Option<Session>)

  /** The state after a transition and the view calls it made, in order. */
  datatype Step = Step(state: State, calls: seq<ViewCall>)

  /** The presenter as constructed: no timer running and no fields set. */
  const Initial := State(false, None)

  /** The longest duration a start can ask for: the prompt's maximum. */
  const MaxCookSeconds := MaxCustomMinutes * TimeFormat.SecondsPerMinute

  predicate IsCookName(name: string) {
    exists i :: 0 <= i < |CookTypes| && CookTypes[i].name == name
  }

  /** What a start establishes and nothing else changes: the deadline is
      the start time plus the duration, within the prompt's range. */
  predicate SessionValid(x: Session) {
    && x.stopTime == x.startTime + x.totalTime
    && 0 <= x.totalTime <= MaxCookSeconds
    && IsCookName(x.cookName)
  }

  /** The states the presenter can reach: a running timer always has a session. */
  predicate Valid(s: State) {
    && (s.active ==> s.session.Some?)
    && (s.session.Some? ==> SessionValid(s.session.value))
  }

  /** `timedelta(seconds=d).seconds`: the seconds part of a whole-second
      duration once Python has split off the (floor) days. */
  function TimedeltaSeconds(d: int): (r: int)
    ensures 0 <= r < TimeFormat.SecondsPerDay
    ensures (d - r) % TimeFormat.SecondsPerDay == 0
  {
    d % TimeFormat.SecondsPerDay
  }

  /** `_loadCookTypeFromView`: for the "Custom" id the user is asked and a
      cancelled prompt gives no selection; any other id takes its duration
      and name from the table. An id the table lacks raises. */
  function LoadCookTypeFromView(selectedId: int, answer: Option<int>): (r: Result<Option<CookSelection>, Error>)
    requires ValidAnswer(answer)
    ensures selectedId == CustomId && answer.None? ==> r == Success(None)
    ensures selectedId == CustomId && answer.Some? ==>
      r == Success(Some(CookSelection("Custom", answer.value * TimeFormat.SecondsPerMinute)))
    ensures selectedId != CustomId ==> (r.Success? <==> HasId(CookTypes, selectedId))
    ensures selectedId != CustomId && r.Success? ==>
      (r.value.Some? &&
       exists i :: 0 <= i < |CookTypes| && CookTypes[i].id == selectedId &&
         r.value.value == CookSelection(CookTypes[i].name, CookTypes[i].seconds))
    ensures r.Failure? ==> r.error == UnknownId(selectedId)
  {
    LookupOfEntry(4);
    if selectedId == CustomId then
      match AskUserForCookTime(answer)
      case None => Success(None)
      case Some(userSeconds) =>
        match GetCookTypeNameById(selectedId)
        case Success(name) => Success(Some(CookSelection(name, userSeconds)))
        case Failure(e) => Failure(e)
    else
      match GetCookTypeTimeById(selectedId)
      case Failure(e) => Failure(e)
      case Success(seconds) =>
        CookTypeIdsUnique();
        match GetCookTypeNameById(selectedId)
        case Success(name) => Success(Some(CookSelection(name, seconds)))
        case Failure(e) => Failure(e)
  }

  /** The prompt is shown exactly when the "Custom" id is selected. */
  function PromptCalls(selectedId: int): seq<ViewCall> {
    if selectedId == CustomId then [AskCookTime] else []
  }

  /** `timerStart`. */
  function TimerStart(s: State, selectedId: int, answer: Option<int>, now: int): (r: Result<Step, Error>)
    requires ValidAnswer(answer)
    ensures r.Failure? <==> !HasId(CookTypes, selectedId)
    ensures r.Failure? ==> r.error == UnknownId(selectedId)
    ensures r.Success? && selectedId == CustomId && answer.None? ==>
      r.value == Step(s, [AskCookTime])
    ensures r.Success? && !(selectedId == CustomId && answer.None?) ==>
      && r.value.calls == PromptCalls(selectedId) + [StartEvent]
      && r.value.state.active
      && r.value.state.session.Some?
      && r.value.state.session.value.startTime == now
      && r.value.state.session.value.stopTime == now + r.value.state.session.value.totalTime
    ensures r.Success? && selectedId == CustomId && answer.Some? ==>
      && r.value.state.session.value.cookName == "Custom"
      && r.value.state.session.value.totalTime == answer.value * TimeFormat.SecondsPerMinute
    ensures r.Success? && selectedId != CustomId ==>
      && GetCookTypeNameById(selectedId) == Success(r.value.state.session.value.cookName)
      && GetCookTypeTimeById(selectedId) == Success(r.value.state.session.value.totalTime)
  {
    CustomIdPresent();
    match LoadCookTypeFromView(selectedId, answer)
    case Failure(e) => Failure(e)
    case Success(selection) =>
      var prompt := PromptCalls(selectedId);
      match selection
      case None => Success(Step(s, prompt))
      case Some(sel) =>
        var session := Session(sel.name, sel.seconds, now, now + sel.seconds);
        Success(Step(State(true, Some(session)), prompt + [StartEvent]))
  }

  /** `timerStop`: resets the bar to (total, 0), relabels the button and
      stops the timer; the session's fields stay as they were. */
  function TimerStop(s: State): (r: Step)
    requires s.session.Some?
    ensures !r.state.active && r.state.session == s.session
    ensures 0 <= s.session.value.totalTime < TimeFormat.SecondsPerDay ==>
      r.calls == [Progress(s.session.value.totalTime, 0), StopEvent]
    ensures Valid(s) ==> Valid(r.state)
    ensures KeepsEntries(r.calls)
  {
    Step(State(false, s.session), [Progress(TimedeltaSeconds(s.session.value.totalTime), 0), StopEvent])
  }

  /** `cookTypeUserControlEvent`: a selection change stops a running timer
      and does nothing otherwise. */
  function CookTypeUserControlEvent(s: State): (r: Step)
    requires Valid(s)
    ensures !r.state.active && r.state.session == s.session
    ensures !s.active ==> r.calls == []
    ensures s.active ==> r.calls == [Progress(s.session.value.totalTime, 0), StopEvent]
    ensures Valid(r.state) && KeepsEntries(r.calls)
  {
    if s.active then TimerStop(s) else Step(s, [])
  }

  /** `timerUserControlEvent`: the button starts an idle timer and stops a
      running one. */
  function TimerUserControlEvent(s: State, selectedId: int, answer: Option<int>, now: int): (r: Result<Step, Error>)
    requires Valid(s) && ValidAnswer(answer)
    ensures s.active ==> r.Success? && !r.value.state.active && r.value.state.session == s.session
    ensures s.active ==> r.value.calls == [Progress(s.session.value.totalTime, 0), StopEvent]
    ensures !s.active ==> r == TimerStart(s, selectedId, answer, now)
    ensures !s.active ==> (r.Failure? <==> !HasId(CookTypes, selectedId))
    ensures !s.active && r.Success? ==>
      (r.value.state.active <==> !(selectedId == CustomId && answer.None?))
    ensures r.Success? ==> Valid(r.value.state) && KeepsEntries(r.value.calls)
  {
    if !s.active then
      var r := TimerStart(s, selectedId, answer, now);
      if r.Success? then TimerStartKeepsValid(s, selectedId, answer, now); r else r
    else Success(TimerStop(s))
  }

  /** `timerCountEvent`: past the deadline, the completion message and
      then the stop; otherwise the elapsed seconds on the bar. */
  function TimerCountEvent(s: State, now: int): (r: Step)
    requires Valid(s)
    ensures s.session.None? ==> r == Step(s, [])
    ensures s.session.Some? && now > s.session.value.stopTime ==>
      && !r.state.active
      && r.state.session == s.session
      && r.calls == [Message(s.session.value.cookName + ElapsedSuffix),
                     Progress(s.session.value.totalTime, 0), StopEvent]
    ensures s.session.Some? && now <= s.session.value.stopTime ==>
      && r.state == s
      && |r.calls| == 1 && r.calls[0].Progress?
      && r.calls[0].secondsTotal == s.session.value.totalTime
      && 0 <= r.calls[0].secondsElapsed < TimeFormat.SecondsPerDay
      && (s.session.value.startTime <= now ==> r.calls[0].secondsElapsed == now - s.session.value.startTime)
    ensures Valid(r.state) && KeepsEntries(r.calls)
  {
    match s.session
    case None => Step(s, [])
    case Some(x) =>
      if now > x.stopTime then
        var stop := TimerStop(s);
        Step(stop.state, [Message(x.cookName + ElapsedSuffix)] + stop.calls)
      else
        Step(s, [Progress(TimedeltaSeconds(x.totalTime), TimedeltaSeconds(now - x.startTime))])
  }

  /** A timeout of the tick timer, which `timerStart` starts with a
      1000 ms interval: Qt delivers it only while the timer runs. */
  function Tick(s: State, now: int): (r: Step)
    requires Valid(s)
    ensures !s.active ==> r == Step(s, [])
    ensures s.active ==> r == TimerCountEvent(s, now)
    ensures Valid(r.state) && KeepsEntries(r.calls)
  {
    if s.active then TimerCountEvent(s, now) else Step(s, [])
  }

  /** `loadCookTypes`: one entry per table row, in table order. */
  method LoadCookTypes() returns (calls: seq<ViewCall>)
    ensures |calls| == |CookTypes|
    ensures forall i :: 0 <= i < |CookTypes| ==>
      calls[i] == AddEntry(CookTypes[i].id, CookTypes[i].name, CookTypes[i].seconds)
  {
    calls := [];
    var k := 0;
    while k < |CookTypes|
      invariant 0 <= k <= |CookTypes|
      invariant |calls| == k
      invariant forall i :: 0 <= i < k ==>
        calls[i] == AddEntry(CookTypes[i].id, CookTypes[i].name, CookTypes[i].seconds)
    {
      var t := CookTypes[k];
      calls := calls + [AddEntry(t.id, t.name, t.seconds)];
      k := k + 1;
    }
  }

  /** Whatever `_loadCookTypeFromView` settles on is a table name with a
      duration the prompt's range covers. */
  lemma LoadedSelectionValid(selectedId: int, answer: Option<int>)
    requires ValidAnswer(answer)
    requires LoadCookTypeFromView(selectedId, answer).Success?
    requires LoadCookTypeFromView(selectedId, answer).value.Some?
    ensures var c := LoadCookTypeFromView(selectedId, answer).value.value;
      IsCookName(c.name) && 0 <= c.seconds <= MaxCookSeconds
  {
    var c := LoadCookTypeFromView(selectedId, answer).value.value;
    if selectedId == CustomId {
      assert CookTypes[4].name == c.name;
    } else {
      var i :| 0 <= i < |CookTypes| && CookTypes[i].id == selectedId &&
        c == CookSelection(CookTypes[i].name, CookTypes[i].seconds);
    }
  }

  lemma PromptCallsKeepEntries(selectedId: int)
    ensures KeepsEntries(PromptCalls(selectedId))
    ensures KeepsEntries(PromptCalls(selectedId) + [StartEvent])
  {
    var p := PromptCalls(selectedId) + [StartEvent];
    assert p[|p| - 1] == StartEvent;
  }

  /** A start keeps the presenter's invariant and never touches the combo box. */
  lemma TimerStartKeepsValid(s: State, selectedId: int, answer: Option<int>, now: int)
    requires Valid(s) && ValidAnswer(answer)
    requires TimerStart(s, selectedId, answer, now).Success?
    ensures Valid(TimerStart(s, selectedId, answer, now).value.state)
    ensures KeepsEntries(TimerStart(s, selectedId, answer, now).value.calls)
  {
    var sel := LoadCookTypeFromView(selectedId, answer);
    var calls := TimerStart(s, selectedId, answer, now).value.calls;
    if sel.value.Some? {
      LoadedSelectionValid(selectedId, answer);
      assert calls == PromptCalls(selectedId) + [StartEvent];
    } else {
      assert calls == PromptCalls(selectedId);
    }
    PromptCallsKeepEntries(selectedId);
  }
}
