/** Properties of the presenter that relate several calls: how a start
    treats the prompt, what a run of timeouts shows, and how often the
    completion message can appear. */
module Properties {
  import opened Wrappers
  import opened Catalog
  import opened View
  import opened Presenter
  import TimeFormat

  /** A preset start takes name and duration from its table row and never
      asks the user: whatever the prompt would have answered, the start is
      the same. */
  lemma PresetIgnoresPrompt(s: State, i: int, a: Option<int>, b: Option<int>, now: int)
    requires ValidAnswer(a) && ValidAnswer(b)
    requires 0 <= i < |CookTypes| && CookTypes[i].id != CustomId
    ensures TimerStart(s, CookTypes[i].id, a, now) == TimerStart(s, CookTypes[i].id, b, now)
    ensures var r := TimerStart(s, CookTypes[i].id, a, now);
      && r.Success?
      && r.value.calls == [StartEvent]
      && r.value.state == State(true, Some(Session(CookTypes[i].name, CookTypes[i].seconds, now, now + CookTypes[i].seconds)))
  {
    LookupOfEntry(i);
  }

  /** A "Custom" start asks exactly once. A cancelled prompt leaves the
      presenter as it was and starts nothing; m minutes run for m * 60
      seconds from now. */
  lemma CustomStart(s: State, answer: Option<int>, now: int)
    requires ValidAnswer(answer)
    ensures var r := TimerStart(s, CustomId, answer, now);
      && r.Success?
      && multiset(r.value.calls)[AskCookTime] == 1
      && (answer.None? ==> r.value.state == s && StartEvent !in r.value.calls)
      && (answer.Some? ==>
            var secs := answer.value * TimeFormat.SecondsPerMinute;
            r.value.state == State(true, Some(Session("Custom", secs, now, now + secs))))
  {
    CustomIdPresent();
  }

  /** A start that goes ahead signals the view exactly once, as its last call. */
  lemma StartSignalledOnce(s: State, selectedId: int, answer: Option<int>, now: int)
    requires ValidAnswer(answer)
    requires TimerStart(s, selectedId, answer, now).Success?
    requires !(selectedId == CustomId && answer.None?)
    ensures var calls := TimerStart(s, selectedId, answer, now).value.calls;
      multiset(calls)[StartEvent] == 1 && calls[|calls| - 1] == StartEvent
  {
    assert StartEvent !in PromptCalls(selectedId);
  }

  /** Zero minutes for "Custom" sets the deadline to the start itself: the
      first tick a second later shows the completion message. */
  lemma CustomZeroMinutes(s: State, now: int)
    requires Valid(s)
    ensures var q := TimerStart(s, CustomId, Some(0), now).value.state;
      && q.session.value.stopTime == q.session.value.startTime
      && Tick(q, now + 1).calls == [Message("Custom" + ElapsedSuffix), Progress(0, 0), StopEvent]
  {
    CustomStart(s, Some(0), now);
  }

  /** While the deadline has not passed, a tick reports the whole seconds
      since the start, between 0 and the duration, and the bar shows them. */
  lemma ProgressWithinBounds(s: State, now: int, v: ViewState)
    requires Valid(s) && s.active
    requires s.session.value.startTime <= now <= s.session.value.stopTime
    ensures var x := s.session.value;
      && Tick(s, now) == Step(s, [Progress(x.totalTime, now - x.startTime)])
      && 0 <= now - x.startTime <= x.totalTime
      && Render(v, Tick(s, now).calls).bar == ProgressBar(x.totalTime, now - x.startTime)
  {
  }

  /** A clock set back before the start: `.seconds` wraps the negative
      elapsed time into the day, so the label shows nearly a day while the
      bar, whose maximum is the duration, keeps its value. */
  lemma ClockSetBack(s: State, d: int, v: ViewState)
    requires Valid(s) && s.active
    requires 0 < d < TimeFormat.SecondsPerDay - MaxCookSeconds
    ensures var x := s.session.value;
      && Tick(s, x.startTime - d) == Step(s, [Progress(x.totalTime, TimeFormat.SecondsPerDay - d)])
      && Render(v, Tick(s, x.startTime - d).calls).bar == ProgressBar(x.totalTime, v.bar.value)
  {
    assert TimedeltaSeconds(-d) == TimeFormat.SecondsPerDay - d;
  }

  /** The presenter after timeouts at the clock readings `times`, in order. */
  function Ticks(s: State, times: seq<int>): (r: Step)
    requires Valid(s)
    ensures Valid(r.state)
    decreases |times|
  {
    if times == [] then Step(s, [])
    else
      var first := Tick(s, times[0]);
      var rest := Ticks(first.state, times[1..]);
      Step(rest.state, first.calls + rest.calls)
  }

  /** Timeouts at `a` and then at `b` are timeouts at `a + b`. */
  lemma {:induction false} TicksAppend(s: State, a: seq<int>, b: seq<int>)
    requires Valid(s)
    ensures var first := Ticks(s, a);
      var rest := Ticks(first.state, b);
      Ticks(s, a + b) == Step(rest.state, first.calls + rest.calls)
    decreases |a|
  {
    if a == [] {
      assert a + b == b;
    } else {
      assert (a + b)[1..] == a[1..] + b;
      TicksAppend(Tick(s, a[0]).state, a[1..], b);
    }
  }

  /** `n` clock readings one second apart, from `from` on. */
  function Readings(from: int, n: nat): (r: seq<int>)
    ensures |r| == n && forall i :: 0 <= i < n ==> r[i] == from + i
  {
    seq(n, i => from + i)
  }

  /** Ticks every second up to the deadline move the bar one second at a
      time and change nothing. */
  lemma {:induction false} ProgressEverySecond(s: State, k: nat, n: nat)
    requires Valid(s) && s.active
    requires k + n <= s.session.value.totalTime + 1
    ensures var x := s.session.value;
      Ticks(s, Readings(x.startTime + k, n)) == Step(s, seq(n, i => Progress(x.totalTime, k + i)))
    decreases n
  {
    var x := s.session.value;
    var times := Readings(x.startTime + k, n);
    if n > 0 {
      assert times[1..] == Readings(x.startTime + (k + 1), n - 1);
      ProgressEverySecond(s, k + 1, n - 1);
      assert Tick(s, times[0]) == Step(s, [Progress(x.totalTime, k)]);
      assert [Progress(x.totalTime, k)] + seq(n - 1, i => Progress(x.totalTime, k + 1 + i))
          == seq(n, i => Progress(x.totalTime, k + i));
    } else {
      assert times == [];
    }
  }

  /** A whole run: ticks at start + 1, …, start + total + 1 advance the
      bar to the full duration, then show the completion message once,
      reset the bar and stop. */
  lemma Countdown(s: State)
    requires Valid(s) && s.active
    ensures var x := s.session.value;
      var r := Ticks(s, Readings(x.startTime + 1, x.totalTime + 1));
      && !r.state.active
      && r.calls == seq(x.totalTime, i => Progress(x.totalTime, i + 1))
                    + [Message(x.cookName + ElapsedSuffix), Progress(x.totalTime, 0), StopEvent]
  {
    var x := s.session.value;
    var before := Readings(x.startTime + 1, x.totalTime);
    var last := [x.startTime + 1 + x.totalTime];
    assert Readings(x.startTime + 1, x.totalTime + 1) == before + last;
    TicksAppend(s, before, last);
    ProgressEverySecond(s, 1, x.totalTime);
    assert seq(x.totalTime, i => Progress(x.totalTime, 1 + i)) == seq(x.totalTime, i => Progress(x.totalTime, i + 1));
  }

  /** However the timeouts fall, a running timer shows the completion
      message at most once, and an idle presenter ignores them all. */
  lemma {:induction false} AtMostOneCompletion(s: State, times: seq<int>)
    requires Valid(s)
    ensures |MessageTexts(Ticks(s, times).calls)| <= (if s.active then 1 else 0)
    ensures !s.active ==> Ticks(s, times) == Step(s, [])
    decreases |times|
  {
    if times != [] {
      var first := Tick(s, times[0]);
      AtMostOneCompletion(first.state, times[1..]);
      MessageTextsAppend(first.calls, Ticks(first.state, times[1..]).calls);
      if s.active && times[0] > s.session.value.stopTime {
        var x := s.session.value;
        var reset := [Progress(x.totalTime, 0), StopEvent];
        assert reset[1..] == [StopEvent] && [StopEvent][1..] == [];
        assert first.calls == [Message(x.cookName + ElapsedSuffix)] + reset;
        MessageTextsAppend([Message(x.cookName + ElapsedSuffix)], reset);
      } else {
        assert MessageTexts(first.calls) == [];
      }
    }
  }
}
