/** Properties of the running application: the button's label follows
    the timer through any sequence of events, a stop resets the bar, and
    a whole preset run from the click to the completion message. */
module AppProperties {
  import opened Wrappers
  import opened Catalog
  import opened View
  import opened Presenter
  import opened App
  import opened Properties

  /** A click keeps the button's label in step with the timer. */
  lemma ClickKeepsButtonInSync(app: App, answer: Option<int>, now: int)
    requires AppValid(app) && ValidAnswer(answer) && ButtonInSync(app)
    ensures ButtonInSync(Handle(app, ButtonClicked(answer, now)).app)
  {
    var r := Handle(app, ButtonClicked(answer, now));
    RenderButton(app.view, r.calls);
    if !app.presenter.active {
      if app.selectedId == CustomId && answer.None? {
        assert r.calls == [AskCookTime];
      } else {
        assert r.calls == PromptCalls(app.selectedId) + [StartEvent];
      }
    }
  }

  /** A selection change keeps the button's label in step with the timer. */
  lemma SelectKeepsButtonInSync(app: App, index: int)
    requires AppValid(app) && 0 <= index < |CookTypes| && ButtonInSync(app)
    ensures ButtonInSync(Handle(app, IndexChanged(index)).app)
  {
    RenderButton(app.view, Handle(app, IndexChanged(index)).calls);
  }

  /** A timeout keeps the button's label in step with the timer. */
  lemma TimeoutKeepsButtonInSync(app: App, now: int)
    requires AppValid(app) && ButtonInSync(app)
    ensures ButtonInSync(Handle(app, Timeout(now)).app)
  {
    var r := Handle(app, Timeout(now));
    RenderButton(app.view, r.calls);
    var s := app.presenter;
    if s.active && now <= s.session.value.stopTime {
      assert |r.calls| == 1 && r.calls[0].Progress?;
      assert r.calls[..0] == [];
    }
  }

  /** Every event keeps the button's label in step with the timer. */
  lemma HandleKeepsButtonInSync(app: App, e: Event)
    requires AppValid(app) && EventValid(e) && ButtonInSync(app)
    ensures ButtonInSync(Handle(app, e).app)
  {
    match e
    case ButtonClicked(answer, now) => ClickKeepsButtonInSync(app, answer, now);
    case IndexChanged(index) => SelectKeepsButtonInSync(app, index);
    case Timeout(now) => TimeoutKeepsButtonInSync(app, now);
  }

  /** The label follows the timer through any sequence of events. */
  lemma {:induction false} RunKeepsButtonInSync(app: App, events: seq<Event>)
    requires AppValid(app) && AllValid(events) && ButtonInSync(app)
    ensures ButtonInSync(Run(app, events).app)
    decreases |events|
  {
    hide Handle;
    if events != [] {
      HandleKeepsButtonInSync(app, events[0]);
      RunKeepsButtonInSync(Handle(app, events[0]).app, events[1..]);
    }
  }

  /** A click on a running timer stops it: the bar shows zero of the
      duration, the label reads 0:00:00 of it and the button offers to start. */
  lemma StopResetsView(app: App, answer: Option<int>, now: int)
    requires AppValid(app) && ValidAnswer(answer) && app.presenter.active
    ensures var total := app.presenter.session.value.totalTime;
      var v := Handle(app, ButtonClicked(answer, now)).app.view;
      && !Handle(app, ButtonClicked(answer, now)).app.presenter.active
      && v.bar == ProgressBar(total, 0)
      && ReadInfo(v.info) == Some((0, total))
      && v.button == StartButtonLabel
  {
    var total := app.presenter.session.value.totalTime;
    var w := Apply(app.view, Progress(total, 0));
    assert Render(app.view, [Progress(total, 0), StopEvent]) == Render(w, [StopEvent]);
    assert Render(w, [StopEvent]) == Apply(w, StopEvent);
  }

  lemma AllValidAppend(a: seq<Event>, b: seq<Event>)
    requires AllValid(a) && AllValid(b)
    ensures AllValid(a + b)
  {
    forall i | 0 <= i < |a + b| ensures EventValid((a + b)[i]) {
      if i < |a| { assert (a + b)[i] == a[i]; } else { assert (a + b)[i] == b[i - |a|]; }
    }
  }

  /** One timeout event per clock reading. */
  function Timeouts(times: seq<int>): (r: seq<Event>)
    ensures |r| == |times| && forall i :: 0 <= i < |r| ==> r[i] == Timeout(times[i])
  {
    seq(|times|, i requires 0 <= i < |times| => Timeout(times[i]))
  }

  /** Timeout events drive the presenter exactly as its ticks do. */
  lemma {:induction false} RunOfTimeouts(app: App, times: seq<int>)
    requires AppValid(app)
    ensures AllValid(Timeouts(times))
    ensures var r := Run(app, Timeouts(times));
      && r.app.presenter == Ticks(app.presenter, times).state
      && r.calls == Ticks(app.presenter, times).calls
      && r.app.selectedId == app.selectedId
    decreases |times|
  {
    if times != [] {
      assert Timeouts(times)[1..] == Timeouts(times[1..]);
      RunOfTimeouts(Handle(app, Timeout(times[0])).app, times[1..]);
    }
  }

  /** The view's state after calls ending in a stop: the bar shows zero of
      `total`, the label reads it, and the button offers to start. */
  lemma RenderEndsStopped(v: ViewState, before: seq<ViewCall>, total: int)
    requires 0 <= total
    ensures var w := Render(v, before + [Progress(total, 0), StopEvent]);
      && w.bar == ProgressBar(total, 0)
      && ReadInfo(w.info) == Some((0, total))
      && w.button == StartButtonLabel
  {
    RenderAppend(v, before, [Progress(total, 0), StopEvent]);
    var u := Render(v, before);
    var w := Apply(u, Progress(total, 0));
    assert Render(u, [Progress(total, 0), StopEvent]) == Render(w, [StopEvent]);
    assert Render(w, [StopEvent]) == Apply(w, StopEvent);
  }

  /** Clicking with preset row `i` selected and the timer idle starts it
      on the row's duration from `now` and relabels the button. */
  lemma ClickStartsPreset(app: App, i: int, now: int)
    requires AppValid(app) && !app.presenter.active
    requires 0 <= i < |CookTypes| && CookTypes[i].id != CustomId && app.selectedId == CookTypes[i].id
    ensures var h := Handle(app, ButtonClicked(None, now));
      && h.calls == [StartEvent]
      && h.app.presenter == State(true, Some(Session(CookTypes[i].name, CookTypes[i].seconds, now, now + CookTypes[i].seconds)))
  {
    PresetIgnoresPrompt(app.presenter, i, None, None, now);
  }

  /** A running timer, ticked every second until one second past its
      deadline: the bar advances second by second, then the message, the
      reset and the stop. */
  lemma RunCountdown(app: App)
    requires AppValid(app) && app.presenter.active
    ensures var x := app.presenter.session.value;
      var r := Run(app, Timeouts(Readings(x.startTime + 1, x.totalTime + 1)));
      && AllValid(Timeouts(Readings(x.startTime + 1, x.totalTime + 1)))
      && !r.app.presenter.active
      && r.calls == seq(x.totalTime, k => Progress(x.totalTime, k + 1))
                    + [Message(x.cookName + ElapsedSuffix), Progress(x.totalTime, 0), StopEvent]
  {
    hide Handle, Run, Render, Tick, Ticks;
    var x := app.presenter.session.value;
    RunOfTimeouts(app, Readings(x.startTime + 1, x.totalTime + 1));
    Countdown(app.presenter);
  }

  /** The only message in a preset run is the completion's. */
  lemma MessagesOfPresetRun(updates: seq<ViewCall>, m: string, total: int)
    requires forall k :: 0 <= k < |updates| ==> updates[k].Progress?
    ensures MessageTexts([StartEvent] + updates + [Message(m)] + [Progress(total, 0), StopEvent]) == [m]
  {
    var reset := [Progress(total, 0), StopEvent];
    assert MessageTexts([StartEvent]) == [] by { assert [StartEvent][1..] == []; }
    assert MessageTexts([Message(m)]) == [m] by { assert [Message(m)][1..] == []; }
    MessageTextsAppend([StartEvent], updates);
    MessageTextsNone(updates);
    MessageTextsNone(reset);
    MessageTextsAppend([StartEvent] + updates, [Message(m)]);
    MessageTextsAppend([StartEvent] + updates + [Message(m)], reset);
  }

  /** What the screen shows after a start, bar updates and the
      completion: one more message, the bar reset, the button relabelled. */
  lemma RenderPresetRun(v: ViewState, updates: seq<ViewCall>, m: string, total: nat)
    requires forall k :: 0 <= k < |updates| ==> updates[k].Progress?
    ensures var w := Render(v, [StartEvent] + updates + [Message(m)] + [Progress(total, 0), StopEvent]);
      && w.messages == v.messages + [m]
      && w.bar == ProgressBar(total, 0)
      && w.button == StartButtonLabel
  {
    var calls := [StartEvent] + updates + [Message(m)] + [Progress(total, 0), StopEvent];
    RenderEndsStopped(v, [StartEvent] + updates + [Message(m)], total);
    MessagesOfPresetRun(updates, m, total);
    RenderMessages(v, calls);
  }

  /** One event and then the rest. */
  lemma RunCons(app: App, e: Event, rest: seq<Event>)
    requires AppValid(app) && EventValid(e) && AllValid(rest)
    ensures AllValid([e] + rest)
    ensures var h := Handle(app, e);
      var t := Run(h.app, rest);
      Run(app, [e] + rest) == Reaction(t.app, h.calls + t.calls)
  {
    AllValidAppend([e], rest);
    assert ([e] + rest)[1..] == rest;
  }

  /** A whole preset run: a click on an idle timer with preset row `i`
      selected, then a timeout every second until one second past the
      deadline. The timer ends stopped with the bar reset, the button
      offers to start again, and exactly one message was shown, naming the
      preset. */
  lemma PresetRun(app: App, i: int, now: int)
    requires AppValid(app) && !app.presenter.active
    requires 0 <= i < |CookTypes| && CookTypes[i].id != CustomId && app.selectedId == CookTypes[i].id
    ensures var events := [ButtonClicked(None, now)] + Timeouts(Readings(now + 1, CookTypes[i].seconds + 1));
      && AllValid(events)
      && var r := Run(app, events);
      && !r.app.presenter.active
      && r.app.view.messages == app.view.messages + [CookTypes[i].name + ElapsedSuffix]
      && r.app.view.bar == ProgressBar(CookTypes[i].seconds, 0)
      && r.app.view.button == StartButtonLabel
  {
    hide Handle, Run, Render, Tick, TimerUserControlEvent;
    var total := CookTypes[i].seconds;
    var name := CookTypes[i].name;
    var ts := Timeouts(Readings(now + 1, total + 1));
    var click := ButtonClicked(None, now);
    ClickStartsPreset(app, i, now);
    var h := Handle(app, click);
    RunCountdown(h.app);
    RunCons(app, click, ts);
    var updates := seq(total, k => Progress(total, k + 1));
    RenderPresetRun(app.view, updates, name + ElapsedSuffix, total);
    var t := Run(h.app, ts);
    assert h.calls + t.calls == [StartEvent] + updates + [Message(name + ElapsedSuffix)] + [Progress(total, 0), StopEvent];
  }

  /** Fruit tea, selected and started at `now`: eight minutes later and
      one tick past them, the message reads "Fruit tea -> Timer elapsed!". */
  lemma FruitTeaRun(app: App, now: int)
    requires AppValid(app) && !app.presenter.active && app.selectedId == 3
    ensures var events := [ButtonClicked(None, now)] + Timeouts(Readings(now + 1, 481));
      && AllValid(events)
      && Run(app, events).app.view.messages == app.view.messages + ["Fruit tea -> Timer elapsed!"]
      && Run(app, events).app.view.bar == ProgressBar(480, 0)
  {
    hide Handle, Run, Render, Tick, TimerUserControlEvent, Timeouts, Readings, AppValid, AllValid;
    assert CookTypes[1] == CookType(3, "Fruit tea", 480);
    assert "Fruit tea" + ElapsedSuffix == "Fruit tea -> Timer elapsed!";
    PresetRun(app, 1, now);
  }
}
