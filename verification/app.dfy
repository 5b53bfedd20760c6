/** The running application: the view's widgets wired to the presenter.
    The view forwards the button click (`_timerControlEvent`) and the
    combo box's index change (`_currentIndexChanged`), and the tick timer
    delivers timeouts; every call the presenter makes is applied to the
    view's state. */
module App {
  import opened Wrappers
  import opened Catalog
  import opened View
  import opened Presenter

  /** The presenter's state, what the view shows, and the id the view
      stores for the selected combo box item (`_curCookTypeId`). */
  datatype App = App(presenter: State, view: ViewState, selectedId: int)

  datatype Event =
    | ButtonClicked(answer: Option<int>, now: int)  // the prompt's answer, should it be asked, and the clock
    | IndexChanged(index: int)                      // the combo box index now selected
    | Timeout(now: int)                             // one tick of the timer, and the clock

  /** The application after an event, and the view calls the event caused. */
  datatype Reaction = Reaction(app: App, calls: seq<ViewCall>)

  /** The combo box holds one item per table row, in table order, each
      labelled by `EntryText` and carrying the row's id. */
  predicate ShowsCatalog(entries: seq<ComboEntry>) {
    && |entries| == |CookTypes|
    && forall i :: 0 <= i < |entries| ==>
         entries[i] == ComboEntry(EntryText(CookTypes[i].name, CookTypes[i].seconds), CookTypes[i].id)
  }

  /** The combo box items carry the table's ids, in table order: all the
      presenter relies on when the view reports a selection. */
  predicate CarriesIds(entries: seq<ComboEntry>) {
    && |entries| == |CookTypes|
    && forall i :: 0 <= i < |entries| ==> entries[i].id == CookTypes[i].id
  }

  predicate AppValid(app: App) {
    && Valid(app.presenter)
    && CarriesIds(app.view.entries)
    && HasId(CookTypes, app.selectedId)
  }

  /** The button offers to stop exactly while the timer runs. */
  predicate ButtonInSync(app: App) {
    app.view.button == StopButtonLabel <==> app.presenter.active
  }

  predicate EventValid(e: Event) {
    match e
    case ButtonClicked(answer, _) => ValidAnswer(answer)
    case IndexChanged(index) => 0 <= index < |CookTypes|
    case Timeout(_) => true
  }

  /** The combo box item an `addCookTypeEntry` call appends. */
  function EntryOf(c: ViewCall): ComboEntry
    requires c.AddEntry?
  {
    ComboEntry(EntryText(c.name, c.cookTimeSeconds), c.id)
  }

  /** Applying calls made only of `AddEntry` appends one item per call, in
      call order, and touches nothing else. */
  lemma {:induction false} RenderEntries(v: ViewState, calls: seq<ViewCall>)
    requires forall i :: 0 <= i < |calls| ==> calls[i].AddEntry?
    ensures var r := Render(v, calls);
      && |r.entries| == |v.entries| + |calls|
      && r.entries[..|v.entries|] == v.entries
      && (forall i :: 0 <= i < |calls| ==> r.entries[|v.entries| + i] == EntryOf(calls[i]))
      && r.bar == v.bar && r.info == v.info && r.button == v.button && r.messages == v.messages
    decreases |calls|
  {
    if calls != [] {
      var v' := Apply(v, calls[0]);
      assert v'.entries == v.entries + [EntryOf(calls[0])];
      RenderEntries(v', calls[1..]);
      var r := Render(v, calls);
      assert r == Render(v', calls[1..]);
      assert r.entries[..|v'.entries|] == v'.entries;
      assert r.entries[..|v.entries|] == v'.entries[..|v.entries|];
      forall i | 0 <= i < |calls|
        ensures r.entries[|v.entries| + i] == EntryOf(calls[i])
      {
        if i == 0 {
          assert r.entries[|v.entries|] == v'.entries[|v.entries|];
        } else {
          assert calls[i] == calls[1..][i - 1];
          assert r.entries[|v.entries| + i] == r.entries[|v'.entries| + (i - 1)];
        }
      }
    }
  }

  /** The window as it comes up: `initUI` builds the presenter, whose
      construction loads the table into the combo box (`loadCookTypes`),
      and `_initDefaults` then reports index 0 as selected, which the idle
      presenter ignores. */
  method Startup(bar: ProgressBar) returns (app: App, calls: seq<ViewCall>)
    ensures AppValid(app)
    ensures app.presenter == Initial
    ensures app.selectedId == CookTypes[0].id
    ensures app.view == Render(InitialView(bar), calls)
    ensures app.view.bar == bar && app.view.button == InitialButtonLabel && app.view.messages == []
    ensures ButtonInSync(app)
    ensures ShowsCatalog(app.view.entries)
    ensures |calls| == |CookTypes| && forall i :: 0 <= i < |calls| ==> calls[i].AddEntry?
  {
    calls := LoadCookTypes();
    var view := Render(InitialView(bar), calls);
    RenderEntries(InitialView(bar), calls);
    assert ShowsCatalog(view.entries) by {
      forall i | 0 <= i < |view.entries|
        ensures view.entries[i] == ComboEntry(EntryText(CookTypes[i].name, CookTypes[i].seconds), CookTypes[i].id)
      {
        assert view.entries[0 + i] == EntryOf(calls[i]);
      }
    }
    var step := CookTypeUserControlEvent(Initial);
    assert step.calls == [];
    assert HasId(CookTypes, view.entries[0].id);
    app := App(step.state, view, view.entries[0].id);
  }

  /** The application once the presenter has taken `step` and the view
      has applied its calls. */
  function Commit(app: App, step: Step, selectedId: int): (r: Reaction)
    requires CarriesIds(app.view.entries) && HasId(CookTypes, selectedId)
    requires Valid(step.state) && KeepsEntries(step.calls)
    ensures AppValid(r.app)
    ensures r.app.presenter == step.state && r.app.selectedId == selectedId
    ensures r.calls == step.calls && r.app.view == Render(app.view, r.calls)
    ensures r.app.view.entries == app.view.entries
  {
    RenderKeepsEntries(app.view, step.calls);
    Reaction(App(step.state, Render(app.view, step.calls), selectedId), step.calls)
  }

  /** How the application reacts to one event. A click never raises: the
      stored id always names a table row. */
  function Handle(app: App, e: Event): (r: Reaction)
    requires AppValid(app) && EventValid(e)
    ensures AppValid(r.app)
    ensures r.app.view == Render(app.view, r.calls)
    ensures r.app.view.entries == app.view.entries
  {
    match e
    case ButtonClicked(answer, now) =>
      (match TimerUserControlEvent(app.presenter, app.selectedId, answer, now)
       case Success(step) => Commit(app, step, app.selectedId)
       case Failure(_) => assert false; Reaction(app, []))
    case IndexChanged(index) =>
      assert app.view.entries[index].id == CookTypes[index].id;
      Commit(app, CookTypeUserControlEvent(app.presenter), app.view.entries[index].id)
    case Timeout(now) =>
      Commit(app, Tick(app.presenter, now), app.selectedId)
  }

  /** Which presenter transition each event runs: a click goes to
      `timerUserControlEvent`, which never fails here; a selection change
      stores the chosen item's id (`itemData(index)`) and goes to
      `cookTypeUserControlEvent`; a timeout is a tick. */
  lemma HandleDispatch(app: App, e: Event)
    requires AppValid(app) && EventValid(e)
    ensures var r := Handle(app, e);
      e.ButtonClicked? ==>
        var t := TimerUserControlEvent(app.presenter, app.selectedId, e.answer, e.now);
        && t.Success?
        && r.app.presenter == t.value.state && r.calls == t.value.calls
        && r.app.selectedId == app.selectedId
    ensures var r := Handle(app, e);
      e.IndexChanged? ==>
        var t := CookTypeUserControlEvent(app.presenter);
        && r.app.selectedId == CookTypes[e.index].id
        && r.app.presenter == t.state && r.calls == t.calls
    ensures var r := Handle(app, e);
      e.Timeout? ==>
        var t := Tick(app.presenter, e.now);
        && r.app.presenter == t.state && r.calls == t.calls
        && r.app.selectedId == app.selectedId
  {
  }

  predicate AllValid(events: seq<Event>) {
    forall i :: 0 <= i < |events| ==> EventValid(events[i])
  }

  /** How the application reacts to a sequence of events, in order. */
  function Run(app: App, events: seq<Event>): (r: Reaction)
    requires AppValid(app) && AllValid(events)
    ensures AppValid(r.app)
    ensures r.app.view == Render(app.view, r.calls)
    ensures r.app.view.entries == app.view.entries
    decreases |events|
  {
    if events == [] then Reaction(app, [])
    else
      var first := Handle(app, events[0]);
      var rest := Run(first.app, events[1..]);
      RenderAppend(app.view, first.calls, rest.calls);
      Reaction(rest.app, first.calls + rest.calls)
  }
}
