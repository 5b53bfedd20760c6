/** The display side of the passive view (`CookTimerView`): the calls the
    presenter makes on it, and what each call leaves on screen. Widgets are
    reduced to the values the presenter's calls set: the progress bar's
    maximum and value, the info label, the button label, the combo box
    entries and the completion messages shown. */
module View {
  import opened Wrappers
  import opened Decimal
  import opened TimeFormat

  /** Bounds of the custom-time prompt, in minutes (`QInputDialog.getInt`). */
  const MinCustomMinutes := 0
  const MaxCustomMinutes := 300

  /** Button labels: the one the window is built with, and the ones the
      stop and start events set. */
  const InitialButtonLabel := "Start Timer"
  const StartButtonLabel := "Start timer"
  const StopButtonLabel := "Stop timer"

  const ElapsedSuffix := " -> Timer elapsed!"

  /** One call the presenter makes on the view. */
  datatype ViewCall =
    | AskCookTime                                            // askUserForCookTime: the prompt is shown
    | Progress(secondsTotal: int, secondsElapsed: int)       // updateCookTimeProgressBar
    | StartEvent                                             // timerStartEvent
    | StopEvent                                              // timerStoppedEvent
    | Message(text: string)                                  // showTimerElapsedMessage
    | AddEntry(id: int, name: string, cookTimeSeconds: int)  // addCookTypeEntry

  /** A combo box item: its text and the id stored as its item data. */
  datatype ComboEntry = ComboEntry(text: string, id: int)

  datatype ProgressBar = ProgressBar(maximum: int, value: int)

  datatype ViewState = ViewState(
    bar: ProgressBar,
    info: string,
    button: string,
    entries: seq<ComboEntry>,
    messages: seq<string>)

  /** The window as built: empty info label and combo box, the initial
      button label; the bar's initial range is Qt's and is taken as given. */
  function InitialView(bar: ProgressBar): (v: ViewState)
    ensures ReadInfo(v.info) == None
    ensures v.button == "Start Timer" && v.entries == [] && v.messages == [] && v.bar == bar
  {
    ViewState(bar, "", InitialButtonLabel, [], [])
  }

  /** An answer the prompt can give: cancelled, or a whole number of
      minutes within the prompt's bounds. */
  predicate ValidAnswer(answer: Option<int>) {
    answer.Some? ==> MinCustomMinutes <= answer.value <= MaxCustomMinutes
  }

  /** `askUserForCookTime`: the minutes entered, as seconds, or nothing
      when the user cancels. */
  function AskUserForCookTime(answer: Option<int>): (r: Option<int>)
    requires ValidAnswer(answer)
    ensures r.Some? <==> answer.Some?
    ensures r.Some? ==> r.value % SecondsPerMinute == 0 && r.value / SecondsPerMinute == answer.value
    ensures r.Some? ==> 0 <= r.value <= MaxCustomMinutes * SecondsPerMinute
  {
    match answer
    case Some(minutes) => Some(minutes * SecondsPerMinute)
    case None => None
  }

  // ---------------------------------------------------------------------
  // The info label: "<elapsed> / <total>"

  predicate NoSlash(s: string) {
    forall i :: 0 <= i < |s| ==> s[i] != '/'
  }

  function InfoText(secondsElapsed: int, secondsTotal: int): string {
    SecondsFormatTime(secondsElapsed) + " / " + SecondsFormatTime(secondsTotal)
  }

  /** Position of the first '/' in `t`. */
  function FirstSlash(t: string): (r: Option<nat>)
    ensures r.Some? ==> r.value < |t| && t[r.value] == '/' && NoSlash(t[..r.value])
    ensures r.None? ==> NoSlash(t)
  {
    if t == [] then None
    else if t[0] == '/' then Some(0)
    else
      match FirstSlash(t[1..])
      case None => None
      case Some(k) =>
        assert t[..k + 1] == [t[0]] + t[1..][..k];
        Some(k + 1)
  }

  /** Reads the info label back into (elapsed, total). */
  function ReadInfo(text: string): Option<(int, int)> {
    match FirstSlash(text)
    case None => None
    case Some(k) =>
      if 1 <= k && text[k - 1] == ' ' && k + 1 < |text| && text[k + 1] == ' ' then
        match (ReadTime(text[..k - 1]), ReadTime(text[k + 2..]))
        case (Some(e), Some(t)) => Some((e, t))
        case _ => None
      else None
  }

  lemma NoSlashInDigits(s: string)
    requires AllDigits(s)
    ensures NoSlash(s)
  {
  }

  lemma NoSlashConcat(a: string, b: string)
    requires NoSlash(a) && NoSlash(b)
    ensures NoSlash(a + b)
  {
  }

  lemma NoSlashInClock(c: int)
    requires 0 <= c < SecondsPerDay
    ensures NoSlash(Clock(c))
  {
    NoSlashInDigits(NatToString(c / SecondsPerHour));
    NoSlashConcat(NatToString(c / SecondsPerHour), MinutesSeconds(c / SecondsPerMinute % 60, c % SecondsPerMinute));
  }

  lemma NoSlashInDaysPrefix(days: int)
    ensures NoSlash(DaysPrefix(days))
  {
    var n := if days < 0 then -days else days;
    NoSlashInDigits(NatToString(n));
    NoSlashConcat(IntToString(days), DayWord(days));
  }

  lemma NoSlashInFormat(seconds: int)
    ensures NoSlash(SecondsFormatTime(seconds))
  {
    var days := seconds / SecondsPerDay;
    var c := seconds % SecondsPerDay;
    assert seconds == days * SecondsPerDay + c;
    FormatOfParts(days, c);
    hide SecondsFormatTime, Clock, DaysPrefix;
    NoSlashInClock(c);
    NoSlashInDaysPrefix(days);
    NoSlashConcat(if days != 0 then DaysPrefix(days) else "", Clock(c));
  }

  lemma FirstSlashOfInfo(a: string, b: string)
    requires NoSlash(a)
    ensures FirstSlash(a + " / " + b) == Some(|a| + 1)
  {
    var t := a + " / " + b;
    assert t[|a| + 1] == '/';
    assert !NoSlash(t);
    var k := FirstSlash(t).value;
    assert forall i :: 0 <= i < |a| + 1 ==> t[i] != '/';
  }

  /** The info label reads back as the elapsed and total it was built from. */
  lemma ReadInfoOfInfoText(secondsElapsed: int, secondsTotal: int)
    ensures ReadInfo(InfoText(secondsElapsed, secondsTotal)) == Some((secondsElapsed, secondsTotal))
  {
    hide SecondsFormatTime, ReadTime, FirstSlash;
    var a := SecondsFormatTime(secondsElapsed);
    var b := SecondsFormatTime(secondsTotal);
    var t := a + " / " + b;
    NoSlashInFormat(secondsElapsed);
    FirstSlashOfInfo(a, b);
    assert t[..|a|] == a;
    assert t[|a| + 3..] == b;
    ReadTimeOfFormat(secondsElapsed);
    ReadTimeOfFormat(secondsTotal);
  }

  // ---------------------------------------------------------------------
  // The view operations

  /** `updateCookTimeProgressBar`: the maximum always becomes the total,
      the value only moves when the elapsed time lies in [0, total], and
      the label shows both times. */
  function UpdateCookTimeProgressBar(v: ViewState, secondsTotal: int, secondsElapsed: int): (r: ViewState)
    ensures r.bar.maximum == secondsTotal
    ensures 0 <= secondsElapsed <= secondsTotal ==> r.bar.value == secondsElapsed
    ensures !(0 <= secondsElapsed <= secondsTotal) ==> r.bar.value == v.bar.value
    ensures ReadInfo(r.info) == Some((secondsElapsed, secondsTotal))
    ensures r.button == v.button && r.entries == v.entries && r.messages == v.messages
  {
    ReadInfoOfInfoText(secondsElapsed, secondsTotal);
    var value := if secondsElapsed <= secondsTotal && secondsElapsed >= 0 then secondsElapsed else v.bar.value;
    v.(bar := ProgressBar(secondsTotal, value), info := InfoText(secondsElapsed, secondsTotal))
  }

  /** The combo box text of a preset: the name, followed by " - " and the
      formatted duration when the duration is not 0. */
  function EntryText(name: string, cookTimeSeconds: int): (r: string)
    ensures cookTimeSeconds == 0 ==> r == name
    ensures cookTimeSeconds != 0 ==>
      && |name| + 3 <= |r|
      && r[..|name|] == name
      && r[|name|..|name| + 3] == " - "
      && ReadTime(r[|name| + 3..]) == Some(cookTimeSeconds)
  {
    if cookTimeSeconds != 0 then
      var r := name + " - " + SecondsFormatTime(cookTimeSeconds);
      ReadTimeOfFormat(cookTimeSeconds);
      assert r[|name| + 3..] == SecondsFormatTime(cookTimeSeconds);
      r
    else name
  }

  /** `addCookTypeEntry`: appends one item, keeping the ones before it. */
  function AddCookTypeEntry(v: ViewState, id: int, name: string, cookTimeSeconds: int): (r: ViewState)
    ensures r.entries == v.entries + [ComboEntry(EntryText(name, cookTimeSeconds), id)]
    ensures r.bar == v.bar && r.info == v.info && r.button == v.button && r.messages == v.messages
  {
    v.(entries := v.entries + [ComboEntry(EntryText(name, cookTimeSeconds), id)])
  }

  /** What one call leaves on screen. The prompt and the message box are
      modal and gone once the call returns; the message is recorded. */
  function Apply(v: ViewState, call: ViewCall): ViewState {
    match call
    case AskCookTime => v
    case Progress(total, elapsed) => UpdateCookTimeProgressBar(v, total, elapsed)
    case StartEvent => v.(button := StopButtonLabel)
    case StopEvent => v.(button := StartButtonLabel)
    case Message(text) => v.(messages := v.messages + [text])
    case AddEntry(id, name, seconds) => AddCookTypeEntry(v, id, name, seconds)
  }

  /** The screen after a sequence of calls, in order. */
  function Render(v: ViewState, calls: seq<ViewCall>): ViewState
    decreases |calls|
  {
    if calls == [] then v else Render(Apply(v, calls[0]), calls[1..])
  }

  /** Rendering two traces one after the other is rendering their concatenation. */
  lemma {:induction false} RenderAppend(v: ViewState, a: seq<ViewCall>, b: seq<ViewCall>)
    ensures Render(v, a + b) == Render(Render(v, a), b)
    decreases |a|
  {
    if a != [] {
      assert (a + b)[1..] == a[1..] + b;
      RenderAppend(Apply(v, a[0]), a[1..], b);
    } else {
      assert a + b == b;
    }
  }

  /** Calls that leave the combo box alone: none of them adds an item. */
  predicate KeepsEntries(calls: seq<ViewCall>) {
    forall i :: 0 <= i < |calls| ==> !calls[i].AddEntry?
  }

  /** What one call changes: only the start and stop events relabel the
      button, only the completion box adds a message, only
      `addCookTypeEntry` adds an item and only a progress update moves the
      bar and the label. */
  lemma ApplyEffects(v: ViewState, call: ViewCall)
    ensures var r := Apply(v, call);
      && r.button == LastLabel(v.button, [call])
      && r.messages == v.messages + MessageTexts([call])
      && (KeepsEntries([call]) ==> r.entries == v.entries)
      && (!call.Progress? ==> r.bar == v.bar && r.info == v.info)
  {
  }

  /** Only `addCookTypeEntry` changes the combo box. */
  lemma {:induction false} RenderKeepsEntries(v: ViewState, calls: seq<ViewCall>)
    requires KeepsEntries(calls)
    ensures Render(v, calls).entries == v.entries
    decreases |calls|
  {
    if calls != [] {
      assert !calls[0].AddEntry?;
      RenderKeepsEntries(Apply(v, calls[0]), calls[1..]);
    }
  }

  /** The button's label after `calls`, read from the end: the last start
      or stop event decides, and with neither the label stays `shown`. */
  function LastLabel(shown: string, calls: seq<ViewCall>): string
    decreases |calls|
  {
    if calls == [] then shown
    else match calls[|calls| - 1]
      case StartEvent => StopButtonLabel
      case StopEvent => StartButtonLabel
      case _ => LastLabel(shown, calls[..|calls| - 1])
  }

  /** Only `timerStartEvent` and `timerStoppedEvent` relabel the button. */
  lemma {:induction false} RenderButton(v: ViewState, calls: seq<ViewCall>)
    ensures Render(v, calls).button == LastLabel(v.button, calls)
    decreases |calls|
  {
    if calls != [] {
      var init := calls[..|calls| - 1];
      var last := calls[|calls| - 1];
      assert calls == init + [last];
      RenderAppend(v, init, [last]);
      RenderButton(v, init);
      assert Render(Render(v, init), [last]) == Apply(Render(v, init), last);
    }
  }

  /** The texts of the message boxes among `calls`, in order. */
  function MessageTexts(calls: seq<ViewCall>): seq<string>
    decreases |calls|
  {
    if calls == [] then []
    else (if calls[0].Message? then [calls[0].text] else []) + MessageTexts(calls[1..])
  }

  lemma {:induction false} MessageTextsAppend(a: seq<ViewCall>, b: seq<ViewCall>)
    ensures MessageTexts(a + b) == MessageTexts(a) + MessageTexts(b)
    decreases |a|
  {
    if a == [] {
      assert a + b == b;
    } else {
      assert (a + b)[1..] == a[1..] + b;
      MessageTextsAppend(a[1..], b);
    }
  }

  lemma {:induction false} MessageTextsNone(calls: seq<ViewCall>)
    requires forall i :: 0 <= i < |calls| ==> !calls[i].Message?
    ensures MessageTexts(calls) == []
    decreases |calls|
  {
    if calls != [] {
      MessageTextsNone(calls[1..]);
    }
  }

  /** Only `showTimerElapsedMessage` adds to the messages seen, one per call. */
  lemma {:induction false} RenderMessages(v: ViewState, calls: seq<ViewCall>)
    ensures Render(v, calls).messages == v.messages + MessageTexts(calls)
    decreases |calls|
  {
    if calls != [] {
      RenderMessages(Apply(v, calls[0]), calls[1..]);
    }
  }
}
