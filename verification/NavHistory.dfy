// The navigation bar's history: a bounded list with a wrapping cursor and a clear entry at its end.

module NavHistory {

  const MAX_COUNT := 100

  // `clear` is the text of the last entry, tr("Clear..."), in the language of the user.
  datatype Bar = Bar(clear: string, items: seq<string>, pos: int)

  function NewBar(clear: string): Bar {
    Bar(clear, [clear], -1)
  }

  /** onComboBoxEditTextChanged: showing the clear entry's text empties the history. */
  function TextShown(b: Bar, text: string): (b': Bar)
    ensures b.items != [] ==> b'.items != []
  {
    if text == b.clear && b.items != [] then b.(items := b.items[|b.items| - 1..], pos := -1) else b
  }

  function PushItem(b: Bar, path: string): (b': Bar)
    requires b.items != []
    ensures b'.items != []
  {
    var at := |b.items| - 1;
    var items := b.items[..at] + [path] + b.items[at..];
    var kept := if |items| > MAX_COUNT then items[1..] else items;
    b.(items := kept, pos := |kept| - 2)
  }

  /** onSetHome, onNavToPath and the pushing part of onGoUp. */
  function Navigate(b: Bar, path: string): (b': Bar)
    requires b.items != []
    ensures b'.items != []
  {
    PushItem(TextShown(b, path), path)
  }

  function Previous(b: Bar): (b': Bar)
    requires b.items != []
    ensures b'.items != []
  {
    var p2 := |b.items| - 2;
    var p1 := if b.pos - 1 < 0 then p2 else b.pos - 1;
    if p1 < 0 || (p1 == 0 && p2 == 0) || p1 >= |b.items| then b else TextShown(b.(pos := p1), b.items[p1])
  }

  function Forward(b: Bar): (b': Bar)
    requires b.items != []
    ensures b'.items != []
  {
    var p2 := |b.items| - 2;
    var p1 := if b.pos + 1 > p2 then 0 else b.pos + 1;
    if (p1 == 0 && p2 == 0) || p1 < 0 then b else TextShown(b.(pos := p1), b.items[p1])
  }

  // ----- Every run -----

  datatype Event = Nav(path: string) | Prev | Next | Clear

  function Step(b: Bar, e: Event): (b': Bar)
    requires b.items != []
    ensures b'.items != []
  {
    match e
    case Nav(path) => Navigate(b, path)
    case Prev => Previous(b)
    case Next => Forward(b)
    case Clear => TextShown(b, b.clear)
  }

  function Run(clear: string, events: seq<Event>): (b: Bar)
    ensures b.items != []
  {
    if events == [] then NewBar(clear) else Step(Run(clear, events[..|events| - 1]), events[|events| - 1])
  }

  /** The paths pushed since the history was last emptied: by the user, or by showing an entry
      that reads like the clear entry. */
  function Pushed(clear: string, events: seq<Event>): seq<string> {
    if events == [] then []
    else
      var front, e := events[..|events| - 1], events[|events| - 1];
      match e
      case Nav(path) => (if path == clear then [] else Pushed(clear, front)) + [path]
      case Clear => []
      case Prev => if Step(Run(clear, front), Prev).pos == -1 then [] else Pushed(clear, front)
      case Next => if Step(Run(clear, front), Next).pos == -1 then [] else Pushed(clear, front)
  }

  function LastOf(s: seq<string>, n: nat): seq<string> {
    if |s| <= n then s else s[|s| - n..]
  }

  ghost predicate Holds(b: Bar, pushed: seq<string>) {
    && b.items == LastOf(pushed, MAX_COUNT - 1) + [b.clear]
    && (if pushed == [] then b.pos == -1 else 0 <= b.pos <= |b.items| - 2)
  }

  lemma {:induction false} LastOfMore(pushed: seq<string>, path: string)
    ensures var last := LastOf(pushed, MAX_COUNT - 1);
      LastOf(pushed + [path], MAX_COUNT - 1) == if |last| < MAX_COUNT - 1 then last + [path] else last[1..] + [path]
  {
  }

  lemma {:induction false} PushedItems(last: seq<string>, path: string, clear: string)
    ensures var items := last + [clear]; var at := |items| - 1;
      items[..at] + [path] + items[at..] == last + [path] + [clear]
    ensures last != [] ==> (last + [path] + [clear])[1..] == last[1..] + [path] + [clear]
  {
  }

  lemma {:induction false} NavigateHolds(b: Bar, pushed: seq<string>, path: string)
    requires Holds(b, pushed) && path != b.clear
    ensures Holds(Navigate(b, path), pushed + [path]) && Navigate(b, path).pos == |Navigate(b, path).items| - 2
  {
    LastOfMore(pushed, path);
    PushedItems(LastOf(pushed, MAX_COUNT - 1), path, b.clear);
  }

  /** Showing the clear entry's text leaves just that entry. */
  lemma {:induction false} ClearedHolds(b: Bar, pushed: seq<string>)
    requires Holds(b, pushed)
    ensures TextShown(b, b.clear) == NewBar(b.clear) && Holds(NewBar(b.clear), [])
  {
    assert b.items[|b.items| - 1..] == [b.clear];
    assert LastOf([], MAX_COUNT - 1) == [];
  }

  lemma {:induction false} MoveHolds(b: Bar, pushed: seq<string>, p: int)
    requires Holds(b, pushed)
    ensures 0 <= p < |b.items| ==>
      var b' := TextShown(b.(pos := p), b.items[p]);
      b'.clear == b.clear && (b'.pos == -1 ==> b' == NewBar(b.clear)) && (b'.pos != -1 ==> b' == b.(pos := p))
    ensures 0 <= p < |b.items| && pushed == [] ==> TextShown(b.(pos := p), b.items[p]).pos == -1
    ensures 0 <= p < |b.items| && p == |b.items| - 1 ==> TextShown(b.(pos := p), b.items[p]).pos == -1
  {
    assert b.items[|b.items| - 1..] == [b.clear];
  }

  lemma {:induction false} PreviousHolds(b: Bar, pushed: seq<string>)
    requires Holds(b, pushed)
    ensures var b' := Previous(b);
      b'.clear == b.clear && Holds(b', if b'.pos == -1 then [] else pushed)
  {
    ClearedHolds(b, pushed);
    MoveHolds(b, pushed, if b.pos - 1 < 0 then |b.items| - 2 else b.pos - 1);
  }

  lemma {:induction false} ForwardHolds(b: Bar, pushed: seq<string>)
    requires Holds(b, pushed)
    ensures var b' := Forward(b);
      b'.clear == b.clear && Holds(b', if b'.pos == -1 then [] else pushed)
  {
    ClearedHolds(b, pushed);
    MoveHolds(b, pushed, if b.pos + 1 > |b.items| - 2 then 0 else b.pos + 1);
  }

  lemma {:induction false} NavigateToClear(b: Bar, pushed: seq<string>)
    requires Holds(b, pushed)
    ensures Navigate(b, b.clear).clear == b.clear && Holds(Navigate(b, b.clear), [b.clear])
  {
    ClearedHolds(b, pushed);
    assert PushItem(NewBar(b.clear), b.clear).items == [b.clear, b.clear];
    assert LastOf([b.clear], MAX_COUNT - 1) == [b.clear];
  }

  lemma {:induction false} StepHolds(b: Bar, pushed: seq<string>, e: Event)
    requires Holds(b, pushed)
    ensures Step(b, e).clear == b.clear
    ensures Holds(Step(b, e), match e
      case Nav(path) => (if path == b.clear then [] else pushed) + [path]
      case Clear => []
      case Prev => if Step(b, e).pos == -1 then [] else pushed
      case Next => if Step(b, e).pos == -1 then [] else pushed)
  {
    match e
    case Nav(path) =>
      if path == b.clear {
        NavigateToClear(b, pushed);
      } else {
        NavigateHolds(b, pushed, path);
      }
    case Clear => ClearedHolds(b, pushed);
    case Prev => PreviousHolds(b, pushed);
    case Next => ForwardHolds(b, pushed);
  }

  /** In general the list is the last 99 paths pushed since the bar last emptied itself. */
  lemma {:induction false} HistoryTracksPushed(clear: string, events: seq<Event>)
    ensures Run(clear, events).clear == clear && Holds(Run(clear, events), Pushed(clear, events))
    decreases |events|
  {
    if events == [] {
      assert LastOf([], MAX_COUNT - 1) == [];
    } else {
      var front := events[..|events| - 1];
      HistoryTracksPushed(clear, front);
      StepHolds(Run(clear, front), Pushed(clear, front), events[|events| - 1]);
    }
  }

  /** The paths navigated to since the user last cleared the history. */
  function PathsSinceClear(events: seq<Event>): seq<string> {
    if events == [] then []
    else
      var front := PathsSinceClear(events[..|events| - 1]);
      match events[|events| - 1]
      case Nav(path) => front + [path]
      case Clear => []
      case Prev => front
      case Next => front
  }

  /** No path reads like the clear entry. */
  ghost predicate Readable(clear: string, events: seq<Event>) {
    Nav(clear) !in events
  }

  lemma {:induction false} PathsReadable(clear: string, events: seq<Event>)
    requires Readable(clear, events)
    ensures clear !in PathsSinceClear(events)
    decreases |events|
  {
    if events != [] {
      PathsReadable(clear, events[..|events| - 1]);
      assert events[|events| - 1] in events;
    }
  }

  /** Moving over paths that do not read like the clear entry never empties the history. */
  lemma {:induction false} MovesKeepPaths(b: Bar, pushed: seq<string>)
    requires Holds(b, pushed) && b.clear !in pushed && pushed != []
    ensures Previous(b).pos != -1 && Forward(b).pos != -1
  {
    forall i | 0 <= i < |b.items| - 1
      ensures b.items[i] != b.clear
    {
      assert b.items[i] == LastOf(pushed, MAX_COUNT - 1)[i];
      assert b.items[i] in pushed;
    }
  }

  lemma {:induction false} MovesKeepRun(clear: string, events: seq<Event>)
    requires Readable(clear, events) && Pushed(clear, events) == PathsSinceClear(events)
    ensures Pushed(clear, events) != [] ==>
      Step(Run(clear, events), Prev).pos != -1 && Step(Run(clear, events), Next).pos != -1
  {
    PathsReadable(clear, events);
    HistoryTracksPushed(clear, events);
    if Pushed(clear, events) != [] {
      MovesKeepPaths(Run(clear, events), Pushed(clear, events));
    }
  }

  lemma {:induction false} PushedIsPaths(clear: string, events: seq<Event>)
    requires Readable(clear, events)
    ensures Pushed(clear, events) == PathsSinceClear(events)
    decreases |events|
  {
    if events != [] {
      var front := events[..|events| - 1];
      assert events[|events| - 1] in events;
      PushedIsPaths(clear, front);
      MovesKeepRun(clear, front);
    }
  }

  /** After any run whose paths do not read like the clear entry, the list is the last 99 paths navigated to
      since the user last cleared it, in order, and then the clear entry, with the cursor on a path as soon
      as there is one. */
  lemma {:induction false} HistoryIsLastPushed(clear: string, events: seq<Event>)
    requires Readable(clear, events)
    ensures Run(clear, events).clear == clear && Holds(Run(clear, events), PathsSinceClear(events))
    ensures var b, paths := Run(clear, events), PathsSinceClear(events);
      var n := if |paths| < 99 then |paths| else 99;
      && |b.items| == n + 1 && b.items[n] == clear
      && (forall k :: 0 <= k < n ==> b.items[k] == paths[|paths| - n + k])
      && (if paths == [] then b.pos == -1 else 0 <= b.pos < n)
  {
    HistoryTracksPushed(clear, events);
    PushedIsPaths(clear, events);
  }

  /** Navigating adds its path to the history exactly if the path does not read like the clear entry, or
      there is no history to lose. */
  lemma {:induction false} NavigateHoldsIff(b: Bar, pushed: seq<string>, path: string)
    requires Holds(b, pushed)
    ensures Holds(Navigate(b, path), pushed + [path]) <==> path != b.clear || pushed == []
  {
    if path != b.clear {
      NavigateHolds(b, pushed, path);
    } else {
      NavigateToClear(b, pushed);
      LastOfMore(pushed, path);
    }
  }

  /** With two or more paths, none of which reads like the clear entry, both moves are rotations. */
  lemma {:induction false} MovesRotate(b: Bar, pushed: seq<string>)
    requires Holds(b, pushed) && |b.items| >= 3 && forall i :: 0 <= i < |b.items| - 1 ==> b.items[i] != b.clear
    ensures Previous(b) == b.(pos := if b.pos == 0 then |b.items| - 2 else b.pos - 1)
    ensures Forward(b) == b.(pos := if b.pos == |b.items| - 2 then 0 else b.pos + 1)
  {
  }

  /** Previous and next undo each other. */
  lemma {:induction false} PreviousNextInverse(b: Bar, pushed: seq<string>)
    requires Holds(b, pushed) && |b.items| >= 3 && forall i :: 0 <= i < |b.items| - 1 ==> b.items[i] != b.clear
    ensures Forward(Previous(b)) == b && Previous(Forward(b)) == b
  {
    MovesRotate(b, pushed);
    MovesRotate(Previous(b), pushed);
    MovesRotate(Forward(b), pushed);
  }

  // ----- The widget -----

  class DirNavBar {
    const clear: string
    var comboBox: seq<string>
    var dirHistoryCurrentPos: int
    var confirmed: seq<string>  // paths sent out with dirInputConfirmed

    ghost function View(): Bar
      reads this
    {
      Bar(clear, comboBox, dirHistoryCurrentPos)
    }

    constructor (clearText: string)
      ensures View() == NewBar(clearText) && confirmed == []
    {
      clear := clearText;
      comboBox, dirHistoryCurrentPos, confirmed := [clearText], -1, [];
    }

    method SetEditText(text: string)
      requires comboBox != []
      modifies this`comboBox, this`dirHistoryCurrentPos
      ensures View() == TextShown(old(View()), text)
      ensures text != clear ==> View() == old(View())
      ensures text == clear ==> comboBox == [old(comboBox)[|old(comboBox)| - 1]] && dirHistoryCurrentPos == -1
    {
      if text == clear {
        dirHistoryCurrentPos := -1;
        while |comboBox| > 1
          invariant comboBox != [] && comboBox == old(comboBox)[|old(comboBox)| - |comboBox|..]
          invariant |comboBox| <= |old(comboBox)| && dirHistoryCurrentPos == -1
        {
          comboBox := comboBox[1..];
        }
      }
    }

    method NavToPath(path: string)
      requires comboBox != []
      modifies this
      ensures View() == Step(old(View()), Nav(path)) && confirmed == old(confirmed)
    {
      SetEditText(path);
      var insertOffset := |comboBox| - 1;
      comboBox := comboBox[..insertOffset] + [path] + comboBox[insertOffset..];
      if |comboBox| > MAX_COUNT {
        comboBox := comboBox[1..];
      }
      dirHistoryCurrentPos := |comboBox| - 2;
    }

    method GoPrevious()
      requires comboBox != [] && dirHistoryCurrentPos <= |comboBox| - 2
      modifies this
      ensures View() == Step(old(View()), Prev)
      ensures |old(comboBox)| <= 2 ==> View() == old(View()) && confirmed == old(confirmed)
      ensures |old(comboBox)| > 2 ==>
        var pos := old(if dirHistoryCurrentPos <= 0 then |comboBox| - 2 else dirHistoryCurrentPos - 1);
        confirmed == old(confirmed) + [old(comboBox)[pos]]
    {
      var p1 := dirHistoryCurrentPos - 1;
      var p2 := |comboBox| - 2;
      if p1 < 0 {
        p1 := p2;
      }
      if p1 < 0 {
      } else if p1 == 0 && p2 == 0 {
      } else {
        var path := comboBox[p1];
        dirHistoryCurrentPos := p1;
        SetEditText(path);
        confirmed := confirmed + [path];
      }
    }

    /** Unlike going back, going on from an empty history sends out the clear entry itself. */
    method GoNext()
      requires comboBox != [] && -1 <= dirHistoryCurrentPos
      modifies this
      ensures View() == Step(old(View()), Next)
      ensures old(comboBox) == [clear] ==> confirmed == old(confirmed) + [clear]
      ensures |old(comboBox)| == 2 ==> confirmed == old(confirmed)
      ensures |old(comboBox)| > 2 ==>
        var pos := old(if dirHistoryCurrentPos >= |comboBox| - 2 then 0 else dirHistoryCurrentPos + 1);
        confirmed == old(confirmed) + [old(comboBox)[pos]]
    {
      var p1 := dirHistoryCurrentPos + 1;
      var p2 := |comboBox| - 2;
      if p1 > p2 {
        p1 := 0;
      }
      if p1 == 0 && p2 == 0 {
      } else {
        var path := comboBox[p1];
        dirHistoryCurrentPos := p1;
        SetEditText(path);
        confirmed := confirmed + [path];
      }
    }
  }
}
