/** The window watchdog: a list of the target process's open windows that is
    brought up to date once per polling tick, reporting each window that
    appears (opened) and each that disappears (closed). The OS enumeration of
    the process's windows is the `current` snapshot handed to each tick, and
    the opened / closed delegate calls are recorded, in call order, in the
    `notifications` log. */
module Watchdog {
  import opened Windows
  import opened Diff

  /** One delegate call: `WindowOpened` or `WindowClosed`, with its window. */
  datatype Event = Opened(window: Window) | Closed(window: Window)

  function OpenedEvents(ws: seq<Window>): seq<Event>
  {
    seq(|ws|, i requires 0 <= i < |ws| => Opened(ws[i]))
  }

  function ClosedEvents(ws: seq<Window>): seq<Event>
  {
    seq(|ws|, i requires 0 <= i < |ws| => Closed(ws[i]))
  }

  /** The handles reported opened, and those reported closed, in a log. */
  function OpenedHandles(ev: seq<Event>): set<int>
  {
    set i | 0 <= i < |ev| && ev[i].Opened? :: ev[i].window.hwnd
  }

  function ClosedHandles(ev: seq<Event>): set<int>
  {
    set i | 0 <= i < |ev| && ev[i].Closed? :: ev[i].window.hwnd
  }

  /** The watchdog's list of open windows and its notification log. */
  datatype State = State(open: seq<Window>, log: seq<Event>)

  /** One tick: the new-window check, then the closed-window check. */
  function Tick(s: State, current: seq<Window>, childTree: int -> seq<Window>): State
  {
    var added := EnrichAll(FirstSeen(s.open, current), childTree);
    var grown := s.open + added;
    State(Retained(grown, current), s.log + OpenedEvents(added) + ClosedEvents(Departed(grown, current)))
  }

  /** Successive ticks over a run of snapshots. */
  function Run(s: State, snapshots: seq<seq<Window>>, childTree: int -> seq<Window>): State
  {
    if snapshots == [] then s
    else Tick(Run(s, snapshots[..|snapshots| - 1], childTree), snapshots[|snapshots| - 1], childTree)
  }

  /** The tick at which the first stop request lands. */
  function StopTick(stopDuring: seq<bool>): (k: nat)
    requires true in stopDuring
    ensures k < |stopDuring| && stopDuring[k]
    ensures forall j | 0 <= j < k :: !stopDuring[j]
  {
    if stopDuring[0] then 0 else 1 + StopTick(stopDuring[1..])
  }

  lemma EventHandles(added: seq<Window>, gone: seq<Window>)
    ensures OpenedHandles(OpenedEvents(added) + ClosedEvents(gone)) == Handles(added)
    ensures ClosedHandles(OpenedEvents(added) + ClosedEvents(gone)) == Handles(gone)
  {
    var ev := OpenedEvents(added) + ClosedEvents(gone);
    assert forall i | 0 <= i < |added| :: ev[i] == Opened(added[i]);
    assert forall i | 0 <= i < |gone| :: ev[|added| + i] == Closed(gone[i]);
  }

  lemma LogHandlesEmpty(ev: seq<Event>)
    ensures ev == [] <==> OpenedHandles(ev) + ClosedHandles(ev) == {}
  {
    if ev != [] {
      assert ev[0].window.hwnd in OpenedHandles(ev) + ClosedHandles(ev);
    }
  }

  /** Appending windows with the same handles keeps handles distinct exactly
      as appending the unenriched windows does. */
  lemma DistinctEnriched(open: seq<Window>, ws: seq<Window>, childTree: int -> seq<Window>)
    requires DistinctHandles(open + ws)
    ensures DistinctHandles(open + EnrichAll(ws, childTree))
  {
    var a, b := open + ws, open + EnrichAll(ws, childTree);
    assert forall i | 0 <= i < |b| :: b[i].hwnd == a[i].hwnd;
  }

  /** After one tick the open list holds exactly the handles of the snapshot,
      still pairwise distinct; the survivors keep their order and their
      window objects; the log only grows. */
  lemma TickState(s: State, current: seq<Window>, childTree: int -> seq<Window>)
    requires DistinctHandles(s.open)
    ensures Handles(Tick(s, current, childTree).open) == Handles(current)
    ensures DistinctHandles(Tick(s, current, childTree).open)
    ensures IsSubsequence(Tick(s, current, childTree).open, s.open + EnrichAll(FirstSeen(s.open, current), childTree))
    ensures s.log <= Tick(s, current, childTree).log
  {
    var firsts := FirstSeen(s.open, current);
    var added := EnrichAll(firsts, childTree);
    var grown := s.open + added;
    FirstSeenHandles(s.open, current);
    EnrichAllHandles(firsts, childTree);
    HandlesAppend(s.open, added);
    PartitionHandles(grown, current);
    PartitionSpec(grown, current);
    FirstSeenDistinct(s.open, current);
    DistinctEnriched(s.open, firsts, childTree);
    SubsequenceDistinct(Retained(grown, current), grown);
  }

  /** The notifications one tick adds to the log: the opened windows, then
      the departed ones. */
  lemma TickLog(s: State, current: seq<Window>, childTree: int -> seq<Window>)
    ensures var added := EnrichAll(FirstSeen(s.open, current), childTree);
      Tick(s, current, childTree).log[|s.log|..] == OpenedEvents(added) + ClosedEvents(Departed(s.open + added, current))
  {
  }

  /** The notifications of one tick report as opened exactly the new
      handles and as closed exactly the vanished ones; no handle is both. */
  lemma TickEvents(s: State, current: seq<Window>, childTree: int -> seq<Window>)
    ensures var ev := Tick(s, current, childTree).log[|s.log|..];
      && OpenedHandles(ev) == Handles(current) - Handles(s.open)
      && ClosedHandles(ev) == Handles(s.open) - Handles(current)
      && OpenedHandles(ev) * ClosedHandles(ev) == {}
  {
    var firsts := FirstSeen(s.open, current);
    var added := EnrichAll(firsts, childTree);
    var grown := s.open + added;
    var gone := Departed(grown, current);
    TickLog(s, current, childTree);
    EventHandles(added, gone);
    FirstSeenHandles(s.open, current);
    EnrichAllHandles(firsts, childTree);
    HandlesAppend(s.open, added);
    PartitionHandles(grown, current);
  }

  /** Within one tick every opened notification precedes every closed one,
      and a closed notification carries the window object held from before
      the tick, not one built from this tick's snapshot. */
  lemma TickEventOrder(s: State, current: seq<Window>, childTree: int -> seq<Window>)
    ensures var ev := Tick(s, current, childTree).log[|s.log|..];
      && (forall i, j | 0 <= i < j < |ev| && ev[i].Closed? :: ev[j].Closed?)
      && (forall i | 0 <= i < |ev| && ev[i].Closed? :: ev[i].window in s.open)
  {
    var firsts := FirstSeen(s.open, current);
    var added := EnrichAll(firsts, childTree);
    var grown := s.open + added;
    var gone := Departed(grown, current);
    var ev := Tick(s, current, childTree).log[|s.log|..];
    TickLog(s, current, childTree);
    FirstSeenHandles(s.open, current);
    EnrichAllHandles(firsts, childTree);
    PartitionSpec(grown, current);
    forall i | 0 <= i < |ev| && ev[i].Closed? ensures ev[i].window in s.open {
      var w := gone[i - |added|];
      assert ev[i].window == w && w in gone;
      MemberHandle(added, w);
      assert w in grown;
    }
  }

  /** A tick reports nothing exactly when the snapshot's handles are the
      handles already held. */
  lemma TickQuiet(s: State, current: seq<Window>, childTree: int -> seq<Window>)
    ensures Tick(s, current, childTree).log == s.log <==> Handles(s.open) == Handles(current)
  {
    var t := Tick(s, current, childTree);
    TickEvents(s, current, childTree);
    var ev := t.log[|s.log|..];
    assert t.log == s.log + ev;
    LogHandlesEmpty(ev);
    var o, c := Handles(s.open), Handles(current);
    assert (c - o) + (o - c) == {} <==> o == c;
  }

  /** Over any run of ticks the open list keeps distinct handles, and after
      at least one tick it holds exactly the handles of the last snapshot. */
  lemma {:induction false} RunState(s: State, snapshots: seq<seq<Window>>, childTree: int -> seq<Window>)
    requires DistinctHandles(s.open)
    ensures DistinctHandles(Run(s, snapshots, childTree).open)
    ensures snapshots != [] ==> Handles(Run(s, snapshots, childTree).open) == Handles(snapshots[|snapshots| - 1])
    ensures s.log <= Run(s, snapshots, childTree).log
  {
    if snapshots != [] {
      var before := Run(s, snapshots[..|snapshots| - 1], childTree);
      RunState(s, snapshots[..|snapshots| - 1], childTree);
      TickState(before, snapshots[|snapshots| - 1], childTree);
    }
  }

  class WindowWatchdog {
    /** The process name, without extension, whose windows are watched. */
    const processName: string
    /** `m_openWindows` */
    var openWindows: seq<Window>
    /** `m_continue` */
    var running: bool
    /** The `WindowOpened` / `WindowClosed` calls made so far, in order. */
    var notifications: seq<Event>

    ghost predicate Valid()
      reads this
    {
      DistinctHandles(openWindows)
    }

    constructor(processName: string)
      ensures Valid()
      ensures this.processName == processName && openWindows == [] && running && notifications == []
    {
      this.processName := processName;
      openWindows := [];
      running := true;
      notifications := [];
    }

    /** The retained list and the event log, as a value. */
    function AsState(): State
      reads this
    {
      State(openWindows, notifications)
    }

    /** Appends each window of `current` whose handle is not yet held, after
        capturing its child tree, and reports it opened. */
    method CheckNewWindows(current: seq<Window>, childTree: int -> seq<Window>)
      requires Valid()
      modifies this`openWindows, this`notifications
      ensures Valid()
      ensures openWindows == old(openWindows) + EnrichAll(FirstSeen(old(openWindows), current), childTree)
      ensures notifications == old(notifications) + OpenedEvents(EnrichAll(FirstSeen(old(openWindows), current), childTree))
    {
      ghost var open0 := openWindows;
      var i := 0;
      while i < |current|
        invariant 0 <= i <= |current|
        invariant openWindows == open0 + EnrichAll(FirstSeen(open0, current[..i]), childTree)
        invariant notifications == old(notifications) + OpenedEvents(EnrichAll(FirstSeen(open0, current[..i]), childTree))
      {
        var w := current[i];
        ghost var earlier := FirstSeen(open0, current[..i]);
        assert current[..i + 1][..i] == current[..i];
        FindByHandle(openWindows, w.hwnd);
        HandlesAppend(open0, EnrichAll(earlier, childTree));
        EnrichAllHandles(earlier, childTree);
        if Find(openWindows, (ow: Window) => ow.hwnd == w.hwnd).None? {
          var e := Enrich(w, childTree);
          openWindows := openWindows + [e];
          notifications := notifications + [Opened(e)];
          EnrichAllAppend(earlier, w, childTree);
        }
        i := i + 1;
      }
      assert current[..i] == current;
      FirstSeenDistinct(open0, current);
      DistinctEnriched(open0, FirstSeen(open0, current), childTree);
    }

    /** Removes each window whose handle is absent from `current` and reports
        it closed, with the window object held until now. */
    method CheckClosedWindows(current: seq<Window>)
      requires Valid()
      modifies this`openWindows, this`notifications
      ensures Valid()
      ensures openWindows == Retained(old(openWindows), current)
      ensures notifications == old(notifications) + ClosedEvents(Departed(old(openWindows), current))
    {
      var closed := Departed(openWindows, current);
      ghost var kept := Retained(openWindows, current);
      RemoveClosedIsRetained(openWindows, current);
      RetainedDistinct(openWindows, current);
      openWindows := RemoveClosed(openWindows, closed);
      var i := 0;
      while i < |closed|
        invariant 0 <= i <= |closed|
        invariant openWindows == kept
        invariant notifications == old(notifications) + ClosedEvents(closed[..i])
      {
        notifications := notifications + [Closed(closed[i])];
        i := i + 1;
        assert closed[..i] == closed[..i - 1] + [closed[i - 1]];
      }
      assert closed[..i] == closed;
    }

    /** Asks the polling loop to finish; any number of calls has the effect
        of one. */
    method Stop()
      modifies this`running
      ensures !running
    {
      running := false;
    }

    /** The polling loop. Tick `i` sees `snapshots[i]` as the process's
        current windows; `stopDuring[i]` says a `Stop` call from another
        thread lands while tick `i` is in progress. The flag is read only
        before each tick, so the tick in progress runs to completion and the
        loop ends right after the first tick during which a stop lands (or at
        once, when stopped before the loop starts). */
    method WatchExe(snapshots: seq<seq<Window>>, childTree: int -> seq<Window>, stopDuring: seq<bool>)
      requires Valid()
      requires |stopDuring| == |snapshots|
      requires running ==> true in stopDuring
      modifies this`openWindows, this`notifications, this`running
      ensures Valid() && !running
      ensures old(running) ==> AsState() == Run(old(AsState()), snapshots[..StopTick(stopDuring) + 1], childTree)
      ensures !old(running) ==> AsState() == old(AsState())
    {
      ghost var start := AsState();
      var i := 0;
      while running
        invariant Valid()
        invariant 0 <= i <= |snapshots|
        invariant running ==> old(running) && i <= StopTick(stopDuring)
        invariant !running && old(running) ==> i == StopTick(stopDuring) + 1
        invariant !old(running) ==> i == 0
        invariant AsState() == Run(start, snapshots[..i], childTree)
        decreases |snapshots| - i
      {
        var current := snapshots[i];
        CheckNewWindows(current, childTree);
        CheckClosedWindows(current);
        if stopDuring[i] {
          Stop();
        }
        i := i + 1;
        assert snapshots[..i][..i - 1] == snapshots[..i - 1];
      }
    }
  }
}
