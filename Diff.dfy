/** The list-level meaning of one watchdog tick: which windows of the current
    snapshot are new, which retained windows have gone, and what the retained
    list becomes. The class in module Watchdog is proved against these. */
module Diff {
  import opened Windows

  /** `Window.GetChildWindows` on a window object built this tick: the OS's
      child tree for its handle (`childTree`, an OS query) is added to its
      child list. Handle and text are kept. */
  function Enrich(w: Window, childTree: int -> seq<Window>): (e: Window)
    ensures e.hwnd == w.hwnd && e.text == w.text
    ensures w.children <= e.children
  {
    w.(children := w.children + childTree(w.hwnd))
  }

  function EnrichAll(ws: seq<Window>, childTree: int -> seq<Window>): (es: seq<Window>)
    ensures |es| == |ws|
    ensures forall i | 0 <= i < |ws| :: es[i].hwnd == ws[i].hwnd
  {
    seq(|ws|, i requires 0 <= i < |ws| => Enrich(ws[i], childTree))
  }

  /** The windows `CheckNewWindows` appends, before enrichment: walking
      `current` in order, each window whose handle is neither in `open` nor
      among the windows already appended this walk. */
  function FirstSeen(open: seq<Window>, current: seq<Window>): seq<Window>
  {
    if current == [] then []
    else
      var earlier := FirstSeen(open, current[..|current| - 1]);
      var w := current[|current| - 1];
      if HasHandle(open, w.hwnd) || HasHandle(earlier, w.hwnd) then earlier
      else earlier + [w]
  }

  /** The windows whose handle still occurs in `current`. */
  function Retained(open: seq<Window>, current: seq<Window>): seq<Window>
  {
    Filter(open, (w: Window) => HasHandle(current, w.hwnd))
  }

  /** `closedWindows`: the windows whose handle no longer occurs in `current`. */
  function Departed(open: seq<Window>, current: seq<Window>): seq<Window>
  {
    Filter(open, (w: Window) => !HasHandle(current, w.hwnd))
  }

  /** `RemoveAll(w => closed.Any(w2 => w.Hwnd == w2.Hwnd))`. */
  function RemoveClosed(open: seq<Window>, closed: seq<Window>): seq<Window>
  {
    Filter(open, (w: Window) => !HasHandle(closed, w.hwnd))
  }

  lemma EnrichAllAppend(a: seq<Window>, w: Window, childTree: int -> seq<Window>)
    ensures EnrichAll(a + [w], childTree) == EnrichAll(a, childTree) + [Enrich(w, childTree)]
  {
  }

  lemma EnrichAllHandles(ws: seq<Window>, childTree: int -> seq<Window>)
    ensures Handles(EnrichAll(ws, childTree)) == Handles(ws)
  {
    var es := EnrichAll(ws, childTree);
    assert forall h | h in Handles(ws) :: exists i | 0 <= i < |es| :: es[i].hwnd == h;
  }

  /** Two filters agree on a list when their tests agree on its elements. */
  lemma {:induction false} FilterCongruent<T>(s: seq<T>, p: T -> bool, q: T -> bool)
    requires forall x | x in s :: p(x) == q(x)
    ensures Filter(s, p) == Filter(s, q)
  {
    if s != [] {
      FilterCongruent(s[..|s| - 1], p, q);
    }
  }

  /** The windows reported new carry exactly the handles of `current` that
      `open` lacks. */
  lemma {:induction false} FirstSeenHandles(open: seq<Window>, current: seq<Window>)
    ensures Handles(FirstSeen(open, current)) == Handles(current) - Handles(open)
  {
    if current != [] {
      var init, w := current[..|current| - 1], current[|current| - 1];
      var earlier := FirstSeen(open, init);
      FirstSeenHandles(open, init);
      HandlesAppend(init, [w]);
      assert init + [w] == current;
      if !(HasHandle(open, w.hwnd) || HasHandle(earlier, w.hwnd)) {
        HandlesAppend(earlier, [w]);
      }
    }
  }

  /** If `open` has distinct handles, so does `open` with the new windows
      appended: a handle occurring twice in `current` is added once. */
  lemma {:induction false} FirstSeenDistinct(open: seq<Window>, current: seq<Window>)
    requires DistinctHandles(open)
    ensures DistinctHandles(open + FirstSeen(open, current))
  {
    if current != [] {
      var init, w := current[..|current| - 1], current[|current| - 1];
      var earlier := FirstSeen(open, init);
      FirstSeenDistinct(open, init);
      if !(HasHandle(open, w.hwnd) || HasHandle(earlier, w.hwnd)) {
        var s := open + earlier;
        assert open + FirstSeen(open, current) == s + [w];
        forall i | 0 <= i < |s| ensures s[i].hwnd != w.hwnd {
          if i < |open| {
            assert s[i] == open[i];
          } else {
            assert s[i] == earlier[i - |open|];
          }
        }
      }
    }
  }

  /** The new windows appear in `current` order, and each is the first window
      of `current` carrying its handle. */
  lemma {:induction false} FirstSeenOrder(open: seq<Window>, current: seq<Window>)
    ensures IsSubsequence(FirstSeen(open, current), current)
    ensures forall k | 0 <= k < |FirstSeen(open, current)| ::
              exists i | 0 <= i < |current| :: current[i] == FirstSeen(open, current)[k] && !HasHandle(current[..i], current[i].hwnd)
  {
    if current != [] {
      var init, w := current[..|current| - 1], current[|current| - 1];
      var earlier := FirstSeen(open, init);
      var now := FirstSeen(open, current);
      FirstSeenOrder(open, init);
      assert init + [w] == current;
      SubsequenceExtend(earlier, init, w);
      if !(HasHandle(open, w.hwnd) || HasHandle(earlier, w.hwnd)) {
        assert now[..|now| - 1] == earlier;
        FirstSeenHandles(open, init);
        assert current[..|current| - 1] == init;
        assert !HasHandle(init, w.hwnd);
      }
      forall k | 0 <= k < |now|
        ensures exists i | 0 <= i < |current| :: current[i] == now[k] && !HasHandle(current[..i], current[i].hwnd)
      {
        if k < |earlier| {
          assert now[k] == earlier[k];
          var i :| 0 <= i < |init| && init[i] == earlier[k] && !HasHandle(init[..i], init[i].hwnd);
          assert current[..i] == init[..i];
          assert current[i] == init[i];
        } else {
          assert current[..|current| - 1] == init;
        }
      }
    }
  }

  /** Nothing is new exactly when every handle of `current` is already open. */
  lemma FirstSeenEmpty(open: seq<Window>, current: seq<Window>)
    ensures FirstSeen(open, current) == [] <==> Handles(current) <= Handles(open)
  {
    FirstSeenHandles(open, current);
    var f := FirstSeen(open, current);
    if f != [] {
      assert f[0].hwnd in Handles(f);
    }
  }

  /** `closedWindows` holds exactly the windows of `open` whose handle is
      absent from `current`, in `open` order; the survivors are exactly the
      others, also in order. */
  lemma PartitionSpec(open: seq<Window>, current: seq<Window>)
    ensures forall w :: w in Departed(open, current) <==> w in open && !HasHandle(current, w.hwnd)
    ensures forall w :: w in Retained(open, current) <==> w in open && HasHandle(current, w.hwnd)
    ensures IsSubsequence(Departed(open, current), open)
    ensures IsSubsequence(Retained(open, current), open)
  {
    FilterMembers(open, (w: Window) => !HasHandle(current, w.hwnd));
    FilterMembers(open, (w: Window) => HasHandle(current, w.hwnd));
    FilterIsSubsequence(open, (w: Window) => !HasHandle(current, w.hwnd));
    FilterIsSubsequence(open, (w: Window) => HasHandle(current, w.hwnd));
  }

  /** The survivors of a list with distinct handles have distinct handles. */
  lemma RetainedDistinct(open: seq<Window>, current: seq<Window>)
    requires DistinctHandles(open)
    ensures DistinctHandles(Retained(open, current))
  {
    PartitionSpec(open, current);
    SubsequenceDistinct(Retained(open, current), open);
  }

  /** Every window of `open` lands in exactly one of the two lists. */
  lemma {:induction false} PartitionCounts(open: seq<Window>, current: seq<Window>)
    ensures |Departed(open, current)| + |Retained(open, current)| == |open|
  {
    if open != [] {
      var init := open[..|open| - 1];
      PartitionCounts(init, current);
      assert Departed(open, current) == Filter(init, (w: Window) => !HasHandle(current, w.hwnd))
        + (if !HasHandle(current, open[|open| - 1].hwnd) then [open[|open| - 1]] else []);
      assert Retained(open, current) == Filter(init, (w: Window) => HasHandle(current, w.hwnd))
        + (if HasHandle(current, open[|open| - 1].hwnd) then [open[|open| - 1]] else []);
    }
  }

  /** Removing every window that shares a handle with a closed window leaves
      exactly the windows still present. */
  lemma RemoveClosedIsRetained(open: seq<Window>, current: seq<Window>)
    ensures RemoveClosed(open, Departed(open, current)) == Retained(open, current)
  {
    var closed := Departed(open, current);
    PartitionSpec(open, current);
    forall x | x in open ensures HasHandle(closed, x.hwnd) <==> !HasHandle(current, x.hwnd) {
      if !HasHandle(current, x.hwnd) {
        assert x in closed;
        var i :| 0 <= i < |closed| && closed[i] == x;
      }
      if HasHandle(closed, x.hwnd) {
        var i :| 0 <= i < |closed| && closed[i].hwnd == x.hwnd;
        assert closed[i] in closed;
      }
    }
    FilterCongruent(open, (w: Window) => !HasHandle(closed, w.hwnd), (w: Window) => HasHandle(current, w.hwnd));
  }

  /** Handles of the survivors and of the departed windows. */
  lemma PartitionHandles(open: seq<Window>, current: seq<Window>)
    ensures Handles(Retained(open, current)) == Handles(open) * Handles(current)
    ensures Handles(Departed(open, current)) == Handles(open) - Handles(current)
  {
    PartitionSpec(open, current);
    var r, d := Retained(open, current), Departed(open, current);
    forall h | h in Handles(open) ensures h in Handles(current) ==> h in Handles(r)
      ensures h !in Handles(current) ==> h in Handles(d)
    {
      var i :| 0 <= i < |open| && open[i].hwnd == h;
      assert open[i] in open;
      if h in Handles(current) {
        assert open[i] in r;
      } else {
        assert open[i] in d;
      }
    }
    forall h | h in Handles(r) ensures h in Handles(open) {
      var i :| 0 <= i < |r| && r[i].hwnd == h;
      assert r[i] in r;
    }
    forall h | h in Handles(d) ensures h in Handles(open) && h !in Handles(current) {
      var i :| 0 <= i < |d| && d[i].hwnd == h;
      assert d[i] in d;
    }
  }

  /** Diffing looks only at the handles of `current`: reordering the snapshot
      (or repeating a window in it) changes neither the set of new handles
      nor which windows depart or survive. */
  lemma SnapshotOrderIrrelevant(open: seq<Window>, c1: seq<Window>, c2: seq<Window>)
    requires Handles(c1) == Handles(c2)
    ensures Handles(FirstSeen(open, c1)) == Handles(FirstSeen(open, c2))
    ensures Departed(open, c1) == Departed(open, c2)
    ensures Retained(open, c1) == Retained(open, c2)
  {
    FirstSeenHandles(open, c1);
    FirstSeenHandles(open, c2);
    FilterCongruent(open, (w: Window) => !HasHandle(c1, w.hwnd), (w: Window) => !HasHandle(c2, w.hwnd));
    FilterCongruent(open, (w: Window) => HasHandle(c1, w.hwnd), (w: Window) => HasHandle(c2, w.hwnd));
  }
}
