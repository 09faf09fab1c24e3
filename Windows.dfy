/** Windows as the watchdog sees them: a handle, the caption text captured at
    observation time, and the child windows captured with it. Plus the few
    list operations the watchdog and its consumer perform on them. */
module Windows {
  import opened Wrappers

  /** One window. `hwnd` is the OS handle, compared only for equality. */
  datatype Window = Window(hwnd: int, text: string, children: seq<Window>)

  /** The set of handles occurring in a list of windows. */
  function Handles(ws: seq<Window>): set<int>
  {
    set i | 0 <= i < |ws| :: ws[i].hwnd
  }

  /** Some window of `ws` carries handle `h`. */
  predicate HasHandle(ws: seq<Window>, h: int)
  {
    h in Handles(ws)
  }

  /** No handle occurs twice in `ws`. */
  predicate DistinctHandles(ws: seq<Window>)
  {
    forall i, j | 0 <= i < j < |ws| :: ws[i].hwnd != ws[j].hwnd
  }

  /** `List<T>.Find`: the first element satisfying `p`, or nothing (null). */
  function Find<T>(s: seq<T>, p: T -> bool): (r: Option<T>)
    ensures r.None? <==> forall i | 0 <= i < |s| :: !p(s[i])
    ensures r.Some? ==> exists i | 0 <= i < |s| :: s[i] == r.value && p(s[i]) && forall j | 0 <= j < i :: !p(s[j])
  {
    if s == [] then None
    else if p(s[0]) then Some(s[0])
    else
      var r := Find(s[1..], p);
      assert forall i | 1 <= i < |s| :: s[i] == s[1..][i - 1];
      r
  }

  /** `Enumerable.Where(...).ToList()` and the survivors of `List<T>.RemoveAll`:
      the elements satisfying `p`, in their original order. */
  function Filter<T>(s: seq<T>, p: T -> bool): seq<T>
  {
    if s == [] then []
    else Filter(s[..|s| - 1], p) + (if p(s[|s| - 1]) then [s[|s| - 1]] else [])
  }

  /** `a` is `b` with some elements deleted, the rest kept in order. */
  ghost predicate IsSubsequence<T>(a: seq<T>, b: seq<T>)
  {
    if a == [] then true
    else if b == [] then false
    else if a[|a| - 1] == b[|b| - 1] then IsSubsequence(a[..|a| - 1], b[..|b| - 1])
    else IsSubsequence(a, b[..|b| - 1])
  }

  lemma HandlesAppend(a: seq<Window>, b: seq<Window>)
    ensures Handles(a + b) == Handles(a) + Handles(b)
  {
    var ab := a + b;
    forall h | h in Handles(ab) ensures h in Handles(a) + Handles(b) {
      var i :| 0 <= i < |ab| && ab[i].hwnd == h;
      if i < |a| { assert a[i] == ab[i]; } else { assert b[i - |a|] == ab[i]; }
    }
    forall h | h in Handles(a) + Handles(b) ensures h in Handles(ab) {
      if h in Handles(a) {
        var i :| 0 <= i < |a| && a[i].hwnd == h;
        assert ab[i] == a[i];
      } else {
        var i :| 0 <= i < |b| && b[i].hwnd == h;
        assert ab[|a| + i] == b[i];
      }
    }
  }

  lemma MemberHandle(ws: seq<Window>, w: Window)
    ensures w in ws ==> w.hwnd in Handles(ws)
  {
  }

  lemma HandlesEmpty(ws: seq<Window>)
    ensures Handles(ws) == {} <==> ws == []
  {
    if ws != [] {
      assert ws[0].hwnd in Handles(ws);
    }
  }

  /** The lookup `Find(ow => ow.Hwnd == h)` misses exactly when no window
      carries handle `h`. */
  lemma FindByHandle(ws: seq<Window>, h: int)
    ensures Find(ws, (w: Window) => w.hwnd == h).None? <==> !HasHandle(ws, h)
  {
  }

  /** Membership in a filtered list. */
  lemma {:induction false} FilterMembers<T>(s: seq<T>, p: T -> bool)
    ensures forall x :: x in Filter(s, p) <==> x in s && p(x)
  {
    if s != [] {
      var init := s[..|s| - 1];
      FilterMembers(init, p);
      assert s == init + [s[|s| - 1]];
    }
  }

  /** A filtered list is a subsequence of the list it came from. */
  lemma {:induction false} FilterIsSubsequence<T>(s: seq<T>, p: T -> bool)
    ensures IsSubsequence(Filter(s, p), s)
  {
    if s != [] {
      var init, last := s[..|s| - 1], s[|s| - 1];
      FilterIsSubsequence(init, p);
      if p(last) {
        assert s == init + [last];
        assert Filter(s, p) == Filter(init, p) + [last];
        var f := Filter(s, p);
        assert f[..|f| - 1] == Filter(init, p);
      } else {
        assert Filter(s, p) == Filter(init, p) + [] == Filter(init, p);
        SubsequenceExtend(Filter(init, p), init, last);
        assert init + [last] == s;
      }
    }
  }

  /** Appending to the longer list keeps the subsequence relation. */
  lemma {:induction false} SubsequenceExtend<T>(a: seq<T>, b: seq<T>, x: T)
    requires IsSubsequence(a, b)
    ensures IsSubsequence(a, b + [x])
    decreases |b|, 1
  {
    var bx := b + [x];
    assert bx[..|bx| - 1] == b;
    if a != [] && a[|a| - 1] == x {
      SubsequenceDropLast(a, b);
    }
  }

  /** Dropping the last element of the shorter list keeps the relation. */
  lemma {:induction false} SubsequenceDropLast<T>(a: seq<T>, b: seq<T>)
    requires a != [] && IsSubsequence(a, b)
    ensures IsSubsequence(a[..|a| - 1], b)
    decreases |b|, 0
  {
    var a', b' := a[..|a| - 1], b[..|b| - 1];
    if a[|a| - 1] == b[|b| - 1] {
      if a' != [] {
        SubsequenceDropLast(a', b');
      }
      SubsequenceExtend(a', b', b[|b| - 1]);
      assert b' + [b[|b| - 1]] == b;
    } else {
      SubsequenceDropLast(a, b');
      SubsequenceExtend(a', b', b[|b| - 1]);
      assert b' + [b[|b| - 1]] == b;
    }
  }

  /** Every element of a subsequence is an element of the whole. */
  lemma {:induction false} SubsequenceMembers<T>(a: seq<T>, b: seq<T>)
    requires IsSubsequence(a, b)
    ensures forall x :: x in a ==> x in b
    decreases |b|
  {
    if a != [] {
      var b' := b[..|b| - 1];
      assert b == b' + [b[|b| - 1]];
      if a[|a| - 1] == b[|b| - 1] {
        var a' := a[..|a| - 1];
        SubsequenceMembers(a', b');
        assert a == a' + [a[|a| - 1]];
      } else {
        SubsequenceMembers(a, b');
      }
    }
  }

  /** A subsequence of a list with distinct handles has distinct handles. */
  lemma {:induction false} SubsequenceDistinct(a: seq<Window>, b: seq<Window>)
    requires IsSubsequence(a, b) && DistinctHandles(b)
    ensures DistinctHandles(a)
    decreases |b|
  {
    if a != [] {
      var a', b' := a[..|a| - 1], b[..|b| - 1];
      assert DistinctHandles(b');
      if a[|a| - 1] == b[|b| - 1] {
        SubsequenceDistinct(a', b');
        SubsequenceMembers(a', b');
        forall i | 0 <= i < |a'| ensures a'[i].hwnd != a[|a| - 1].hwnd {
          assert a'[i] in b';
          var k :| 0 <= k < |b'| && b'[k] == a'[i];
          assert b[k] == b'[k];
        }
      } else {
        SubsequenceDistinct(a, b');
      }
    }
  }
}
