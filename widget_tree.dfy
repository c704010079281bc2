/**
 * The widget tree as an arena of `WidgetPrivate` records addressed by widget identity,
 * and `_gtk_widget_get_toplevel`, which follows `parent` links up to the root.
 */
module WidgetTree {
  import opened Wrappers
  import opened Widget

  /** All live widgets: `a[w]` is `w->priv`. */
  type Arena = map<WidgetId, WidgetPrivate>

  /** The widget reached from `x` by following `parent` exactly `k` times, if any. */
  function Up(a: Arena, x: WidgetId, k: nat): Option<WidgetId>
    decreases k
  {
    if x !in a then None
    else if k == 0 then Some(x)
    else match a[x].parent
      case None => None
      case Some(p) => Up(a, p, k - 1)
  }

  /** `y` is `x` or one of its ancestors. */
  ghost predicate AncestorOrSelf(a: Arena, x: WidgetId, y: WidgetId)
  {
    exists k: nat :: Up(a, x, k) == Some(y)
  }

  /** `t` is the root of the parent chain starting at `x`. */
  ghost predicate IsToplevelOf(a: Arena, x: WidgetId, t: WidgetId)
  {
    AncestorOrSelf(a, x, t) && t in a && a[t].parent.None?
  }

  /**
   * The parent links of `a` point at live widgets and strictly decrease `rank`:
   * a witness that no parent chain is cyclic.
   */
  ghost predicate RankedBy(a: Arena, rank: map<WidgetId, nat>)
  {
    && a.Keys <= rank.Keys
    && forall x :: x in a && a[x].parent.Some? ==>
         a[x].parent.value in a && rank[a[x].parent.value] < rank[x]
  }

  /** Every parent chain of `a` stays in the arena and ends at a root. */
  ghost predicate Acyclic(a: Arena)
  {
    exists rank :: RankedBy(a, rank)
  }

  /** Whatever `Up` reaches is a live widget. */
  lemma {:induction false} UpInArena(a: Arena, x: WidgetId, k: nat)
    requires Up(a, x, k).Some?
    ensures Up(a, x, k).value in a
    decreases k
  {
    if k > 0 {
      UpInArena(a, a[x].parent.value, k - 1);
    }
  }

  /** Climbing `i` then `j` steps is climbing `i + j` steps. */
  lemma {:induction false} UpAdd(a: Arena, x: WidgetId, i: nat, j: nat)
    requires Up(a, x, i).Some?
    ensures Up(a, x, i + j) == Up(a, Up(a, x, i).value, j)
    decreases i
  {
    if i > 0 {
      UpAdd(a, a[x].parent.value, i - 1, j);
    }
  }

  /** Above a root there is nothing: no chain runs past its toplevel. */
  lemma UpPastRoot(a: Arena, x: WidgetId, t: WidgetId, i: nat, j: nat)
    requires Up(a, x, i) == Some(t) && t in a && a[t].parent.None?
    requires i < j
    ensures Up(a, x, j).None?
  {
    UpAdd(a, x, i, j - i);
  }

  /** The ancestors of `x` have strictly smaller rank than `x`. */
  lemma {:induction false} RankDecreasesUp(a: Arena, rank: map<WidgetId, nat>, x: WidgetId, k: nat)
    requires RankedBy(a, rank)
    requires k > 0 && Up(a, x, k).Some?
    ensures x in rank && Up(a, x, k).value in rank && rank[Up(a, x, k).value] < rank[x]
    decreases k
  {
    var p := a[x].parent.value;
    if k > 1 {
      RankDecreasesUp(a, rank, p, k - 1);
    }
  }

  /** An acyclic arena has no widget that is its own strict ancestor. */
  lemma NoCycleWhenRanked(a: Arena, rank: map<WidgetId, nat>, x: WidgetId, k: nat)
    requires RankedBy(a, rank)
    requires k > 0
    ensures Up(a, x, k) != Some(x)
  {
    if Up(a, x, k).Some? {
      RankDecreasesUp(a, rank, x, k);
    }
  }

  /** A parent chain has at most one root. */
  lemma ToplevelUnique(a: Arena, x: WidgetId, t1: WidgetId, t2: WidgetId)
    requires IsToplevelOf(a, x, t1) && IsToplevelOf(a, x, t2)
    ensures t1 == t2
  {
    var i: nat :| Up(a, x, i) == Some(t1);
    var j: nat :| Up(a, x, j) == Some(t2);
    if i < j {
      UpPastRoot(a, x, t1, i, j);
    } else if j < i {
      UpPastRoot(a, x, t2, j, i);
    }
  }

  /** In an acyclic arena every widget has a toplevel. */
  lemma {:induction false} ToplevelExists(a: Arena, rank: map<WidgetId, nat>, x: WidgetId)
    requires RankedBy(a, rank) && x in a
    ensures exists t: WidgetId :: IsToplevelOf(a, x, t)
    decreases rank[x]
  {
    match a[x].parent
    case None =>
      assert Up(a, x, 0) == Some(x);
      assert IsToplevelOf(a, x, x);
    case Some(p) =>
      ToplevelExists(a, rank, p);
      var t: WidgetId :| IsToplevelOf(a, p, t);
      var k: nat :| Up(a, p, k) == Some(t);
      assert Up(a, x, k + 1) == Some(t);
      assert IsToplevelOf(a, x, t);
  }

  /** The toplevel of `x`: the root of its parent chain. */
  ghost function Toplevel(a: Arena, x: WidgetId): (t: WidgetId)
    requires Acyclic(a) && x in a
    ensures IsToplevelOf(a, x, t)
  {
    var rank :| RankedBy(a, rank);
    ToplevelExists(a, rank, x);
    var t: WidgetId :| IsToplevelOf(a, x, t);
    t
  }

  /**
   * `_gtk_widget_get_toplevel`: follows `parent` until a widget without a parent.
   * The loop terminates because the arena is acyclic.
   */
  method GetToplevel(a: Arena, widget: WidgetId) returns (top: WidgetId)
    requires Acyclic(a) && widget in a
    ensures top in a && a[top].parent.None?
    ensures AncestorOrSelf(a, widget, top)
    ensures top == Toplevel(a, widget)
  {
    ghost var rank :| RankedBy(a, rank);
    ghost var k: nat := 0;
    top := widget;
    while a[top].parent.Some?
      invariant top in a
      invariant Up(a, widget, k) == Some(top)
      decreases rank[top]
    {
      UpAdd(a, widget, k, 1);
      top := a[top].parent.value;
      k := k + 1;
    }
    ToplevelUnique(a, widget, top, Toplevel(a, widget));
  }

  /** A widget is its own toplevel exactly when it has no parent. */
  lemma ToplevelIsSelfIffRoot(a: Arena, x: WidgetId)
    requires Acyclic(a) && x in a
    ensures Toplevel(a, x) == x <==> a[x].parent.None?
  {
  }

  /** The toplevel of a toplevel is itself. */
  lemma ToplevelIdempotent(a: Arena, x: WidgetId)
    requires Acyclic(a) && x in a
    ensures Toplevel(a, Toplevel(a, x)) == Toplevel(a, x)
  {
  }

  /** A widget and its parent have the same toplevel. */
  lemma ToplevelOfParent(a: Arena, x: WidgetId, p: WidgetId)
    requires Acyclic(a) && x in a
    requires a[x].parent == Some(p)
    ensures p in a && Toplevel(a, p) == Toplevel(a, x)
  {
    var t := Toplevel(a, x);
    var k: nat :| Up(a, x, k) == Some(t);
    if k == 0 {
      ToplevelIsSelfIffRoot(a, x);
    } else {
      assert Up(a, p, k - 1) == Some(t);
      ToplevelUnique(a, p, t, Toplevel(a, p));
    }
  }

  /** Every ancestor of a widget shares its toplevel. */
  lemma ToplevelOfAncestor(a: Arena, x: WidgetId, y: WidgetId)
    requires Acyclic(a) && x in a
    requires AncestorOrSelf(a, x, y)
    ensures y in a && Toplevel(a, y) == Toplevel(a, x)
  {
    var i: nat :| Up(a, x, i) == Some(y);
    UpInArena(a, x, i);
    var t := Toplevel(a, y);
    var j: nat :| Up(a, y, j) == Some(t);
    UpAdd(a, x, i, j);
    ToplevelUnique(a, x, t, Toplevel(a, x));
  }

  /**
   * On a cyclic parent chain there is no root to reach: the walk of
   * `_gtk_widget_get_toplevel` would never stop.
   */
  lemma CycleHasNoToplevel(a: Arena, x: WidgetId, k: nat, t: WidgetId)
    requires k > 0 && Up(a, x, k) == Some(x)
    ensures !IsToplevelOf(a, x, t)
  {
    if IsToplevelOf(a, x, t) {
      var j: nat :| Up(a, x, j) == Some(t);
      var n := CycleRepeats(a, x, k, j);
      UpPastRoot(a, x, t, j, n);
    }
  }

  /**
   * A chain that runs into a parent cycle, even one that does not contain `x`,
   * has no root either.
   */
  lemma ChainIntoCycleHasNoToplevel(a: Arena, x: WidgetId, i: nat, y: WidgetId, k: nat, t: WidgetId)
    requires Up(a, x, i) == Some(y)
    requires k > 0 && Up(a, y, k) == Some(y)
    ensures !IsToplevelOf(a, x, t)
  {
    if IsToplevelOf(a, x, t) {
      var j: nat :| Up(a, x, j) == Some(t);
      var n := CycleRepeats(a, y, k, j);
      UpAdd(a, x, i, n);
      UpPastRoot(a, x, t, j, i + n);
    }
  }

  /** Along a cycle of length `k`, `x` comes back at some step beyond any bound `j`. */
  lemma {:induction false} CycleRepeats(a: Arena, x: WidgetId, k: nat, j: nat) returns (n: nat)
    requires k > 0 && Up(a, x, k) == Some(x)
    ensures n > j && Up(a, x, n) == Some(x)
    decreases j
  {
    if j < k {
      n := k;
    } else {
      var m := CycleRepeats(a, x, k, j - k);
      UpAdd(a, x, m, k);
      n := m + k;
    }
  }

  /** Every parent link of `a` points at a live widget. */
  ghost predicate ParentsLive(a: Arena)
  {
    forall x, p :: x in a && a[x].parent == Some(p) ==> p in a
  }

  /** No widget of `a` is its own strict ancestor. */
  ghost predicate NoParentCycle(a: Arena)
  {
    forall x, k: nat :: x in a && k > 0 ==> Up(a, x, k) != Some(x)
  }

  /** The walk from `x` reaches a root after exactly `k` steps. */
  ghost predicate RootAt(a: Arena, x: WidgetId, k: nat)
  {
    Up(a, x, k).Some? && Up(a, x, k).value in a && a[Up(a, x, k).value].parent.None?
  }

  /** The widgets visited by the first `m` steps of the walk from `x`. */
  ghost function Visited(a: Arena, x: WidgetId, m: nat): set<WidgetId>
  {
    set j: nat | j < m && Up(a, x, j).Some? :: Up(a, x, j).value
  }

  /** A walk over live parents that has met no root yet can take one more step. */
  lemma UpStep(a: Arena, x: WidgetId, k: nat)
    requires ParentsLive(a) && Up(a, x, k).Some? && !RootAt(a, x, k)
    ensures Up(a, x, k + 1).Some?
  {
    UpInArena(a, x, k);
    UpAdd(a, x, k, 1);
  }

  /** A walk of `k` steps over live parents either completes or meets a root on the way. */
  lemma {:induction false} WalkOrRoot(a: Arena, x: WidgetId, k: nat) returns (j: nat)
    requires ParentsLive(a) && x in a
    ensures j <= k
    ensures j == k ==> Up(a, x, k).Some?
    ensures j < k ==> RootAt(a, x, j)
    decreases k
  {
    if k == 0 {
      j := 0;
    } else {
      j := WalkOrRoot(a, x, k - 1);
      if j == k - 1 {
        if !RootAt(a, x, k - 1) {
          UpStep(a, x, k - 1);
          j := k;
        }
      }
    }
  }

  /** A walk that lasts `m` steps passed every earlier step. */
  lemma {:induction false} UpPrefix(a: Arena, x: WidgetId, j: nat, m: nat)
    requires j <= m && Up(a, x, m).Some?
    ensures Up(a, x, j).Some?
    decreases j
  {
    if j > 0 {
      UpPrefix(a, a[x].parent.value, j - 1, m - 1);
    }
  }

  /** Without cycles, the first `m` steps of a walk visit `m` different live widgets. */
  lemma {:induction false} VisitedSize(a: Arena, x: WidgetId, m: nat)
    requires NoParentCycle(a) && x in a
    requires m == 0 || Up(a, x, m - 1).Some?
    ensures |Visited(a, x, m)| == m && Visited(a, x, m) <= a.Keys
    decreases m
  {
    if m > 0 {
      if m > 1 {
        UpPrefix(a, x, m - 2, m - 1);
      }
      VisitedSize(a, x, m - 1);
      var v := Up(a, x, m - 1).value;
      UpInArena(a, x, m - 1);
      assert Visited(a, x, m) == Visited(a, x, m - 1) + {v};
      if v in Visited(a, x, m - 1) {
        var j: nat :| j < m - 1 && Up(a, x, j) == Some(v);
        UpAdd(a, x, j, m - 1 - j);
      }
    }
  }

  /** A set inside another is no larger. */
  lemma {:induction false} SubsetSize(s: set<WidgetId>, t: set<WidgetId>)
    requires s <= t
    ensures |s| <= |t|
    decreases |s|
  {
    if s != {} {
      var y :| y in s;
      SubsetSize(s - {y}, t - {y});
    }
  }

  /** In an arena without cycles whose parents are live, every walk ends at a root. */
  lemma {:induction false} ReachesRootWithoutCycle(a: Arena, x: WidgetId)
    requires ParentsLive(a) && NoParentCycle(a) && x in a
    ensures exists k: nat :: RootAt(a, x, k)
  {
    var n := |a.Keys|;
    var i := WalkOrRoot(a, x, n);
    if i == n {
      VisitedSize(a, x, n + 1);
      SubsetSize(Visited(a, x, n + 1), a.Keys);
    }
  }

  /** A walk reaches its root after one number of steps only. */
  lemma RootAtUnique(a: Arena, x: WidgetId, i: nat, j: nat)
    requires RootAt(a, x, i) && RootAt(a, x, j)
    ensures i == j
  {
    if i < j {
      UpPastRoot(a, x, Up(a, x, i).value, i, j);
    } else if j < i {
      UpPastRoot(a, x, Up(a, x, j).value, j, i);
    }
  }

  /** The number of steps from `x` to its root. */
  ghost function RootDistance(a: Arena, x: WidgetId): (k: nat)
    requires ParentsLive(a) && NoParentCycle(a) && x in a
    ensures RootAt(a, x, k)
  {
    ReachesRootWithoutCycle(a, x);
    var k: nat :| RootAt(a, x, k);
    k
  }

  /**
   * `Acyclic` is exactly "no cycles and no dangling parents": the distance to the root is
   * a rank whenever the chains are free of cycles, and a rank rules cycles out.
   */
  lemma AcyclicIffNoCycle(a: Arena)
    ensures Acyclic(a) <==> ParentsLive(a) && NoParentCycle(a)
  {
    if Acyclic(a) {
      var rank :| RankedBy(a, rank);
      forall x, k: nat | x in a && k > 0
        ensures Up(a, x, k) != Some(x)
      {
        NoCycleWhenRanked(a, rank, x, k);
      }
    }
    if ParentsLive(a) && NoParentCycle(a) {
      var rank := map x | x in a :: RootDistance(a, x);
      forall x | x in a && a[x].parent.Some?
        ensures a[x].parent.value in a && rank[a[x].parent.value] < rank[x]
      {
        var p := a[x].parent.value;
        var k := RootDistance(a, x);
        assert Up(a, x, k) == Up(a, p, k - 1);
        RootAtUnique(a, p, k - 1, RootDistance(a, p));
      }
      assert RankedBy(a, rank);
    }
  }

  /**
   * Where a widget's `window` comes from: the field holds "the widget's window or its
   * parent window if it does not have a window". Every realized widget without a window
   * of its own shares its parent's `window`. Before a widget is realized the field has no
   * window to hold, so nothing is said about it.
   */
  ghost predicate WindowsDelegated(a: Arena)
  {
    forall x :: x in a && a[x].realized && !HasWindow(a[x]) && a[x].parent.Some? ==>
      a[x].parent.value in a && a[x].window == a[a[x].parent.value].window
  }

  /** A widget is realized only after its parent: the parent of a realized widget is realized. */
  ghost predicate RealizedUpward(a: Arena)
  {
    forall x :: x in a && a[x].realized && a[x].parent.Some? ==>
      a[x].parent.value in a && a[a[x].parent.value].realized
  }

  /**
   * The nearest ancestor-or-self of `x` that has a window of its own, or the toplevel
   * when no widget on the chain has one. `rank` only bounds the walk: the result
   * depends on the parent links alone (`WindowOwnerRankFree`), and no widget before it
   * on the chain has a window (`WindowOwnerIsNearest`).
   */
  ghost function WindowOwner(a: Arena, rank: map<WidgetId, nat>, x: WidgetId): (o: WidgetId)
    requires RankedBy(a, rank) && x in a
    ensures o in a && (HasWindow(a[o]) || a[o].parent.None?)
    ensures HasWindow(a[x]) ==> o == x
    decreases rank[x]
  {
    if HasWindow(a[x]) || a[x].parent.None? then x
    else WindowOwner(a, rank, a[x].parent.value)
  }

  /** The owner of a widget's window lies on its parent chain. */
  lemma {:induction false} WindowOwnerIsAncestor(a: Arena, rank: map<WidgetId, nat>, x: WidgetId)
    requires RankedBy(a, rank) && x in a
    ensures AncestorOrSelf(a, x, WindowOwner(a, rank, x))
    decreases rank[x]
  {
    if HasWindow(a[x]) || a[x].parent.None? {
      assert Up(a, x, 0) == Some(x);
    } else {
      var p := a[x].parent.value;
      WindowOwnerIsAncestor(a, rank, p);
      var k: nat :| Up(a, p, k) == Some(WindowOwner(a, rank, p));
      assert Up(a, x, k + 1) == Some(WindowOwner(a, rank, x));
    }
  }

  /**
   * The owner is the first widget on the chain that has a window (or the root): it is
   * reached after `k` steps and every widget strictly before it is windowless.
   */
  lemma {:induction false} WindowOwnerIsNearest(a: Arena, rank: map<WidgetId, nat>, x: WidgetId) returns (k: nat)
    requires RankedBy(a, rank) && x in a
    ensures Up(a, x, k) == Some(WindowOwner(a, rank, x))
    ensures forall j: nat :: j < k ==>
      Up(a, x, j).Some? && Up(a, x, j).value in a && !HasWindow(a[Up(a, x, j).value])
    decreases rank[x]
  {
    if HasWindow(a[x]) || a[x].parent.None? {
      k := 0;
    } else {
      var p := a[x].parent.value;
      var m := WindowOwnerIsNearest(a, rank, p);
      k := m + 1;
      forall j: nat | j < k
        ensures Up(a, x, j).Some? && Up(a, x, j).value in a && !HasWindow(a[Up(a, x, j).value])
      {
        if j > 0 {
          assert Up(a, x, j) == Up(a, p, j - 1);
        }
      }
    }
  }

  /** Two rank witnesses give the same owner. */
  lemma {:induction false} WindowOwnerRankFree(a: Arena, r1: map<WidgetId, nat>, r2: map<WidgetId, nat>, x: WidgetId)
    requires RankedBy(a, r1) && RankedBy(a, r2) && x in a
    ensures WindowOwner(a, r1, x) == WindowOwner(a, r2, x)
    decreases r1[x]
  {
    if !HasWindow(a[x]) && a[x].parent.Some? {
      WindowOwnerRankFree(a, r1, r2, a[x].parent.value);
    }
  }

  /**
   * When every realized windowless widget shares its parent's `window` and parents are
   * realized before their children, the `window` of a realized widget is the window of its
   * nearest ancestor-or-self that has one of its own.
   */
  lemma {:induction false} WindowComesFromOwner(a: Arena, rank: map<WidgetId, nat>, x: WidgetId)
    requires RankedBy(a, rank) && WindowsDelegated(a) && RealizedUpward(a)
    requires x in a && a[x].realized
    ensures a[x].window == a[WindowOwner(a, rank, x)].window
    decreases rank[x]
  {
    if !HasWindow(a[x]) && a[x].parent.Some? {
      WindowComesFromOwner(a, rank, a[x].parent.value);
    }
  }
}
