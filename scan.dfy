/**
 * The loop shape the log parser uses twice: walk a sequence in order, keep a
 * value for some items, skip the others, and stop at the first item that
 * raises an exception nobody catches.
 */
module Scan {
  /** What one item contributes. */
  datatype Verdict<T> = Skip | Keep(value: T) | Raise(error: string)

  /** What the whole walk produces: the kept values in order, or the first exception. */
  datatype Scanned<T> = Kept(values: seq<T>) | Raised(error: string)

  function Collect<A, T>(xs: seq<A>, g: A -> Verdict<T>): Scanned<T>
  {
    if xs == [] then Kept([])
    else
      match Collect(xs[..|xs| - 1], g)
      case Raised(e) => Raised(e)
      case Kept(vs) =>
        match g(xs[|xs| - 1])
        case Skip => Kept(vs)
        case Keep(v) => Kept(vs + [v])
        case Raise(e) => Raised(e)
  }

  /**
   * `vs` holds the values of the items at the strictly increasing positions
   * `idx`, and every item at any other position is skipped.
   */
  ghost predicate Picks<A, T>(xs: seq<A>, g: A -> Verdict<T>, idx: seq<int>, vs: seq<T>)
  {
    |idx| == |vs|
    && (forall k :: 0 <= k < |idx| ==> 0 <= idx[k] < |xs| && g(xs[idx[k]]) == Keep(vs[k]))
    && (forall k, l :: 0 <= k < l < |idx| ==> idx[k] < idx[l])
    && (forall i :: 0 <= i < |xs| && i !in idx ==> g(xs[i]) == Skip)
  }

  lemma {:induction false} KeptHasPicks<A, T>(xs: seq<A>, g: A -> Verdict<T>, vs: seq<T>)
    requires Collect(xs, g) == Kept(vs)
    ensures exists idx :: Picks(xs, g, idx, vs)
  {
    if xs == [] {
      assert Picks(xs, g, [], vs);
    } else {
      var init := xs[..|xs| - 1];
      var c := Collect(init, g);
      assert c.Kept?;
      var ws := c.values;
      KeptHasPicks(init, g, ws);
      var idx :| Picks(init, g, idx, ws);
      PicksExtend(xs, g, idx, ws);
    }
  }

  /** Appending one item to a picked prefix. */
  lemma PicksExtend<A, T>(xs: seq<A>, g: A -> Verdict<T>, idx: seq<int>, ws: seq<T>)
    requires xs != [] && Picks(xs[..|xs| - 1], g, idx, ws)
    ensures g(xs[|xs| - 1]) == Skip ==> Picks(xs, g, idx, ws)
    ensures g(xs[|xs| - 1]).Keep? ==> Picks(xs, g, idx + [|xs| - 1], ws + [g(xs[|xs| - 1]).value])
  {
    var n := |xs| - 1;
    assert forall k :: 0 <= k < |idx| ==> idx[k] < n;
    if g(xs[n]).Keep? {
      var idx' := idx + [n];
      assert forall i :: 0 <= i < |xs| && i !in idx' ==> i < n && i !in idx;
    }
  }

  lemma {:induction false} PicksAreKept<A, T>(xs: seq<A>, g: A -> Verdict<T>, idx: seq<int>, vs: seq<T>)
    requires Picks(xs, g, idx, vs)
    ensures Collect(xs, g) == Kept(vs)
  {
    if xs != [] {
      var init := xs[..|xs| - 1];
      if |xs| - 1 in idx {
        var m := |idx| - 1;
        PicksLastKept(xs, g, idx, vs);
        PicksAreKept(init, g, idx[..m], vs[..m]);
        CollectLast(xs, g, vs[..m]);
        assert vs == vs[..m] + [vs[m]];
      } else {
        PicksLastSkipped(xs, g, idx, vs);
        PicksAreKept(init, g, idx, vs);
        CollectLast(xs, g, vs);
      }
    }
  }

  /** One more item after a prefix that completed with `ws`. */
  lemma CollectLast<A, T>(xs: seq<A>, g: A -> Verdict<T>, ws: seq<T>)
    requires xs != [] && Collect(xs[..|xs| - 1], g) == Kept(ws)
    ensures g(xs[|xs| - 1]) == Skip ==> Collect(xs, g) == Kept(ws)
    ensures g(xs[|xs| - 1]).Keep? ==> Collect(xs, g) == Kept(ws + [g(xs[|xs| - 1]).value])
    ensures g(xs[|xs| - 1]).Raise? ==> Collect(xs, g) == Raised(g(xs[|xs| - 1]).error)
  {
  }

  /** When the last item is picked, it is the last pick, and the rest picks the prefix. */
  lemma PicksLastKept<A, T>(xs: seq<A>, g: A -> Verdict<T>, idx: seq<int>, vs: seq<T>)
    requires Picks(xs, g, idx, vs) && xs != [] && |xs| - 1 in idx
    ensures |idx| > 0 && idx[|idx| - 1] == |xs| - 1
    ensures g(xs[|xs| - 1]) == Keep(vs[|idx| - 1])
    ensures Picks(xs[..|xs| - 1], g, idx[..|idx| - 1], vs[..|idx| - 1])
  {
    var n := |xs| - 1;
    var m := |idx| - 1;
    var p :| 0 <= p < |idx| && idx[p] == n;
    assert idx[p] <= idx[m];
    var init := xs[..n];
    var idx' := idx[..m];
    var vs' := vs[..m];
    forall k | 0 <= k < |idx'|
      ensures 0 <= idx'[k] < |init| && g(init[idx'[k]]) == Keep(vs'[k])
    {
      assert idx[k] < idx[m];
    }
    forall i | 0 <= i < |init| && i !in idx'
      ensures g(init[i]) == Skip
    {
      assert i !in idx;
    }
  }

  /** When the last item is not picked, the same picks cover the prefix. */
  lemma PicksLastSkipped<A, T>(xs: seq<A>, g: A -> Verdict<T>, idx: seq<int>, vs: seq<T>)
    requires Picks(xs, g, idx, vs) && xs != [] && |xs| - 1 !in idx
    ensures g(xs[|xs| - 1]) == Skip
    ensures Picks(xs[..|xs| - 1], g, idx, vs)
  {
    var n := |xs| - 1;
    forall k | 0 <= k < |idx| ensures idx[k] < n {
      assert idx[k] != n;
    }
  }

  /** The walk completes with `vs` exactly when `vs` are the kept values, in order. */
  lemma KeptIff<A, T>(xs: seq<A>, g: A -> Verdict<T>, vs: seq<T>)
    ensures Collect(xs, g) == Kept(vs) <==> exists idx :: Picks(xs, g, idx, vs)
  {
    if Collect(xs, g) == Kept(vs) {
      KeptHasPicks(xs, g, vs);
    }
    if exists idx :: Picks(xs, g, idx, vs) {
      var idx :| Picks(xs, g, idx, vs);
      PicksAreKept(xs, g, idx, vs);
    }
  }

  /** The walk keeps nothing exactly when every item is skipped. */
  lemma KeptNothingIff<A, T>(xs: seq<A>, g: A -> Verdict<T>)
    ensures Collect(xs, g) == Kept([]) <==> forall i :: 0 <= i < |xs| ==> g(xs[i]) == Skip
  {
    KeptIff(xs, g, []);
    if forall i :: 0 <= i < |xs| ==> g(xs[i]) == Skip {
      assert Picks(xs, g, [], []);
    }
  }

  /** A walk that completes met no item that raises. */
  lemma {:induction false} KeptRaisesNothing<A, T>(xs: seq<A>, g: A -> Verdict<T>)
    requires Collect(xs, g).Kept?
    ensures forall j :: 0 <= j < |xs| ==> !g(xs[j]).Raise?
  {
    if xs != [] {
      var init := xs[..|xs| - 1];
      KeptRaisesNothing(init, g);
      assert forall j :: 0 <= j < |init| ==> init[j] == xs[j];
    }
  }

  /** The walk stops with `e` exactly when the first item that raises raises `e`. */
  lemma {:induction false} RaisedIff<A, T>(xs: seq<A>, g: A -> Verdict<T>, e: string)
    ensures Collect(xs, g) == Raised(e) <==>
              exists k :: 0 <= k < |xs| && g(xs[k]) == Raise(e) && forall j :: 0 <= j < k ==> !g(xs[j]).Raise?
  {
    if xs != [] {
      var init := xs[..|xs| - 1];
      var n := |xs| - 1;
      assert forall j :: 0 <= j < n ==> init[j] == xs[j];
      var c := Collect(init, g);
      if c.Raised? {
        RaisedIff(init, g, e);
        RaisedIff(init, g, c.error);
      } else {
        KeptRaisesNothing(init, g);
      }
    }
  }

  /** Once a prefix has raised, so has the whole walk: later items are never examined. */
  lemma {:induction false} RaisedPrefix<A, T>(xs: seq<A>, g: A -> Verdict<T>, i: nat, e: string)
    requires i <= |xs| && Collect(xs[..i], g) == Raised(e)
    ensures Collect(xs, g) == Raised(e)
    decreases |xs| - i
  {
    if i < |xs| {
      assert xs[..i + 1][..i] == xs[..i];
      RaisedPrefix(xs, g, i + 1, e);
    } else {
      assert xs[..i] == xs;
    }
  }
}
