/**
 * The file artifacts of the I/O benchmarks, as values: a directory listing is
 * a finite set of file names. These functions say what one trial and the two
 * cleanup rules do to a listing; the imperative scripts in IoBench are proved
 * to follow them.
 */
module Artifacts {
  /** The suffix every write target of a trial gets. */
  const Suffix: string := "_out"

  /** The name a trial writes for a listed file `f`. */
  function OutName(f: string): string
  {
    f + Suffix
  }

  /** `f.endswith("_out")`. */
  predicate EndsWithOut(f: string)
  {
    |f| >= |Suffix| && f[|f| - |Suffix|..] == Suffix
  }

  /** No name of the listing ends in "_out" (the generated base files `file_{i}.txt`). */
  predicate NoOutNames(s: set<string>)
  {
    forall f :: f in s ==> !EndsWithOut(f)
  }

  /** `b` followed by `j` copies of "_out". */
  function Chain(b: string, j: nat): string
  {
    if j == 0 then b else OutName(Chain(b, j - 1))
  }

  /** The listing after one trial: every listed name plus its write target. */
  function AfterTrial(s: set<string>): set<string>
  {
    s + set f | f in s :: OutName(f)
  }

  /** The listing after `k` trials, each re-listing the directory. */
  function AfterTrials(s: set<string>, k: nat): set<string>
  {
    if k == 0 then s else AfterTrial(AfterTrials(s, k - 1))
  }

  /** What the suffix-based cleanup leaves: the names that do not end in "_out". */
  function SuffixCleaned(s: set<string>): set<string>
  {
    set f | f in s && !EndsWithOut(f)
  }

  /** The names the paired cleanup removes: `f + "_out"` for each listed `f` whose output exists. */
  function PairedRemoved(s: set<string>): set<string>
  {
    set f | f in s && OutName(f) in s :: OutName(f)
  }

  /** What the paired cleanup leaves. */
  function PairedCleaned(s: set<string>): set<string>
  {
    s - PairedRemoved(s)
  }

  // ---------------------------------------------------------------------------
  // Names

  lemma OutNameEndsWithOut(f: string)
    ensures EndsWithOut(OutName(f))
  {
    assert OutName(f)[|f|..] == Suffix;
  }

  lemma OutNameInjective(f: string, g: string)
    requires OutName(f) == OutName(g)
    ensures f == g
  {
    assert |f| == |g|;
    assert f == OutName(f)[..|f|];
    assert g == OutName(g)[..|g|];
  }

  /** A chain of at least one "_out" ends in "_out"; a chain of none is its base. */
  lemma ChainEndsWithOut(b: string, j: nat)
    requires !EndsWithOut(b)
    ensures EndsWithOut(Chain(b, j)) <==> j > 0
  {
    if j > 0 {
      OutNameEndsWithOut(Chain(b, j - 1));
    }
  }

  /** Over base names without "_out", a chain determines its base and its length. */
  lemma {:induction false} ChainInjective(b: string, j: nat, c: string, i: nat)
    requires !EndsWithOut(b) && !EndsWithOut(c)
    requires Chain(b, j) == Chain(c, i)
    ensures b == c && j == i
  {
    if j == 0 && i == 0 {
    } else if j == 0 {
      OutNameEndsWithOut(Chain(c, i - 1));
    } else if i == 0 {
      OutNameEndsWithOut(Chain(b, j - 1));
    } else {
      OutNameInjective(Chain(b, j - 1), Chain(c, i - 1));
      ChainInjective(b, j - 1, c, i - 1);
    }
  }

  // ---------------------------------------------------------------------------
  // Trials

  /** A trial only adds names; each added name is the write target of a listed name. */
  lemma TrialOnlyAdds(s: set<string>, x: string)
    ensures s <= AfterTrial(s)
    ensures x in AfterTrial(s) - s ==> exists f :: f in s && x == OutName(f)
  {
  }

  /** A trial writes the target of every listed name. */
  lemma TrialWritesTarget(s: set<string>, f: string)
    requires f in s
    ensures f in AfterTrial(s) && OutName(f) in AfterTrial(s)
  {
  }

  /** Every chain of at most `k` suffixes over the base is listed after `k` trials. */
  lemma {:induction false} ChainListed(b: set<string>, k: nat, y: string, j: nat)
    requires y in b && j <= k
    ensures Chain(y, j) in AfterTrials(b, k)
  {
    if k > 0 {
      var prev := AfterTrials(b, k - 1);
      assert AfterTrials(b, k) == AfterTrial(prev);
      if j < k {
        ChainListed(b, k - 1, y, j);
        TrialWritesTarget(prev, Chain(y, j));
      } else {
        var f := Chain(y, j - 1);
        assert Chain(y, j) == OutName(f);
        ChainListed(b, k - 1, y, j - 1);
        TrialWritesTarget(prev, f);
      }
    }
  }

  /** Every name listed after `k` trials is a chain of at most `k` suffixes over the base. */
  lemma {:induction false} ListedIsChain(b: set<string>, k: nat, x: string)
    requires x in AfterTrials(b, k)
    ensures exists y, j: nat :: y in b && j <= k && x == Chain(y, j)
  {
    if k == 0 {
      assert x == Chain(x, 0);
    } else {
      var prev := AfterTrials(b, k - 1);
      if x in prev {
        ListedIsChain(b, k - 1, x);
      } else {
        var f :| f in prev && x == OutName(f);
        ListedIsChain(b, k - 1, f);
        var y, j: nat :| y in b && j <= k - 1 && f == Chain(y, j);
        assert x == Chain(y, j + 1);
      }
    }
  }

  /** After `k` trials from base `b` the listing is `{y + "_out"*j | y in b, 0 <= j <= k}`. */
  lemma TrialsShape(b: set<string>, k: nat, x: string)
    ensures x in AfterTrials(b, k) <==> exists y, j: nat :: y in b && j <= k && x == Chain(y, j)
  {
    if x in AfterTrials(b, k) {
      ListedIsChain(b, k, x);
    }
    if exists y, j: nat :: y in b && j <= k && x == Chain(y, j) {
      var y, j: nat :| y in b && j <= k && x == Chain(y, j);
      ChainListed(b, k, y, j);
    }
  }

  /** The `j`-th layer of chains over `b`. */
  function Layer(b: set<string>, j: nat): set<string>
  {
    set y | y in b :: Chain(y, j)
  }

  lemma {:induction false} LayerSize(b: set<string>, j: nat)
    requires NoOutNames(b)
    ensures |Layer(b, j)| == |b|
    decreases |b|
  {
    if b != {} {
      var y :| y in b;
      var rest := b - {y};
      LayerSize(rest, j);
      assert Layer(b, j) == Layer(rest, j) + {Chain(y, j)};
      if Chain(y, j) in Layer(rest, j) {
        var z :| z in rest && Chain(z, j) == Chain(y, j);
        ChainInjective(z, j, y, j);
      }
    }
  }

  /**
   * The trial workload grows: from `n` base names with no "_out" name among
   * them, trial `k` (counting from 0) lists and writes `n * (k + 1)` names.
   */
  lemma {:induction false} TrialsSize(b: set<string>, k: nat)
    requires NoOutNames(b)
    ensures |AfterTrials(b, k)| == |b| * (k + 1)
  {
    if k == 0 {
    } else {
      var prev := AfterTrials(b, k - 1);
      TrialsSize(b, k - 1);
      assert |prev| == |b| * k;
      var next := Layer(b, k);
      TrialAddsLayer(b, k);
      LayerIsNew(b, k);
      LayerSize(b, k);
      DisjointGrowth(AfterTrials(b, k), prev, next, |b|, k);
    }
  }

  /** Adding `n` new names to `n * k` names gives `n * (k + 1)` names. */
  lemma DisjointGrowth(all: set<string>, prev: set<string>, next: set<string>, n: nat, k: nat)
    requires all == prev + next && prev !! next && |prev| == n * k && |next| == n
    ensures |all| == n * (k + 1)
  {
    assert prev * next == {};
    assert n * (k + 1) == n * k + n;
  }

  /** Trial `k` adds exactly the chains with `k` suffixes. */
  lemma TrialAddsLayer(b: set<string>, k: nat)
    requires k > 0
    ensures AfterTrials(b, k) == AfterTrials(b, k - 1) + Layer(b, k)
  {
    forall x | x in AfterTrials(b, k) && x !in AfterTrials(b, k - 1) ensures x in Layer(b, k) {
      NewNameInLayer(b, k, x);
    }
    forall x | x in Layer(b, k) ensures x in AfterTrials(b, k) {
      var y :| y in b && x == Chain(y, k);
      ChainListed(b, k, y, k);
    }
  }

  /** A name that trial `k` adds is a chain with exactly `k` suffixes. */
  lemma NewNameInLayer(b: set<string>, k: nat, x: string)
    requires k > 0 && x in AfterTrials(b, k) && x !in AfterTrials(b, k - 1)
    ensures x in Layer(b, k)
  {
    var prev := AfterTrials(b, k - 1);
    TrialOnlyAdds(prev, x);
    var f :| f in prev && x == OutName(f);
    ListedIsChain(b, k - 1, f);
    var y, j: nat :| y in b && j <= k - 1 && f == Chain(y, j);
    if j + 1 < k {
      ChainListed(b, k - 1, y, j + 1);
      assert false;
    }
    assert j == k - 1;
  }

  /** Over a base without "_out" names, the chains with `k` suffixes are not listed before trial `k`. */
  lemma LayerIsNew(b: set<string>, k: nat)
    requires NoOutNames(b) && k > 0
    ensures AfterTrials(b, k - 1) !! Layer(b, k)
  {
    forall x | x in AfterTrials(b, k - 1) && x in Layer(b, k) ensures false {
      ListedIsChain(b, k - 1, x);
      var y, j: nat :| y in b && j <= k - 1 && x == Chain(y, j);
      var z :| z in b && x == Chain(z, k);
      ChainInjective(y, j, z, k);
    }
  }

  // ---------------------------------------------------------------------------
  // Suffix-based cleanup (trio)

  /** Exactly the names ending in "_out" go; every other name stays. */
  lemma SuffixCleanedExactly(s: set<string>, x: string)
    ensures x in SuffixCleaned(s) <==> x in s && !EndsWithOut(x)
    ensures SuffixCleaned(s) <= s
  {
  }

  /** A second suffix-based cleanup removes nothing. */
  lemma SuffixCleanupIdempotent(s: set<string>)
    ensures SuffixCleaned(SuffixCleaned(s)) == SuffixCleaned(s)
  {
  }

  /** Trials followed by the suffix-based cleanup restore a base listing without "_out" names. */
  lemma SuffixCleanupRestores(b: set<string>, k: nat)
    requires NoOutNames(b)
    ensures SuffixCleaned(AfterTrials(b, k)) == b
  {
    forall x | x in SuffixCleaned(AfterTrials(b, k)) ensures x in b {
      ListedIsChain(b, k, x);
      var y, j: nat :| y in b && j <= k && x == Chain(y, j);
      ChainEndsWithOut(y, j);
    }
    forall x | x in b ensures x in SuffixCleaned(AfterTrials(b, k)) {
      ChainListed(b, k, x, 0);
    }
  }

  // ---------------------------------------------------------------------------
  // Paired cleanup (asyncio, curio)

  /**
   * A name is removed exactly when it is the write target of a listed name:
   * it ends in "_out" and its parent is in the listing.
   */
  lemma PairedRemovesExactly(s: set<string>, x: string)
    ensures x in PairedCleaned(s) <==> x in s && !(exists f :: f in s && x == OutName(f))
    ensures x in s && x !in PairedCleaned(s) ==> EndsWithOut(x)
  {
    if x in s && x !in PairedCleaned(s) {
      var f :| f in s && OutName(f) in s && x == OutName(f);
      OutNameEndsWithOut(f);
    }
  }

  /** An orphan `x + "_out"` whose `x` is not listed survives the paired cleanup. */
  lemma PairedKeepsOrphan(s: set<string>, x: string)
    requires OutName(x) in s && x !in s
    ensures OutName(x) in PairedCleaned(s)
  {
    if OutName(x) in PairedRemoved(s) {
      var f :| f in s && OutName(f) in s && OutName(x) == OutName(f);
      OutNameInjective(x, f);
    }
  }

  /** After the paired cleanup no name is listed together with its write target. */
  lemma PairedCleanupLeavesNoPair(s: set<string>, f: string)
    ensures !(f in PairedCleaned(s) && OutName(f) in PairedCleaned(s))
  {
  }

  /** A second paired cleanup removes nothing. */
  lemma PairedCleanupIdempotent(s: set<string>)
    ensures PairedRemoved(PairedCleaned(s)) == {}
    ensures PairedCleaned(PairedCleaned(s)) == PairedCleaned(s)
  {
    var r := PairedCleaned(s);
    forall f | f in r ensures OutName(f) !in r {
      PairedCleanupLeavesNoPair(s, f);
    }
    assert PairedRemoved(r) == {};
  }

  /** Trials followed by the paired cleanup restore a base listing without "_out" names, chains included. */
  lemma PairedCleanupRestores(b: set<string>, k: nat)
    requires NoOutNames(b)
    ensures PairedCleaned(AfterTrials(b, k)) == b
  {
    var s := AfterTrials(b, k);
    forall x | x in s ensures x in b || x in PairedRemoved(s) {
      ListedIsChain(b, k, x);
      var y, j: nat :| y in b && j <= k && x == Chain(y, j);
      if j > 0 {
        var f := Chain(y, j - 1);
        ChainListed(b, k, y, j - 1);
        assert x == OutName(f);
      }
    }
    forall f | f in s ensures OutName(f) !in b {
      OutNameEndsWithOut(f);
    }
    forall x | x in b ensures x in s {
      ChainListed(b, k, x, 0);
    }
  }

  /** The two rules differ on an orphan: the suffix rule removes it, the paired rule keeps it. */
  lemma CleanupRulesDifferOnOrphans()
    ensures SuffixCleaned({"a_out"}) == {}
    ensures PairedCleaned({"a_out"}) == {"a_out"}
  {
    assert OutName("a") == "a_out";
    assert EndsWithOut("a_out");
    PairedKeepsOrphan({"a_out"}, "a");
  }
}
