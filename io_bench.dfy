/**
 * The benchmark directory and the steps the three I/O scripts take on it: one
 * trial (list, read every listed file, write `name + "_out"` for each) and the
 * two cleanup loops. File contents, paths and concurrency are not modelled: a
 * trial's reads and writes run one after another over a single listing
 * snapshot, which is what the awaited gather/nursery/task group amounts to for
 * the set of names.
 */
module IoBench {
  import opened Artifacts

  /**
   * How a script run ends: it exits with a status before any trial, or it
   * completes, holding one measured value per trial in run order.
   */
  datatype RunOutcome = Exited(status: int) | Completed(series: seq<real>)

  /** `names` lists every entry of `s` exactly once, in some order. */
  predicate IsListing(names: seq<string>, s: set<string>)
  {
    (forall i :: 0 <= i < |names| ==> names[i] in s)
    && (forall f :: f in s ==> f in names)
    && (forall i, j :: 0 <= i < j < |names| ==> names[i] != names[j])
  }

  /** The directory `test_files`: whether it exists, and the names of the files in it. */
  class Directory {
    var present: bool
    var entries: set<string>

    ghost predicate Valid()
      reads this
    {
      !present ==> entries == {}
    }

    constructor (present: bool, entries: set<string>)
      requires present || entries == {}
      ensures Valid()
      ensures this.present == present && this.entries == entries
    {
      this.present := present;
      this.entries := entries;
    }

    /** `os.listdir`: the entries in an order the operating system chooses. */
    method ListDir() returns (names: seq<string>)
      requires present
      ensures IsListing(names, entries)
    {
      names := [];
      var rest := entries;
      while rest != {}
        invariant rest <= entries
        invariant forall i :: 0 <= i < |names| ==> names[i] in entries && names[i] !in rest
        invariant forall f :: f in entries ==> f in rest || f in names
        invariant forall i, j :: 0 <= i < j < |names| ==> names[i] != names[j]
        decreases rest
      {
        var f :| f in rest;
        names := names + [f];
        rest := rest - {f};
      }
    }

    /** `os.path.exists` on a name inside the directory. */
    method Exists(name: string) returns (found: bool)
      ensures found <==> present && name in entries
    {
      found := present && name in entries;
    }

    /** Opening and reading an existing file; the contents are not modelled and nothing changes. */
    method Read(name: string)
      requires present && name in entries
    {
    }

    /** Opening a file for writing creates it, or truncates it when it already exists. */
    method Write(name: string)
      requires present
      modifies this
      ensures present && entries == old(entries) + {name}
    {
      entries := entries + {name};
    }

    /** `os.remove` of an existing file. */
    method Remove(name: string)
      requires present && name in entries
      modifies this
      ensures present && entries == old(entries) - {name}
    {
      entries := entries - {name};
    }
  }

  /**
   * One trial (`main` of each script): list the directory, read every listed
   * file, then write `p + "_out"` for every listed `p`. Returns the listing the
   * trial worked on.
   */
  method FileIoTrial(d: Directory) returns (paths: seq<string>)
    requires d.present
    modifies d
    ensures d.present
    ensures IsListing(paths, old(d.entries))
    ensures d.entries == AfterTrial(old(d.entries))
  {
    paths := d.ListDir();
    ghost var before := d.entries;
    for i := 0 to |paths|
      invariant d.present && d.entries == before
    {
      d.Read(paths[i]);
    }
    for i := 0 to |paths|
      invariant d.present
      invariant d.entries == before + Targets(paths, i)
    {
      d.Write(OutName(paths[i]));
    }
    TargetsOfListing(paths, before);
  }

  /** The write targets of the first `i` listed names. */
  function Targets(paths: seq<string>, i: nat): (r: set<string>)
    requires i <= |paths|
    ensures forall f :: f in r ==> exists k :: 0 <= k < i && f == OutName(paths[k])
  {
    if i == 0 then {} else Targets(paths, i - 1) + {OutName(paths[i - 1])}
  }

  lemma TargetsHas(paths: seq<string>, i: nat, k: nat)
    requires k < i <= |paths|
    ensures OutName(paths[k]) in Targets(paths, i)
  {
  }

  /** Writing the target of every listed name writes the targets of the whole listing. */
  lemma TargetsOfListing(paths: seq<string>, s: set<string>)
    requires IsListing(paths, s)
    ensures Targets(paths, |paths|) == set f | f in s :: OutName(f)
  {
    forall f | f in s
      ensures OutName(f) in Targets(paths, |paths|)
    {
      var k :| 0 <= k < |paths| && paths[k] == f;
      TargetsHas(paths, |paths|, k);
    }
  }

  /** The trio cleanup: remove every listed name that ends in "_out". */
  method SuffixCleanup(d: Directory)
    requires d.present
    modifies d
    ensures d.present
    ensures d.entries == SuffixCleaned(old(d.entries))
  {
    var names := d.ListDir();
    for i := 0 to |names|
      invariant d.present
      invariant d.entries == old(d.entries) - set k | 0 <= k < i && EndsWithOut(names[k]) :: names[k]
    {
      if EndsWithOut(names[i]) {
        d.Remove(names[i]);
      }
      assert (set k | 0 <= k < i + 1 && EndsWithOut(names[k]) :: names[k])
          == (set k | 0 <= k < i && EndsWithOut(names[k]) :: names[k])
             + (if EndsWithOut(names[i]) then {names[i]} else {});
    }
    assert (set k | 0 <= k < |names| && EndsWithOut(names[k]) :: names[k])
        == set f | f in old(d.entries) && EndsWithOut(f) by {
      forall f | f in old(d.entries) && EndsWithOut(f)
        ensures f in set k | 0 <= k < |names| && EndsWithOut(names[k]) :: names[k]
      {
        var k :| 0 <= k < |names| && names[k] == f;
      }
    }
  }

  /**
   * The asyncio and curio cleanup: for every listed `f`, remove `f + "_out"`
   * if it exists at that moment. The existence test reads the live directory,
   * not the snapshot; the result is still the same as testing the snapshot,
   * because each removed name has exactly one parent in the listing.
   */
  method PairedCleanup(d: Directory)
    requires d.present
    modifies d
    ensures d.present
    ensures d.entries == PairedCleaned(old(d.entries))
  {
    var names := d.ListDir();
    ghost var snapshot := d.entries;
    for i := 0 to |names|
      invariant d.present
      invariant d.entries == snapshot - PairedTargets(names, snapshot, i)
    {
      var out := OutName(names[i]);
      NotYetRemoved(names, snapshot, i);
      var found := d.Exists(out);
      if found {
        d.Remove(out);
      }
    }
    PairedTargetsOfListing(names, snapshot);
  }

  /** The names the paired cleanup has removed after walking the first `i` listed names. */
  function PairedTargets(names: seq<string>, s: set<string>, i: nat): (r: set<string>)
    requires i <= |names|
    ensures forall x :: x in r ==> x in s && exists k :: 0 <= k < i && x == OutName(names[k])
  {
    if i == 0 then {}
    else
      var out := OutName(names[i - 1]);
      PairedTargets(names, s, i - 1) + (if out in s then {out} else {})
  }

  /** The target of the next listed name has not been removed yet: listed names are distinct. */
  lemma NotYetRemoved(names: seq<string>, s: set<string>, i: nat)
    requires i < |names| && IsListing(names, s)
    ensures OutName(names[i]) !in PairedTargets(names, s, i)
  {
    forall k | 0 <= k < i ensures OutName(names[k]) != OutName(names[i]) {
      assert names[k] != names[i];
      if OutName(names[k]) == OutName(names[i]) {
        OutNameInjective(names[k], names[i]);
      }
    }
  }

  lemma PairedTargetsHas(names: seq<string>, s: set<string>, i: nat, k: nat)
    requires k < i <= |names| && OutName(names[k]) in s
    ensures OutName(names[k]) in PairedTargets(names, s, i)
  {
    if k < i - 1 {
      PairedTargetsHas(names, s, i - 1, k);
    }
  }

  /** Walking the whole listing removes exactly `PairedRemoved` of the snapshot. */
  lemma PairedTargetsOfListing(names: seq<string>, s: set<string>)
    requires IsListing(names, s)
    ensures PairedTargets(names, s, |names|) == PairedRemoved(s)
  {
    forall f | f in s && OutName(f) in s
      ensures OutName(f) in PairedTargets(names, s, |names|)
    {
      var k :| 0 <= k < |names| && names[k] == f;
      PairedTargetsHas(names, s, |names|, k);
    }
  }
}
