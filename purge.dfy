/**
 * Purge: delete every cache file of the directory, valid or not. A cache
 * file is a regular entry whose name has the cache shape, possibly hidden
 * behind a leading dot.
 */
module Purge {
  import opened Wrappers
  import opened Naming
  import opened Disk
  import opened Handle
  import opened Gc

  /** A regular file with a cache name, hidden or not: what Purge deletes. */
  predicate Purgeable(prefix: string, e: Entry)
  {
    e.node.File? && PurgeMatch(prefix, e.name)
  }

  function Target(prefix: string): Entry -> bool
  {
    e => Purgeable(prefix, e)
  }

  /** Purge's loop over a listing, from the directory `es` it starts on. */
  function PurgeFrom(prefix: string, listing: seq<Entry>, es: seq<Entry>, pinned: set<string>): (Tally, seq<Entry>)
  {
    if listing == [] then (Tally(0, 0, []), es)
    else
      var prev := PurgeFrom(prefix, listing[..|listing| - 1], es, pinned);
      var e := listing[|listing| - 1];
      if Purgeable(prefix, e) then Removal(prev.0, prev.1, pinned, e.name) else prev
  }

  /** Purge counts each listed entry at most once, and every failure has its error. */
  lemma {:induction false} PurgeTally(prefix: string, listing: seq<Entry>, es: seq<Entry>, pinned: set<string>)
    ensures var r := PurgeFrom(prefix, listing, es, pinned);
      r.0.ok + r.0.ko <= |listing| && r.0.ko == |r.0.errs|
  {
    if listing != [] {
      var prev := PurgeFrom(prefix, listing[..|listing| - 1], es, pinned);
      PurgeTally(prefix, listing[..|listing| - 1], es, pinned);
      CountTally(prev.0, listing[|listing| - 1].name, RemoveOutcome(prev.1, pinned, listing[|listing| - 1].name));
    }
  }

  /**
   * Purge: list the directory and remove each matching file. A removal that
   * finds no file counts as done; any other failure is counted in `ko`, its
   * error collected, and the summary error set.
   */
  method Purge(cfg: Config, dir: Directory) returns (ok: nat, ko: nat, errs: seq<GcError>, failed: bool)
    requires ValidPrefix(cfg.prefix) && dir.Valid()
    modifies dir
    ensures dir.Valid()
    ensures (Tally(ok, ko, errs), dir.entries) == PurgeFrom(cfg.prefix, old(dir.entries), old(dir.entries), dir.pinned)
    ensures failed <==> ko > 0
  {
    var files := dir.List();
    ok, ko, errs := 0, 0, [];
    var i := 0;
    while i < |files|
      invariant 0 <= i <= |files| && dir.Valid()
      invariant files == old(dir.entries)
      invariant (Tally(ok, ko, errs), dir.entries) == PurgeFrom(cfg.prefix, files[..i], files, dir.pinned)
      invariant ko == |errs|
    {
      PurgeFromStep(cfg.prefix, files, i, dir.pinned);
      ok, ko, errs := Discard(cfg.prefix, dir, files[i], ok, ko, errs);
      i := i + 1;
    }
    assert files[..i] == files;
    failed := |errs| > 0;
  }

  /** The body of Purge's loop: one listed entry, removed and counted if it matches. */
  method Discard(prefix: string, dir: Directory, f: Entry, ok: nat, ko: nat, errs: seq<GcError>)
    returns (ok': nat, ko': nat, errs': seq<GcError>)
    requires dir.Valid() && ko == |errs|
    modifies dir
    ensures dir.Valid() && ko' == |errs'|
    ensures (Tally(ok', ko', errs'), dir.entries)
      == if Purgeable(prefix, f) then Removal(Tally(ok, ko, errs), old(dir.entries), dir.pinned, f.name)
         else (Tally(ok, ko, errs), old(dir.entries))
  {
    ok', ko', errs' := ok, ko, errs;
    if Purgeable(prefix, f) {
      var err := dir.Remove(f.name);
      if err == Some(Failure) {
        errs' := errs + [RemoveFailed(f.name)];
        ko' := ko + 1;
      } else {
        ok' := ok + 1;
      }
    }
  }

  /** One more listed entry: Purge removes it if it is purgeable, and otherwise moves on. */
  lemma PurgeFromStep(prefix: string, files: seq<Entry>, i: nat, pinned: set<string>)
    requires i < |files|
    ensures var prev := PurgeFrom(prefix, files[..i], files, pinned);
      PurgeFrom(prefix, files[..i + 1], files, pinned)
        == if Purgeable(prefix, files[i]) then Removal(prev.0, prev.1, pinned, files[i].name) else prev
  {
    assert files[..i + 1][..i] == files[..i];
  }

  /** Purge's loop over the first k entries agrees with the reference plan. */
  lemma {:induction false} PurgePlanned(prefix: string, es: seq<Entry>, pinned: set<string>, k: nat)
    requires Unique(es) && k <= |es|
    ensures PurgeFrom(prefix, es[..k], es, pinned)
      == (Planned(es[..k], Target(prefix), pinned), WithoutAll(es, Cleared(es[..k], Target(prefix), pinned)))
  {
    var d := Target(prefix);
    if k == 0 {
      PlanStart(es, d, pinned);
    } else {
      assert es[..k][..k - 1] == es[..k - 1];
      PurgePlanned(prefix, es, pinned, k - 1);
      assert d(es[k - 1]) == Purgeable(prefix, es[k - 1]);
      Advance(es, k - 1, d, pinned, PurgeFrom(prefix, es[..k - 1], es, pinned));
    }
  }

  /**
   * What Purge does to a directory: every matching file is counted once;
   * it is gone afterwards unless the system refused its removal, which is
   * then counted as a failure with its error; every other entry stays.
   */
  lemma PurgeOutcome(prefix: string, es: seq<Entry>, pinned: set<string>)
    requires Sorted(es)
    ensures var (t, after) := PurgeFrom(prefix, es, es, pinned);
      && t.ok + t.ko == Discarded(es, Target(prefix))
      && t.ko == |t.errs|
      && (forall x :: x in t.errs ==> x.name in pinned)
      && (forall e :: e in after ==> e in es)
      && (forall e :: e in es && !(e.node.File? && PurgeMatch(prefix, e.name)) ==> e in after)
      && (forall e :: e in es && e.node.File? && PurgeMatch(prefix, e.name) ==> (e in after <==> e.name in pinned))
  {
    SortedUnique(es);
    assert es[..|es|] == es;
    PurgePlanned(prefix, es, pinned, |es|);
    PlannedCounts(es, Target(prefix), pinned);
    ClearedMembers(es, Target(prefix), pinned);
  }

  /** With no failure reported, no cache file is left in the directory. */
  lemma PurgeComplete(prefix: string, es: seq<Entry>, pinned: set<string>)
    requires Sorted(es)
    requires PurgeFrom(prefix, es, es, pinned).0.ko == 0
    ensures forall e :: e in PurgeFrom(prefix, es, es, pinned).1 ==> !(e.node.File? && PurgeMatch(prefix, e.name))
  {
    SortedUnique(es);
    assert es[..|es|] == es;
    PurgePlanned(prefix, es, pinned, |es|);
    PlannedCounts(es, Target(prefix), pinned);
    ClearedMembers(es, Target(prefix), pinned);
    forall e | e in es && e.node.File? && PurgeMatch(prefix, e.name)
      ensures e.name !in pinned
    {
      if e.name in pinned {
        PlannedPinned(es, Target(prefix), pinned, e);
      }
    }
  }
}
