/**
 * Bookkeeping shared by the two garbage collectors, Purge and Sweep: the
 * success and failure counters, the per-file error list, and the reference
 * outcome of a batch given which entries it discards.
 */
module Gc {
  import opened Wrappers
  import opened Disk

  /** A per-file error of a batch: the removal of that name failed. */
  datatype GcError = RemoveFailed(name: string)

  /** The `ok` and `ko` counters and the error list `arrayErr`. */
  datatype Tally = Tally(ok: nat, ko: nat, errs: seq<GcError>)

  /** One removal as a batch counts it: a missing file counts as removed. */
  function Count(t: Tally, name: string, err: Option<IoError>): Tally
  {
    if err == Some(Failure) then Tally(t.ok, t.ko + 1, t.errs + [RemoveFailed(name)])
    else Tally(t.ok + 1, t.ko, t.errs)
  }

  /**
   * Each removal adds one to exactly one counter; a failure, and only a
   * failure, appends its error to the list and keeps the earlier ones.
   */
  lemma CountTally(t: Tally, name: string, err: Option<IoError>)
    ensures Count(t, name, err).ok + Count(t, name, err).ko == t.ok + t.ko + 1
    ensures Count(t, name, err).ko > t.ko <==> err == Some(Failure)
    ensures Count(t, name, err).errs
      == t.errs + (if err == Some(Failure) then [RemoveFailed(name)] else [])
  {
  }

  /** One `os.Remove` of a batch: its count and the directory after it. */
  function Removal(t: Tally, cur: seq<Entry>, pinned: set<string>, name: string): (Tally, seq<Entry>)
  {
    (Count(t, name, RemoveOutcome(cur, pinned, name)), AfterRemove(cur, pinned, name))
  }

  /** The tally of one listed entry, knowing only whether it is discarded and whether it is pinned. */
  function PlanStep(t: Tally, e: Entry, discard: Entry -> bool, pinned: set<string>): Tally
  {
    if discard(e) then Count(t, e.name, if e.name in pinned then Some(Failure) else None) else t
  }

  /** Reference tally of a batch over a listing. */
  function Planned(listing: seq<Entry>, discard: Entry -> bool, pinned: set<string>): Tally
  {
    if listing == [] then Tally(0, 0, [])
    else PlanStep(Planned(listing[..|listing| - 1], discard, pinned), listing[|listing| - 1], discard, pinned)
  }

  /** Number of discarded entries in a listing. */
  function Discarded(listing: seq<Entry>, discard: Entry -> bool): nat
  {
    if listing == [] then 0
    else Discarded(listing[..|listing| - 1], discard) + (if discard(listing[|listing| - 1]) then 1 else 0)
  }

  /** Names a batch actually deletes: the discarded entries the system lets go. */
  function Cleared(listing: seq<Entry>, discard: Entry -> bool, pinned: set<string>): set<string>
  {
    set e | e in listing && discard(e) && !(e.name in pinned) :: e.name
  }

  /**
   * Every discarded entry is counted once, as a success or as a failure;
   * failures are exactly the pinned ones, and each has its error in the list.
   */
  lemma {:induction false} PlannedCounts(listing: seq<Entry>, discard: Entry -> bool, pinned: set<string>)
    ensures Planned(listing, discard, pinned).ok + Planned(listing, discard, pinned).ko == Discarded(listing, discard)
    ensures Planned(listing, discard, pinned).ko == |Planned(listing, discard, pinned).errs|
    ensures forall x :: x in Planned(listing, discard, pinned).errs ==>
      x.name in pinned && exists e :: e in listing && discard(e) && e.name == x.name
  {
    if listing != [] {
      var init := listing[..|listing| - 1];
      PlannedCounts(init, discard, pinned);
      forall x | x in Planned(init, discard, pinned).errs
        ensures exists e :: e in listing && discard(e) && e.name == x.name
      {
        var e :| e in init && discard(e) && e.name == x.name;
        assert e in listing;
      }
    }
  }

  /** A discarded entry the system refuses to remove makes the batch report a failure. */
  lemma {:induction false} PlannedPinned(listing: seq<Entry>, discard: Entry -> bool, pinned: set<string>, e: Entry)
    requires e in listing && discard(e) && e.name in pinned
    ensures Planned(listing, discard, pinned).ko > 0
  {
    var init := listing[..|listing| - 1];
    assert listing == init + [listing[|listing| - 1]];
    if e != listing[|listing| - 1] {
      PlannedPinned(init, discard, pinned, e);
    }
  }

  /** Extending the listing by one entry extends the cleared names by at most that entry's. */
  lemma ClearedStep(listing: seq<Entry>, discard: Entry -> bool, pinned: set<string>)
    requires listing != []
    ensures var e := listing[|listing| - 1];
      Cleared(listing, discard, pinned)
        == Cleared(listing[..|listing| - 1], discard, pinned)
           + (if discard(e) && !(e.name in pinned) then {e.name} else {})
  {
    var init := listing[..|listing| - 1];
    assert listing == init + [listing[|listing| - 1]];
  }

  /** An entry not yet listed (names being unique) is not among the names cleared so far. */
  lemma ClearedFresh(es: seq<Entry>, k: nat, discard: Entry -> bool, pinned: set<string>)
    requires Unique(es) && k < |es|
    ensures !(es[k].name in Cleared(es[..k], discard, pinned))
  {
  }

  /**
   * Removing a listed name not yet removed, from a directory from which
   * `gone` was removed, counts as planned and removes it too, unless it is pinned.
   */
  lemma RemoveStep(es: seq<Entry>, gone: set<string>, name: string, pinned: set<string>, t: Tally)
    requires Lookup(es, name).Some? && name !in gone
    ensures Removal(t, WithoutAll(es, gone), pinned, name)
      == (Count(t, name, if name in pinned then Some(Failure) else None),
          WithoutAll(es, gone + (if name in pinned then {} else {name})))
  {
    LookupWithoutAll(es, gone, name);
    if name in pinned {
      assert gone + {} == gone;
    } else {
      WithoutAllTwice(es, gone, {name});
    }
  }

  /** The k-th entry is still in the directory when the batch reaches it. */
  lemma StillThere(es: seq<Entry>, k: nat, discard: Entry -> bool, pinned: set<string>)
    requires Unique(es) && k < |es|
    ensures Lookup(WithoutAll(es, Cleared(es[..k], discard, pinned)), es[k].name) == Some(es[k].node)
  {
    ClearedFresh(es, k, discard, pinned);
    LookupWithoutAll(es, Cleared(es[..k], discard, pinned), es[k].name);
    LookupAt(es, k);
  }

  /** The cleared names grow by the k-th name exactly when it is discarded and not pinned. */
  lemma SkipOrClear(es: seq<Entry>, k: nat, discard: Entry -> bool, pinned: set<string>)
    requires k < |es|
    ensures Cleared(es[..k + 1], discard, pinned)
      == Cleared(es[..k], discard, pinned) + (if discard(es[k]) && !(es[k].name in pinned) then {es[k].name} else {})
  {
    assert es[..k + 1][..k] == es[..k];
    ClearedStep(es[..k + 1], discard, pinned);
  }

  /**
   * One step of a batch over a directory listed in full: removing the k-th
   * entry when it is discarded, and skipping it otherwise, keeps the tally
   * and the directory equal to the plan for the entries seen so far.
   */
  lemma Advance(es: seq<Entry>, k: nat, discard: Entry -> bool, pinned: set<string>, prev: (Tally, seq<Entry>))
    requires Unique(es) && k < |es|
    requires prev == (Planned(es[..k], discard, pinned), WithoutAll(es, Cleared(es[..k], discard, pinned)))
    ensures Lookup(prev.1, es[k].name) == Some(es[k].node)
    ensures (if discard(es[k]) then Removal(prev.0, prev.1, pinned, es[k].name) else prev)
      == (Planned(es[..k + 1], discard, pinned), WithoutAll(es, Cleared(es[..k + 1], discard, pinned)))
  {
    var e := es[k];
    var gone := Cleared(es[..k], discard, pinned);
    var gone' := Cleared(es[..k + 1], discard, pinned);
    var next := Planned(es[..k + 1], discard, pinned);
    PlanUnfold(es, k, discard, pinned);
    assert next == PlanStep(prev.0, e, discard, pinned);
    StillThere(es, k, discard, pinned);
    SkipOrClear(es, k, discard, pinned);
    assert gone' == gone + (if discard(e) && !(e.name in pinned) then {e.name} else {});
    if discard(e) {
      ClearedFresh(es, k, discard, pinned);
      RemoveStep(es, gone, e.name, pinned, prev.0);
      assert Removal(prev.0, prev.1, pinned, e.name) == (next, WithoutAll(es, gone'));
    } else {
      assert gone' == gone;
      assert next == prev.0;
    }
  }

  /** The plan for one more entry is one more step of the plan. */
  lemma PlanUnfold(es: seq<Entry>, k: nat, discard: Entry -> bool, pinned: set<string>)
    requires k < |es|
    ensures Planned(es[..k + 1], discard, pinned) == PlanStep(Planned(es[..k], discard, pinned), es[k], discard, pinned)
  {
    assert es[..k + 1][..k] == es[..k];
  }

  /** The plan before any entry is seen: nothing counted, nothing removed. */
  lemma PlanStart(es: seq<Entry>, discard: Entry -> bool, pinned: set<string>)
    ensures (Tally(0, 0, []), es) == (Planned(es[..0], discard, pinned), WithoutAll(es, Cleared(es[..0], discard, pinned)))
  {
    assert es[..0] == [];
    assert Cleared(es[..0], discard, pinned) == {};
    WithoutNothing(es);
  }

  /**
   * Removing a present name twice, the second time finding it gone, counts
   * and leaves the directory as removing it once.
   */
  lemma RemoveTwice(t: Tally, cur: seq<Entry>, pinned: set<string>, name: string)
    requires Lookup(cur, name).Some?
    ensures Removal(t, AfterRemove(cur, pinned, name), pinned, name) == Removal(t, cur, pinned, name)
  {
    LookupWithoutAll(cur, {name}, name);
  }

  /**
   * After a batch, an entry of the directory is still there exactly when it
   * was not discarded or the system refused to remove it.
   */
  lemma ClearedMembers(es: seq<Entry>, discard: Entry -> bool, pinned: set<string>)
    requires Unique(es)
    ensures forall e :: e in WithoutAll(es, Cleared(es, discard, pinned)) <==>
      e in es && !(discard(e) && !(e.name in pinned))
  {
    forall e | e in es && discard(e) && !(e.name in pinned)
      ensures !(e in WithoutAll(es, Cleared(es, discard, pinned)))
    {
    }
    forall e | e in es && !(discard(e) && !(e.name in pinned))
      ensures e in WithoutAll(es, Cleared(es, discard, pinned))
    {
    }
  }
}
