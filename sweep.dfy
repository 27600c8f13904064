/**
 * Sweep: delete the cache files that are expired or unusable. A file whose
 * name says it has expired goes without being opened; any other is read
 * (which may delete it itself) and goes unless the record it holds is
 * readable, unexpired, and agrees with its name.
 */
module Sweep {
  import opened Wrappers
  import opened Text
  import opened Naming
  import opened Disk
  import opened Handle
  import opened Storage
  import opened Gc

  /** A regular file with the exact cache name shape: what Sweep examines. */
  predicate Examined(prefix: string, e: Entry)
  {
    e.node.File? && SweepMatch(prefix, e.name)
  }

  /** The expiry in a name, as Sweep parses its ten digits. */
  function NameExp(prefix: string, name: string): int
    requires SweepMatch(prefix, name)
  {
    ParseInt(name[|prefix| + HashWidth..]).value
  }

  /** Ten digits always parse: the expiry Sweep reads is the one the name spells. */
  lemma NameExpEpoch(prefix: string, name: string)
    requires SweepMatch(prefix, name)
    ensures NameExp(prefix, name) == NameEpoch(prefix, name)
  {
    ParseEpochDigits(name[|prefix| + HashWidth..]);
  }

  /** The record names the same hash and expiry as its file name, and is still live. */
  predicate Consistent(data: Record, hash: string, exp: int, now: int)
  {
    var dataExp := ParseInt(ByteString(Field(data, ExpField)));
    Hex(Field(data, KeyField)) == hash && dataExp.ok && exp == dataExp.value && (exp == 0 || dataExp.value >= now)
  }

  /** After the read, the file goes if Read failed other than by absence, or the record does not fit. */
  predicate Condemns(read: Result<Record, ReadError>, hash: string, exp: int, now: int)
  {
    || (read.Err? && read.error != ReadFailed(NotFound))
    || !Consistent(if read.Ok? then read.value else map[], hash, exp, now)
  }

  /** Sweep's treatment of one listed entry, from the tally and directory so far. */
  function Step(cfg: Config, codec: Codec, now: int, pinned: set<string>, prev: (Tally, seq<Entry>), e: Entry)
    : (Tally, seq<Entry>)
  {
    if !Examined(cfg.prefix, e) then prev
    else
      var hash := HashSegment(cfg.prefix, e.name);
      var exp := NameExp(cfg.prefix, e.name);
      if exp != 0 && exp < now then Removal(prev.0, prev.1, pinned, e.name)
      else
        var read := ReadOp(cfg, codec, now, prev.1, pinned, e.name);
        if Condemns(read.0, hash, exp, now) then Removal(prev.0, read.1, pinned, e.name)
        else (prev.0, read.1)
  }

  /** Sweep's loop over a listing, from the directory `es` it starts on. */
  function SweepFrom(cfg: Config, codec: Codec, now: int, listing: seq<Entry>, es: seq<Entry>, pinned: set<string>)
    : (Tally, seq<Entry>)
  {
    if listing == [] then (Tally(0, 0, []), es)
    else Step(cfg, codec, now, pinned, SweepFrom(cfg, codec, now, listing[..|listing| - 1], es, pinned), listing[|listing| - 1])
  }

  /** Sweep counts each listed entry at most once, and every failure has its error. */
  lemma {:induction false} SweepTally(cfg: Config, codec: Codec, now: int, listing: seq<Entry>, es: seq<Entry>,
                                      pinned: set<string>)
    ensures var r := SweepFrom(cfg, codec, now, listing, es, pinned);
      r.0.ok + r.0.ko <= |listing| && r.0.ko == |r.0.errs|
  {
    if listing != [] {
      var prev := SweepFrom(cfg, codec, now, listing[..|listing| - 1], es, pinned);
      SweepTally(cfg, codec, now, listing[..|listing| - 1], es, pinned);
      StepTally(cfg, codec, now, pinned, prev, listing[|listing| - 1]);
    }
  }

  /**
   * One step of Sweep counts its entry at most once, a failure only for a
   * name whose removal the system refuses, with its error recorded.
   */
  lemma StepTally(cfg: Config, codec: Codec, now: int, pinned: set<string>, prev: (Tally, seq<Entry>), e: Entry)
    ensures var r := Step(cfg, codec, now, pinned, prev, e);
      prev.0.ok <= r.0.ok && prev.0.ko <= r.0.ko && r.0.ok + r.0.ko <= prev.0.ok + prev.0.ko + 1
    ensures var r := Step(cfg, codec, now, pinned, prev, e);
      r.0.ko - prev.0.ko == |r.0.errs| - |prev.0.errs|
    ensures Step(cfg, codec, now, pinned, prev, e).0.ko > prev.0.ko ==> e.name in pinned
  {
  }

  /**
   * Sweep: list the directory and examine each file with the cache shape.
   * Removals that find no file count as done; other failures are counted in
   * `ko`, their errors collected, and the summary error set.
   */
  method Sweep(cfg: Config, codec: Codec, dir: Directory, now: int64)
    returns (ok: nat, ko: nat, errs: seq<GcError>, failed: bool)
    requires ValidPrefix(cfg.prefix) && dir.Valid()
    modifies dir
    ensures dir.Valid()
    ensures (Tally(ok, ko, errs), dir.entries) == SweepFrom(cfg, codec, now, old(dir.entries), old(dir.entries), dir.pinned)
    ensures failed <==> ko > 0
  {
    var files := dir.List();
    ok, ko, errs := 0, 0, [];
    var i := 0;
    while i < |files|
      invariant 0 <= i <= |files| && dir.Valid()
      invariant files == old(dir.entries)
      invariant (Tally(ok, ko, errs), dir.entries) == SweepFrom(cfg, codec, now, files[..i], files, dir.pinned)
      invariant ko == |errs|
    {
      assert files[..i + 1][..i] == files[..i];
      ghost var prev := SweepFrom(cfg, codec, now, files[..i], files, dir.pinned);
      assert SweepFrom(cfg, codec, now, files[..i + 1], files, dir.pinned) == Step(cfg, codec, now, dir.pinned, prev, files[i]);
      ok, ko, errs := Visit(cfg, codec, dir, files[i], now, ok, ko, errs);
      i := i + 1;
    }
    assert files[..i] == files;
    failed := |errs| > 0;
  }

  /** The body of Sweep's loop: one listed entry, examined and removed if it must go. */
  method Visit(cfg: Config, codec: Codec, dir: Directory, f: Entry, now: int64, ok: nat, ko: nat, errs: seq<GcError>)
    returns (ok': nat, ko': nat, errs': seq<GcError>)
    requires dir.Valid() && ko == |errs|
    modifies dir
    ensures dir.Valid() && ko' == |errs'|
    ensures (Tally(ok', ko', errs'), dir.entries)
      == Step(cfg, codec, now, dir.pinned, (Tally(ok, ko, errs), old(dir.entries)), f)
  {
    ok', ko', errs' := ok, ko, errs;
    if f.node.File? && SweepMatch(cfg.prefix, f.name) {
      var doomed := Inspect(cfg, codec, dir, f.name, now);
      StepInspected(cfg, codec, now, dir.pinned, (Tally(ok, ko, errs), old(dir.entries)), f, doomed, dir.entries);
      if doomed {
        var err := dir.Remove(f.name);
        if err == Some(Failure) {
          errs' := errs + [RemoveFailed(f.name)];
          ko' := ko + 1;
        } else {
          ok' := ok + 1;
        }
      }
    }
  }

  /**
   * The body of Sweep's loop up to its removal: whether the file must go,
   * judged by its name's expiry and otherwise by reading it.
   */
  method Inspect(cfg: Config, codec: Codec, dir: Directory, name: string, now: int64) returns (doomed: bool)
    requires dir.Valid() && SweepMatch(cfg.prefix, name)
    modifies dir
    ensures dir.Valid()
    ensures var exp := NameExp(cfg.prefix, name);
      var read := ReadOp(cfg, codec, now, old(dir.entries), dir.pinned, name);
      if exp != 0 && exp < now then doomed && dir.entries == old(dir.entries)
      else dir.entries == read.1 && doomed == Condemns(read.0, HashSegment(cfg.prefix, name), exp, now)
  {
    var hash := name[|cfg.prefix|..|cfg.prefix| + HashWidth];
    var exp := ParseInt(name[|cfg.prefix| + HashWidth..]).value;
    if exp != 0 && exp < now as int {
      return true;
    }
    var data := Read(cfg, codec, dir, name, now);
    if data.Err? && data.error != ReadFailed(NotFound) {
      return true;
    }
    var fields := if data.Ok? then data.value else map[];
    var dataExp := ParseInt(ByteString(Field(fields, ExpField)));
    doomed := !(Hex(Field(fields, KeyField)) == hash && dataExp.ok && exp == dataExp.value
                && (exp == 0 || dataExp.value >= now as int));
  }

  /** Inspect's verdict followed by the removal it calls for is Sweep's step. */
  lemma StepInspected(cfg: Config, codec: Codec, now: int, pinned: set<string>, prev: (Tally, seq<Entry>), f: Entry,
                      doomed: bool, after: seq<Entry>)
    requires Examined(cfg.prefix, f)
    requires var exp := NameExp(cfg.prefix, f.name);
      var read := ReadOp(cfg, codec, now, prev.1, pinned, f.name);
      if exp != 0 && exp < now then doomed && after == prev.1
      else after == read.1 && doomed == Condemns(read.0, HashSegment(cfg.prefix, f.name), exp, now)
    ensures Step(cfg, codec, now, pinned, prev, f)
      == if doomed then Removal(prev.0, after, pinned, f.name) else (prev.0, after)
  {
  }

  // ------------------------------------------------------ what Sweep decides

  /**
   * The reference verdict on a file, from its name and its bytes alone: it
   * survives when the name is not past its expiry, Read would deliver a
   * record, and that record agrees with the name.
   */
  predicate Keeps(cfg: Config, codec: Codec, now: int, e: Entry)
    requires Examined(cfg.prefix, e)
  {
    var exp := NameEpoch(cfg.prefix, e.name);
    var decision := Decide(cfg, codec, now, e.node.data);
    && !(exp != 0 && exp < now)
    && decision.Deliver?
    && Consistent(decision.data, HashSegment(cfg.prefix, e.name), exp, now)
  }

  /** The files Sweep deletes. */
  predicate Doomed(cfg: Config, codec: Codec, now: int, e: Entry)
  {
    Examined(cfg.prefix, e) && !Keeps(cfg, codec, now, e)
  }

  function Target(cfg: Config, codec: Codec, now: int): Entry -> bool
  {
    e => Doomed(cfg, codec, now, e)
  }

  /**
   * On an entry still present as listed, Sweep's step is a single removal
   * when the verdict dooms it, and leaves everything as it is otherwise,
   * whatever Read removed on the way.
   */
  lemma StepPlanned(cfg: Config, codec: Codec, now: int, pinned: set<string>, prev: (Tally, seq<Entry>), e: Entry)
    requires Lookup(prev.1, e.name) == Some(e.node)
    ensures Step(cfg, codec, now, pinned, prev, e)
      == if Doomed(cfg, codec, now, e) then Removal(prev.0, prev.1, pinned, e.name) else prev
  {
    if Examined(cfg.prefix, e) {
      NameExpEpoch(cfg.prefix, e.name);
      var exp := NameExp(cfg.prefix, e.name);
      if !(exp != 0 && exp < now) {
        assert ReadOutcome(prev.1, e.name) == Ok(e.node.data);
        match Decide(cfg, codec, now, e.node.data)
        case Deliver(data) =>
        case RejectCodec =>
        case RejectCipher =>
          RemoveTwice(prev.0, prev.1, pinned, e.name);
        case RejectExpired =>
          RemoveTwice(prev.0, prev.1, pinned, e.name);
      }
    }
  }

  /** Sweep's loop over the first k entries agrees with the reference plan. */
  lemma {:induction false} SweepPlanned(cfg: Config, codec: Codec, now: int, es: seq<Entry>, pinned: set<string>, k: nat)
    requires Unique(es) && k <= |es|
    ensures SweepFrom(cfg, codec, now, es[..k], es, pinned)
      == (Planned(es[..k], Target(cfg, codec, now), pinned), WithoutAll(es, Cleared(es[..k], Target(cfg, codec, now), pinned)))
  {
    var d := Target(cfg, codec, now);
    if k == 0 {
      PlanStart(es, d, pinned);
    } else {
      assert es[..k][..k - 1] == es[..k - 1];
      SweepPlanned(cfg, codec, now, es, pinned, k - 1);
      var prev := SweepFrom(cfg, codec, now, es[..k - 1], es, pinned);
      assert d(es[k - 1]) == Doomed(cfg, codec, now, es[k - 1]);
      Advance(es, k - 1, d, pinned, prev);
      StepPlanned(cfg, codec, now, pinned, prev, es[k - 1]);
    }
  }

  /**
   * What Sweep does to a directory: every doomed file is counted once; it is
   * gone afterwards unless the system refused its removal, which is then
   * counted as a failure with its error; every file the verdict keeps, and
   * every other entry, stays.
   */
  lemma SweepOutcome(cfg: Config, codec: Codec, now: int, es: seq<Entry>, pinned: set<string>)
    requires Sorted(es)
    ensures var (t, after) := SweepFrom(cfg, codec, now, es, es, pinned);
      && t.ok + t.ko == Discarded(es, Target(cfg, codec, now))
      && t.ko == |t.errs|
      && (forall x :: x in t.errs ==> x.name in pinned)
      && (forall e :: e in after ==> e in es)
      && (forall e :: e in es && !Doomed(cfg, codec, now, e) ==> e in after)
      && (forall e :: e in es && Doomed(cfg, codec, now, e) ==> (e in after <==> e.name in pinned))
  {
    SortedUnique(es);
    assert es[..|es|] == es;
    SweepPlanned(cfg, codec, now, es, pinned, |es|);
    PlannedCounts(es, Target(cfg, codec, now), pinned);
    ClearedMembers(es, Target(cfg, codec, now), pinned);
  }

  /**
   * A record Write stored under a name with the cache shape survives a Sweep
   * run at any time up to its expiry, for a record without a TTL at any time.
   */
  lemma SweepKeepsFresh(cfg: Config, codec: Codec, hash: Bytes, fields: Record, duration: nat, now: int,
                        es: seq<Entry>, later: int)
    requires Faithful(codec) && IsInt64(now)
    requires |hash| == 64 && WellShaped(duration, now)
    requires WriteOp(cfg, codec, hash, fields, duration, now, es).0 == None
    requires duration == 0 || later <= Expiry(duration, now)
    ensures var name := Title(cfg.prefix, hash, duration, now);
      var e := Entry(name, Lookup(WriteOp(cfg, codec, hash, fields, duration, now, es).1, name).value);
      Examined(cfg.prefix, e) && Keeps(cfg, codec, later, e)
  {
    var data := Inject(fields, hash, duration, now);
    var name := Title(cfg.prefix, hash, duration, now);
    var plain := codec.encode(data).value;
    var blob := if cfg.crypt then codec.seal(plain, cfg.keyCrypt).value else plain;
    var es' := WriteOp(cfg, codec, hash, fields, duration, now, es).1;
    assert es' == Put(es, name, File(blob));
    assert Lookup(es', name) == Some(File(blob));
    TitleSwept(cfg.prefix, hash, duration, now);
    InjectReserved(fields, hash, duration, now);
    DecideSealed(cfg, codec, data, plain, blob, later);
  }

  /** With no failure reported, no doomed file is left in the directory. */
  lemma SweepComplete(cfg: Config, codec: Codec, now: int, es: seq<Entry>, pinned: set<string>)
    requires Sorted(es)
    requires SweepFrom(cfg, codec, now, es, es, pinned).0.ko == 0
    ensures forall e :: e in SweepFrom(cfg, codec, now, es, es, pinned).1 ==> !Doomed(cfg, codec, now, e)
  {
    SortedUnique(es);
    assert es[..|es|] == es;
    SweepPlanned(cfg, codec, now, es, pinned, |es|);
    ClearedMembers(es, Target(cfg, codec, now), pinned);
    forall e | e in es && Doomed(cfg, codec, now, e)
      ensures e.name !in pinned
    {
      if e.name in pinned {
        PlannedPinned(es, Target(cfg, codec, now), pinned, e);
      }
    }
  }
}
