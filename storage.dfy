/**
 * The write path, the read path and the fingerprint resolver
 * (`Write`, `Read`, `GetFileName`). The record codec and the cipher are
 * parameters: gob and AES-GCM are not part of this model.
 */
module Storage {
  import opened Wrappers
  import opened Text
  import opened Lex
  import opened Naming
  import opened Disk
  import opened Handle

  /** A cache record: field name to value. */
  type Record = map<string, Bytes>

  const KeyField: string := "_key_"
  const ExpField: string := "_exp_"
  const CptField: string := "_cpt_"

  /**
   * The record codec (`mapToByte`, `byteToMap`) and the cipher (`encipher`,
   * `decipher`, keyed with the handle's key); each may fail.
   */
  datatype Codec = Codec(
    encode: Record -> Option<Bytes>,
    decode: Bytes -> Option<Record>,
    seal: (Bytes, Bytes) -> Option<Bytes>,
    open: (Bytes, Bytes) -> Option<Bytes>)

  /** Decoding undoes encoding and opening undoes sealing, as gob and AES-GCM promise. */
  ghost predicate Faithful(codec: Codec)
  {
    && (forall r {:trigger codec.encode(r)} :: codec.encode(r).Some? ==> codec.decode(codec.encode(r).value) == Some(r))
    && (forall b, k {:trigger codec.seal(b, k)} :: codec.seal(b, k).Some? ==> codec.open(codec.seal(b, k).value, k) == Some(b))
  }

  /** A Go map lookup: a missing field reads as nil. */
  function Field(data: Record, name: string): Bytes
  {
    if name in data then data[name] else []
  }

  // ------------------------------------------------------------- Write

  /** The record Write stores: the caller's fields plus the three reserved ones. */
  function Inject(fields: Record, hash: Bytes, duration: nat, now: int): Record
  {
    fields[KeyField := hash][ExpField := AsciiBytes(FormatInt(Expiry(duration, now)))][CptField := AsciiBytes("1")]
  }

  /** `_exp_` of the stored record reads back as the expiry; the caller's other fields are kept. */
  lemma InjectReserved(fields: Record, hash: Bytes, duration: nat, now: int)
    requires IsInt64(now)
    ensures Field(Inject(fields, hash, duration, now), KeyField) == hash
    ensures ParseInt(ByteString(Field(Inject(fields, hash, duration, now), ExpField)))
         == Parsed(Expiry(duration, now), true)
    ensures duration == 0 ==> ByteString(Field(Inject(fields, hash, duration, now), ExpField)) == "0"
    ensures ByteString(Field(Inject(fields, hash, duration, now), CptField)) == "1"
    ensures forall k :: k != KeyField && k != ExpField && k != CptField ==>
      (k in Inject(fields, hash, duration, now) <==> k in fields) &&
      Field(Inject(fields, hash, duration, now), k) == Field(fields, k)
  {
    var text := FormatInt(Expiry(duration, now));
    AsciiRoundTrip(text);
    AsciiRoundTrip("1");
    ParseFormat(Expiry(duration, now));
  }

  datatype WriteError = EncodeFailed | SealFailed | WriteFailed(io: IoError)

  /** The outcome of Write and the directory after it. */
  function WriteOp(cfg: Config, codec: Codec, hash: Bytes, fields: Record, duration: nat, now: int,
                   es: seq<Entry>): (Option<WriteError>, seq<Entry>)
  {
    var data := Inject(fields, hash, duration, now);
    match codec.encode(data)
    case None => (Some(EncodeFailed), es)
    case Some(plain) =>
      var blob := if cfg.crypt then codec.seal(plain, cfg.keyCrypt) else Some(plain);
      if blob.None? then (Some(SealFailed), es)
      else
        var (err, es') := WriteOutcome(es, Title(cfg.prefix, hash, duration, now), blob.value);
        if err.Some? then (Some(WriteFailed(err.value)), es') else (None, es')
  }

  /**
   * Write touches only the name it computes: a failed Write leaves the
   * directory as it was, a successful one leaves a file under that name, and
   * the file system refuses it only when a directory holds that name.
   */
  lemma WriteOpFrame(cfg: Config, codec: Codec, hash: Bytes, fields: Record, duration: nat, now: int,
                     es: seq<Entry>)
    ensures var r := WriteOp(cfg, codec, hash, fields, duration, now, es);
      r.0.Some? ==> r.1 == es
    ensures var r := WriteOp(cfg, codec, hash, fields, duration, now, es);
      r.0.None? ==> Lookup(r.1, Title(cfg.prefix, hash, duration, now)).Some?
    ensures var r := WriteOp(cfg, codec, hash, fields, duration, now, es);
      r.0 == Some(WriteFailed(Failure)) ==> Lookup(es, Title(cfg.prefix, hash, duration, now)) == Some(Folder)
    ensures var r := WriteOp(cfg, codec, hash, fields, duration, now, es);
      forall n :: n != Title(cfg.prefix, hash, duration, now) ==> Lookup(r.1, n) == Lookup(es, n)
  {
  }

  /** The caller's map, which Write fills in place. */
  class FieldMap {
    var fields: Record

    constructor (fields: Record)
      ensures this.fields == fields
    {
      this.fields := fields;
    }
  }

  method Write(cfg: Config, codec: Codec, dir: Directory, hash: Bytes, data: FieldMap,
               duration: uint64, now: int64) returns (err: Option<WriteError>)
    requires ValidPrefix(cfg.prefix) && dir.Valid()
    modifies dir, data
    ensures dir.Valid()
    ensures data.fields == Inject(old(data.fields), hash, duration, now)
    ensures (err, dir.entries) == WriteOp(cfg, codec, hash, old(data.fields), duration, now, old(dir.entries))
  {
    data.fields := data.fields[KeyField := hash];
    var exp := 0;
    var title: string;
    if duration == 0 {
      title := Stem(cfg.prefix, data.fields[KeyField]) + NeverEpoch;
    } else {
      exp := Wrap64(now + duration);
      title := Stem(cfg.prefix, data.fields[KeyField]) + FormatInt(exp);
    }
    data.fields := data.fields[ExpField := AsciiBytes(FormatInt(exp))];
    data.fields := data.fields[CptField := AsciiBytes("1")];

    var plain := codec.encode(data.fields);
    if plain.None? {
      return Some(EncodeFailed);
    }
    var blob := plain.value;
    if cfg.crypt {
      var sealed := codec.seal(blob, cfg.keyCrypt);
      if sealed.None? {
        return Some(SealFailed);
      }
      blob := sealed.value;
    }
    var io := dir.WriteFile(title, blob);
    if io.Some? {
      return Some(WriteFailed(io.value));
    }
    return None;
  }

  // -------------------------------------------------------------- Read

  /** The `_exp_` field as Read parses it, errors ignored. */
  function ContentEpoch(data: Record): int
  {
    ParseInt(ByteString(Field(data, ExpField))).value
  }

  /** What Read makes of a file's bytes, before any deletion. */
  datatype Decision = Deliver(data: Record) | RejectCipher | RejectCodec | RejectExpired

  function Decide(cfg: Config, codec: Codec, now: int, blob: Bytes): Decision
  {
    var plain := if cfg.crypt then codec.open(blob, cfg.keyCrypt) else Some(blob);
    if plain.None? then RejectCipher
    else
      match codec.decode(plain.value)
      case None => RejectCodec
      case Some(data) =>
        var exp := ContentEpoch(data);
        if exp != 0 && exp < now then RejectExpired else Deliver(data)
  }

  /**
   * Read never reports a cipher failure with encryption off, and never
   * delivers a record whose non-zero `_exp_` lies in the past.
   */
  lemma DecideVerdict(cfg: Config, codec: Codec, now: int, blob: Bytes)
    ensures Decide(cfg, codec, now, blob) == RejectCipher ==> cfg.crypt
    ensures var d := Decide(cfg, codec, now, blob);
      d.Deliver? ==> ContentEpoch(d.data) == 0 || ContentEpoch(d.data) >= now
  {
  }

  /** Read's errors; `deleted` says whether the self-healing removal succeeded. */
  datatype ReadError = ReadFailed(io: IoError) | Undecryptable(deleted: bool) | Malformed | Expired(deleted: bool)

  /** The outcome of Read and the directory after it. */
  function ReadOp(cfg: Config, codec: Codec, now: int, es: seq<Entry>, pinned: set<string>,
                  name: string): (Result<Record, ReadError>, seq<Entry>)
  {
    match ReadOutcome(es, name)
    case Err(io) => (Err(ReadFailed(io)), es)
    case Ok(blob) =>
      match Decide(cfg, codec, now, blob)
      case Deliver(data) => (Ok(data), es)
      case RejectCodec => (Err(Malformed), es)
      case RejectCipher =>
        (Err(Undecryptable(RemoveOutcome(es, pinned, name).None?)), AfterRemove(es, pinned, name))
      case RejectExpired =>
        (Err(Expired(RemoveOutcome(es, pinned, name).None?)), AfterRemove(es, pinned, name))
  }

  /**
   * Read removes at most its own file, and only when the system lets it; it
   * reports absence exactly for a missing name, and delivers only unexpired
   * records of regular files, leaving the directory as it was.
   */
  lemma ReadOpFrame(cfg: Config, codec: Codec, now: int, es: seq<Entry>, pinned: set<string>, name: string)
    ensures var r := ReadOp(cfg, codec, now, es, pinned, name);
      r.1 == es || (name !in pinned && Lookup(es, name).Some? && r.1 == WithoutAll(es, {name}))
    ensures var r := ReadOp(cfg, codec, now, es, pinned, name);
      r.0.Ok? ==> (r.1 == es && Lookup(es, name).Some? && Lookup(es, name).value.File?
                   && (ContentEpoch(r.0.value) == 0 || ContentEpoch(r.0.value) >= now))
    ensures ReadOp(cfg, codec, now, es, pinned, name).0 == Err(ReadFailed(NotFound)) <==> Lookup(es, name).None?
  {
    var blob := ReadOutcome(es, name);
    if blob.Ok? {
      DecideVerdict(cfg, codec, now, blob.value);
    }
  }

  method Read(cfg: Config, codec: Codec, dir: Directory, name: string, now: int64)
    returns (r: Result<Record, ReadError>)
    requires dir.Valid()
    modifies dir
    ensures dir.Valid()
    ensures (r, dir.entries) == ReadOp(cfg, codec, now, old(dir.entries), dir.pinned, name)
  {
    var file := dir.ReadFile(name);
    if file.Err? {
      return Err(ReadFailed(file.error));
    }
    var plain := Some(file.value);
    if cfg.crypt {
      plain := codec.open(file.value, cfg.keyCrypt);
      if plain.None? {
        var e := dir.Remove(name);
        if e.Some? {
          return Err(Undecryptable(false));
        }
        return Err(Undecryptable(true));
      }
    }
    var data := codec.decode(plain.value);
    if data.None? {
      return Err(Malformed);
    }
    var exp := ParseInt(ByteString(Field(data.value, ExpField))).value;
    if exp != 0 && exp < now {
      var e := dir.Remove(name);
      if e.Some? {
        return Err(Expired(false));
      }
      return Err(Expired(true));
    }
    return Ok(data.value);
  }

  /**
   * With encryption on, a file that does not decipher is never delivered: Read
   * reports it undecryptable and deletes it unless the system refuses.
   */
  lemma ReadUndecryptable(cfg: Config, codec: Codec, now: int, es: seq<Entry>, pinned: set<string>,
                          name: string, blob: Bytes)
    requires cfg.crypt && Lookup(es, name) == Some(File(blob)) && codec.open(blob, cfg.keyCrypt).None?
    ensures ReadOp(cfg, codec, now, es, pinned, name).0 == Err(Undecryptable(name !in pinned))
    ensures ReadOp(cfg, codec, now, es, pinned, name).1
         == if name in pinned then es else WithoutAll(es, {name})
  {
  }

  /**
   * A file that deciphers and decodes is delivered unchanged unless its `_exp_`
   * is non-zero and in the past, in which case it is reported expired and
   * deleted unless the system refuses. An `_exp_` with a syntax error (a missing
   * field, a sign alone, or a non-digit such as a trailing space before the
   * digits overflow) reads as 0, so the record is delivered; one with a range
   * error reads as the bound of its sign.
   */
  lemma ReadExpiry(cfg: Config, codec: Codec, now: int, es: seq<Entry>, pinned: set<string>,
                   name: string, blob: Bytes, plain: Bytes, data: Record)
    requires Lookup(es, name) == Some(File(blob))
    requires cfg.crypt ==> codec.open(blob, cfg.keyCrypt) == Some(plain)
    requires !cfg.crypt ==> blob == plain
    requires codec.decode(plain) == Some(data)
    ensures SyntaxError(ByteString(Field(data, ExpField))) ==>
      ReadOp(cfg, codec, now, es, pinned, name) == (Ok(data), es)
    ensures ContentEpoch(data) != 0 && ContentEpoch(data) < now ==>
      ReadOp(cfg, codec, now, es, pinned, name).0 == Err(Expired(!(name in pinned)))
    ensures ContentEpoch(data) != 0 && ContentEpoch(data) < now ==>
      ReadOp(cfg, codec, now, es, pinned, name).1 == if name in pinned then es else WithoutAll(es, {name})
    ensures !(ContentEpoch(data) != 0 && ContentEpoch(data) < now) ==>
      ReadOp(cfg, codec, now, es, pinned, name) == (Ok(data), es)
  {
    var e := ByteString(Field(data, ExpField));
    if Unsigned(e) == [] {
      ParseIntSyntaxFront(e);
    } else if SyntaxError(e) {
      var k: nat :| StopsAt(e, k);
      ParseIntSyntax(e, k);
    }
  }

  /**
   * Round trip: once Write has stored a record, Read of its name returns the
   * stored record (the caller's fields and the reserved ones) until the
   * expiry has passed, and afterwards reports it expired and deletes it.
   */
  lemma WriteThenRead(cfg: Config, codec: Codec, hash: Bytes, fields: Record, duration: nat, now: int,
                      es: seq<Entry>, pinned: set<string>, later: int)
    requires Faithful(codec) && IsInt64(now)
    requires WriteOp(cfg, codec, hash, fields, duration, now, es).0 == None
    ensures var exp := Expiry(duration, now);
      var name := Title(cfg.prefix, hash, duration, now);
      var es' := WriteOp(cfg, codec, hash, fields, duration, now, es).1;
      ReadOp(cfg, codec, later, es', pinned, name).0 ==
        if exp != 0 && exp < later then Err(Expired(name !in pinned))
        else Ok(Inject(fields, hash, duration, now))
  {
    var data := Inject(fields, hash, duration, now);
    var name := Title(cfg.prefix, hash, duration, now);
    var plain := codec.encode(data).value;
    var blob := if cfg.crypt then codec.seal(plain, cfg.keyCrypt).value else plain;
    var es' := WriteOp(cfg, codec, hash, fields, duration, now, es).1;
    assert es' == Put(es, name, File(blob));
    assert Lookup(es', name) == Some(File(blob));
    InjectReserved(fields, hash, duration, now);
    DecideSealed(cfg, codec, data, plain, blob, later);
  }

  /** Read's judgement of bytes a faithful codec produced from a record. */
  lemma DecideSealed(cfg: Config, codec: Codec, data: Record, plain: Bytes, blob: Bytes, now: int)
    requires Faithful(codec) && codec.encode(data) == Some(plain)
    requires cfg.crypt ==> codec.seal(plain, cfg.keyCrypt).Some? && blob == codec.seal(plain, cfg.keyCrypt).value
    requires !cfg.crypt ==> blob == plain
    ensures Decide(cfg, codec, now, blob)
      == if ContentEpoch(data) != 0 && ContentEpoch(data) < now then RejectExpired else Deliver(data)
  {
    assert codec.decode(plain) == Some(data);
    if cfg.crypt {
      assert codec.open(blob, cfg.keyCrypt) == Some(plain);
    }
  }

  // ------------------------------------------------------- GetFileName

  /** Names of the regular files in a listing that match the GetFileName pattern, in order. */
  function Matches(prefix: string, hash: Bytes, listing: seq<Entry>): (r: seq<string>)
    ensures forall n :: n in r ==> ResolveMatch(prefix, hash, n)
  {
    if listing == [] then []
    else
      var e := listing[|listing| - 1];
      Matches(prefix, hash, listing[..|listing| - 1])
        + (if e.node.File? && ResolveMatch(prefix, hash, e.name) then [e.name] else [])
  }

  datatype ResolveError = NoCacheFile

  /** The resolver's choice: the never-expiring name if present, else the last match. */
  function Resolve(prefix: string, hash: Bytes, listing: seq<Entry>): Result<string, ResolveError>
  {
    var found := Matches(prefix, hash, listing);
    if NeverName(prefix, hash) in found then Ok(NeverName(prefix, hash))
    else if found == [] then Err(NoCacheFile)
    else Ok(found[|found| - 1])
  }

  /** The resolver answers with one of the matches, and fails exactly when there is none. */
  lemma ResolveChoice(prefix: string, hash: Bytes, listing: seq<Entry>)
    ensures var r := Resolve(prefix, hash, listing);
      r.Ok? ==> ResolveMatch(prefix, hash, r.value) && r.value in Matches(prefix, hash, listing)
    ensures Resolve(prefix, hash, listing).Err? <==> Matches(prefix, hash, listing) == []
  {
  }

  lemma {:induction false} MatchesAppend(prefix: string, hash: Bytes, a: seq<Entry>, b: seq<Entry>)
    ensures Matches(prefix, hash, a + b) == Matches(prefix, hash, a) + Matches(prefix, hash, b)
    decreases |b|
  {
    if b == [] {
      assert a + b == a;
    } else {
      assert (a + b)[..|a + b| - 1] == a + b[..|b| - 1];
      MatchesAppend(prefix, hash, a, b[..|b| - 1]);
    }
  }

  /** A name is matched exactly when it is a regular file of the listing and fits the pattern. */
  lemma {:induction false} MatchesMember(prefix: string, hash: Bytes, listing: seq<Entry>, n: string)
    ensures n in Matches(prefix, hash, listing) <==>
      ResolveMatch(prefix, hash, n) && exists i :: 0 <= i < |listing| && listing[i].name == n && listing[i].node.File?
  {
    if listing != [] {
      var init := listing[..|listing| - 1];
      MatchesMember(prefix, hash, init, n);
      if (exists i :: 0 <= i < |listing| && listing[i].name == n && listing[i].node.File?) {
        var i :| 0 <= i < |listing| && listing[i].name == n && listing[i].node.File?;
        if i < |init| {
          assert init[i] == listing[i];
        }
      }
      if (exists i :: 0 <= i < |init| && init[i].name == n && init[i].node.File?) {
        var i :| 0 <= i < |init| && init[i].name == n && init[i].node.File?;
        assert listing[i] == init[i];
      }
    }
  }

  /** In a sorted listing the matched names come out in increasing order. */
  lemma {:induction false} MatchesSorted(prefix: string, hash: Bytes, listing: seq<Entry>)
    requires Sorted(listing)
    ensures forall i, j :: 0 <= i < j < |Matches(prefix, hash, listing)| ==>
      Below(Matches(prefix, hash, listing)[i], Matches(prefix, hash, listing)[j])
  {
    if listing != [] {
      var init := listing[..|listing| - 1];
      var e := listing[|listing| - 1];
      assert Sorted(init) by {
        forall i, j | 0 <= i < j < |init| ensures Below(init[i].name, init[j].name) {
          assert init[i] == listing[i] && init[j] == listing[j];
        }
      }
      MatchesSorted(prefix, hash, init);
      var m0 := Matches(prefix, hash, init);
      forall n | n in m0 ensures Below(n, e.name) {
        MatchesMember(prefix, hash, init, n);
        var i :| 0 <= i < |init| && init[i].name == n && init[i].node.File?;
        assert listing[i] == init[i];
      }
      var m := Matches(prefix, hash, listing);
      var tail := if e.node.File? && ResolveMatch(prefix, hash, e.name) then [e.name] else [];
      assert m == m0 + tail;
      forall i, j | 0 <= i < j < |m| ensures Below(m[i], m[j]) {
        if j >= |m0| {
          assert m[i] == m0[i] && m[j] == e.name;
          assert m0[i] in m0;
        } else {
          assert m[i] == m0[i] && m[j] == m0[j];
          assert Below(m0[i], m0[j]);
        }
      }
    }
  }

  /** Once the never-expiring name is among the first k matches, it is the answer. */
  lemma NeverSeen(prefix: string, hash: Bytes, listing: seq<Entry>, k: nat)
    requires k <= |listing| && NeverName(prefix, hash) in Matches(prefix, hash, listing[..k])
    ensures Resolve(prefix, hash, listing) == Ok(NeverName(prefix, hash))
  {
    assert listing == listing[..k] + listing[k..];
    MatchesAppend(prefix, hash, listing[..k], listing[k..]);
  }

  method GetFileName(cfg: Config, dir: Directory, hash: Bytes) returns (r: Result<string, ResolveError>)
    requires ValidPrefix(cfg.prefix) && dir.Valid()
    ensures r == Resolve(cfg.prefix, hash, dir.entries)
  {
    var files := dir.List();
    var never := NeverName(cfg.prefix, hash);
    var listFiles: seq<string> := [];
    var i := 0;
    while i < |files|
      invariant 0 <= i <= |files|
      invariant listFiles == Matches(cfg.prefix, hash, files[..i])
      invariant never !in listFiles
    {
      var f := files[i];
      assert files[..i + 1][..i] == files[..i];
      if f.node.File? && ResolveMatch(cfg.prefix, hash, f.name) {
        listFiles := listFiles + [f.name];
        if f.name == never {
          NeverSeen(cfg.prefix, hash, files, i + 1);
          return Ok(f.name);
        }
      }
      i := i + 1;
    }
    assert files[..i] == files;
    if |listFiles| == 0 {
      return Err(NoCacheFile);
    }
    return Ok(listFiles[|listFiles| - 1]);
  }

  /** The never-expiring file of a fingerprint wins whenever it is present. */
  lemma ResolveNever(prefix: string, hash: Bytes, listing: seq<Entry>, blob: Bytes)
    requires Entry(NeverName(prefix, hash), File(blob)) in listing
    ensures Resolve(prefix, hash, listing) == Ok(NeverName(prefix, hash))
  {
    NeverNameMatches(prefix, hash);
    var i :| 0 <= i < |listing| && listing[i] == Entry(NeverName(prefix, hash), File(blob));
    MatchesMember(prefix, hash, listing, NeverName(prefix, hash));
  }

  /** The resolver fails exactly when no regular file matches the fingerprint's pattern. */
  lemma ResolveMissing(prefix: string, hash: Bytes, listing: seq<Entry>)
    ensures Resolve(prefix, hash, listing).Err? <==>
      forall i :: 0 <= i < |listing| && listing[i].node.File? ==> !ResolveMatch(prefix, hash, listing[i].name)
  {
    if Resolve(prefix, hash, listing).Err? {
      forall i | 0 <= i < |listing| && listing[i].node.File?
        ensures !ResolveMatch(prefix, hash, listing[i].name)
      {
        MatchesMember(prefix, hash, listing, listing[i].name);
      }
    } else {
      var found := Matches(prefix, hash, listing);
      var n := if NeverName(prefix, hash) in found then NeverName(prefix, hash) else found[|found| - 1];
      assert n in found;
      MatchesMember(prefix, hash, listing, n);
    }
  }

  /**
   * In a sorted listing, a TTL-bound name the resolver returns is a matching
   * regular file whose epoch is the largest among all matches.
   */
  lemma ResolveLatest(prefix: string, hash: Bytes, listing: seq<Entry>, i: nat)
    requires Sorted(listing) && i < |listing|
    requires listing[i].node.File? && ResolveMatch(prefix, hash, listing[i].name)
    ensures Resolve(prefix, hash, listing).Ok?
    ensures var n := Resolve(prefix, hash, listing).value;
      ResolveMatch(prefix, hash, n) && exists k :: 0 <= k < |listing| && listing[k].name == n && listing[k].node.File?
    ensures var n := Resolve(prefix, hash, listing).value;
      n != NeverName(prefix, hash) ==>
        ResolveEpoch(prefix, hash, listing[i].name) <= ResolveEpoch(prefix, hash, n)
  {
    var found := Matches(prefix, hash, listing);
    var m := listing[i].name;
    MatchesMember(prefix, hash, listing, m);
    var n := Resolve(prefix, hash, listing).value;
    assert n in found;
    MatchesMember(prefix, hash, listing, n);
    if n != NeverName(prefix, hash) && m != n {
      MatchesSorted(prefix, hash, listing);
      var j :| 0 <= j < |found| && found[j] == m;
      assert Below(m, n);
      ResolveOrder(prefix, hash, m, n);
    }
  }
}
