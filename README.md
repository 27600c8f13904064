# cache-file, modelled in Dafny

`cache-file` is a Go library that keeps a disk cache. Each cache entry is
one file in a single directory. The file holds a gob-encoded map of byte
strings, optionally sealed with AES-GCM. Its name is

    <prefix><hex of the fingerprint><expiry epoch in decimal>

The fingerprint may have any length, and the expiry is printed without
padding (ten zeros when the record never expires). The expiry has ten
digits only for epochs in [10^9, 10^10). Purge and Sweep recognise names
with exactly 138 characters after the prefix, the first 128 of them not
white space and the last ten digits. Write's names have this shape when the
fingerprint is 64 bytes and the expiry has ten digits, but other Write names
can have it too (a 63-byte fingerprint with a twelve-digit expiry).

A `CacheFile` handle carries four things:

- the directory path;
- the prefix (`dsk_` by default);
- the key material;
- the encryption switch.

The handle offers these operations:

- **Write** stores a record under its computed name. It adds three reserved fields: `_key_`, `_exp_` and `_cpt_`.
- **Read** loads a record. If the file cannot be decrypted, or the record has expired, Read deletes the file.
- **GetFileName** finds the file for a fingerprint. A never-expiring file wins; otherwise the last match in directory order.
- **Purge** deletes every file that has the cache shape.
- **Sweep** deletes the files that are expired, unreadable, or inconsistent with their name.

Both Purge and Sweep return the success count, the failure count, the per-file errors and a summary error.

The model is split into these modules:

| module | file | contents |
|---|---|---|
| `Wrappers` | `wrappers.dfy` | `Option` and `Result` |
| `Text` | `text.dfy` | the Go library behaviour the core relies on (see below) |
| `Lex` | `lex.dfy` | the byte-wise name order `os.ReadDir` lists in |
| `Naming` | `naming.dfy` | file titles, and the three regular expressions written as predicates |
| `Disk` | `disk.dfy` | the directory as a class over a sorted entry list, with `os.Remove`, `os.ReadFile` and the file write |
| `Handle` | `handle.dfy` | the `CacheFile` class with its constructor, setters and getters |
| `Storage` | `storage.dfy` | Write, Read, GetFileName |
| `Gc` | `gc.dfy` | the counters and the reference plan shared by Purge and Sweep |
| `Purge` | `purge.dfy` | Purge |
| `Sweep` | `sweep.dfy` | Sweep |

`Text` covers this Go library behaviour:

- `%x` (hex encoding);
- `strconv.FormatInt`;
- `strconv.ParseInt`, with its syntax- and range-error results;
- `strings.TrimSpace`;
- int64 wrap-around.

How the model is built:

- **Value receivers.** The Go methods with a value receiver work on a copy of the handle. The model passes them a `Config` value, which `CacheFile.Value()` produces.
- **Loops as specification functions.** Each loop in Purge, Sweep and GetFileName is a method proved equal to a function over the listing (`PurgeFrom`, `SweepFrom`, `Resolve`). Those functions are then proved to agree with a reference plan: which entries go, which stay, and what is counted.
- **`os.Remove`.** The directory knows which names the operating system refuses to remove (`pinned`). Removing an absent name reports "no such file". Purge and Sweep count that as a success.
- **External inputs.** These are parameters:
  - the clock (`now`);
  - the gob codec and AES-GCM (a `Codec` of four functions);
  - the SHA-256 key derivation (`derive`);
  - the shuffled random text `randKey` cuts its key from;
  - the host's answers about the directory (`Host`).

  The round-trip lemmas assume `Faithful(codec)`: decoding undoes encoding, and opening undoes sealing under the same key.

## Model

| member | source | states |
|---|---|---|
| Text.Hex | cacheFile_file.go:22-25 | `%x` yields two lower-case hex digits per byte |
| Text.UnHexHex | cacheFile_file.go:22-25 | hex encoding of the fingerprint is reversible |
| Text.HexInjective | cacheFile_file.go:111 | distinct fingerprints give distinct name stems |
| Text.Wrap64 | cacheFile_file.go:24 | `now + int64(duration)` wraps into the int64 range |
| Text.Decimal | cacheFile_file.go:25 | `%d` of a non-negative number: digits, no leading zero, reading back to the number |
| Text.FormatInt | cacheFile_file.go:29 | `strconv.FormatInt` yields only digits and a minus sign |
| Text.DecimalTenDigits | cacheFile_file.go:25 | `%d` has ten digits exactly for 10^9 <= n < 10^10 |
| Text.ParseInt | cacheFile_file.go:86 | `strconv.ParseInt` base 10, 64 bits: the value always fits int64, and a failed parse other than a syntax error gives one of the two bounds |
| Text.Unsigned | cacheFile_file.go:86 | the text ParseInt reads digits from: the input after at most one leading sign, a suffix of it |
| Text.ParseUintAccSound | cacheFile_file.go:86 | what Go's digit loop accepts is a digit run, read as its decimal value |
| Text.ParseIntSound | cacheFile_file.go:86 | ParseInt succeeds only on an optional sign followed by at least one digit, and the value is that run's decimal value, negated after a minus |
| Text.ParseIntSyntaxFront | cacheFile_file.go:86 | an empty text, a sign alone, or a non-digit after the sign is a syntax error and reads as 0 |
| Text.ParseIntRange | cacheFile_file.go:232 | a signed digit run outside int64 is a range error and reads as MaxInt64, or MinInt64 after a minus |
| Text.ParseUintAcc | cacheFile_file.go:86 | the digit loop of `strconv.ParseUint`: a syntax error at the first non-digit, a range error as soon as the running value passes uint64 |
| Text.ParseUint | cacheFile_file.go:86 | `strconv.ParseUint` base 10, 64 bits: an empty text is a syntax error, otherwise the digit loop decides |
| Text.SyntaxError | cacheFile_file.go:232 | the texts ParseInt rejects as malformed: nothing after the sign, or a non-digit reached before the digits ahead of it pass uint64 |
| Text.ParseIntSyntax | cacheFile_file.go:232 | a non-digit anywhere after the sign ("12a", a trailing space), reached before any overflow, is a syntax error and reads as 0 |
| Text.ParseIntExact | cacheFile_file.go:232 | a signed digit run within int64 ("+5", "-05") parses with no error to its value, negated after a minus |
| Text.ParseFormat | cacheFile_file.go:29 | the `_exp_` text Write stores parses back to the expiry with no error |
| Text.ParseEpochDigits | cacheFile_file.go:202 | ten digits always parse, to their decimal value |
| Text.ParseDigits | cacheFile_file.go:232 | a digit string whose value fits in int64 parses to that value with no error |
| Text.AsciiRoundTrip | cacheFile_file.go:29-32 | `[]byte` of a decimal text read back with `string` is the text |
| Text.AsciiBytes | cacheFile_file.go:29-32 | `[]byte(...)` of an ASCII text: one byte per character, holding its code |
| Text.ByteString | cacheFile_file.go:86 | `string(data["_exp_"])`: one character per byte, the same length |
| Text.TrimSpace | cacheFile.go:20 | the result has no surrounding white space, and is empty exactly when the input is all white space |
| Text.IsSpace | cacheFile.go:20 | the white space of Go's `unicode.IsSpace`, which `strings.TrimSpace` strips |
| Text.TrimSpaceSlice | cacheFile.go:20 | the trimmed path is a slice of the input with only white space before and after it |
| Text.TrimLeft | cacheFile.go:20 | drops exactly the leading white space: what is dropped is all white space and the rest does not start with it |
| Text.TrimRight | cacheFile.go:20 | drops exactly the trailing white space: what is dropped is all white space and the rest does not end with it |
| Lex.BelowTransitive | cacheFile_file.go:106 | the directory order is transitive |
| Lex.Below | cacheFile_file.go:106 | the byte-wise name order in which `os.ReadDir` lists entries |
| Lex.BelowTotal | cacheFile_file.go:106 | any two distinct names are ordered |
| Lex.BelowDigits | cacheFile_file.go:116-117 | for equal-width digit runs the directory order is numeric order |
| Naming.TitleResolvable | cacheFile_file.go:19-26 | GetFileName's pattern matches Write's name exactly when the expiry has ten digits (or there is no TTL), and then reads back the expiry |
| Naming.TitleSwept | cacheFile_file.go:19-26 | such names of 64-byte fingerprints fit Sweep's and Purge's patterns, and Sweep's groups give back the hex fingerprint and the expiry |
| Naming.ResolveOrder | cacheFile_file.go:116-117 | among one fingerprint's files, listing order is expiry order |
| Naming.NeverNameMatches | cacheFile_file.go:124 | the never-expiring name matches GetFileName's pattern |
| Naming.Stem | cacheFile_file.go:22 | the prefix followed by the hex of the fingerprint, which every name of that fingerprint starts with |
| Naming.NeverName | cacheFile_file.go:124 | the name of the never-expiring record of a fingerprint: its stem and ten zeros |
| Naming.ValidPrefix | cacheFile.go:59 | `^[A-Za-z0-9]{3,49}_$`: 3 to 49 letters or digits, then an underscore |
| Naming.IsRegexSpace | cacheFile_file.go:151 | the characters of Go's `\s` class, whose complement is `\S` |
| Naming.ResolveMatch | cacheFile_file.go:111 | GetFileName's pattern: prefix, hex of the fingerprint, exactly ten digits |
| Naming.PurgeMatch | cacheFile_file.go:151 | Purge's pattern: an optional dot, the prefix, 128 non-space characters, ten digits |
| Naming.SweepMatch | cacheFile_file.go:189 | Sweep's pattern: the prefix, 128 non-space characters, ten digits |
| Naming.HashSegment | cacheFile_file.go:197-201 | the first capture group `d[1]` of Sweep's pattern |
| Naming.HashSegmentSplit | cacheFile_file.go:197-201 | the first capture group has 128 non-space characters, and the prefix, the group and the ten digits make up the name |
| Naming.Expiry | cacheFile_file.go:20-24 | 0 without a TTL; otherwise `now + duration`, exact when that fits in int64 and wrapped to int64 always |
| Naming.EpochText | cacheFile_file.go:21-25 | Write's epoch segment: ten zeros without a TTL, else `%d` of the expiry |
| Naming.EpochTextValue | cacheFile_file.go:21-25 | the epoch segment is digits with at most a leading minus; it is all digits exactly when the expiry is not negative, and then spells the expiry |
| Naming.Title | cacheFile_file.go:19-26 | Write's file name: prefix, hex of the fingerprint, epoch segment |
| Naming.TitleParts | cacheFile_file.go:19-26 | Write's file name splits back into the prefix, the hex fingerprint and the epoch segment |
| Disk.Lookup | cacheFile_utils.go:90-97 | a name is found exactly when an entry carries it |
| Disk.WithoutAll | cacheFile_file.go:160 | removal keeps exactly the entries whose names are not removed |
| Disk.LookupWithoutAll | cacheFile_file.go:160 | a removed name is gone, others read as before |
| Disk.WithoutAllTwice | cacheFile_file.go:157-167 | successive removals compose |
| Disk.WithoutAllSorted | cacheFile_file.go:145 | removal keeps the directory sorted |
| Disk.Put | cacheFile_utils.go:68-88 | the written name then holds the data, others are unchanged |
| Disk.PutSorted | cacheFile_utils.go:68-88 | writing keeps the directory sorted |
| Disk.WriteOutcome | cacheFile_utils.go:68-88 | the write fails only on a directory of that name, and otherwise leaves exactly the data under it |
| Disk.Overlay | cacheFile_utils.go:76-83 | writing without truncation keeps the old tail past the new bytes |
| Disk.OverwriteKeepsTail | cacheFile_utils.go:70-83 | rewriting a longer file as written (`WriteOutcomeAsWritten`) keeps the old tail after the new bytes, unlike the intended write |
| Disk.WriteOutcomeAsWritten | cacheFile_utils.go:68-88 | `writeFile` as written: a directory fails, otherwise the file is created or its old bytes are overlaid without truncation |
| Disk.RemoveOutcome | cacheFile_file.go:160 | the result of `os.Remove`: absent, refused, or removed |
| Disk.AfterRemove | cacheFile_file.go:160 | the directory after `os.Remove`: the name is gone when the removal succeeds, and nothing changes otherwise |
| Disk.RemoveKinds | cacheFile_file.go:160 | `os.Remove` succeeds exactly on a present name the system lets go and reports absence exactly on a missing name; it removes that name and nothing else |
| Disk.ReadOutcome | cacheFile_utils.go:90-97 | the result of `os.ReadFile`: absent, a directory, or the bytes |
| Disk.ReadKinds | cacheFile_utils.go:90-97 | `os.ReadFile` yields exactly the bytes of a regular file, and absence exactly for a missing name |
| Disk.Directory.List | cacheFile_file.go:106 | `os.ReadDir` lists the entries sorted by name |
| Disk.Directory.Remove | cacheFile_file.go:160 | `os.Remove` reports absence, refusal or success, and removes only on success |
| Disk.Directory.ReadFile | cacheFile_utils.go:90-97 | reading reports absence, fails on a directory, else gives the bytes |
| Disk.Directory.WriteFile | cacheFile_utils.go:68-88 | the write as intended, keeping the directory sorted |
| Handle.CheckPath | cacheFile.go:20-41 | New's checks: all-white-space path is invalid; success exactly for a trimmed absolute path whose directory exists or can be made and is writable |
| Handle.RandKey | cacheFile_crypto.go:24-40 | the random key is 32 characters of the shuffled text |
| Handle.ConfigValid | cacheFile.go:10-15 | the handle invariant: the prefix is valid and encryption is on only with a key |
| Handle.CacheFile.Value | cacheFile.go:10-15 | the copy a value receiver gets satisfies the handle invariant |
| Handle.CacheFile.New | cacheFile.go:18-48 | New fails exactly as the path checks say; otherwise a fresh handle on the trimmed path, prefix `dsk_`, no key, encryption off |
| Handle.CacheFile.Init | cacheFile.go:43-46 | a fresh handle holds the path and the prefix `dsk_`, with no key and encryption off, and keeps the handle invariant |
| Handle.CacheFile.GetPath | cacheFile.go:51-53 | returns the path |
| Handle.CacheFile.SetPrefix | cacheFile.go:58-64 | adopts a prefix of 3 to 49 alphanumerics plus `_` and keeps the old one otherwise; reports an error in both cases |
| Handle.CacheFile.GetPrefix | cacheFile.go:67-69 | returns the prefix |
| Handle.CacheFile.EnableCrypt | cacheFile.go:74-81 | encryption ends up on exactly when a key is set, and that state is returned |
| Handle.CacheFile.DisableCrypt | cacheFile.go:84-87 | encryption ends up off |
| Handle.CacheFile.IsCrypt | cacheFile.go:90-92 | returns the switch |
| Handle.CacheFile.SetKey | cacheFile.go:95-110 | an empty key clears the key and the switch; any other key becomes its 32-byte digest, switch untouched; no error |
| Handle.CacheFile.SetRandomKey | cacheFile.go:114-120 | stores and returns a 32-byte random key; the invariant holds |
| Handle.CacheFile.GetKey | cacheFile.go:123-125 | returns the key |
| Storage.Field | cacheFile_file.go:86 | a Go map read: the value under the key, or nil (empty bytes) when the key is missing |
| Storage.Inject | cacheFile_file.go:17-32 | the record Write stores: the caller's map with `_key_`, `_exp_` and `_cpt_` set |
| Storage.ContentEpoch | cacheFile_file.go:86 | the expiry Read takes from `_exp_`, the parse error ignored |
| Storage.InjectReserved | cacheFile_file.go:16-32 | the stored record has `_key_` = fingerprint, `_exp_` parsing to the expiry (`0` without TTL), `_cpt_` = `1`, other fields unchanged |
| Storage.Write | cacheFile_file.go:14-55 | on a handle with a valid prefix, the caller's map gains the reserved fields; the error and directory are encode, then seal if encryption is on, then write under the computed name |
| Storage.WriteOp | cacheFile_file.go:14-55 | Write's result and the directory after it: encode, seal under encryption, write under the computed name |
| Storage.WriteOpFrame | cacheFile_file.go:14-55 | Write touches only its computed name: a failure leaves the directory as it was, a success leaves a file under that name, and the file system refuses only where a directory holds the name |
| Storage.Read | cacheFile_file.go:59-99 | read, open if encryption is on, decode, check expiry; undecryptable or expired files are removed, and the error says whether the removal worked |
| Storage.Decide | cacheFile_file.go:70-96 | what Read makes of a file's bytes: cipher failure, decode failure, expired, or the record |
| Storage.DecideVerdict | cacheFile_file.go:70-96 | there is no cipher failure with encryption off, and no delivered record has a non-zero `_exp_` in the past |
| Storage.ReadOp | cacheFile_file.go:59-99 | Read's result and the directory after it |
| Storage.ReadOpFrame | cacheFile_file.go:59-99 | Read removes at most its own file, and only when the system lets it; absence is reported exactly for a missing name; a delivered record comes from a regular file, is unexpired, and leaves the directory unchanged |
| Storage.ReadUndecryptable | cacheFile_file.go:70-78 | an undecryptable file is reported and is gone unless its removal was refused |
| Storage.ReadExpiry | cacheFile_file.go:86-96 | an expired record is reported and its file is gone unless refused; a live one is returned, the directory unchanged; an `_exp_` with any syntax error (a missing field, a sign alone, a non-digit such as a trailing space before the digits overflow) reads as 0, so the record is returned |
| Storage.WriteThenRead | cacheFile_file.go:14-99 | after a successful Write, Read of its name returns the stored record until the expiry, then reports it expired |
| Storage.DecideSealed | cacheFile_file.go:70-96 | a record sealed by a faithful codec (and cipher, when encryption is on) is delivered as written, unless its expiry has passed |
| Storage.Matches | cacheFile_file.go:118-128 | the collected names all match the fingerprint's pattern |
| Storage.MatchesMember | cacheFile_file.go:121-122 | a name is collected exactly when a regular file of that name matches |
| Storage.MatchesSorted | cacheFile_file.go:120-128 | the collected names keep the directory order |
| Storage.GetFileName | cacheFile_file.go:104-136 | on a handle with a valid prefix, the loop returns the never-expiring name as soon as it is seen, else the last match, else "no file" |
| Storage.Resolve | cacheFile_file.go:116-135 | the resolver's choice: the never-expiring name if matched, else the last match, else no cache file |
| Storage.ResolveChoice | cacheFile_file.go:116-135 | the answer is one of the matches, and the resolver fails exactly when there is none |
| Storage.ResolveNever | cacheFile_file.go:123-126 | a never-expiring file present as a regular file is always the answer |
| Storage.NeverSeen | cacheFile_file.go:123-126 | once the loop has met the never-expiring name among the matches, that name is the answer |
| Storage.ResolveMissing | cacheFile_file.go:130-133 | "no file" exactly when no regular file matches |
| Storage.ResolveLatest | cacheFile_file.go:116-135 | the answer is a matching file, and any other answer has the latest expiry among the matches |
| Gc.PlannedCounts | cacheFile_file.go:156-173 | each discarded file counts once, as success or failure; failures equal the error list, each for a refused name |
| Gc.PlannedPinned | cacheFile_file.go:160-163 | a discarded file whose removal is refused makes the batch report failure |
| Gc.RemoveTwice | cacheFile_file.go:218-228 | Read's own removal followed by Sweep's (finding no file) counts and ends like one removal |
| Gc.Count | cacheFile_file.go:160-165 | one removal as Purge and Sweep count it: `ko` and the error list on failure, `ok` otherwise, a missing file counting as removed |
| Gc.Removal | cacheFile_file.go:160-165 | one `os.Remove` of a name and how Purge and Sweep count it, together with the directory it leaves |
| Gc.CountTally | cacheFile_file.go:160-165 | each removal adds one to exactly one counter; a failure, and only a failure, appends its error after the earlier ones |
| Gc.ClearedMembers | cacheFile_file.go:157-167 | after a batch an entry remains exactly when it was not discarded or its removal was refused |
| Gc.Advance | cacheFile_file.go:157-167 | one step of a batch keeps the tally and directory equal to the plan |
| Purge.Purge | cacheFile_file.go:141-174 | on a handle with a valid prefix, the loop's counts, errors and directory are `PurgeFrom` of the listing; the summary error is set exactly when some removal failed |
| Purge.PurgeFrom | cacheFile_file.go:157-167 | Purge's loop over the listing, entry by entry |
| Purge.Discard | cacheFile_file.go:158-166 | one pass of Purge's loop: a matching regular file is removed and counted as `Removal` says, any other entry is left alone |
| Purge.Purgeable | cacheFile_file.go:158 | the entries Purge removes: regular files whose name matches its pattern |
| Purge.PurgeTally | cacheFile_file.go:156-170 | Purge counts each listed entry at most once, and `ko` equals the number of collected errors |
| Purge.PurgePlanned | cacheFile_file.go:157-167 | Purge's loop agrees with the reference plan for its targets |
| Purge.PurgeOutcome | cacheFile_file.go:141-174 | every matching file (hidden or not) is counted once; it is gone unless refused; refusals are the failures; everything else stays |
| Purge.PurgeComplete | cacheFile_file.go:169-173 | with no failure, no file of the cache shape remains |
| Sweep.Sweep | cacheFile_file.go:179-254 | on a handle with a valid prefix, the loop's counts, errors and directory are `SweepFrom` of the listing; the summary error is set exactly when some removal failed |
| Sweep.Consistent | cacheFile_file.go:232-233 | the record names the file's hash, its `_exp_` parses and equals the name's expiry, and it is not yet past |
| Sweep.Condemns | cacheFile_file.go:218-233 | after the read, the file goes if Read failed other than by absence, or if the record does not fit the name |
| Sweep.Step | cacheFile_file.go:197-245 | Sweep's treatment of one listed entry |
| Sweep.StepTally | cacheFile_file.go:206-243 | one step counts its entry at most once; a failure only for a name whose removal is refused, with its error recorded |
| Sweep.SweepFrom | cacheFile_file.go:195-247 | Sweep's loop over the listing, entry by entry |
| Sweep.Examined | cacheFile_file.go:199 | the entries Sweep looks at: regular files whose name matches its pattern with both groups |
| Sweep.SweepTally | cacheFile_file.go:194-250 | Sweep counts each listed entry at most once, and `ko` equals the number of collected errors |
| Sweep.Visit | cacheFile_file.go:197-245 | one listed entry is handled as Sweep's step says |
| Sweep.Inspect | cacheFile_file.go:201-233 | a name past its expiry dooms the file unread; otherwise the read's outcome and record decide |
| Sweep.NameExp | cacheFile_file.go:202 | the expiry Sweep parses from the ten digits of a name, the parse error ignored |
| Sweep.NameExpEpoch | cacheFile_file.go:202 | the expiry Sweep parses from the name is the decimal value of its digits |
| Sweep.StepInspected | cacheFile_file.go:206-243 | Inspect's verdict plus the removal it calls for is Sweep's step |
| Sweep.StepPlanned | cacheFile_file.go:199-243 | on a file still present, Sweep's step is one removal when the verdict dooms it and changes nothing otherwise |
| Sweep.SweepPlanned | cacheFile_file.go:195-247 | Sweep's loop agrees with the reference plan |
| Sweep.SweepOutcome | cacheFile_file.go:179-254 | every doomed file counts once and is gone unless refused; refusals are the failures; kept files and all other entries stay |
| Sweep.SweepComplete | cacheFile_file.go:249-253 | with no failure, no doomed file remains |
| Sweep.SweepKeepsFresh | cacheFile_file.go:14-55 | a file Write stored under a well-shaped name survives Sweep up to its expiry, or forever without TTL |

## Left out

- Serialisation and encryption are parameters, not code: gob (`mapToByte`, `byteToMap`), AES-GCM (`encipher`, `decipher`) and the SHA-256 of `genAESKey`. Their randomness (the GCM nonce) is part of the parameter.
- `time.Now()` is the parameter `now`. Sweep and the Read it calls see the same instant, so a clock tick between them is not modelled.
- Sweep.Sweep: uses one `now` for the name check, for Read and for the record check. The source reads the clock three times.
- `randKey`'s pseudo-random source and `rand.Shuffle` are replaced by the shuffled 44-character text, which is a parameter.
- Handle.CacheFile.SetRandomKey: `randKey(3)` always yields 32 bytes, so the source's reset of the switch on an empty key cannot fire and is not modelled.
- Handle.CacheFile.SetKey: the deferred `recover` is not modelled. SHA-256 cannot panic, and the handler would itself dereference the nil `_err`.
- `isPathExist`, `makeDirectory` and `isWritable` are reduced to the answers in `Host`.
- Error messages are not modelled. Errors are kinds. The source's test for the text ": no such file or directory" is the `NotFound` kind.
- A failing `os.ReadDir` and a prefix that makes `regexp.Compile` fail are not modelled. These are the early returns of GetFileName, Purge and Sweep. The directory always exists here.
- `os.ReadFile` fails here only on a missing name or a directory (`Disk.ReadOutcome`). Permission and I/O errors on a regular file are not modelled. So Read's plain error return on a present file (cacheFile_file.go:64-67) never happens, nor does Sweep deleting a file that Read could not load (cacheFile_file.go:219-228) for such a reason.
- The file write fails here only when a directory holds the name (`Disk.WriteOutcome`). Open and write errors such as permission denied or a full disk (cacheFile_utils.go:76-85) are not modelled.
- Only the running operation changes the directory. Other processes are not modelled. So the "no such file" tolerance in Purge and Sweep (cacheFile_file.go:160, 208, 222, 235) is modelled but only reachable in Sweep's removal after Read has already deleted the file. A file vanishing between the listing and Read (cacheFile_file.go:219) cannot happen.
- Write on a nil Go map panics at cacheFile_file.go:17. The caller's map (`Storage.FieldMap`) is never nil here, so that panic is not modelled.
- Text.AsciiBytes: models Go's `[]byte(s)` only for ASCII text, where UTF-8 spends one byte per character. Every text the core converts is a decimal number.
- Paths are not modelled. Names are looked up in one directory; `path/name` joining, and names containing `/`, are left out.
- The `ok` and `ko` counters are `uint64` in the source and unbounded here. They cannot wrap for any listing that fits in memory.
- `strconv.ParseInt` follows the Go code: a syntax error gives 0, and a range error gives MaxInt64 for a positive text and MinInt64 (-MaxInt64 - 1) for a negative one. A text that does not parse therefore counts as 0 only on syntax errors.
- Names are compared as sequences of Unicode scalar values. Go compares their UTF-8 bytes, and UTF-8 preserves that order, so the two agree.
- `EnableCrypt` does not generate a key when none is set. The model follows the code, whose own comment says it does.

## Findings

| source | as written | input that shows it | evidently intended | confidence | as-written member | corrected member |
|---|---|---|---|---|---|---|
| cacheFile_utils.go:70-76 | `os.Stat` never reports `os.ErrExist`, so the existing file is never removed first. The file is then opened `O_WRONLY\|O_CREATE` without `O_TRUNC`, so a shorter write keeps the old bytes past its end. | A second Write of the same fingerprint with no TTL (same name) whose sealed record is shorter than the first. The file then holds the new bytes followed by the old tail, and with encryption on AES-GCM rejects it, so the next Read deletes the entry. | Replace the file's contents with the new bytes. | medium, not executed | Disk.OverwriteKeepsTail | Disk.WriteOutcome |
