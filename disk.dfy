/**
 * The cache directory as the engine sees it through `os.ReadDir`,
 * `os.ReadFile`, `os.OpenFile` and `os.Remove`: a listing of named entries,
 * sorted by name, each a regular file with its bytes or a sub-directory.
 */
module Disk {
  import opened Wrappers
  import opened Text
  import opened Lex

  datatype Node = File(data: Bytes) | Folder
  datatype Entry = Entry(name: string, node: Node)

  /** How a failing system call ends: the name is absent, or anything else. */
  datatype IoError = NotFound | Failure

  /** The order `os.ReadDir` lists entries in. */
  predicate Sorted(es: seq<Entry>)
  {
    forall i, j :: 0 <= i < j < |es| ==> Below(es[i].name, es[j].name)
  }

  predicate Unique(es: seq<Entry>)
  {
    forall i, j :: 0 <= i < j < |es| ==> es[i].name != es[j].name
  }

  lemma SortedUnique(es: seq<Entry>)
    requires Sorted(es)
    ensures Unique(es)
  {
    forall i, j | 0 <= i < j < |es| ensures es[i].name != es[j].name {
      BelowIrreflexive(es[i].name);
    }
  }

  function Lookup(es: seq<Entry>, name: string): (r: Option<Node>)
    ensures r.Some? <==> exists i :: 0 <= i < |es| && es[i].name == name
  {
    if es == [] then None
    else if es[0].name == name then Some(es[0].node)
    else
      var r := Lookup(es[1..], name);
      assert forall i :: 1 <= i < |es| ==> es[i] == es[1..][i - 1];
      r
  }

  /** With unique names, every listed entry is what its name looks up. */
  lemma {:induction false} LookupAt(es: seq<Entry>, i: nat)
    requires Unique(es) && i < |es|
    ensures Lookup(es, es[i].name) == Some(es[i].node)
  {
    if i > 0 {
      assert es[1..][i - 1] == es[i];
      LookupAt(es[1..], i - 1);
    }
  }

  /** The directory after the entries with the given names are deleted. */
  function WithoutAll(es: seq<Entry>, gone: set<string>): (r: seq<Entry>)
    ensures forall e :: e in r <==> e in es && e.name !in gone
  {
    if es == [] then []
    else (if es[0].name in gone then [] else [es[0]]) + WithoutAll(es[1..], gone)
  }

  lemma {:induction false} LookupWithoutAll(es: seq<Entry>, gone: set<string>, name: string)
    ensures Lookup(WithoutAll(es, gone), name) == if name in gone then None else Lookup(es, name)
  {
    if es != [] {
      LookupWithoutAll(es[1..], gone, name);
      var rest := WithoutAll(es[1..], gone);
      if es[0].name in gone {
        assert WithoutAll(es, gone) == rest;
      } else {
        var w := WithoutAll(es, gone);
        assert w[0] == es[0] && w[1..] == rest;
      }
    }
  }

  lemma {:induction false} WithoutAllAppend(x: seq<Entry>, y: seq<Entry>, gone: set<string>)
    ensures WithoutAll(x + y, gone) == WithoutAll(x, gone) + WithoutAll(y, gone)
  {
    if x == [] {
      assert x + y == y;
    } else {
      assert (x + y)[0] == x[0] && (x + y)[1..] == x[1..] + y;
      WithoutAllAppend(x[1..], y, gone);
    }
  }

  lemma {:induction false} WithoutAllTwice(es: seq<Entry>, a: set<string>, b: set<string>)
    ensures WithoutAll(WithoutAll(es, a), b) == WithoutAll(es, a + b)
  {
    if es != [] {
      WithoutAllTwice(es[1..], a, b);
      var h := if es[0].name in a then [] else [es[0]];
      WithoutAllAppend(h, WithoutAll(es[1..], a), b);
      if es[0].name !in a {
        assert WithoutAll(h, b) == (if es[0].name in b then [] else [es[0]]) + WithoutAll([], b);
      }
    }
  }

  lemma WithoutNothing(es: seq<Entry>)
    ensures WithoutAll(es, {}) == es
  {
  }

  lemma {:induction false} WithoutAllSorted(es: seq<Entry>, gone: set<string>)
    requires Sorted(es)
    ensures Sorted(WithoutAll(es, gone))
  {
    if es != [] {
      WithoutAllSorted(es[1..], gone);
      var rest := WithoutAll(es[1..], gone);
      forall e | e in rest ensures Below(es[0].name, e.name) {
        var k :| 0 <= k < |es[1..]| && es[1..][k] == e;
        assert es[k + 1] == e;
      }
    }
  }

  /** The directory after a file of that name is created or overwritten. */
  function Put(es: seq<Entry>, name: string, node: Node): (r: seq<Entry>)
    ensures Lookup(r, name) == Some(node)
    ensures forall n :: n != name ==> Lookup(r, n) == Lookup(es, n)
  {
    if es == [] then [Entry(name, node)]
    else if es[0].name == name then [Entry(name, node)] + es[1..]
    else if Below(name, es[0].name) then [Entry(name, node)] + es
    else [es[0]] + Put(es[1..], name, node)
  }

  lemma {:induction false} PutMembers(es: seq<Entry>, name: string, node: Node)
    ensures forall e :: e in Put(es, name, node) ==> e in es || e == Entry(name, node)
  {
    if es != [] && es[0].name != name && !Below(name, es[0].name) {
      PutMembers(es[1..], name, node);
    }
  }

  lemma {:induction false} PutSorted(es: seq<Entry>, name: string, node: Node)
    requires Sorted(es)
    ensures Sorted(Put(es, name, node))
  {
    if es == [] {
    } else if es[0].name == name {
      ConsSorted(Entry(name, node), es[1..]);
    } else if Below(name, es[0].name) {
      forall e | e in es ensures Below(name, e.name) {
        if e != es[0] {
          var k :| 0 <= k < |es| && es[k] == e;
          BelowTransitive(name, es[0].name, e.name);
        }
      }
      ConsSorted(Entry(name, node), es);
    } else {
      var rest := Put(es[1..], name, node);
      PutSorted(es[1..], name, node);
      PutMembers(es[1..], name, node);
      BelowTotal(name, es[0].name);
      forall e | e in rest ensures Below(es[0].name, e.name) {
        if e != Entry(name, node) {
          var k :| 0 <= k < |es[1..]| && es[1..][k] == e;
          assert es[k + 1] == e;
        }
      }
      ConsSorted(es[0], rest);
    }
  }

  /** An entry below everything in a sorted listing can head it. */
  lemma ConsSorted(e: Entry, rest: seq<Entry>)
    requires Sorted(rest) && forall x :: x in rest ==> Below(e.name, x.name)
    ensures Sorted([e] + rest)
  {
    var r := [e] + rest;
    forall i, j | 0 <= i < j < |r| ensures Below(r[i].name, r[j].name) {
      if i == 0 {
        assert r[j] in rest;
      } else {
        assert r[i] == rest[i - 1] && r[j] == rest[j - 1];
      }
    }
  }

  /** `os.Remove`: nil, or the kind of error it reports. */
  function RemoveOutcome(es: seq<Entry>, pinned: set<string>, name: string): Option<IoError>
  {
    if Lookup(es, name).None? then Some(NotFound)
    else if name in pinned then Some(Failure)
    else None
  }

  /**
   * `os.Remove` succeeds exactly on a present name the system lets go, reports
   * absence exactly on a missing name, and fails otherwise; it removes that
   * name and nothing else.
   */
  lemma RemoveKinds(es: seq<Entry>, pinned: set<string>, name: string)
    ensures RemoveOutcome(es, pinned, name).None? <==> Lookup(es, name).Some? && name !in pinned
    ensures RemoveOutcome(es, pinned, name) == Some(NotFound) <==> Lookup(es, name).None?
    ensures RemoveOutcome(es, pinned, name) == Some(Failure) <==> Lookup(es, name).Some? && name in pinned
    ensures Lookup(AfterRemove(es, pinned, name), name)
      == if RemoveOutcome(es, pinned, name).None? then None else Lookup(es, name)
    ensures forall n :: n != name ==> Lookup(AfterRemove(es, pinned, name), n) == Lookup(es, n)
  {
    forall n ensures Lookup(AfterRemove(es, pinned, name), n)
      == if n == name && RemoveOutcome(es, pinned, name).None? then None else Lookup(es, n)
    {
      LookupWithoutAll(es, {name}, n);
    }
  }

  /** The directory after `os.Remove` of a name. */
  function AfterRemove(es: seq<Entry>, pinned: set<string>, name: string): seq<Entry>
  {
    if RemoveOutcome(es, pinned, name).None? then WithoutAll(es, {name}) else es
  }

  /** `os.ReadFile`: a directory cannot be read as a file. */
  function ReadOutcome(es: seq<Entry>, name: string): Result<Bytes, IoError>
  {
    match Lookup(es, name)
    case None => Err(NotFound)
    case Some(Folder) => Err(Failure)
    case Some(File(data)) => Ok(data)
  }

  /** `os.ReadFile` yields exactly the bytes of a regular file, and absence exactly for a missing name. */
  lemma ReadKinds(es: seq<Entry>, name: string, data: Bytes)
    ensures ReadOutcome(es, name) == Ok(data) <==> Lookup(es, name) == Some(File(data))
    ensures ReadOutcome(es, name) == Err(NotFound) <==> Lookup(es, name).None?
  {
  }

  /**
   * Storing a file, as `writeFile` intends it: fails only on a directory of
   * that name, and otherwise leaves exactly `data` under the name.
   */
  function WriteOutcome(es: seq<Entry>, name: string, data: Bytes): (r: (Option<IoError>, seq<Entry>))
    ensures r.0.None? <==> Lookup(es, name) != Some(Folder)
    ensures r.0.None? ==> Lookup(r.1, name) == Some(File(data))
    ensures forall n :: n != name ==> Lookup(r.1, n) == Lookup(es, n)
  {
    if Lookup(es, name) == Some(Folder) then (Some(Failure), es)
    else (None, Put(es, name, File(data)))
  }

  /** Writing `data` from offset 0 over a file's prior bytes without truncating it. */
  function Overlay(prior: Bytes, data: Bytes): (r: Bytes)
    ensures |prior| <= |data| ==> r == data
    ensures |prior| > |data| ==> |r| == |prior| && r[..|data|] == data && r[|data|..] == prior[|data|..]
  {
    if |prior| > |data| then data + prior[|data|..] else data
  }

  /**
   * Storing a file as `writeFile` is written: the existence test before the
   * removal never succeeds, and the file is opened without truncation.
   */
  function WriteOutcomeAsWritten(es: seq<Entry>, name: string, data: Bytes): (Option<IoError>, seq<Entry>)
  {
    match Lookup(es, name)
    case Some(Folder) => (Some(Failure), es)
    case Some(File(prior)) => (None, Put(es, name, File(Overlay(prior, data))))
    case None => (None, Put(es, name, File(data)))
  }

  /**
   * Rewriting a file with fewer bytes than it holds leaves more than the new
   * bytes in it: the prior file's tail survives after them.
   */
  lemma OverwriteKeepsTail(es: seq<Entry>, name: string, prior: Bytes, data: Bytes)
    requires Lookup(es, name) == Some(File(prior)) && |prior| > |data|
    ensures WriteOutcomeAsWritten(es, name, data).0 == WriteOutcome(es, name, data).0 == None
    ensures Lookup(WriteOutcomeAsWritten(es, name, data).1, name) == Some(File(data + prior[|data|..]))
    ensures Lookup(WriteOutcomeAsWritten(es, name, data).1, name) != Lookup(WriteOutcome(es, name, data).1, name)
  {
    assert |data + prior[|data|..]| != |data|;
  }

  /**
   * The directory. `pinned` holds the names whose removal the operating system
   * refuses (a permission problem, say); every other present name can be removed.
   */
  class Directory {
    var entries: seq<Entry>
    const pinned: set<string>

    ghost predicate Valid()
      reads this
    {
      Sorted(entries)
    }

    constructor (entries: seq<Entry>, pinned: set<string>)
      requires Sorted(entries)
      ensures Valid() && this.entries == entries && this.pinned == pinned
    {
      this.entries := entries;
      this.pinned := pinned;
    }

    /** `os.ReadDir`: the entries, sorted by name. */
    method List() returns (es: seq<Entry>)
      requires Valid()
      ensures es == entries && Sorted(es)
    {
      es := entries;
    }

    method Remove(name: string) returns (err: Option<IoError>)
      requires Valid()
      modifies this
      ensures Valid() && err == RemoveOutcome(old(entries), pinned, name)
      ensures entries == AfterRemove(old(entries), pinned, name)
    {
      err := RemoveOutcome(entries, pinned, name);
      if err.None? {
        WithoutAllSorted(entries, {name});
        entries := WithoutAll(entries, {name});
      }
    }

    method ReadFile(name: string) returns (r: Result<Bytes, IoError>)
      ensures r == ReadOutcome(entries, name)
    {
      r := ReadOutcome(entries, name);
    }

    method WriteFile(name: string, data: Bytes) returns (err: Option<IoError>)
      requires Valid()
      modifies this
      ensures Valid()
      ensures (err, entries) == WriteOutcome(old(entries), name, data)
    {
      var o := WriteOutcome(entries, name, data);
      err := o.0;
      if err.None? {
        PutSorted(entries, name, File(data));
        entries := o.1;
      }
    }
  }
}
