/** The two loops of PubValidator.__init__ (booky.py): over the database
    files and over the records of each file. They keep the running
    `pub_keys` list and `pubs` dictionary and stop at the first failure.
    They are stated for any record check; BookyPubValidator plugs in the one
    booky.py makes. */
module BookyLoading {
  import opened Basics
  import opened Toml
  import opened BookyErrors
  import opened BookyRecords

  /** The publication directory being built: `pub_keys` and `pubs`. */
  datatype Directory = Directory(keys: seq<string>, pubs: map<string, Pub>)

  /** The directory's invariant: no key twice, and a Pub for exactly the
      listed keys. */
  predicate ValidDirectory(d: Directory) {
    Distinct(d.keys) && d.pubs.Keys == Elements(d.keys)
  }

  /** Append the key to `pub_keys` and insert its Pub into `pubs`. */
  function Accept(d: Directory, key: string, pub: Pub): Directory {
    Directory(d.keys + [key], d.pubs[key := pub])
  }

  /** The keys of a database file, in document order. */
  function KeysOf(entries: Catalog): (r: seq<string>)
    ensures |r| == |entries| && forall i :: 0 <= i < |entries| ==> r[i] == entries[i].0
  {
    if entries == [] then [] else [entries[0].0] + KeysOf(entries[1..])
  }

  /** What the loop body decides about one record: given the keys accepted
      so far, the record's key and its entry, reject the record or build its
      Pub. */
  type RecordCheck = (seq<string>, string, Entry) -> Outcome<Pub>

  /** The check rejects every key accepted before. */
  ghost predicate RejectsAccepted(check: RecordCheck) {
    forall accepted, key, entry :: key in accepted ==> check(accepted, key, entry).Fail?
  }

  /** The inner loop: the records of one file in order, each checked against
      the keys accepted so far; the first failure ends the load. */
  function LoadRecords(check: RecordCheck, d: Directory, entries: Catalog): Outcome<Directory>
    decreases |entries|
  {
    if entries == [] then Done(d)
    else
      match check(d.keys, entries[0].0, entries[0].1)
      case Fail(f) => Fail(f)
      case Done(pub) => LoadRecords(check, Accept(d, entries[0].0, pub), entries[1..])
  }

  /** The outer loop: each file in order, a missing or unreadable one raising
      a PubError that names it; `checks` gives the record check for a file. */
  function LoadFiles(checks: string -> RecordCheck, d: Directory, files: seq<string>,
                     catalogs: string -> Read<Catalog>): Outcome<Directory>
    decreases |files|
  {
    if files == [] then Done(d)
    else
      match catalogs(files[0])
      case NotFound => Fail(PubFailure(PubDbFileNotFound, Name(files[0]), None))
      case Undecodable => Fail(PubFailure(PubDbUnreadable, Name(files[0]), None))
      case Parsed(entries) =>
        match LoadRecords(checks(files[0]), d, entries)
        case Fail(f) => Fail(f)
        case Done(d') => LoadFiles(checks, d', files[1..], catalogs)
  }

  /** The keys of all the files, file after file, each in document order. */
  function KeysOfFiles(files: seq<string>, catalogs: string -> Read<Catalog>): seq<string> {
    if files == [] then []
    else (if catalogs(files[0]).Parsed? then KeysOf(catalogs(files[0]).content) else [])
         + KeysOfFiles(files[1..], catalogs)
  }

  /** The keys accepted before record `i` of file `j`: those started with,
      those of the earlier files, and those earlier in the same file. */
  function AcceptedBefore(d: Directory, files: seq<string>, catalogs: string -> Read<Catalog>, j: nat, i: nat): seq<string>
    requires j < |files| && catalogs(files[j]).Parsed? && i <= |catalogs(files[j]).content|
  {
    d.keys + KeysOfFiles(files[..j], catalogs) + KeysOf(catalogs(files[j]).content[..i])
  }

  /** The records before position `i` all pass their check, each against
      the keys accepted before it. */
  predicate RecordsPass(check: RecordCheck, accepted: seq<string>, entries: Catalog, i: nat)
    requires i <= |entries|
  {
    forall n :: 0 <= n < i ==> check(accepted + KeysOf(entries[..n]), entries[n].0, entries[n].1).Done?
  }

  /** Every file before position `j` was read, and all its records passed. */
  predicate FilesPass(checks: string -> RecordCheck, d: Directory, files: seq<string>,
                      catalogs: string -> Read<Catalog>, j: nat)
    requires j <= |files|
  {
    forall n :: 0 <= n < j ==>
      && catalogs(files[n]).Parsed?
      && RecordsPass(checks(files[n]), d.keys + KeysOfFiles(files[..n], catalogs),
                     catalogs(files[n]).content, |catalogs(files[n]).content|)
  }

  /** The load stops in file `j` with `failure`: the file is missing or
      unreadable, or one of its records fails, every record before it in the
      file having passed. */
  predicate StopsAt(checks: string -> RecordCheck, d: Directory, files: seq<string>,
                    catalogs: string -> Read<Catalog>, j: nat, failure: Failure)
    requires j < |files|
  {
    match catalogs(files[j])
    case NotFound => failure == PubFailure(PubDbFileNotFound, Name(files[j]), None)
    case Undecodable => failure == PubFailure(PubDbUnreadable, Name(files[j]), None)
    case Parsed(entries) =>
      exists i :: 0 <= i < |entries| &&
        RecordsPass(checks(files[j]), d.keys + KeysOfFiles(files[..j], catalogs), entries, i) &&
        checks(files[j])(AcceptedBefore(d, files, catalogs, j, i), entries[i].0, entries[i].1) == Fail(failure)
  }

  /** The keys of the first `n` entries: the first key, then the keys of
      the next `n - 1`. */
  lemma KeysOfPrefix(entries: Catalog, n: nat)
    requires 0 < n <= |entries|
    ensures KeysOf(entries[..n]) == [entries[0].0] + KeysOf(entries[1..][..n - 1])
  {
    assert entries[..n][1..] == entries[1..][..n - 1];
  }

  /** Accepting one more key, then the keys of the next `n` entries, is
      accepting the keys of the first `n + 1` entries. */
  lemma AcceptedShift(accepted: seq<string>, entries: Catalog, n: nat)
    requires n < |entries|
    ensures (accepted + [entries[0].0]) + KeysOf(entries[1..][..n]) == accepted + KeysOf(entries[..n + 1])
  {
    KeysOfPrefix(entries, n + 1);
    var rest := KeysOf(entries[1..][..n]);
    assert (accepted + [entries[0].0]) + rest == accepted + ([entries[0].0] + rest);
  }

  /** A first record that passes, followed by `m` passing records of the
      rest, is `m + 1` passing records. */
  lemma RecordsPassShift(check: RecordCheck, accepted: seq<string>, entries: Catalog, m: nat)
    requires m < |entries|
    requires check(accepted, entries[0].0, entries[0].1).Done?
    requires RecordsPass(check, accepted + [entries[0].0], entries[1..], m)
    ensures RecordsPass(check, accepted, entries, m + 1)
  {
    forall n | 0 <= n < m + 1
      ensures check(accepted + KeysOf(entries[..n]), entries[n].0, entries[n].1).Done?
    {
      if n == 0 {
        assert accepted + KeysOf(entries[..0]) == accepted by { assert KeysOf(entries[..0]) == []; }
      } else {
        AcceptedShift(accepted, entries, n - 1);
        assert entries[1..][n - 1] == entries[n];
      }
    }
  }

  // ---------------------------------------------------------------------
  // The inner loop

  /** A successful load of one file appends its keys, in document order, to
      the accepted ones; none of them was accepted before and none occurs
      twice. */
  lemma {:induction false} LoadRecordsKeys(check: RecordCheck, d: Directory, entries: Catalog)
    requires RejectsAccepted(check)
    ensures var r := LoadRecords(check, d, entries);
      r.Done? ==>
        && r.value.keys == d.keys + KeysOf(entries)
        && Distinct(KeysOf(entries))
        && forall k :: k in KeysOf(entries) ==> k !in d.keys
    decreases |entries|
  {
    if entries != [] {
      var key := entries[0].0;
      var c := check(d.keys, key, entries[0].1);
      if c.Done? {
        var d1 := Accept(d, key, c.value);
        var rest := KeysOf(entries[1..]);
        LoadRecordsKeys(check, d1, entries[1..]);
        assert KeysOf(entries) == [key] + rest;
        if LoadRecords(check, d, entries).Done? {
          assert d1.keys + rest == d.keys + ([key] + rest);
          assert key in d1.keys;
          DistinctCons(key, rest);
        }
      }
    }
  }

  /** A successful load of one file holds a Pub for exactly the keys held
      before and the file's keys, and keeps every earlier Pub whose key the
      file does not repeat. */
  lemma {:induction false} LoadRecordsPubKeys(check: RecordCheck, d: Directory, entries: Catalog)
    ensures var r := LoadRecords(check, d, entries);
      r.Done? ==>
        && (forall k :: k in r.value.pubs <==> k in d.pubs || k in KeysOf(entries))
        && (forall k :: k in d.pubs && k !in KeysOf(entries) ==> r.value.pubs[k] == d.pubs[k])
    decreases |entries|
  {
    var r := LoadRecords(check, d, entries);
    if entries != [] && r.Done? {
      var c := check(d.keys, entries[0].0, entries[0].1);
      var d1 := Accept(d, entries[0].0, c.value);
      assert r == LoadRecords(check, d1, entries[1..]);
      assert KeysOf(entries) == [entries[0].0] + KeysOf(entries[1..]);
      LoadRecordsPubKeys(check, d1, entries[1..]);
    }
  }

  /** After a successful load of one file, each record's key holds the Pub
      the check built for it against the keys accepted before it. */
  lemma {:induction false} LoadRecordsPubs(check: RecordCheck, d: Directory, entries: Catalog)
    requires RejectsAccepted(check)
    ensures var r := LoadRecords(check, d, entries);
      r.Done? ==>
        forall i :: 0 <= i < |entries| ==>
          entries[i].0 in r.value.pubs &&
          check(d.keys + KeysOf(entries[..i]), entries[i].0, entries[i].1) == Done(r.value.pubs[entries[i].0])
    decreases |entries|, 1
  {
    var r := LoadRecords(check, d, entries);
    if r.Done? {
      forall i | 0 <= i < |entries|
        ensures entries[i].0 in r.value.pubs
        ensures check(d.keys + KeysOf(entries[..i]), entries[i].0, entries[i].1) == Done(r.value.pubs[entries[i].0])
      {
        if i == 0 {
          LoadRecordsPubFirst(check, d, entries);
        } else {
          LoadRecordsPubLater(check, d, entries, i);
        }
      }
    }
  }

  /** The first record: the rest of the file neither drops nor replaces its
      Pub. */
  lemma LoadRecordsPubFirst(check: RecordCheck, d: Directory, entries: Catalog)
    requires RejectsAccepted(check)
    requires LoadRecords(check, d, entries).Done? && entries != []
    ensures var r := LoadRecords(check, d, entries);
      entries[0].0 in r.value.pubs &&
      check(d.keys + KeysOf(entries[..0]), entries[0].0, entries[0].1) == Done(r.value.pubs[entries[0].0])
  {
    var key := entries[0].0;
    var c := check(d.keys, key, entries[0].1);
    var d1 := Accept(d, key, c.value);
    var tail := entries[1..];
    var r := LoadRecords(check, d1, tail);
    assert LoadRecords(check, d, entries) == r;
    assert key !in KeysOf(tail) by {
      LoadRecordsKeys(check, d1, tail);
    }
    assert key in r.value.pubs && r.value.pubs[key] == c.value by {
      LoadRecordsPubKeys(check, d1, tail);
    }
    assert d.keys + KeysOf(entries[..0]) == d.keys by {
      assert KeysOf(entries[..0]) == [];
    }
  }

  /** A later record: the claim for the rest of the file, read back in
      terms of the whole file. */
  lemma LoadRecordsPubLater(check: RecordCheck, d: Directory, entries: Catalog, i: nat)
    requires RejectsAccepted(check)
    requires LoadRecords(check, d, entries).Done? && 0 < i < |entries|
    ensures var r := LoadRecords(check, d, entries);
      entries[i].0 in r.value.pubs &&
      check(d.keys + KeysOf(entries[..i]), entries[i].0, entries[i].1) == Done(r.value.pubs[entries[i].0])
    decreases |entries|, 0
  {
    var key := entries[0].0;
    var c := check(d.keys, key, entries[0].1);
    var d1 := Accept(d, key, c.value);
    var tail := entries[1..];
    assert LoadRecords(check, d, entries) == LoadRecords(check, d1, tail);
    LoadRecordsPubs(check, d1, tail);
    assert entries[i] == tail[i - 1];
    AcceptedShift(d.keys, entries, i - 1);
  }

  /** A property every Pub the check builds has is kept by a successful
      load of one file. */
  lemma {:induction false} LoadRecordsKeep(check: RecordCheck, good: Pub -> bool, d: Directory, entries: Catalog)
    requires forall accepted, key, entry :: check(accepted, key, entry).Done? ==> good(check(accepted, key, entry).value)
    requires forall k :: k in d.pubs ==> good(d.pubs[k])
    ensures var r := LoadRecords(check, d, entries);
      r.Done? ==> forall k :: k in r.value.pubs ==> good(r.value.pubs[k])
    decreases |entries|
  {
    if entries != [] {
      var c := check(d.keys, entries[0].0, entries[0].1);
      if c.Done? {
        var d1 := Accept(d, entries[0].0, c.value);
        assert good(c.value);
        assert forall k :: k in d1.pubs ==> good(d1.pubs[k]);
        LoadRecordsKeep(check, good, d1, entries[1..]);
      }
    }
  }

  /** A successful load of one file accepted every record, each checked
      against the keys accepted before it. */
  lemma {:induction false} LoadRecordsPassAll(check: RecordCheck, d: Directory, entries: Catalog)
    ensures LoadRecords(check, d, entries).Done? ==> RecordsPass(check, d.keys, entries, |entries|)
    decreases |entries|
  {
    if entries != [] && LoadRecords(check, d, entries).Done? {
      var c := check(d.keys, entries[0].0, entries[0].1);
      var d1 := Accept(d, entries[0].0, c.value);
      LoadRecordsPassAll(check, d1, entries[1..]);
      RecordsPassShift(check, d.keys, entries, |entries| - 1);
    }
  }

  /** A failed load of one file failed on the first record that does not
      pass: every record before it passed, and the failure is that record's
      own, checked against the keys accepted before it. */
  lemma {:induction false} LoadRecordsFailure(check: RecordCheck, d: Directory, entries: Catalog)
    ensures var r := LoadRecords(check, d, entries);
      r.Fail? ==>
        exists i :: 0 <= i < |entries| && RecordsPass(check, d.keys, entries, i) &&
          check(d.keys + KeysOf(entries[..i]), entries[i].0, entries[i].1) == Fail(r.failure)
    decreases |entries|
  {
    var r := LoadRecords(check, d, entries);
    if entries != [] && r.Fail? {
      var key := entries[0].0;
      var c := check(d.keys, key, entries[0].1);
      if c.Fail? {
        assert d.keys + KeysOf(entries[..0]) == d.keys by { assert KeysOf(entries[..0]) == []; }
        assert RecordsPass(check, d.keys, entries, 0);
        assert check(d.keys + KeysOf(entries[..0]), entries[0].0, entries[0].1) == Fail(r.failure);
      } else {
        var d1 := Accept(d, key, c.value);
        var tail := entries[1..];
        LoadRecordsFailure(check, d1, tail);
        var i :| 0 <= i < |tail| && RecordsPass(check, d1.keys, tail, i) &&
          check(d1.keys + KeysOf(tail[..i]), tail[i].0, tail[i].1) == Fail(r.failure);
        RecordsPassShift(check, d.keys, entries, i);
        AcceptedShift(d.keys, entries, i);
        assert entries[i + 1] == tail[i];
        assert check(d.keys + KeysOf(entries[..i + 1]), entries[i + 1].0, entries[i + 1].1) == Fail(r.failure);
      }
    }
  }

  // ---------------------------------------------------------------------
  // The outer loop

  /** The keys of the files before position `n` and those from `n` on. */
  lemma {:induction false} KeysOfFilesSplit(files: seq<string>, catalogs: string -> Read<Catalog>, n: nat)
    requires n <= |files|
    ensures KeysOfFiles(files, catalogs) == KeysOfFiles(files[..n], catalogs) + KeysOfFiles(files[n..], catalogs)
    decreases n
  {
    if n > 0 {
      KeysOfFilesSplit(files[1..], catalogs, n - 1);
      assert files[..n][1..] == files[1..][..n - 1];
      assert files[1..][n - 1..] == files[n..];
    } else {
      assert files[..0] == [] && files[0..] == files;
    }
  }

  /** Every key of a listed, parsed file is among the keys of the files. */
  lemma {:induction false} KeysOfFilesHas(files: seq<string>, catalogs: string -> Read<Catalog>, j: nat, k: string)
    requires j < |files| && catalogs(files[j]).Parsed? && k in KeysOf(catalogs(files[j]).content)
    ensures k in KeysOfFiles(files, catalogs)
    decreases j
  {
    if j > 0 {
      KeysOfFilesHas(files[1..], catalogs, j - 1, k);
    }
  }

  /** In the first file, what was accepted before a record is what the
      load started with and the keys earlier in the file. */
  lemma AcceptedBeforeFirst(d: Directory, files: seq<string>, catalogs: string -> Read<Catalog>, i: nat)
    requires 0 < |files| && catalogs(files[0]).Parsed? && i <= |catalogs(files[0]).content|
    ensures AcceptedBefore(d, files, catalogs, 0, i) == d.keys + KeysOf(catalogs(files[0]).content[..i])
  {
    assert files[..0] == [];
  }

  /** Moving past the first file: what was accepted before a later file
      starts is the same, counted from the directory after the first file. */
  lemma PriorShift(d: Directory, d1: Directory, files: seq<string>, catalogs: string -> Read<Catalog>, j: nat)
    requires 0 < j <= |files| && catalogs(files[0]).Parsed?
    requires d1.keys == d.keys + KeysOf(catalogs(files[0]).content)
    ensures d1.keys + KeysOfFiles(files[1..][..j - 1], catalogs) == d.keys + KeysOfFiles(files[..j], catalogs)
  {
    var first := KeysOf(catalogs(files[0]).content);
    var rest := KeysOfFiles(files[1..][..j - 1], catalogs);
    var prefix := files[..j];
    assert prefix != [] && prefix[0] == files[0] && prefix[1..] == files[1..][..j - 1];
    assert KeysOfFiles(prefix, catalogs) == first + KeysOfFiles(prefix[1..], catalogs);
    assert (d.keys + first) + rest == d.keys + (first + rest);
  }

  /** Moving past the first file: what was accepted before a record of a
      later file is the same, counted from the directory after the first
      file. */
  lemma AcceptedBeforeShift(d: Directory, d1: Directory, files: seq<string>, catalogs: string -> Read<Catalog>,
                            j: nat, i: nat)
    requires 0 < j < |files| && catalogs(files[0]).Parsed? && catalogs(files[j]).Parsed?
    requires i <= |catalogs(files[j]).content|
    requires d1.keys == d.keys + KeysOf(catalogs(files[0]).content)
    ensures files[1..][j - 1] == files[j]
    ensures AcceptedBefore(d1, files[1..], catalogs, j - 1, i) == AcceptedBefore(d, files, catalogs, j, i)
  {
    assert files[..j][1..] == files[1..][..j - 1];
    assert KeysOfFiles(files[..j], catalogs)
        == KeysOf(catalogs(files[0]).content) + KeysOfFiles(files[1..][..j - 1], catalogs);
  }

  /** A successful load reads every file and appends the keys of all of
      them, file after file; none was accepted before and none occurs
      twice. */
  lemma {:induction false} LoadFilesKeys(checks: string -> RecordCheck, d: Directory, files: seq<string>,
                                         catalogs: string -> Read<Catalog>)
    requires forall f :: RejectsAccepted(checks(f))
    ensures var r := LoadFiles(checks, d, files, catalogs);
      r.Done? ==>
        && (forall f :: f in files ==> catalogs(f).Parsed?)
        && r.value.keys == d.keys + KeysOfFiles(files, catalogs)
        && Distinct(KeysOfFiles(files, catalogs))
        && forall k :: k in KeysOfFiles(files, catalogs) ==> k !in d.keys
    decreases |files|
  {
    if files != [] && LoadFiles(checks, d, files, catalogs).Done? {
      var entries := catalogs(files[0]).content;
      var d1 := LoadRecords(checks(files[0]), d, entries).value;
      LoadRecordsKeys(checks(files[0]), d, entries);
      LoadFilesKeys(checks, d1, files[1..], catalogs);
      var here, later := KeysOf(entries), KeysOfFiles(files[1..], catalogs);
      assert KeysOfFiles(files, catalogs) == here + later;
      DistinctConcat(here, later);
      forall f | f in files ensures catalogs(f).Parsed? {
        if f != files[0] {
          assert f in files[1..];
        }
      }
    }
  }

  /** A successful load holds a Pub for exactly the keys held before and
      the keys of the files, and keeps every earlier Pub whose key no file
      repeats. */
  lemma {:induction false} LoadFilesPubKeys(checks: string -> RecordCheck, d: Directory, files: seq<string>,
                                            catalogs: string -> Read<Catalog>)
    requires forall f :: RejectsAccepted(checks(f))
    ensures var r := LoadFiles(checks, d, files, catalogs);
      r.Done? ==>
        && (forall k :: k in r.value.pubs <==> k in d.pubs || k in KeysOfFiles(files, catalogs))
        && (forall k :: k in d.pubs && k !in KeysOfFiles(files, catalogs) ==> r.value.pubs[k] == d.pubs[k])
    decreases |files|
  {
    var r := LoadFiles(checks, d, files, catalogs);
    if files != [] && r.Done? {
      var entries := catalogs(files[0]).content;
      var d1 := LoadRecords(checks(files[0]), d, entries).value;
      assert r == LoadFiles(checks, d1, files[1..], catalogs);
      assert KeysOfFiles(files, catalogs) == KeysOf(entries) + KeysOfFiles(files[1..], catalogs);
      LoadRecordsPubKeys(checks(files[0]), d, entries);
      LoadFilesPubKeys(checks, d1, files[1..], catalogs);
    }
  }

  /** After a successful load, each record's key holds the Pub the check of
      its file built for it against the keys accepted before it. */
  lemma {:induction false} LoadFilesPubs(checks: string -> RecordCheck, d: Directory, files: seq<string>,
                                         catalogs: string -> Read<Catalog>)
    requires forall f :: RejectsAccepted(checks(f))
    ensures var r := LoadFiles(checks, d, files, catalogs);
      r.Done? ==>
        forall j, i :: 0 <= j < |files| && catalogs(files[j]).Parsed? && 0 <= i < |catalogs(files[j]).content| ==>
          var e := catalogs(files[j]).content[i];
          e.0 in r.value.pubs &&
          checks(files[j])(AcceptedBefore(d, files, catalogs, j, i), e.0, e.1) == Done(r.value.pubs[e.0])
    decreases |files|, 1
  {
    var r := LoadFiles(checks, d, files, catalogs);
    if r.Done? {
      forall j, i | 0 <= j < |files| && catalogs(files[j]).Parsed? && 0 <= i < |catalogs(files[j]).content|
        ensures catalogs(files[j]).content[i].0 in r.value.pubs
        ensures var e := catalogs(files[j]).content[i];
          checks(files[j])(AcceptedBefore(d, files, catalogs, j, i), e.0, e.1) == Done(r.value.pubs[e.0])
      {
        if j == 0 {
          LoadFilesPubFirst(checks, d, files, catalogs, i);
        } else {
          LoadFilesPubLater(checks, d, files, catalogs, j, i);
        }
      }
    }
  }

  /** The records of the first file: the loop over later files neither
      drops nor replaces their Pubs. */
  lemma LoadFilesPubFirst(checks: string -> RecordCheck, d: Directory, files: seq<string>,
                          catalogs: string -> Read<Catalog>, i: nat)
    requires forall f :: RejectsAccepted(checks(f))
    requires LoadFiles(checks, d, files, catalogs).Done?
    requires 0 < |files| && catalogs(files[0]).Parsed? && i < |catalogs(files[0]).content|
    ensures var e := catalogs(files[0]).content[i];
      var r := LoadFiles(checks, d, files, catalogs);
      e.0 in r.value.pubs &&
      checks(files[0])(AcceptedBefore(d, files, catalogs, 0, i), e.0, e.1) == Done(r.value.pubs[e.0])
  {
    var entries := catalogs(files[0]).content;
    var e := entries[i];
    var check := checks(files[0]);
    var d1 := LoadRecords(check, d, entries).value;
    var r := LoadFiles(checks, d1, files[1..], catalogs);
    assert LoadFiles(checks, d, files, catalogs) == r;
    assert e.0 in d1.pubs && check(d.keys + KeysOf(entries[..i]), e.0, e.1) == Done(d1.pubs[e.0]) by {
      LoadRecordsPubs(check, d, entries);
    }
    assert e.0 in d1.keys by {
      LoadRecordsKeys(check, d, entries);
      assert KeysOf(entries)[i] == e.0;
    }
    LaterFilesKeep(checks, d1, files[1..], catalogs, e.0);
    AcceptedBeforeFirst(d, files, catalogs, i);
  }

  /** A key accepted before the load starts keeps its Pub through a
      successful load. */
  lemma LaterFilesKeep(checks: string -> RecordCheck, d: Directory, files: seq<string>,
                       catalogs: string -> Read<Catalog>, k: string)
    requires forall f :: RejectsAccepted(checks(f))
    requires LoadFiles(checks, d, files, catalogs).Done?
    requires k in d.keys && k in d.pubs
    ensures var r := LoadFiles(checks, d, files, catalogs);
      k in r.value.pubs && r.value.pubs[k] == d.pubs[k]
  {
    assert k !in KeysOfFiles(files, catalogs) by {
      LoadFilesKeys(checks, d, files, catalogs);
    }
    LoadFilesPubKeys(checks, d, files, catalogs);
  }

  /** The records of a later file: the claim for the rest of the files,
      read back in terms of the whole sequence. */
  lemma LoadFilesPubLater(checks: string -> RecordCheck, d: Directory, files: seq<string>,
                          catalogs: string -> Read<Catalog>, j: nat, i: nat)
    requires forall f :: RejectsAccepted(checks(f))
    requires LoadFiles(checks, d, files, catalogs).Done?
    requires 0 < j < |files| && catalogs(files[j]).Parsed? && i < |catalogs(files[j]).content|
    ensures var e := catalogs(files[j]).content[i];
      var r := LoadFiles(checks, d, files, catalogs);
      e.0 in r.value.pubs &&
      checks(files[j])(AcceptedBefore(d, files, catalogs, j, i), e.0, e.1) == Done(r.value.pubs[e.0])
    decreases |files|, 0
  {
    var entries := catalogs(files[0]).content;
    var d1 := LoadRecords(checks(files[0]), d, entries).value;
    assert LoadFiles(checks, d, files, catalogs) == LoadFiles(checks, d1, files[1..], catalogs);
    LoadRecordsKeys(checks(files[0]), d, entries);
    LoadFilesPubs(checks, d1, files[1..], catalogs);
    AcceptedBeforeShift(d, d1, files, catalogs, j, i);
  }

  /** A property every Pub the checks build has is kept by a successful
      load. */
  lemma {:induction false} LoadFilesKeep(checks: string -> RecordCheck, good: Pub -> bool, d: Directory,
                                         files: seq<string>, catalogs: string -> Read<Catalog>)
    requires forall f, accepted, key, entry :: checks(f)(accepted, key, entry).Done? ==>
      good(checks(f)(accepted, key, entry).value)
    requires forall k :: k in d.pubs ==> good(d.pubs[k])
    ensures var r := LoadFiles(checks, d, files, catalogs);
      r.Done? ==> forall k :: k in r.value.pubs ==> good(r.value.pubs[k])
    decreases |files|
  {
    if files != [] && catalogs(files[0]).Parsed? {
      var entries := catalogs(files[0]).content;
      LoadRecordsKeep(checks(files[0]), good, d, entries);
      var loaded := LoadRecords(checks(files[0]), d, entries);
      if loaded.Done? {
        LoadFilesKeep(checks, good, loaded.value, files[1..], catalogs);
      }
    }
  }

  /** A failed load stops at the first problem, in file-then-record
      order: every file before the one it stops in was read with all its
      records passing, and there the file is missing or unreadable, or a
      record fails after all the records before it passed. */
  lemma {:induction false} LoadFilesFailure(checks: string -> RecordCheck, d: Directory, files: seq<string>,
                                            catalogs: string -> Read<Catalog>)
    requires forall f :: RejectsAccepted(checks(f))
    ensures var r := LoadFiles(checks, d, files, catalogs);
      r.Fail? ==>
        exists j :: 0 <= j < |files| && FilesPass(checks, d, files, catalogs, j) &&
          StopsAt(checks, d, files, catalogs, j, r.failure)
    decreases |files|
  {
    var r := LoadFiles(checks, d, files, catalogs);
    if files != [] && r.Fail? {
      assert FilesPass(checks, d, files, catalogs, 0);
      if catalogs(files[0]).Parsed? {
        var entries := catalogs(files[0]).content;
        var loaded := LoadRecords(checks(files[0]), d, entries);
        if loaded.Fail? {
          FirstFileFailure(checks, d, files, catalogs);
        } else {
          var d1 := loaded.value;
          assert r == LoadFiles(checks, d1, files[1..], catalogs);
          assert d1.keys == d.keys + KeysOf(entries) by {
            LoadRecordsKeys(checks(files[0]), d, entries);
          }
          LoadRecordsPassAll(checks(files[0]), d, entries);
          LoadFilesFailure(checks, d1, files[1..], catalogs);
          var j :| 0 <= j < |files[1..]| && FilesPass(checks, d1, files[1..], catalogs, j) &&
            StopsAt(checks, d1, files[1..], catalogs, j, r.failure);
          FilesPassShift(checks, d, d1, files, catalogs, j);
          FailureShift(checks, d, d1, files, catalogs, r.failure, j + 1);
        }
      }
    }
  }

  /** A load that stops in the first file stops at its first failing
      record. */
  lemma FirstFileFailure(checks: string -> RecordCheck, d: Directory, files: seq<string>,
                         catalogs: string -> Read<Catalog>)
    requires files != [] && catalogs(files[0]).Parsed?
    requires LoadRecords(checks(files[0]), d, catalogs(files[0]).content).Fail?
    ensures StopsAt(checks, d, files, catalogs, 0, LoadRecords(checks(files[0]), d, catalogs(files[0]).content).failure)
  {
    var entries := catalogs(files[0]).content;
    var failure := LoadRecords(checks(files[0]), d, entries).failure;
    LoadRecordsFailure(checks(files[0]), d, entries);
    var i :| 0 <= i < |entries| && RecordsPass(checks(files[0]), d.keys, entries, i) &&
      checks(files[0])(d.keys + KeysOf(entries[..i]), entries[i].0, entries[i].1) == Fail(failure);
    AcceptedBeforeFirst(d, files, catalogs, i);
    assert d.keys + KeysOfFiles(files[..0], catalogs) == d.keys by { assert files[..0] == []; }
  }

  /** The record a load stops at in a file that was read. */
  lemma StoppingRecord(checks: string -> RecordCheck, d: Directory, files: seq<string>,
                       catalogs: string -> Read<Catalog>, j: nat, failure: Failure) returns (i: nat)
    requires j < |files| && catalogs(files[j]).Parsed? && StopsAt(checks, d, files, catalogs, j, failure)
    ensures i < |catalogs(files[j]).content|
    ensures var e := catalogs(files[j]).content[i];
      checks(files[j])(AcceptedBefore(d, files, catalogs, j, i), e.0, e.1) == Fail(failure)
  {
    var entries := catalogs(files[j]).content;
    i :| 0 <= i < |entries| &&
      RecordsPass(checks(files[j]), d.keys + KeysOfFiles(files[..j], catalogs), entries, i) &&
      checks(files[j])(AcceptedBefore(d, files, catalogs, j, i), entries[i].0, entries[i].1) == Fail(failure);
  }

  /** A first file read with all its records passing, followed by `j`
      passing files of the rest, is `j + 1` passing files. */
  lemma FilesPassShift(checks: string -> RecordCheck, d: Directory, d1: Directory, files: seq<string>,
                       catalogs: string -> Read<Catalog>, j: nat)
    requires j < |files| && catalogs(files[0]).Parsed?
    requires d1.keys == d.keys + KeysOf(catalogs(files[0]).content)
    requires RecordsPass(checks(files[0]), d.keys, catalogs(files[0]).content, |catalogs(files[0]).content|)
    requires FilesPass(checks, d1, files[1..], catalogs, j)
    ensures FilesPass(checks, d, files, catalogs, j + 1)
  {
    forall n | 0 <= n < j + 1
      ensures catalogs(files[n]).Parsed?
      ensures RecordsPass(checks(files[n]), d.keys + KeysOfFiles(files[..n], catalogs),
                          catalogs(files[n]).content, |catalogs(files[n]).content|)
    {
      if n == 0 {
        assert d.keys + KeysOfFiles(files[..0], catalogs) == d.keys by { assert files[..0] == []; }
      } else {
        assert files[1..][n - 1] == files[n];
        PriorShift(d, d1, files, catalogs, n);
      }
    }
  }

  /** Where a load of the later files stops, counted from the directory
      after the first file, is where the whole load stops. */
  lemma FailureShift(checks: string -> RecordCheck, d: Directory, d1: Directory, files: seq<string>,
                     catalogs: string -> Read<Catalog>, failure: Failure, j: nat)
    requires 0 < j < |files| && catalogs(files[0]).Parsed?
    requires d1.keys == d.keys + KeysOf(catalogs(files[0]).content)
    requires StopsAt(checks, d1, files[1..], catalogs, j - 1, failure)
    ensures StopsAt(checks, d, files, catalogs, j, failure)
  {
    assert files[1..][j - 1] == files[j];
    if catalogs(files[j]).Parsed? {
      var entries := catalogs(files[j]).content;
      var i :| 0 <= i < |entries| &&
        RecordsPass(checks(files[j]), d1.keys + KeysOfFiles(files[1..][..j - 1], catalogs), entries, i) &&
        checks(files[j])(AcceptedBefore(d1, files[1..], catalogs, j - 1, i), entries[i].0, entries[i].1) == Fail(failure);
      PriorShift(d, d1, files, catalogs, j);
      AcceptedBeforeShift(d, d1, files, catalogs, j, i);
    }
  }

  /** Cumulative duplicate detection: a key found in two different files
      makes the load fail, whatever directory it starts from. */
  lemma DuplicateAcrossFilesFails(checks: string -> RecordCheck, d: Directory, files: seq<string>,
                                  catalogs: string -> Read<Catalog>, j1: nat, j2: nat, key: string)
    requires forall f :: RejectsAccepted(checks(f))
    requires j1 < j2 < |files|
    requires catalogs(files[j1]).Parsed? && key in KeysOf(catalogs(files[j1]).content)
    requires catalogs(files[j2]).Parsed? && key in KeysOf(catalogs(files[j2]).content)
    ensures LoadFiles(checks, d, files, catalogs).Fail?
  {
    if LoadFiles(checks, d, files, catalogs).Done? {
      LoadFilesKeys(checks, d, files, catalogs);
      KeysOfFilesSplit(files, catalogs, j2);
      KeysOfFilesHas(files[..j2], catalogs, j1, key);
      KeysOfFilesHas(files[j2..], catalogs, 0, key);
      DistinctConcat(KeysOfFiles(files[..j2], catalogs), KeysOfFiles(files[j2..], catalogs));
    }
  }
}
