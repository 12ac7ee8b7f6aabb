/** PubValidator of the stand-alone validator (booky.py): after the
    configuration checks of ConfigValidator, every record of every listed
    publication database file is checked and turned into a Pub. */
module BookyPubValidator {
  import opened Basics
  import opened Toml
  import opened BookyErrors
  import opened BookyConfigValidator
  import opened BookyRecords
  import opened BookyLoading

  /** The record check of the loop body for a file, under validated
      settings. */
  function Checks(s: ValidatedSettings): string -> RecordCheck {
    filename => (accepted, key, entry) => CheckRecord(s, accepted, filename, key, entry)
  }

  /** The directory the loops start from: no key, no Pub. */
  const Empty := Directory([], map[])

  /** Every record check rejects a key accepted before it. */
  lemma ChecksRejectAccepted(s: ValidatedSettings)
    ensures forall f :: RejectsAccepted(Checks(s)(f))
  {
    forall f, accepted, key, entry | key in accepted
      ensures Checks(s)(f)(accepted, key, entry).Fail?
    {
      assert Checks(s)(f)(accepted, key, entry) == CheckRecord(s, accepted, f, key, entry);
    }
  }

  /** PubValidator.__init__ as a whole: the configuration checks, then the
      files listed in `pub-db-filenames`, read through `catalogs`. */
  function PubLoad(src: Read<ConfigDoc>, existing: set<string>, catalogs: string -> Read<Catalog>)
    : Outcome<(ValidatedSettings, Directory)>
  {
    match ConfigCheck(src, existing)
    case Fail(f) => Fail(f)
    case Done(s) =>
      match LoadFiles(Checks(s), Empty, s.pubDbFilenames, catalogs)
      case Fail(f) => Fail(f)
      case Done(d) => Done((s, d))
  }

  /** The keys accepted before record `i` of file `j`, counted from the
      start of the load. */
  function Before(s: ValidatedSettings, catalogs: string -> Read<Catalog>, j: nat, i: nat): seq<string>
    requires j < |s.pubDbFilenames| && catalogs(s.pubDbFilenames[j]).Parsed?
    requires i <= |catalogs(s.pubDbFilenames[j]).content|
  {
    AcceptedBefore(Empty, s.pubDbFilenames, catalogs, j, i)
  }

  /** What a successful validation holds: the configuration's settings; a
      key list with no repeats that is the keys of all files, file after
      file, in document order; a Pub for exactly those keys; each Pub a
      copy of its record that meets the configured colours and limits. */
  lemma PubLoadSucceeds(src: Read<ConfigDoc>, existing: set<string>, catalogs: string -> Read<Catalog>)
    ensures var r := PubLoad(src, existing, catalogs);
      r.Done? ==>
        var (s, d) := r.value;
        && ConfigCheck(src, existing) == Done(s)
        && ValidDirectory(d)
        && d.keys == KeysOfFiles(s.pubDbFilenames, catalogs)
        && AllSound(s, d.pubs)
        && (forall j :: 0 <= j < |s.pubDbFilenames| ==> catalogs(s.pubDbFilenames[j]).Parsed?)
        && forall j, i :: 0 <= j < |s.pubDbFilenames| && catalogs(s.pubDbFilenames[j]).Parsed? &&
                          0 <= i < |catalogs(s.pubDbFilenames[j]).content| ==>
             var e := catalogs(s.pubDbFilenames[j]).content[i];
             e.0 in d.pubs && e.1.Table? && MakePub(e.1.fields) == Done(d.pubs[e.0])
  {
    var r := PubLoad(src, existing, catalogs);
    if r.Done? {
      var (s, d) := r.value;
      var files := s.pubDbFilenames;
      ChecksRejectAccepted(s);
      LoadFilesKeys(Checks(s), Empty, files, catalogs);
      LoadFilesPubKeys(Checks(s), Empty, files, catalogs);
      LoadFilesPubs(Checks(s), Empty, files, catalogs);
      forall f, accepted, key, entry | Checks(s)(f)(accepted, key, entry).Done?
        ensures PubSound(s, Checks(s)(f)(accepted, key, entry).value)
      {
        AcceptedPubIsSound(s, accepted, f, key, entry);
      }
      LoadFilesKeep(Checks(s), p => PubSound(s, p), Empty, files, catalogs);
      assert d.keys == KeysOfFiles(files, catalogs);
      assert d.pubs.Keys == Elements(d.keys);
      forall j | 0 <= j < |files| ensures catalogs(files[j]).Parsed? {
        assert files[j] in files;
      }
      forall j, i | 0 <= j < |files| && catalogs(files[j]).Parsed? && 0 <= i < |catalogs(files[j]).content|
        ensures var e := catalogs(files[j]).content[i];
          e.0 in d.pubs && e.1.Table? && MakePub(e.1.fields) == Done(d.pubs[e.0])
      {
        var e := catalogs(files[j]).content[i];
        assert CheckRecord(s, AcceptedBefore(Empty, files, catalogs, j, i), files[j], e.0, e.1) == Done(d.pubs[e.0]);
      }
    }
  }

  /** The validation succeeds exactly when the configuration passes, every
      listed file is read, and every record passes its checks against the
      keys accepted before it. */
  lemma PubLoadAcceptsIff(src: Read<ConfigDoc>, existing: set<string>, catalogs: string -> Read<Catalog>)
    ensures PubLoad(src, existing, catalogs).Done? <==>
      && ConfigCheck(src, existing).Done?
      && var s: ValidatedSettings := ConfigCheck(src, existing).value;
         && (forall j :: 0 <= j < |s.pubDbFilenames| ==> catalogs(s.pubDbFilenames[j]).Parsed?)
         && forall j, i :: 0 <= j < |s.pubDbFilenames| && catalogs(s.pubDbFilenames[j]).Parsed? &&
                           0 <= i < |catalogs(s.pubDbFilenames[j]).content| ==>
              var e := catalogs(s.pubDbFilenames[j]).content[i];
              CheckRecord(s, Before(s, catalogs, j, i), s.pubDbFilenames[j], e.0, e.1).Done?
  {
    if ConfigCheck(src, existing).Done? {
      var s: ValidatedSettings := ConfigCheck(src, existing).value;
      var files := s.pubDbFilenames;
      ChecksRejectAccepted(s);
      var r := LoadFiles(Checks(s), Empty, files, catalogs);
      if r.Done? {
        LoadFilesKeys(Checks(s), Empty, files, catalogs);
        LoadFilesPubs(Checks(s), Empty, files, catalogs);
        forall j | 0 <= j < |files| ensures catalogs(files[j]).Parsed? {
          assert files[j] in files;
        }
      } else {
        StoppedLoadRejects(s, catalogs);
      }
    }
  }

  /** A load that fails has a file that is not read or a record whose
      checks fail against the keys accepted before it. */
  lemma StoppedLoadRejects(s: ValidatedSettings, catalogs: string -> Read<Catalog>)
    requires LoadFiles(Checks(s), Empty, s.pubDbFilenames, catalogs).Fail?
    ensures || (exists j :: 0 <= j < |s.pubDbFilenames| && !catalogs(s.pubDbFilenames[j]).Parsed?)
            || (exists j, i :: 0 <= j < |s.pubDbFilenames| && catalogs(s.pubDbFilenames[j]).Parsed? &&
                  0 <= i < |catalogs(s.pubDbFilenames[j]).content| &&
                  var e := catalogs(s.pubDbFilenames[j]).content[i];
                  !CheckRecord(s, Before(s, catalogs, j, i), s.pubDbFilenames[j], e.0, e.1).Done?)
  {
    var files := s.pubDbFilenames;
    var failure := LoadFiles(Checks(s), Empty, files, catalogs).failure;
    ChecksRejectAccepted(s);
    LoadFilesFailure(Checks(s), Empty, files, catalogs);
    var j :| 0 <= j < |files| && StopsAt(Checks(s), Empty, files, catalogs, j, failure);
    if catalogs(files[j]).Parsed? {
      var entries := catalogs(files[j]).content;
      var i := StoppingRecord(Checks(s), Empty, files, catalogs, j, failure);
      assert !CheckRecord(s, Before(s, catalogs, j, i), files[j], entries[i].0, entries[i].1).Done?;
    } else {
      assert !catalogs(files[j]).Parsed?;
    }
  }

  /** A failed validation after a passing configuration stops on the first
      problem found, in file-then-record order: every earlier file was read
      with all its records passing, and the problem is a missing or
      unreadable file, named alone, or the first record of its file whose
      own checks fail against the keys accepted before it. A "Duplicate
      key" error names a key accepted before, and the file it was found
      in. */
  lemma PubLoadFailure(src: Read<ConfigDoc>, existing: set<string>, catalogs: string -> Read<Catalog>)
    ensures var r := PubLoad(src, existing, catalogs);
      r.Fail? && ConfigCheck(src, existing).Done? ==>
        var s: ValidatedSettings := ConfigCheck(src, existing).value;
        var files := s.pubDbFilenames;
        && (exists j :: 0 <= j < |files| && FilesPass(Checks(s), Empty, files, catalogs, j) &&
              StopsAt(Checks(s), Empty, files, catalogs, j, r.failure))
        && (exists j :: 0 <= j < |files| &&
              match catalogs(files[j])
              case NotFound => r.failure == PubFailure(PubDbFileNotFound, Name(files[j]), None)
              case Undecodable => r.failure == PubFailure(PubDbUnreadable, Name(files[j]), None)
              case Parsed(entries) =>
                exists i :: 0 <= i < |entries| &&
                  CheckRecord(s, Before(s, catalogs, j, i), files[j], entries[i].0, entries[i].1) == Fail(r.failure))
        && (r.failure.Raised? && r.failure.error.problem == DuplicateKey ==>
              exists j, i :: 0 <= j < |files| && catalogs(files[j]).Parsed? &&
                0 <= i < |catalogs(files[j]).content| &&
                var key := catalogs(files[j]).content[i].0;
                key in Before(s, catalogs, j, i) &&
                r.failure == PubFailure(DuplicateKey, Name(key), Some(files[j])))
  {
    var r := PubLoad(src, existing, catalogs);
    if r.Fail? && ConfigCheck(src, existing).Done? {
      var s: ValidatedSettings := ConfigCheck(src, existing).value;
      var files := s.pubDbFilenames;
      ChecksRejectAccepted(s);
      LoadFilesFailure(Checks(s), Empty, files, catalogs);
      var j :| 0 <= j < |files| && FilesPass(Checks(s), Empty, files, catalogs, j) &&
        StopsAt(Checks(s), Empty, files, catalogs, j, r.failure);
      if catalogs(files[j]).Parsed? {
        var entries := catalogs(files[j]).content;
        var i := StoppingRecord(Checks(s), Empty, files, catalogs, j, r.failure);
        assert CheckRecord(s, Before(s, catalogs, j, i), files[j], entries[i].0, entries[i].1) == Fail(r.failure);
      }
    }
  }

  /** Duplicate detection runs across files: a key found in two of the
      listed files makes the validation fail. */
  lemma DuplicateAcrossFilesRejected(src: Read<ConfigDoc>, existing: set<string>, catalogs: string -> Read<Catalog>,
                                     j1: nat, j2: nat, key: string)
    requires ConfigCheck(src, existing).Done?
    requires var files := ConfigCheck(src, existing).value.pubDbFilenames;
      && j1 < j2 < |files|
      && catalogs(files[j1]).Parsed? && key in KeysOf(catalogs(files[j1]).content)
      && catalogs(files[j2]).Parsed? && key in KeysOf(catalogs(files[j2]).content)
    ensures PubLoad(src, existing, catalogs).Fail?
  {
    var s: ValidatedSettings := ConfigCheck(src, existing).value;
    ChecksRejectAccepted(s);
    DuplicateAcrossFilesFails(Checks(s), Empty, s.pubDbFilenames, catalogs, j1, j2, key);
  }

  /** PubValidator: a ConfigValidator plus the `pub_keys` list and the
      `pubs` dictionary its constructor fills. */
  class PubValidator {
    const config: ConfigValidator
    var pubKeys: seq<string>
    var pubs: map<string, Pub>

    /** The two collections as one value. */
    function Current(): Directory
      reads this
    {
      Directory(pubKeys, pubs)
    }

    constructor ()
      ensures fresh(config)
      ensures Current() == Empty && config.Current() == Settings([], [], [], [], [])
    {
      config := new ConfigValidator();
      pubKeys, pubs := [], map[];
    }

    /** The body of PubValidator.__init__: validate the configuration, then
        read each listed file and check its records in order, appending a
        record's key and inserting its Pub once all its checks pass. */
    method Validate(src: Read<ConfigDoc>, existing: set<string>, catalogs: string -> Read<Catalog>)
      returns (failure: Option<Failure>)
      modifies this, config
      ensures PubLoad(src, existing, catalogs).Done? ==>
        && failure == None
        && config.Current() == PubLoad(src, existing, catalogs).value.0
        && Current() == PubLoad(src, existing, catalogs).value.1
      ensures PubLoad(src, existing, catalogs).Fail? ==>
        failure == Some(PubLoad(src, existing, catalogs).failure)
    {
      var error := config.Validate(src, existing);
      if error.Some? {
        return Some(Raised(error.value));
      }
      ghost var s: ValidatedSettings := config.Current();
      assert ConfigCheck(src, existing) == Done(s);
      pubKeys, pubs := [], map[];
      var files := config.pubDbFilenames;
      ghost var checks := Checks(s);
      for n := 0 to |files|
        invariant config.Current() == s
        invariant LoadFiles(checks, Empty, files, catalogs) == LoadFiles(checks, Current(), files[n..], catalogs)
      {
        var filename := files[n];
        var read := catalogs(filename);
        if read.NotFound? {
          return Some(PubFailure(PubDbFileNotFound, Name(filename), None));
        }
        if read.Undecodable? {
          return Some(PubFailure(PubDbUnreadable, Name(filename), None));
        }
        var entries := read.content;
        ghost var start := Current();
        assert files[n..][1..] == files[n + 1..];
        for m := 0 to |entries|
          invariant config.Current() == s
          invariant LoadRecords(checks(filename), start, entries)
                 == LoadRecords(checks(filename), Current(), entries[m..])
        {
          var (key, entry) := entries[m];
          assert entries[m..][1..] == entries[m + 1..];
          if key in pubKeys {
            return Some(PubFailure(DuplicateKey, Name(key), Some(filename)));
          }
          if entry.NotTable? {
            return Some(Crashed(AttributeError(key)));
          }
          var rec := entry.fields;
          if Elements(config.pubFields) != rec.Keys {
            return Some(PubFailure(BadFieldKeys, Name(key), Some(filename)));
          }
          if ColorField !in rec {
            return Some(Crashed(KeyError(ColorField)));
          }
          if rec[ColorField] !in config.validColors {
            return Some(PubFailure(BadColor, Keyed(key, rec[ColorField]), Some(filename)));
          }
          if !DimensionOk(rec, BlockHeightField, config.blockLimits) {
            return Some(DimensionFailure(rec, BlockHeightField, BlockHeightOutside, key, filename));
          }
          if !DimensionOk(rec, BlockWidthField, config.blockLimits) {
            return Some(DimensionFailure(rec, BlockWidthField, BlockWidthOutside, key, filename));
          }
          if !DimensionOk(rec, CoverHeightField, config.coverLimits) {
            return Some(DimensionFailure(rec, CoverHeightField, CoverHeightOutside, key, filename));
          }
          if !DimensionOk(rec, CoverWidthField, config.coverLimits) {
            return Some(DimensionFailure(rec, CoverWidthField, CoverWidthOutside, key, filename));
          }
          assert checks(filename)(pubKeys, key, entry) == CheckRecord(s, pubKeys, filename, key, entry);
          pubKeys := pubKeys + [key];
          var built := MakePub(rec);
          if built.Fail? {
            return Some(built.failure);
          }
          pubs := pubs[key := built.value];
        }
      }
      return None;
    }
  }
}
