/** The publication directory of booky/publication.py: the rows of a
    directory in key order, and the case-insensitive searches by key and by
    title. The Pub model and its field validators are those of
    booky/validation.py, which this file repeats. */
module Publication {
  import opened Basics
  import Validation

  // ---------------------------------------------------------------------
  // Python's ordering of strings: lexicographic on code points

  /** `a < b` on Python strings. */
  predicate Below(a: string, b: string)
    decreases |a|
  {
    if a == [] then b != []
    else b != [] && (a[0] < b[0] || (a[0] == b[0] && Below(a[1..], b[1..])))
  }

  lemma {:induction false} BelowIrreflexive(a: string)
    ensures !Below(a, a)
    decreases |a|
  {
    if a != [] {
      BelowIrreflexive(a[1..]);
    }
  }

  lemma {:induction false} BelowTransitive(a: string, b: string, c: string)
    requires Below(a, b) && Below(b, c)
    ensures Below(a, c)
    decreases |a|
  {
    if a != [] && a[0] == b[0] && b[0] == c[0] {
      BelowTransitive(a[1..], b[1..], c[1..]);
    }
  }

  /** Any two different strings are ordered one way or the other. */
  lemma {:induction false} BelowTotal(a: string, b: string)
    requires a != b
    ensures Below(a, b) || Below(b, a)
    decreases |a|
  {
    if a != [] && b != [] && a[0] == b[0] {
      assert a == [a[0]] + a[1..] && b == [b[0]] + b[1..];
      BelowTotal(a[1..], b[1..]);
    }
  }

  /** Each element comes before every later one. */
  predicate StrictlyAscending(s: seq<string>) {
    forall i, j :: 0 <= i < j < |s| ==> Below(s[i], s[j])
  }

  // ---------------------------------------------------------------------
  // sorted(d.keys())

  /** The least element of a non-empty set of strings. */
  method Least(keys: set<string>) returns (m: string)
    requires keys != {}
    ensures m in keys
    ensures forall k :: k in keys && k != m ==> Below(m, k)
  {
    m :| m in keys;
    var others := keys - {m};
    while others != {}
      invariant others <= keys && m in keys && m !in others
      invariant forall k :: k in keys && k !in others && k != m ==> Below(m, k)
      decreases |others|
    {
      var k :| k in others;
      if Below(k, m) {
        forall j | j in keys && j !in others && j != k
          ensures Below(k, j)
        {
          if j != m {
            BelowTransitive(k, m, j);
          }
        }
        m := k;
      } else {
        BelowTotal(k, m);
      }
      others := others - {k};
    }
  }

  /** The keys in ascending order, each exactly once. */
  method SortKeys(keys: set<string>) returns (sorted: seq<string>)
    ensures Elements(sorted) == keys
    ensures StrictlyAscending(sorted)
    ensures Distinct(sorted) && |sorted| == |keys|
  {
    var rest := keys;
    sorted := [];
    while rest != {}
      invariant rest <= keys
      invariant forall k :: k in sorted <==> k in keys && k !in rest
      invariant StrictlyAscending(sorted)
      invariant forall i, k :: 0 <= i < |sorted| && k in rest ==> Below(sorted[i], k)
      decreases |rest|
    {
      var m := Least(rest);
      sorted := sorted + [m];
      rest := rest - {m};
    }
    assert Elements(sorted) == keys;
    forall i, j | 0 <= i < j < |sorted| ensures sorted[i] != sorted[j] {
      BelowIrreflexive(sorted[i]);
    }
    DistinctIffSameSize(sorted);
  }

  // ---------------------------------------------------------------------
  // sorted_rows

  /** One table row: the key, then the Pub's fields. The dimensions are
      kept as numbers. */
  datatype Row = Row(key: string, title: string, blockHeight: int, blockWidth: int,
                     coverHeight: int, coverWidth: int, color: string)

  function RowOf(key: string, p: Validation.Pub): Row {
    Row(key, p.title, p.blockHeight, p.blockWidth, p.coverHeight, p.coverWidth, p.color)
  }

  function RowKeys(rows: seq<Row>): seq<string> {
    seq(|rows|, i requires 0 <= i < |rows| => rows[i].key)
  }

  /** sorted_rows: one row per entry of the directory, in ascending key
      order, each copying its entry. */
  method SortedRows(db: map<string, Validation.Pub>) returns (rows: seq<Row>)
    ensures |rows| == |db|
    ensures Elements(RowKeys(rows)) == db.Keys
    ensures StrictlyAscending(RowKeys(rows))
    ensures forall i :: 0 <= i < |rows| ==> rows[i].key in db && rows[i] == RowOf(rows[i].key, db[rows[i].key])
  {
    var keys := SortKeys(db.Keys);
    rows := [];
    for i := 0 to |keys|
      invariant |rows| == i
      invariant RowKeys(rows) == keys[..i]
      invariant forall n :: 0 <= n < i ==> rows[n] == RowOf(keys[n], db[keys[n]])
    {
      assert keys[i] in Elements(keys);
      rows := rows + [RowOf(keys[i], db[keys[i]])];
      assert RowKeys(rows) == keys[..i + 1];
    }
    assert keys[..|keys|] == keys;
  }

  // ---------------------------------------------------------------------
  // Case folding and glob patterns

  /** str.upper on ASCII letters; every other character is kept. */
  function UpperChar(c: char): char {
    if 'a' <= c <= 'z' then (c as int - 32) as char else c
  }

  /** str.upper: the same length, no ASCII lower-case letter left, each
      lower-case letter replaced by its capital, and every other character
      kept. */
  function Upper(s: string): (r: string)
    ensures |r| == |s|
    ensures forall i :: 0 <= i < |r| ==> !('a' <= r[i] <= 'z')
    ensures forall i :: 0 <= i < |s| && 'a' <= s[i] <= 'z' ==> 'A' <= r[i] <= 'Z' && r[i] as int - 'A' as int == s[i] as int - 'a' as int
    ensures forall i :: 0 <= i < |s| && !('a' <= s[i] <= 'z') ==> r[i] == s[i]
  {
    seq(|s|, i requires 0 <= i < |s| => UpperChar(s[i]))
  }

  /** Upper-casing twice is upper-casing once. */
  lemma UpperIdempotent(s: string)
    ensures Upper(Upper(s)) == Upper(s)
  {
  }

  /** fnmatchcase with `*` (any run of characters) and `?` (any one
      character); every other pattern character matches itself. */
  predicate Match(name: string, pattern: string)
    ensures Match(name, pattern) && '*' !in pattern ==> |name| == |pattern|
    decreases |name| + |pattern|
  {
    if pattern == [] then name == []
    else if pattern[0] == '*' then Match(name, pattern[1..]) || (name != [] && Match(name[1..], pattern))
    else name != [] && (pattern[0] == '?' || pattern[0] == name[0]) && Match(name[1..], pattern[1..])
  }

  /** `*` matches every name. */
  lemma {:induction false} StarMatchesAll(name: string)
    ensures Match(name, "*")
    decreases |name|
  {
    if name != [] {
      StarMatchesAll(name[1..]);
    } else {
      assert "*"[1..] == [];
    }
  }

  /** A pattern without `*` or `?` matches exactly the name it spells. */
  lemma {:induction false} LiteralMatch(name: string, pattern: string)
    requires forall i :: 0 <= i < |pattern| ==> pattern[i] != '*' && pattern[i] != '?'
    ensures Match(name, pattern) <==> name == pattern
    decreases |pattern|
  {
    if pattern != [] && name != [] {
      LiteralMatch(name[1..], pattern[1..]);
      if name[0] == pattern[0] && name[1..] == pattern[1..] {
        assert name == [name[0]] + name[1..] && pattern == [pattern[0]] + pattern[1..];
      }
    }
  }

  // ---------------------------------------------------------------------
  // search_keys and search_titles

  /** The entries whose upper-cased key matches the upper-cased pattern. */
  function KeyHits(db: map<string, Validation.Pub>, pattern: string): map<string, Validation.Pub> {
    map k | k in db && Match(Upper(k), Upper(pattern)) :: db[k]
  }

  /** The entries whose upper-cased title matches the upper-cased
      pattern. */
  function TitleHits(db: map<string, Validation.Pub>, pattern: string): map<string, Validation.Pub> {
    map k | k in db && Match(Upper(db[k].title), Upper(pattern)) :: db[k]
  }

  /** PubDB.search_keys: walk the keys in order and keep each entry whose
      key matches, ignoring case; entries are kept unchanged. */
  method SearchKeys(db: map<string, Validation.Pub>, pattern: string) returns (result: map<string, Validation.Pub>)
    ensures forall k :: k in result <==> k in db && Match(Upper(k), Upper(pattern))
    ensures forall k :: k in result ==> result[k] == db[k]
    ensures result == KeyHits(db, pattern)
  {
    var keys := SortKeys(db.Keys);
    result := map[];
    ghost var seen: set<string> := {};
    for i := 0 to |keys|
      invariant seen <= db.Keys
      invariant forall n :: 0 <= n < i ==> keys[n] in seen
      invariant forall k :: k in result <==> k in seen && Match(Upper(k), Upper(pattern))
      invariant forall k :: k in result ==> result[k] == db[k]
    {
      assert keys[i] in Elements(keys);
      if Match(Upper(keys[i]), Upper(pattern)) {
        result := result[keys[i] := db[keys[i]]];
      }
      seen := seen + {keys[i]};
    }
    assert seen == db.Keys by {
      forall k | k in db.Keys ensures k in seen {
        var n :| 0 <= n < |keys| && keys[n] == k;
      }
    }
  }

  /** PubDB.search_titles: the same walk, matching each entry's title. */
  method SearchTitles(db: map<string, Validation.Pub>, pattern: string) returns (result: map<string, Validation.Pub>)
    ensures forall k :: k in result <==> k in db && Match(Upper(db[k].title), Upper(pattern))
    ensures forall k :: k in result ==> result[k] == db[k]
    ensures result == TitleHits(db, pattern)
  {
    var keys := SortKeys(db.Keys);
    result := map[];
    ghost var seen: set<string> := {};
    for i := 0 to |keys|
      invariant seen <= db.Keys
      invariant forall n :: 0 <= n < i ==> keys[n] in seen
      invariant forall k :: k in result <==> k in seen && Match(Upper(db[k].title), Upper(pattern))
      invariant forall k :: k in result ==> result[k] == db[k]
    {
      assert keys[i] in Elements(keys);
      if Match(Upper(db[keys[i]].title), Upper(pattern)) {
        result := result[keys[i] := db[keys[i]]];
      }
      seen := seen + {keys[i]};
    }
    assert seen == db.Keys by {
      forall k | k in db.Keys ensures k in seen {
        var n :| 0 <= n < |keys| && keys[n] == k;
      }
    }
  }

  /** Searching is case-insensitive: a pattern and its upper-cased form
      find the same entries, by key and by title. */
  lemma SearchCaseInsensitive(db: map<string, Validation.Pub>, pattern: string)
    ensures KeyHits(db, pattern) == KeyHits(db, Upper(pattern))
    ensures TitleHits(db, pattern) == TitleHits(db, Upper(pattern))
  {
    UpperIdempotent(pattern);
  }

  /** The pattern `*` finds every entry. */
  lemma SearchStarFindsAll(db: map<string, Validation.Pub>)
    ensures KeyHits(db, "*") == db
    ensures TitleHits(db, "*") == db
  {
    assert Upper("*") == "*";
    forall k | k in db ensures Match(Upper(k), "*") && Match(Upper(db[k].title), "*") {
      StarMatchesAll(Upper(k));
      StarMatchesAll(Upper(db[k].title));
    }
  }
}
