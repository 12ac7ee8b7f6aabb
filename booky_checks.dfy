/** The small pure checkers of the stand-alone validator (booky.py). */
module BookyChecks {
  import opened Toml

  /** check_color: a colour is a string of exactly three characters. */
  predicate CheckColor(color: Value) {
    color.Str? && |color.s| == 3
  }

  /** check_limits: exactly two integers, the first strictly below the
      second. No positivity is asked for, and booleans pass as integers. */
  predicate CheckLimits(limits: seq<Value>) {
    && |limits| == 2
    && IsInt(limits[0])
    && IsInt(limits[1])
    && AsInt(limits[0]) < AsInt(limits[1])
  }

  /** is_within_limits: `limits` is `[a, b]` and the test is `a <= x <= b`. */
  predicate IsWithinLimits(x: int, limits: seq<int>)
    requires |limits| >= 2
    ensures IsWithinLimits(x, limits) ==> limits[0] <= limits[1]
  {
    limits[0] <= x <= limits[1]
  }

  /** Both ends of the limits are inside; one step past either end is not. */
  lemma WithinLimitsInclusive(a: int, b: int)
    requires a <= b
    ensures IsWithinLimits(a, [a, b]) && IsWithinLimits(b, [a, b])
    ensures !IsWithinLimits(a - 1, [a, b]) && !IsWithinLimits(b + 1, [a, b])
  {
  }

  /** `r` keeps some of the elements of `s`, in the order they have in `s`. */
  predicate IsSubsequence(r: seq<string>, s: seq<string>)
    decreases |s|
  {
    if r == [] then true
    else if s == [] then false
    else (r[0] == s[0] && IsSubsequence(r[1..], s[1..])) || IsSubsequence(r, s[1..])
  }

  /** missing_keys: the keys of `a` that do not occur in `b`, in the order of
      `a` and as often as they occur there. */
  function MissingKeys(a: seq<string>, b: seq<string>): (r: seq<string>)
    ensures forall x :: x in r <==> x in a && x !in b
  {
    if a == [] then []
    else if a[0] in b then MissingKeys(a[1..], b)
    else [a[0]] + MissingKeys(a[1..], b)
  }

  /** extra_keys: the keys of `b` that do not occur in `a`, in the order of
      `b`; the same comprehension as missing_keys with the roles swapped. */
  function ExtraKeys(a: seq<string>, b: seq<string>): (r: seq<string>)
    ensures forall x :: x in r <==> x in b && x !in a
  {
    MissingKeys(b, a)
  }

  /** A missing key is listed as often as `a` holds it. */
  lemma {:induction false} MissingKeysCounts(a: seq<string>, b: seq<string>, x: string)
    requires x !in b
    ensures multiset(MissingKeys(a, b))[x] == multiset(a)[x]
  {
    if a != [] {
      MissingKeysCounts(a[1..], b, x);
      assert a == [a[0]] + a[1..];
    }
  }

  /** The missing keys keep the order they have in `a`. */
  lemma {:induction false} MissingKeysInOrder(a: seq<string>, b: seq<string>)
    ensures IsSubsequence(MissingKeys(a, b), a)
  {
    if a != [] {
      MissingKeysInOrder(a[1..], b);
      var rest := MissingKeys(a[1..], b);
      if a[0] !in b {
        assert MissingKeys(a, b) == [a[0]] + rest;
        assert ([a[0]] + rest)[1..] == rest;
      } else if rest != [] {
        SubsequenceOfTail(rest, a);
      }
    }
  }

  /** Keeping elements of the tail of `s` keeps elements of `s`. */
  lemma SubsequenceOfTail(r: seq<string>, s: seq<string>)
    requires s != [] && r != [] && IsSubsequence(r, s[1..])
    ensures IsSubsequence(r, s)
  {
  }

  /** Neither list of offending keys is empty unless both key lists hold the
      same keys: the key-set check the configuration validator relies on. */
  lemma SameKeysIff(a: seq<string>, b: seq<string>)
    ensures MissingKeys(a, b) == [] && ExtraKeys(a, b) == [] <==> (forall x :: x in a <==> x in b)
  {
    if MissingKeys(a, b) != [] {
      assert MissingKeys(a, b)[0] in MissingKeys(a, b);
    }
    if ExtraKeys(a, b) != [] {
      assert ExtraKeys(a, b)[0] in ExtraKeys(a, b);
    }
  }
}
