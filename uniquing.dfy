/** Order-preserving, first-occurrence-wins deduplication under value
    equality: the behaviour the board relies on from the `uniqued()`
    sequence adaptor of the swift-algorithms package. That package's code
    is not part of this model; `Uniqued` below is specified on its own
    terms and proved equal to an independent reference definition,
    `FirstOccurrences`. */
module Uniquing {

  /** No value occurs twice. */
  predicate Distinct<T(==)>(s: seq<T>) {
    forall i, j :: 0 <= i < j < |s| ==> s[i] != s[j]
  }

  /** The set of values occurring in `s`. */
  function Elems<T(==)>(s: seq<T>): set<T> {
    set x | x in s
  }

  /** Scans `s` from the front, keeping a value only when it is not in
      `seen` and has not been kept already. */
  function UniquedFrom<T(==,!new)>(s: seq<T>, seen: set<T>): (r: seq<T>)
    ensures forall x :: x in r <==> x in s && x !in seen
    ensures Distinct(r)
    ensures |r| <= |s|
  {
    if s == [] then []
    else if s[0] in seen then UniquedFrom(s[1..], seen)
    else [s[0]] + UniquedFrom(s[1..], seen + {s[0]})
  }

  /** `s` with every value after its first occurrence dropped. */
  function Uniqued<T(==,!new)>(s: seq<T>): (r: seq<T>)
    ensures forall x :: x in r <==> x in s
    ensures Distinct(r)
  {
    UniquedFrom(s, {})
  }

  /** Reference definition: index `i` of `s` survives exactly when `s[i]`
      does not occur in `s[..i]`, and survivors keep their order. */
  function FirstOccurrences<T(==)>(s: seq<T>): seq<T> {
    if s == [] then []
    else
      var n := |s| - 1;
      FirstOccurrences(s[..n]) + (if s[n] in s[..n] then [] else [s[n]])
  }

  /** Extending the input by one value extends the output by that value
      exactly when it is new. */
  lemma {:induction false} UniquedFromSnoc<T(!new)>(a: seq<T>, x: T, seen: set<T>)
    ensures UniquedFrom(a + [x], seen)
         == UniquedFrom(a, seen) + (if x in seen || x in a then [] else [x])
  {
    if a == [] {
      assert a + [x] == [x];
    } else {
      assert (a + [x])[0] == a[0];
      assert (a + [x])[1..] == a[1..] + [x];
      if a[0] in seen {
        UniquedFromSnoc(a[1..], x, seen);
        assert x in a <==> x in a[1..] || x == a[0];
      } else {
        UniquedFromSnoc(a[1..], x, seen + {a[0]});
        assert x in a <==> x in a[1..] || x == a[0];
      }
    }
  }

  /** The scan agrees with the reference definition on every input. */
  lemma {:induction false} UniquedMatchesFirstOccurrences<T(!new)>(s: seq<T>)
    ensures Uniqued(s) == FirstOccurrences(s)
  {
    if s != [] {
      var n := |s| - 1;
      UniquedMatchesFirstOccurrences(s[..n]);
      assert s == s[..n] + [s[n]];
      UniquedFromSnoc(s[..n], s[n], {});
    }
  }

  /** Deduplicating a concatenation: the first part is deduplicated on its
      own, the second part with everything from the first already seen. */
  lemma {:induction false} UniquedFromAppend<T(!new)>(a: seq<T>, b: seq<T>, seen: set<T>)
    ensures UniquedFrom(a + b, seen) == UniquedFrom(a, seen) + UniquedFrom(b, seen + Elems(a))
  {
    if a == [] {
      assert a + b == b;
      assert seen + Elems(a) == seen;
    } else {
      assert (a + b)[0] == a[0];
      assert (a + b)[1..] == a[1..] + b;
      if a[0] in seen {
        UniquedFromAppend(a[1..], b, seen);
        assert seen + Elems(a) == seen + Elems(a[1..]);
      } else {
        UniquedFromAppend(a[1..], b, seen + {a[0]});
        assert seen + Elems(a) == seen + {a[0]} + Elems(a[1..]);
      }
    }
  }

  /** A duplicate-free input none of whose values has been seen comes back
      unchanged. */
  lemma {:induction false} UniquedFromOfDistinct<T(!new)>(s: seq<T>, seen: set<T>)
    requires Distinct(s)
    requires forall x :: x in s ==> x !in seen
    ensures UniquedFrom(s, seen) == s
  {
    if s != [] {
      assert s[0] !in s[1..];
      assert Distinct(s[1..]) by {
        forall i, j | 0 <= i < j < |s[1..]| ensures s[1..][i] != s[1..][j] {
          assert s[1..][i] == s[i + 1] && s[1..][j] == s[j + 1];
        }
      }
      UniquedFromOfDistinct(s[1..], seen + {s[0]});
    }
  }

  /** An input whose every value has been seen contributes nothing. */
  lemma {:induction false} UniquedFromOfSeen<T(!new)>(s: seq<T>, seen: set<T>)
    requires forall x :: x in s ==> x in seen
    ensures UniquedFrom(s, seen) == []
  {
    if s != [] {
      UniquedFromOfSeen(s[1..], seen);
    }
  }

  /** Deduplication leaves a duplicate-free sequence alone. */
  lemma UniquedOfDistinct<T(!new)>(s: seq<T>)
    requires Distinct(s)
    ensures Uniqued(s) == s
  {
    UniquedFromOfDistinct(s, {});
  }

  /** Appending to a duplicate-free sequence keeps it as a prefix, and
      what follows is the new values in input order, each once. */
  lemma UniquedExtends<T(!new)>(a: seq<T>, b: seq<T>)
    requires Distinct(a)
    ensures Uniqued(a + b) == a + UniquedFrom(b, Elems(a))
  {
    UniquedFromAppend(a, b, {});
    UniquedOfDistinct(a);
    assert {} + Elems(a) == Elems(a);
  }

  /** Appending only values already present changes nothing. */
  lemma UniquedAbsorbs<T(!new)>(a: seq<T>, b: seq<T>)
    requires Distinct(a)
    requires forall x :: x in b ==> x in a
    ensures Uniqued(a + b) == a
  {
    UniquedExtends(a, b);
    UniquedFromOfSeen(b, Elems(a));
  }

  /** Deduplication is idempotent. */
  lemma UniquedIdempotent<T(!new)>(s: seq<T>)
    ensures Uniqued(Uniqued(s)) == Uniqued(s)
  {
    UniquedOfDistinct(Uniqued(s));
  }
}
