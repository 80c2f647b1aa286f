/** Small value-level helpers shared by both controllers: an Option type,
    duplicate-freedom of sequences, first-occurrence deduplication, and
    PHP's `empty()` on the nullable columns the controllers test. */
module Collections {

  datatype Option<+T> = None | Some(value: T)

  /** No element occurs twice. */
  predicate NoDup<T(==)>(s: seq<T>) {
    forall i, j :: 0 <= i < j < |s| ==> s[i] != s[j]
  }

  /** The elements of `xs` in the order of their first occurrence, each once.
      This is Laravel's `unique()->values()` on a collection of ints, and also
      the key order of a PHP array filled by `$a[$k] = ...` (a key assigned a
      second time keeps the position of its first assignment). */
  function Dedup(xs: seq<int>): (r: seq<int>)
    ensures NoDup(r)
    ensures forall x :: x in r <==> x in xs
    ensures |r| <= |xs|
  {
    if xs == [] then []
    else
      var p := Dedup(xs[..|xs| - 1]);
      if xs[|xs| - 1] in p then p else p + [xs[|xs| - 1]]
  }

  /** Deduplication changes nothing in a sequence that has no duplicates. */
  lemma {:induction false} DedupOfDistinct(xs: seq<int>)
    requires NoDup(xs)
    ensures Dedup(xs) == xs
  {
    if xs != [] {
      var init := xs[..|xs| - 1];
      assert NoDup(init);
      DedupOfDistinct(init);
      assert xs[|xs| - 1] !in init;
      assert init + [xs[|xs| - 1]] == xs;
    }
  }

  /** Deduplicating twice is deduplicating once. */
  lemma DedupIdempotent(xs: seq<int>)
    ensures Dedup(Dedup(xs)) == Dedup(xs)
  {
    DedupOfDistinct(Dedup(xs));
  }

  /** The set of elements of a sequence. */
  function Elems(s: seq<int>): set<int> {
    set x | x in s
  }

  /** Joining two duplicate-free sequences with no common element. */
  lemma NoDupConcat(a: seq<int>, b: seq<int>)
    requires NoDup(a) && NoDup(b) && forall x :: x in a ==> x !in b
    ensures NoDup(a + b)
  {
    forall i, j | 0 <= i < j < |a + b| ensures (a + b)[i] != (a + b)[j] {
      if j >= |a| && i < |a| {
        assert (a + b)[i] in a && (a + b)[j] in b;
      }
    }
  }

  /** A duplicate-free sequence has as many elements as its set. */
  lemma {:induction false} NoDupCard(s: seq<int>)
    requires NoDup(s)
    ensures |Elems(s)| == |s|
  {
    if s != [] {
      var init := s[..|s| - 1];
      assert NoDup(init);
      NoDupCard(init);
      assert Elems(s) == Elems(init) + {s[|s| - 1]};
      assert s[|s| - 1] !in Elems(init);
    }
  }

  /** A duplicate-free sequence listing exactly the members of a set has the
      set's size. */
  lemma CountOfCover(s: seq<int>, keys: set<int>)
    requires NoDup(s) && forall v :: v in s <==> v in keys
    ensures |s| == |keys|
  {
    NoDupCard(s);
    assert Elems(s) == keys;
  }

  /** Two duplicate-free sequences with the same elements, one in
      non-decreasing and one in strictly increasing order of `key`, are equal:
      the order of a list is fixed by distinct sort keys. */
  lemma {:induction false} SortedByDistinctKeys(s: seq<int>, t: seq<int>, key: int -> int)
    requires NoDup(s) && NoDup(t) && forall x :: x in s <==> x in t
    requires forall i, j :: 0 <= i < j < |s| ==> key(s[i]) <= key(s[j])
    requires forall i, j :: 0 <= i < j < |t| ==> key(t[i]) < key(t[j])
    ensures s == t
    decreases |s|
  {
    NoDupCard(s);
    NoDupCard(t);
    assert Elems(s) == Elems(t);
    if s != [] {
      assert t[0] in t && s[0] in s;
      var i :| 0 <= i < |s| && s[i] == t[0];
      assert key(s[0]) <= key(t[0]);
      forall k | 0 < k < |t| ensures t[k] != s[0] {
        assert key(t[0]) < key(t[k]);
      }
      assert s[0] == t[0];
      forall x ensures x in s[1..] <==> x in t[1..] {
        if x in s[1..] {
          var k :| 1 <= k < |s| && s[k] == x;
          assert x != s[0];
          assert x in t;
        }
        if x in t[1..] {
          var k :| 1 <= k < |t| && t[k] == x;
          assert x != t[0];
          assert x in s;
        }
      }
      SortedByDistinctKeys(s[1..], t[1..], key);
      assert s == [s[0]] + s[1..] && t == [t[0]] + t[1..];
    }
  }

  /** PHP `empty()` of a nullable string column: null, "" and "0" are empty. */
  predicate EmptyStr(s: Option<string>) {
    s.None? || s.value == "" || s.value == "0"
  }

  /** PHP `empty()` of a nullable integer id: null and 0 are empty. */
  predicate EmptyId(p: Option<int>) {
    p.None? || p.value == 0
  }

  /** SQL `COALESCE(p, 0)`. */
  function CoalesceZero(p: Option<int>): int {
    if p.Some? then p.value else 0
  }
}
