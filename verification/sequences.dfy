/** Deduplication of a sequence on a key, keeping first occurrences in order:
    pandas' `drop_duplicates(keep='first')` and `unique()`. Missing keys
    (NaN) compare equal to each other there, which `Option`'s equality gives. */
module Sequences {

  /** `f` applied to every element, in order. */
  function Map<T, U>(s: seq<T>, f: T -> U): (r: seq<U>)
    ensures |r| == |s|
    ensures forall i :: 0 <= i < |s| ==> r[i] == f(s[i])
  {
    if s == [] then [] else [f(s[0])] + Map(s[1..], f)
  }

  /** The keys that occur in `s`. */
  function Keys<T(==), K(==)>(s: seq<T>, key: T -> K): set<K> {
    set x | x in s :: key(x)
  }

  /** No key occurs twice in `s`. */
  predicate DistinctKeys<T(==), K(==)>(s: seq<T>, key: T -> K) {
    forall i, j :: 0 <= i < j < |s| ==> key(s[i]) != key(s[j])
  }

  /** No element occurs twice in `s`. */
  predicate NoRepeats<T(==)>(s: seq<T>) {
    forall i, j :: 0 <= i < j < |s| ==> s[i] != s[j]
  }

  /** The tail of a sequence without repeats has none, and lacks the head. */
  lemma NoRepeatsTail<T>(s: seq<T>)
    requires |s| > 0 && NoRepeats(s)
    ensures NoRepeats(s[1..]) && s[0] !in s[1..]
  {
    var t := s[1..];
    forall i, j | 0 <= i < j < |t| ensures t[i] != t[j] {
      assert t[i] == s[i + 1] && t[j] == s[j + 1];
    }
    forall k | 0 <= k < |t| ensures t[k] != s[0] {
      assert t[k] == s[k + 1];
    }
  }

  /** The position of the first element of `s` with key `k`. */
  function FirstIndex<T(==), K(==)>(s: seq<T>, key: T -> K, k: K): (n: nat)
    requires k in Keys(s, key)
    ensures n < |s| && key(s[n]) == k
    ensures forall j :: 0 <= j < n ==> key(s[j]) != k
  {
    if key(s[0]) == k then 0
    else
      assert k in Keys(s[1..], key) by {
        var x :| x in s && key(x) == k;
        var i :| 0 <= i < |s| && s[i] == x;
        assert s[1..][i - 1] == x;
      }
      1 + FirstIndex(s[1..], key, k)
  }

  /** Any position holding the first element with key `k` is `FirstIndex`. */
  lemma FirstIndexUnique<T, K>(s: seq<T>, key: T -> K, k: K, n: nat)
    requires n < |s| && key(s[n]) == k
    requires forall j :: 0 <= j < n ==> key(s[j]) != k
    ensures k in Keys(s, key) && FirstIndex(s, key, k) == n
  {
    assert s[n] in s;
  }

  /** The first occurrence of a key of a prefix is where it is in the prefix. */
  lemma FirstIndexPrefix<T, K>(s: seq<T>, key: T -> K, k: K, m: nat)
    requires m <= |s| && k in Keys(s[..m], key)
    ensures k in Keys(s, key) && FirstIndex(s, key, k) == FirstIndex(s[..m], key, k)
  {
    var n := FirstIndex(s[..m], key, k);
    FirstIndexUnique(s, key, k, n);
  }

  /** Sequences with the same keys position by position have the same keys
      and the same first positions. */
  lemma SameKeys<T, K>(a: seq<T>, b: seq<T>, key: T -> K)
    requires |a| == |b|
    requires forall i :: 0 <= i < |a| ==> key(a[i]) == key(b[i])
    ensures Keys(a, key) == Keys(b, key)
    ensures forall k :: k in Keys(a, key) ==> FirstIndex(a, key, k) == FirstIndex(b, key, k)
  {
    forall k | k in Keys(a, key) ensures k in Keys(b, key) && FirstIndex(a, key, k) == FirstIndex(b, key, k) {
      FirstIndexUnique(b, key, k, FirstIndex(a, key, k));
    }
    forall k | k in Keys(b, key) ensures k in Keys(a, key) {
      FirstIndexUnique(a, key, k, FirstIndex(b, key, k));
    }
  }

  /** A deduplication of `t` is one of any `s` with the same keys in the same
      places, and so is every sequence with the same keys as it. */
  lemma DedupTransfer<T, K>(s: seq<T>, t: seq<T>, d: seq<T>, r: seq<T>, key: T -> K)
    requires |t| == |s| && forall i :: 0 <= i < |s| ==> key(t[i]) == key(s[i])
    requires IsDedup(t, key, d)
    requires |r| == |d| && forall i :: 0 <= i < |d| ==> key(r[i]) == key(d[i])
    ensures DistinctKeys(r, key)
    ensures Keys(r, key) == Keys(s, key)
    ensures forall i :: 0 <= i < |r| ==> key(r[i]) in Keys(s, key)
    ensures forall i, j :: 0 <= i < j < |r| ==> FirstIndex(s, key, key(r[i])) < FirstIndex(s, key, key(r[j]))
  {
    SameKeys(t, s, key);
    SameKeys(r, d, key);
  }

  /** `s` with every element whose key occurred earlier removed. */
  function DedupBy<T(==), K(==)>(s: seq<T>, key: T -> K): (r: seq<T>)
    ensures |r| <= |s|
    ensures IsDedup(s, key, r)
    decreases |s|
  {
    if s == [] then []
    else
      var n := |s| - 1;
      var p := DedupBy(s[..n], key);
      DedupStep(s, key, p);
      if key(s[n]) in Keys(p, key) then p else p + [s[n]]
  }

  /** What `DedupBy` promises of `r` for the input `s`. */
  predicate IsDedup<T(==), K(==)>(s: seq<T>, key: T -> K, r: seq<T>) {
    && DistinctKeys(r, key)
    && Keys(r, key) == Keys(s, key)
    && (forall i :: 0 <= i < |r| ==> key(r[i]) in Keys(s, key) && r[i] == s[FirstIndex(s, key, key(r[i]))])
    && (forall i, j :: 0 <= i < j < |r| ==> FirstIndex(s, key, key(r[i])) < FirstIndex(s, key, key(r[j])))
  }

  /** The inductive step of `DedupBy`: adding the last element of `s` to the
      deduplicated prefix. */
  lemma DedupStep<T, K>(s: seq<T>, key: T -> K, p: seq<T>)
    requires |s| > 0
    requires IsDedup(s[..|s| - 1], key, p)
    ensures IsDedup(s, key, if key(s[|s| - 1]) in Keys(p, key) then p else p + [s[|s| - 1]])
  {
    var n := |s| - 1;
    if key(s[n]) in Keys(p, key) {
      DedupStepKnown(s, key, p);
    } else {
      DedupStepNew(s, key, p);
    }
  }

  /** The last element's key is already known: the prefix's deduplication stands. */
  lemma DedupStepKnown<T, K>(s: seq<T>, key: T -> K, p: seq<T>)
    requires |s| > 0
    requires IsDedup(s[..|s| - 1], key, p)
    requires key(s[|s| - 1]) in Keys(p, key)
    ensures IsDedup(s, key, p)
  {
    KeysLast(s, key);
    KnownPlaces(s, key, p);
  }

  /** The keys of `s` are those of all but its last element, and the last one's. */
  lemma KeysLast<T, K>(s: seq<T>, key: T -> K)
    requires |s| > 0
    ensures Keys(s, key) == Keys(s[..|s| - 1], key) + {key(s[|s| - 1])}
  {
    var n := |s| - 1;
    assert s == s[..n] + [s[n]];
    KeysAppend(s[..n], [s[n]], key);
  }

  lemma KnownPlaces<T, K>(s: seq<T>, key: T -> K, p: seq<T>)
    requires |s| > 0
    requires IsDedup(s[..|s| - 1], key, p)
    ensures forall i :: 0 <= i < |p| ==> key(p[i]) in Keys(s, key) && p[i] == s[FirstIndex(s, key, key(p[i]))]
    ensures forall i, j :: 0 <= i < j < |p| ==> FirstIndex(s, key, key(p[i])) < FirstIndex(s, key, key(p[j]))
  {
    var n := |s| - 1;
    forall i | 0 <= i < |p| ensures key(p[i]) in Keys(s, key) && p[i] == s[FirstIndex(s, key, key(p[i]))] {
      FirstIndexPrefix(s, key, key(p[i]), n);
      var f := FirstIndex(s[..n], key, key(p[i]));
      assert s[..n][f] == s[f];
    }
    forall i, j | 0 <= i < j < |p| ensures FirstIndex(s, key, key(p[i])) < FirstIndex(s, key, key(p[j])) {
      FirstIndexPrefix(s, key, key(p[i]), n);
      FirstIndexPrefix(s, key, key(p[j]), n);
    }
  }

  /** The last element's key is new: it is appended. */
  lemma DedupStepNew<T, K>(s: seq<T>, key: T -> K, p: seq<T>)
    requires |s| > 0
    requires IsDedup(s[..|s| - 1], key, p)
    requires key(s[|s| - 1]) !in Keys(p, key)
    ensures IsDedup(s, key, p + [s[|s| - 1]])
  {
    var n := |s| - 1;
    var x := s[n];
    var r := p + [x];
    NewKeyFirst(s, key);
    AppendedKeys(s, key, p);
    DedupNewPlaces(s, key, p);
    DedupNewOrder(s, key, p);
    assert DistinctKeys(r, key) && Keys(r, key) == Keys(s, key);
  }

  lemma AppendedKeys<T, K>(s: seq<T>, key: T -> K, p: seq<T>)
    requires |s| > 0 && Keys(p, key) == Keys(s[..|s| - 1], key)
    ensures Keys(p + [s[|s| - 1]], key) == Keys(s, key)
  {
    KeysLast(s, key);
    KeysAppend(p, [s[|s| - 1]], key);
    assert Keys([s[|s| - 1]], key) == {key(s[|s| - 1])};
  }

  lemma DedupNewPlaces<T, K>(s: seq<T>, key: T -> K, p: seq<T>)
    requires |s| > 0
    requires IsDedup(s[..|s| - 1], key, p)
    requires key(s[|s| - 1]) in Keys(s, key) && FirstIndex(s, key, key(s[|s| - 1])) == |s| - 1
    ensures var r := p + [s[|s| - 1]];
            forall i :: 0 <= i < |r| ==> key(r[i]) in Keys(s, key) && r[i] == s[FirstIndex(s, key, key(r[i]))]
  {
    var n := |s| - 1;
    var r := p + [s[n]];
    forall i | 0 <= i < |r| ensures key(r[i]) in Keys(s, key) && r[i] == s[FirstIndex(s, key, key(r[i]))] {
      if i < |p| {
        assert r[i] == p[i];
        FirstIndexPrefix(s, key, key(p[i]), n);
        var f := FirstIndex(s[..n], key, key(p[i]));
        assert s[..n][f] == s[f];
      }
    }
  }

  lemma DedupNewOrder<T, K>(s: seq<T>, key: T -> K, p: seq<T>)
    requires |s| > 0
    requires IsDedup(s[..|s| - 1], key, p)
    requires key(s[|s| - 1]) !in Keys(p, key)
    requires key(s[|s| - 1]) in Keys(s, key) && FirstIndex(s, key, key(s[|s| - 1])) == |s| - 1
    ensures var r := p + [s[|s| - 1]];
            && DistinctKeys(r, key)
            && forall i, j :: 0 <= i < j < |r| ==> FirstIndex(s, key, key(r[i])) < FirstIndex(s, key, key(r[j]))
  {
    var n := |s| - 1;
    var r := p + [s[n]];
    forall i, j | 0 <= i < j < |r|
      ensures FirstIndex(s, key, key(r[i])) < FirstIndex(s, key, key(r[j])) && key(r[i]) != key(r[j])
    {
      assert r[i] == p[i];
      FirstIndexPrefix(s, key, key(p[i]), n);
      if j < |p| {
        assert r[j] == p[j];
        FirstIndexPrefix(s, key, key(p[j]), n);
      } else {
        assert p[i] in p;
      }
    }
  }

  /** A key not seen before the last element first occurs there. */
  lemma NewKeyFirst<T, K>(s: seq<T>, key: T -> K)
    requires |s| > 0 && key(s[|s| - 1]) !in Keys(s[..|s| - 1], key)
    ensures key(s[|s| - 1]) in Keys(s, key) && FirstIndex(s, key, key(s[|s| - 1])) == |s| - 1
  {
    var n := |s| - 1;
    forall j | 0 <= j < n ensures key(s[j]) != key(s[n]) {
      assert s[..n][j] == s[j];
      assert s[j] in s[..n];
    }
    FirstIndexUnique(s, key, key(s[n]), n);
  }

  lemma KeysAppend<T, K>(a: seq<T>, b: seq<T>, key: T -> K)
    ensures Keys(a + b, key) == Keys(a, key) + Keys(b, key)
  {
    forall x | x in a + b ensures x in a || x in b { }
  }

  /** A sequence whose keys are already distinct is its own deduplication. */
  lemma {:induction false} DedupDistinct<T, K>(s: seq<T>, key: T -> K)
    requires DistinctKeys(s, key)
    ensures DedupBy(s, key) == s
    decreases |s|
  {
    if s != [] {
      var n := |s| - 1;
      DistinctInit(s, key);
      DedupDistinct(s[..n], key);
      DedupUnfold(s, key);
      assert s[..n] + [s[n]] == s;
    }
  }

  /** All but the last element of a sequence with distinct keys have distinct
      keys, and the last key is not among theirs. */
  lemma DistinctInit<T, K>(s: seq<T>, key: T -> K)
    requires |s| > 0 && DistinctKeys(s, key)
    ensures DistinctKeys(s[..|s| - 1], key)
    ensures key(s[|s| - 1]) !in Keys(s[..|s| - 1], key)
  {
    var n := |s| - 1;
    var q := s[..n];
    forall i, j | 0 <= i < j < |q| ensures key(q[i]) != key(q[j]) {
      assert q[i] == s[i] && q[j] == s[j];
    }
    forall y | y in q ensures key(y) != key(s[n]) {
      var i :| 0 <= i < n && q[i] == y;
      assert q[i] == s[i];
    }
  }

  /** One step of `DedupBy`. */
  lemma DedupUnfold<T, K>(s: seq<T>, key: T -> K)
    requires |s| > 0
    ensures var p := DedupBy(s[..|s| - 1], key);
            DedupBy(s, key) == if key(s[|s| - 1]) in Keys(p, key) then p else p + [s[|s| - 1]]
  {
  }

  /** Deduplicating twice is deduplicating once. */
  lemma DedupIdempotent<T, K>(s: seq<T>, key: T -> K)
    ensures DedupBy(DedupBy(s, key), key) == DedupBy(s, key)
  {
    DedupDistinct(DedupBy(s, key), key);
  }

  function Id<T>(x: T): T {
    x
  }

  /** `a` occurs in `s`, and before any occurrence of `b`. */
  predicate SeenBefore<T(==)>(s: seq<T>, a: T, b: T) {
    exists i :: 0 <= i < |s| && s[i] == a && forall j :: 0 <= j <= i ==> s[j] != b
  }

  /** The elements of `s` without repetition, in order of first appearance:
      pandas' `unique()` and the whole-row `drop_duplicates()`. */
  function Distinct<T(==)>(s: seq<T>): (r: seq<T>)
    ensures |r| <= |s|
    ensures forall i, j :: 0 <= i < j < |r| ==> r[i] != r[j]
    ensures forall i :: 0 <= i < |r| ==> r[i] in s
    ensures forall i :: 0 <= i < |s| ==> s[i] in r
  {
    var r := DedupBy(s, Id);
    assert forall i :: 0 <= i < |r| ==> r[i] in s by {
      forall i | 0 <= i < |r| ensures r[i] in s {
        assert r[i] == s[FirstIndex(s, Id, r[i])];
      }
    }
    assert forall i :: 0 <= i < |s| ==> s[i] in r by {
      forall i | 0 <= i < |s| ensures s[i] in r {
        assert Id(s[i]) in Keys(s, Id);
        assert Id(s[i]) in Keys(r, Id);
      }
    }
    r
  }

  /** `Distinct` keeps the order of first appearance. */
  lemma DistinctOrder<T>(s: seq<T>)
    ensures var r := Distinct(s);
            forall i, j :: 0 <= i < j < |r| ==> SeenBefore(s, r[i], r[j])
  {
    var r := Distinct(s);
    assert r == DedupBy(s, Id);
    forall i, j | 0 <= i < j < |r| ensures SeenBefore(s, r[i], r[j]) {
      var fi := FirstIndex(s, Id, Id(r[i]));
      var fj := FirstIndex(s, Id, Id(r[j]));
      assert fi < fj;
      assert s[fi] == r[i];
      assert forall k :: 0 <= k <= fi ==> s[k] != r[j] by {
        forall k | 0 <= k <= fi ensures s[k] != r[j] {
          assert Id(s[k]) != Id(r[j]);
        }
      }
    }
  }

  /** Where an element of `s` stands in `Distinct(s)`. */
  lemma DistinctPosition<T>(s: seq<T>, i: nat) returns (k: nat)
    requires i < |s|
    ensures k < |Distinct(s)| && Distinct(s)[k] == s[i]
  {
    var r := Distinct(s);
    assert s[i] in r;
    k :| 0 <= k < |r| && r[k] == s[i];
  }

  /** Where an element of `Distinct(s)` comes from in `s`. */
  lemma DistinctSource<T>(s: seq<T>, k: nat) returns (i: nat)
    requires k < |Distinct(s)|
    ensures i < |s| && s[i] == Distinct(s)[k]
  {
    var r := Distinct(s);
    assert r[k] in s;
    i :| 0 <= i < |s| && s[i] == r[k];
  }

  /** A sequence without repetition has as many elements as its length. */
  lemma {:induction false} NoRepeatsCard<T>(r: seq<T>)
    requires forall i, j :: 0 <= i < j < |r| ==> r[i] != r[j]
    ensures |set x | x in r| == |r|
    decreases |r|
  {
    if r != [] {
      var t := r[1..];
      assert forall i, j :: 0 <= i < j < |t| ==> t[i] != t[j] by {
        forall i, j | 0 <= i < j < |t| ensures t[i] != t[j] {
          assert t[i] == r[i + 1] && t[j] == r[j + 1];
        }
      }
      NoRepeatsCard(t);
      assert (set x | x in r) == (set x | x in t) + {r[0]} by {
        assert r == [r[0]] + t;
      }
      assert r[0] !in (set x | x in t) by {
        forall k | 0 <= k < |t| ensures t[k] != r[0] {
          assert t[k] == r[k + 1];
        }
      }
    }
  }

  /** A property of the first element and of a prefix of the tail holds on
      the corresponding prefix of the whole sequence. */
  lemma AllShift<T>(s: seq<T>, p: T -> bool, i: nat)
    requires i < |s| - 1 && p(s[0])
    requires forall j :: 0 <= j < i ==> p(s[1..][j])
    ensures forall j :: 0 <= j < i + 1 ==> p(s[j])
  {
    forall j | 0 < j < i + 1 ensures p(s[j]) {
      assert s[j] == s[1..][j - 1];
    }
  }
}
