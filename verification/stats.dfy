/** The column statistics pandas computes for the scripts, all skipping
    missing values: `median()`, `mode()[0]`, `max()`, `sum()`, `mean()` and
    `count()`. */
module Stats {
  import opened Wrappers
  import opened Text
  import opened Records

  /** The present values of a column, in order. */
  function Present<T(==)>(s: seq<Option<T>>): (r: seq<T>)
    ensures |r| <= |s|
    ensures forall i :: 0 <= i < |r| ==> Some(r[i]) in s
    ensures forall i :: 0 <= i < |s| && s[i].Some? ==> s[i].value in r
    ensures r == [] <==> forall i :: 0 <= i < |s| ==> s[i].None?
  {
    if s == [] then []
    else
      var rest := Present(s[1..]);
      assert s == [s[0]] + s[1..];
      if s[0].Some? then [s[0].value] + rest else rest
  }

  lemma PresentStep<T>(s: seq<Option<T>>)
    requires s != []
    ensures Present(s) == (if s[0].Some? then [s[0].value] else []) + Present(s[1..])
  {
  }

  lemma {:induction false} PresentAppend<T>(a: seq<Option<T>>, b: seq<Option<T>>)
    ensures Present(a + b) == Present(a) + Present(b)
    decreases |a|
  {
    if a != [] {
      var h := if a[0].Some? then [a[0].value] else [];
      PresentStep(a + b);
      assert (a + b)[0] == a[0];
      assert (a + b)[1..] == a[1..] + b;
      PresentAppend(a[1..], b);
      PresentStep(a);
      ConcatAssoc(h, Present(a[1..]), Present(b));
    } else {
      assert a + b == b;
    }
  }

  // ---------------------------------------------------------------------------
  // Sorting and the median
  // ---------------------------------------------------------------------------

  predicate Sorted(s: seq<real>) {
    forall i, j :: 0 <= i < j < |s| ==> s[i] <= s[j]
  }

  function Insert(x: real, s: seq<real>): (r: seq<real>)
    requires Sorted(s)
    ensures Sorted(r)
    ensures multiset(r) == multiset(s) + multiset{x}
  {
    if s == [] || x <= s[0] then
      SortedCons(x, s);
      [x] + s
    else
      var t := Insert(x, s[1..]);
      LowerBound(s[0], t, s[1..] + [x]);
      SortedCons(s[0], t);
      assert s == [s[0]] + s[1..];
      [s[0]] + t
  }

  /** A value at most the head of a sorted sequence extends it sorted. */
  lemma SortedCons(h: real, t: seq<real>)
    requires Sorted(t)
    requires t == [] || h <= t[0]
    ensures Sorted([h] + t)
  {
    var r := [h] + t;
    forall i, j | 0 <= i < j < |r| ensures r[i] <= r[j] {
      if i == 0 {
        assert r[j] == t[j - 1];
        assert t[0] <= t[j - 1];
      } else {
        assert r[i] == t[i - 1] && r[j] == t[j - 1];
      }
    }
  }

  /** A bound below every element of `u` bounds every element of a
      rearrangement of `u`. */
  lemma LowerBound(lo: real, t: seq<real>, u: seq<real>)
    requires forall k :: 0 <= k < |u| ==> lo <= u[k]
    requires multiset(t) == multiset(u)
    ensures forall k :: 0 <= k < |t| ==> lo <= t[k]
  {
    forall k | 0 <= k < |t| ensures lo <= t[k] {
      assert t[k] in multiset(u);
      var j :| 0 <= j < |u| && u[j] == t[k];
    }
  }

  /** The values in ascending order. */
  function Sort(s: seq<real>): (r: seq<real>)
    ensures Sorted(r)
    ensures multiset(r) == multiset(s)
  {
    if s == [] then []
    else
      assert s == [s[0]] + s[1..];
      Insert(s[0], Sort(s[1..]))
  }

  /** Two sorted arrangements of the same values are the same sequence. */
  lemma {:induction false} SortedUnique(a: seq<real>, b: seq<real>)
    requires Sorted(a) && Sorted(b)
    requires multiset(a) == multiset(b)
    ensures a == b
    decreases |a|
  {
    if a != [] {
      assert |b| == |a| by {
        assert |multiset(a)| == |a| && |multiset(b)| == |b|;
      }
      SortedHeads(a, b);
      SortedHeads(b, a);
      SameTails(a, b);
      SortedUnique(a[1..], b[1..]);
    } else {
      assert |multiset(b)| == 0;
    }
  }

  /** The first element of a sorted sequence is at most any element of a
      rearrangement of it. */
  lemma SortedHeads(a: seq<real>, b: seq<real>)
    requires Sorted(b) && a != [] && b != []
    requires multiset(a) == multiset(b)
    ensures b[0] <= a[0]
  {
    assert a[0] in multiset(b);
    var j :| 0 <= j < |b| && b[j] == a[0];
    assert j == 0 || b[0] <= b[j];
  }

  /** Rearrangements with the same first element have rearranged tails. */
  lemma SameTails(a: seq<real>, b: seq<real>)
    requires a != [] && b != [] && a[0] == b[0]
    requires multiset(a) == multiset(b)
    ensures multiset(a[1..]) == multiset(b[1..])
  {
    assert a == [a[0]] + a[1..] && b == [b[0]] + b[1..];
    assert multiset(a) == multiset{a[0]} + multiset(a[1..]);
    assert multiset(b) == multiset{b[0]} + multiset(b[1..]);
    forall x ensures multiset(a[1..])[x] == multiset(b[1..])[x] {
      assert multiset(a)[x] == multiset{a[0]}[x] + multiset(a[1..])[x];
      assert multiset(b)[x] == multiset{b[0]}[x] + multiset(b[1..])[x];
    }
  }

  /** The middle value of a sorted sequence, or the mean of the two middle
      values when their number is even; missing for the empty sequence. */
  function Middle(xs: seq<real>): (r: Option<real>)
    requires Sorted(xs)
    ensures r.None? <==> xs == []
    ensures r.Some? ==> xs[0] <= r.value <= xs[|xs| - 1]
  {
    var n := |xs|;
    if n == 0 then None
    else if n % 2 == 1 then Some(xs[n / 2])
    else Some((xs[n / 2 - 1] + xs[n / 2]) / 2.0)
  }

  /** `median()`: the middle of the present values in ascending order. */
  function Median(s: seq<Option<real>>): (r: Option<real>)
    ensures r.None? <==> forall i :: 0 <= i < |s| ==> s[i].None?
  {
    var xs := Sort(Present(s));
    assert |multiset(xs)| == |Present(s)|;
    Middle(xs)
  }

  /** The median lies between two of the present values. */
  lemma MedianBetween(s: seq<Option<real>>)
    requires Median(s).Some?
    ensures exists x, y :: x in Present(s) && y in Present(s) && x <= Median(s).value <= y
  {
    var p := Present(s);
    var xs := Sort(p);
    assert Median(s) == Middle(xs);
    var x, y := xs[0], xs[|xs| - 1];
    assert x in multiset(xs) && y in multiset(xs);
    assert x in p && y in p;
  }

  /** The median depends only on which values are present, not on their
      order or on where the gaps are. */
  lemma MedianPermutation(a: seq<Option<real>>, b: seq<Option<real>>)
    requires multiset(Present(a)) == multiset(Present(b))
    ensures Median(a) == Median(b)
  {
    var xa, xb := Sort(Present(a)), Sort(Present(b));
    SortedUnique(xa, xb);
    assert Median(a) == Middle(xa) && Median(b) == Middle(xb);
  }

  /** The median of [10, 20, missing] is 15. */
  lemma MedianExample(s: seq<Option<real>>)
    requires s == [Some(10.0), Some(20.0), None]
    ensures Median(s) == Some(15.0)
  {
    assert s[1..] == [Some(20.0), None] && s[1..][1..] == [None] && s[1..][1..][1..] == [];
    assert Present(s) == [10.0, 20.0];
    assert [10.0, 20.0][1..] == [20.0];
    assert Sort([20.0]) == [20.0];
    assert Sort([10.0, 20.0]) == [10.0, 20.0];
  }

  // ---------------------------------------------------------------------------
  // The mode
  // ---------------------------------------------------------------------------

  function Count(s: seq<string>, v: string): nat {
    multiset(s)[v]
  }

  /** `a` ranks at least as high as `b` in pandas' `mode()`: more frequent,
      or as frequent and not after it in code-point order. */
  predicate Beats(s: seq<string>, a: string, b: string) {
    Count(s, a) > Count(s, b) || (Count(s, a) == Count(s, b) && LexLe(a, b))
  }

  lemma BeatsTotal(s: seq<string>, a: string, b: string)
    ensures Beats(s, a, b) || Beats(s, b, a)
  {
    LexLeTotal(a, b);
  }

  lemma BeatsTransitive(s: seq<string>, a: string, b: string, c: string)
    requires Beats(s, a, b) && Beats(s, b, c)
    ensures Beats(s, a, c)
  {
    if Count(s, a) == Count(s, b) == Count(s, c) {
      LexLeTransitive(a, b, c);
    }
  }

  /** `v` is the first entry of `mode()`: a most frequent value, the
      smallest among the most frequent. */
  predicate IsMode(s: seq<string>, v: string) {
    v in s && forall w :: w in s ==> Beats(s, v, w)
  }

  /** The best-ranked of the candidates. */
  function ModeAmong(s: seq<string>, cands: seq<string>): (r: string)
    requires |cands| > 0
    ensures r in cands
    ensures forall w :: w in cands ==> Beats(s, r, w)
  {
    if |cands| == 1 then
      assert LexLe(cands[0], cands[0]) by { LexLeTotal(cands[0], cands[0]); }
      cands[0]
    else
      var m := ModeAmong(s, cands[1..]);
      assert cands == [cands[0]] + cands[1..];
      if Beats(s, cands[0], m) then
        assert forall w :: w in cands[1..] ==> Beats(s, cands[0], w) by {
          forall w | w in cands[1..] ensures Beats(s, cands[0], w) {
            BeatsTransitive(s, cands[0], m, w);
          }
        }
        assert Beats(s, cands[0], cands[0]) by { LexLeTotal(cands[0], cands[0]); }
        cands[0]
      else
        BeatsTotal(s, cands[0], m);
        m
  }

  /** `mode()[0]` of a text column: missing when it has no present values. */
  function Mode(s: seq<Option<string>>): (r: Option<string>)
    ensures r.None? <==> forall i :: 0 <= i < |s| ==> s[i].None?
    ensures r.Some? ==> IsMode(Present(s), r.value)
  {
    var p := Present(s);
    if p == [] then None else Some(ModeAmong(p, p))
  }

  /** There is only one first mode. */
  lemma ModeUnique(s: seq<string>, a: string, b: string)
    requires IsMode(s, a) && IsMode(s, b)
    ensures a == b
  {
    assert Beats(s, a, b) && Beats(s, b, a);
    LexLeAntisymmetric(a, b);
  }

  /** Between two values seen once each, the mode is the one that sorts
      first, wherever it stands. */
  lemma ModeTieExample(s: seq<Option<string>>)
    requires s == [Some("Retail"), Some("Corporate")]
    ensures Mode(s) == Some("Corporate")
  {
    assert s[1..] == [Some("Corporate")] && s[1..][1..] == [];
    assert Present(s[1..][1..]) == [];
    assert Present(s[1..]) == ["Corporate"];
    var p := Present(s);
    assert p == ["Retail", "Corporate"];
    var m := Mode(s).value;
    assert IsMode(p, "Corporate") by {
      assert Count(p, "Retail") == 1 && Count(p, "Corporate") == 1;
      assert "Corporate"[0] == 'C' && "Retail"[0] == 'R';
      assert LexLe("Corporate", "Retail");
      assert LexLe("Corporate", "Corporate") by { LexLeTotal("Corporate", "Corporate"); }
    }
    ModeUnique(p, m, "Corporate");
  }

  // ---------------------------------------------------------------------------
  // The latest date
  // ---------------------------------------------------------------------------

  /** `max()` of a date column: the latest present date, missing when there
      is none. */
  function MaxDate(s: seq<Option<CalendarDate>>): (r: Option<CalendarDate>)
    ensures r.None? <==> forall i :: 0 <= i < |s| ==> s[i].None?
    ensures r.Some? ==> r in s
    ensures r.Some? ==> forall i :: 0 <= i < |s| && s[i].Some? ==> DateLe(s[i].value, r.value)
  {
    if s == [] then None
    else
      var m := MaxDate(s[1..]);
      assert s == [s[0]] + s[1..];
      if s[0].None? then m
      else if m.None? || DateLe(m.value, s[0].value) then s[0]
      else m
  }

  // ---------------------------------------------------------------------------
  // Sums and means
  // ---------------------------------------------------------------------------

  /** `sum()`: the sum of the present values; 0 when there are none. */
  function Sum(s: seq<Option<real>>): real {
    if s == [] then 0.0
    else Sum(s[..|s| - 1]) + s[|s| - 1].GetOr(0.0)
  }

  lemma {:induction false} SumAppend(a: seq<Option<real>>, b: seq<Option<real>>)
    ensures Sum(a + b) == Sum(a) + Sum(b)
    decreases |b|
  {
    if b == [] {
      assert a + b == a;
    } else {
      var n := |b| - 1;
      assert (a + b)[..|a + b| - 1] == a + b[..n];
      SumAppend(a, b[..n]);
    }
  }

  /** `count()`: the number of present values. */
  function CountPresent<T>(s: seq<Option<T>>): (n: nat)
    ensures n <= |s|
    ensures n == 0 <==> forall i :: 0 <= i < |s| ==> s[i].None?
  {
    if s == [] then 0
    else
      assert s == s[..|s| - 1] + [s[|s| - 1]];
      CountPresent(s[..|s| - 1]) + (if s[|s| - 1].Some? then 1 else 0)
  }

  /** With no value missing, `count()` is the length. */
  lemma {:induction false} CountAllPresent<T>(s: seq<Option<T>>)
    requires forall i :: 0 <= i < |s| ==> s[i].Some?
    ensures CountPresent(s) == |s|
    decreases |s|
  {
    if s != [] {
      var p := s[..|s| - 1];
      assert forall i :: 0 <= i < |p| ==> p[i] == s[i];
      CountAllPresent(p);
    }
  }

  /** `mean()`: the sum of the present values over their number; missing
      when there are none. */
  function Mean(s: seq<Option<real>>): (r: Option<real>)
    ensures r.None? <==> forall i :: 0 <= i < |s| ==> s[i].None?
    ensures r.Some? ==> r.value * CountPresent(s) as real == Sum(s)
  {
    var n := CountPresent(s);
    if n == 0 then None else Some(Sum(s) / n as real)
  }
}
