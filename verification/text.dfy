/** The Python string primitives the cleaning scripts rely on: `str.strip`,
    `str.replace`, `str.title` and the ordering of strings. Strings are
    sequences of Unicode scalar values, as Python's `str` is. */
module Text {

  /** Python's `str.isspace` for one character. */
  predicate IsSpace(c: char) {
    || c == ' '
    || '\t' <= c <= '\r'
    || '\U{1C}' <= c <= '\U{1F}'
    || c == '\U{85}' || c == '\U{A0}' || c == '\U{1680}'
    || '\U{2000}' <= c <= '\U{200A}'
    || c == '\U{2028}' || c == '\U{2029}' || c == '\U{202F}' || c == '\U{205F}' || c == '\U{3000}'
  }

  /** Neither the first nor the last character of `t` is whitespace. */
  predicate Unpadded(t: string) {
    t == [] || (!IsSpace(t[0]) && !IsSpace(t[|t| - 1]))
  }

  predicate AllSpace(s: string) {
    forall i :: 0 <= i < |s| ==> IsSpace(s[i])
  }

  // ---------------------------------------------------------------------------
  // str.strip()
  // ---------------------------------------------------------------------------

  /** `s.lstrip()`: the longest suffix of `s` that does not start with whitespace. */
  function StripLeft(s: string): (r: string)
    ensures |r| <= |s| && r == s[|s| - |r|..]
    ensures AllSpace(s[..|s| - |r|])
    ensures r == [] || !IsSpace(r[0])
  {
    if |s| > 0 && IsSpace(s[0]) then
      var r := StripLeft(s[1..]);
      SpaceCons(s, r);
      r
    else
      s
  }

  /** `s.rstrip()`: the longest prefix of `s` that does not end with whitespace. */
  function StripRight(s: string): (r: string)
    ensures |r| <= |s| && r == s[..|r|]
    ensures AllSpace(s[|r|..])
    ensures r == [] || !IsSpace(r[|r| - 1])
  {
    if |s| > 0 && IsSpace(s[|s| - 1]) then
      var r := StripRight(s[..|s| - 1]);
      assert s[..|s| - 1][..|r|] == s[..|r|];
      SpaceSnoc(s, |r|);
      r
    else
      s
  }

  /** A space before an all-space prefix makes a longer all-space prefix. */
  lemma SpaceCons(s: string, r: string)
    requires |s| > 0 && IsSpace(s[0])
    requires |r| <= |s| - 1 && r == s[1..][|s| - 1 - |r|..] && AllSpace(s[1..][..|s| - 1 - |r|])
    ensures r == s[|s| - |r|..] && AllSpace(s[..|s| - |r|])
  {
    var k := |s| - |r|;
    forall i | 1 <= i < k ensures IsSpace(s[i]) {
      assert s[i] == s[1..][..k - 1][i - 1];
    }
  }

  /** An all-space slice before a final space makes a longer all-space suffix. */
  lemma SpaceSnoc(s: string, k: nat)
    requires k < |s| && IsSpace(s[|s| - 1]) && AllSpace(s[..|s| - 1][k..])
    ensures AllSpace(s[k..])
  {
    forall i | k <= i < |s| - 1 ensures IsSpace(s[i]) {
      assert s[i] == s[..|s| - 1][k..][i - k];
    }
  }

  /** `s.strip()`: the slice of `s` left once surrounding whitespace is removed. */
  function Strip(s: string): (r: string)
    ensures |r| <= |s|
    ensures Unpadded(r)
  {
    StripRight(StripLeft(s))
  }

  lemma SpaceSlice(a: string, b: string)
    requires a == b && AllSpace(b)
    ensures AllSpace(a)
  {
  }

  /** A prefix of a suffix is a middle slice. */
  lemma SliceOfSuffix(s: string, k: nat, t: string, r: string)
    requires k <= |s| && t == s[k..] && |r| <= |t| && r == t[..|r|]
    ensures r == s[k..k + |r|] && s[k + |r|..] == t[|r|..]
  {
  }

  /** Splits `s` around its strip: whitespace, the stripped text, whitespace. */
  lemma StripParts(s: string) returns (pre: string, post: string)
    ensures s == pre + Strip(s) + post
    ensures AllSpace(pre) && AllSpace(post)
    ensures |pre| == |s| - |StripLeft(s)|
  {
    var t := StripLeft(s);
    var r := StripRight(t);
    assert r == Strip(s);
    var k := |s| - |t|;
    SliceOfSuffix(s, k, t, r);
    pre, post := s[..k], s[k + |r|..];
    SpaceSlice(post, t[|r|..]);
    ThreeSlices(s, k, k + |r|);
  }

  lemma ThreeSlices<T>(s: seq<T>, a: nat, b: nat)
    requires a <= b <= |s|
    ensures s == s[..a] + s[a..b] + s[b..]
  {
  }

  /** Text without surrounding whitespace is its own strip. */
  lemma StripUnpadded(s: string)
    requires Unpadded(s)
    ensures Strip(s) == s
  {
  }

  /** Stripping keeps every copy of a character that is not whitespace. */
  lemma StripKeeps(s: string, c: char)
    requires !IsSpace(c)
    ensures multiset(Strip(s))[c] == multiset(s)[c]
  {
    var pre, post := StripParts(s);
    assert c !in pre && c !in post;
    assert multiset(s) == multiset(pre) + multiset(Strip(s)) + multiset(post);
  }

  /** Stripping is idempotent. */
  lemma StripIdempotent(s: string)
    ensures Strip(Strip(s)) == Strip(s)
  {
    StripUnpadded(Strip(s));
  }

  // ---------------------------------------------------------------------------
  // str.replace(old, new)
  // ---------------------------------------------------------------------------

  /** `pat` occurs in `s` starting at index `i`. */
  predicate OccursAt(s: string, pat: string, i: int) {
    0 <= i && i + |pat| <= |s| && s[i..i + |pat|] == pat
  }

  /** Python's `s.replace(pat, rep)` for a non-empty `pat`: a left-to-right scan
      that replaces each non-overlapping occurrence of `pat` by `rep`. */
  function ReplaceAll(s: string, pat: string, rep: string): (r: string)
    requires |pat| > 0
    ensures |s| < |pat| ==> r == s
    decreases |s|
  {
    if |s| < |pat| then
      s
    else if s[..|pat|] == pat then
      rep + ReplaceAll(s[|pat|..], pat, rep)
    else
      [s[0]] + ReplaceAll(s[1..], pat, rep)
  }

  /** Text in which `pat` occurs nowhere is left unchanged. */
  lemma {:induction false} ReplaceNoMatch(s: string, pat: string, rep: string)
    requires |pat| > 0
    requires forall i :: 0 <= i < |s| ==> !OccursAt(s, pat, i)
    ensures ReplaceAll(s, pat, rep) == s
    decreases |s|
  {
    if |s| >= |pat| {
      assert !OccursAt(s, pat, 0);
      assert s[..|pat|] != pat;
      forall i | 0 <= i < |s| - 1 ensures !OccursAt(s[1..], pat, i) {
        assert !OccursAt(s, pat, i + 1);
        if i + |pat| <= |s| - 1 {
          assert s[1..][i..i + |pat|] == s[i + 1..i + 1 + |pat|];
        }
      }
      ReplaceNoMatch(s[1..], pat, rep);
      assert s == [s[0]] + s[1..];
    }
  }

  /** An occurrence of the pattern itself is replaced by the replacement. */
  lemma ReplacePattern(pat: string, rep: string)
    requires |pat| > 0
    ensures ReplaceAll(pat, pat, rep) == rep
  {
    assert pat[..|pat|] == pat;
    assert pat[|pat|..] == [];
  }

  /** No occurrence of `pat` in `a + b` starts inside `a` and ends inside `b`. */
  predicate NoStraddle(a: string, b: string, pat: string) {
    forall i :: 0 <= i < |a| && |a| < i + |pat| ==> !OccursAt(a + b, pat, i)
  }

  lemma NoStraddleDrop(a: string, b: string, pat: string, d: nat)
    requires d <= |a| && NoStraddle(a, b, pat)
    ensures NoStraddle(a[d..], b, pat)
  {
    var s := a + b;
    assert a[d..] + b == s[d..];
    forall i | 0 <= i < |a| - d && |a| - d < i + |pat|
      ensures !OccursAt(a[d..] + b, pat, i)
    {
      assert !OccursAt(s, pat, i + d);
      if i + |pat| <= |s| - d {
        assert s[d..][i..i + |pat|] == s[i + d..i + d + |pat|];
      }
    }
  }

  /** Replacement distributes over a split point that no occurrence of `pat`
      straddles: each side is rewritten on its own. */
  lemma {:induction false} ReplaceSplit(a: string, b: string, pat: string, rep: string)
    requires |pat| > 0
    requires NoStraddle(a, b, pat)
    ensures ReplaceAll(a + b, pat, rep) == ReplaceAll(a, pat, rep) + ReplaceAll(b, pat, rep)
    decreases |a|
  {
    var s := a + b;
    if |a| == 0 {
      assert s == b;
    } else if |a| < |pat| {
      ReplaceSplitShort(a, b, pat, rep);
    } else if a[..|pat|] == pat {
      assert s[..|pat|] == pat;
      assert s[|pat|..] == a[|pat|..] + b;
      NoStraddleDrop(a, b, pat, |pat|);
      ReplaceSplit(a[|pat|..], b, pat, rep);
    } else {
      assert s[..|pat|] == a[..|pat|];
      assert s[1..] == a[1..] + b;
      NoStraddleDrop(a, b, pat, 1);
      ReplaceSplit(a[1..], b, pat, rep);
    }
  }

  /** An occurrence of `pat` that no earlier occurrence overlaps is replaced
      where it stands; the text on either side is rewritten on its own. */
  lemma ReplaceAround(a: string, b: string, pat: string, rep: string)
    requires |pat| > 0
    requires NoStraddle(a, pat + b, pat)
    ensures ReplaceAll(a + pat + b, pat, rep) == ReplaceAll(a, pat, rep) + rep + ReplaceAll(b, pat, rep)
  {
    ConcatAssoc(a, pat, b);
    ReplaceSplit(a, pat + b, pat, rep);
    ReplaceAtStart(pat, b, rep);
  }

  lemma ConcatAssoc<T>(a: seq<T>, b: seq<T>, c: seq<T>)
    ensures a + b + c == a + (b + c)
  {
  }

  /** Text that starts with the pattern has it replaced first. */
  lemma ReplaceAtStart(pat: string, b: string, rep: string)
    requires |pat| > 0
    ensures ReplaceAll(pat + b, pat, rep) == rep + ReplaceAll(b, pat, rep)
  {
    var w := pat + b;
    assert w[..|pat|] == pat && w[|pat|..] == b;
  }

  /** The case of `ReplaceSplit` where `a` is shorter than the pattern, so no
      occurrence starts inside it. */
  lemma {:induction false} ReplaceSplitShort(a: string, b: string, pat: string, rep: string)
    requires 0 < |a| < |pat|
    requires NoStraddle(a, b, pat)
    ensures ReplaceAll(a + b, pat, rep) == a + ReplaceAll(b, pat, rep)
    decreases |a|
  {
    var s := a + b;
    assert !OccursAt(s, pat, 0);
    if |s| >= |pat| {
      assert s[..|pat|] != pat;
      assert s[1..] == a[1..] + b;
      NoStraddleDrop(a, b, pat, 1);
      if |a| == 1 {
        assert a[1..] + b == b;
      } else {
        ReplaceSplitShort(a[1..], b, pat, rep);
      }
      assert a == [a[0]] + a[1..];
    } else {
      assert ReplaceAll(b, pat, rep) == b;
    }
  }

  /** One step of a single-character replacement. */
  lemma ReplaceCharStep(s: string, c: char, rep: string)
    requires |s| > 0
    ensures ReplaceAll(s, [c], rep) == (if s[0] == c then rep else [s[0]]) + ReplaceAll(s[1..], [c], rep)
  {
    assert s[..1] == [s[0]];
  }

  /** Replacing a single character is a homomorphism on concatenation. */
  lemma {:induction false} ReplaceCharConcat(a: string, b: string, c: char, rep: string)
    ensures ReplaceAll(a + b, [c], rep) == ReplaceAll(a, [c], rep) + ReplaceAll(b, [c], rep)
    decreases |a|
  {
    if |a| > 0 {
      var h := if a[0] == c then rep else [a[0]];
      ReplaceCharStep(a + b, c, rep);
      assert (a + b)[0] == a[0];
      assert (a + b)[1..] == a[1..] + b;
      ReplaceCharConcat(a[1..], b, c, rep);
      ReplaceCharStep(a, c, rep);
      ConcatAssoc(h, ReplaceAll(a[1..], [c], rep), ReplaceAll(b, [c], rep));
    } else {
      assert a + b == b;
    }
  }

  /** Replacing one character by another changes exactly the positions that
      held the first character. */
  lemma {:induction false} ReplaceCharPointwise(s: string, c: char, d: char)
    ensures |ReplaceAll(s, [c], [d])| == |s|
    ensures forall i :: 0 <= i < |s| ==> ReplaceAll(s, [c], [d])[i] == if s[i] == c then d else s[i]
    decreases |s|
  {
    if |s| > 0 {
      ReplaceCharStep(s, c, [d]);
      ReplaceCharPointwise(s[1..], c, [d][0]);
    }
  }

  /** Replacing `c` by `d` turns every copy of `c` into a copy of `d`. */
  lemma {:induction false} ReplaceCharCount(s: string, c: char, d: char)
    requires c != d
    ensures multiset(ReplaceAll(s, [c], [d]))[d] == multiset(s)[d] + multiset(s)[c]
    decreases |s|
  {
    if |s| > 0 {
      var h: string := if s[0] == c then [d] else [s[0]];
      var t := ReplaceAll(s[1..], [c], [d]);
      ReplaceCharStep(s, c, [d]);
      ReplaceCharCount(s[1..], c, d);
      assert multiset(h + t) == multiset(h) + multiset(t);
      assert s == [s[0]] + s[1..];
      assert multiset(s) == multiset{s[0]} + multiset(s[1..]);
    }
  }

  /** Deleting a character removes every copy of it and keeps every other
      character, with its multiplicity. */
  lemma DeleteCharContents(s: string, c: char)
    ensures multiset(ReplaceAll(s, [c], [])) == multiset(s)[c := 0]
    ensures c !in ReplaceAll(s, [c], [])
  {
    var r := ReplaceAll(s, [c], []);
    forall x ensures multiset(r)[x] == multiset(s)[c := 0][x] {
      DeleteCharCount(s, c, x);
    }
    assert multiset(r) == multiset(s)[c := 0];
    assert multiset(r)[c] == 0;
  }

  /** How often `x` occurs once `c` is deleted. */
  lemma {:induction false} DeleteCharCount(s: string, c: char, x: char)
    ensures multiset(ReplaceAll(s, [c], []))[x] == if x == c then 0 else multiset(s)[x]
    decreases |s|
  {
    if |s| > 0 {
      var h: string := if s[0] == c then [] else [s[0]];
      var t := ReplaceAll(s[1..], [c], []);
      ReplaceCharStep(s, c, []);
      DeleteCharCount(s[1..], c, x);
      assert multiset(h + t)[x] == multiset(h)[x] + multiset(t)[x];
      assert s == [s[0]] + s[1..];
      assert multiset(s)[x] == multiset([s[0]])[x] + multiset(s[1..])[x];
    }
  }

  /** Text in which no character is `c` is unchanged by replacing `c`. */
  lemma ReplaceAbsentChar(s: string, c: char, rep: string)
    requires c !in s
    ensures ReplaceAll(s, [c], rep) == s
  {
    forall i | 0 <= i < |s| ensures !OccursAt(s, [c], i) {
      assert s[i..i + 1] == [s[i]];
    }
    ReplaceNoMatch(s, [c], rep);
  }

  /** Text in which the first character of `pat` never appears is unchanged. */
  lemma ReplaceAbsentHead(s: string, pat: string, rep: string)
    requires |pat| > 0 && pat[0] !in s
    ensures ReplaceAll(s, pat, rep) == s
  {
    forall i | 0 <= i < |s| ensures !OccursAt(s, pat, i) {
      if i + |pat| <= |s| {
        assert s[i..i + |pat|][0] == s[i];
      }
    }
    ReplaceNoMatch(s, pat, rep);
  }

  /** Deleting `e` and replacing `c` by `d` commute when `e` is neither. */
  lemma {:induction false} DeleteReplaceCommute(s: string, e: char, c: char, d: char)
    requires e != c && e != d
    ensures ReplaceAll(ReplaceAll(s, [c], [d]), [e], []) == ReplaceAll(ReplaceAll(s, [e], []), [c], [d])
    decreases |s|
  {
    if |s| > 0 {
      var head := if s[0] == c then [d] else [s[0]];
      ReplaceCharStep(s, c, [d]);
      ReplaceCharConcat(head, ReplaceAll(s[1..], [c], [d]), e, []);
      ReplaceCharStep(head, e, []);
      assert head[1..] == [];
      ReplaceCharStep(s, e, []);
      var kept := if s[0] == e then [] else [s[0]];
      ReplaceCharConcat(kept, ReplaceAll(s[1..], [e], []), c, [d]);
      if s[0] != e {
        ReplaceCharStep(kept, c, [d]);
        assert kept[1..] == [];
      }
      DeleteReplaceCommute(s[1..], e, c, d);
    }
  }

  /** Replacing `c` by a different `d` twice is the same as once. */
  lemma ReplaceCharTwice(s: string, c: char, d: char)
    requires c != d
    ensures ReplaceAll(ReplaceAll(s, [c], [d]), [c], [d]) == ReplaceAll(s, [c], [d])
  {
    var r := ReplaceAll(s, [c], [d]);
    ReplaceCharPointwise(s, c, d);
    assert c !in r by {
      forall i | 0 <= i < |r| ensures r[i] != c { }
    }
    ReplaceAbsentChar(r, c, [d]);
  }

  /** Replacing a character in a slice is slicing the replaced text. */
  lemma ReplaceCharSlice(s: string, c: char, d: char, a: nat, b: nat)
    requires a <= b <= |s|
    ensures |ReplaceAll(s, [c], [d])| == |s|
    ensures ReplaceAll(s[a..b], [c], [d]) == ReplaceAll(s, [c], [d])[a..b]
  {
    var u := ReplaceAll(s, [c], [d]);
    var t := s[a..b];
    ReplaceCharPointwise(s, c, d);
    ReplaceCharPointwise(t, c, d);
    var r := ReplaceAll(t, [c], [d]);
    forall i | 0 <= i < b - a
      ensures r[i] == u[a..b][i]
    {
      assert t[i] == s[a + i];
    }
  }

  /** Replacing one non-whitespace character by another commutes with `strip`. */
  lemma StripReplaceChar(s: string, c: char, d: char)
    requires !IsSpace(c) && !IsSpace(d)
    ensures Strip(ReplaceAll(s, [c], [d])) == ReplaceAll(Strip(s), [c], [d])
  {
    StripLeftReplace(s, c, d);
    StripRightReplace(StripLeft(s), c, d);
  }

  lemma {:induction false} StripLeftReplace(s: string, c: char, d: char)
    requires !IsSpace(c) && !IsSpace(d)
    ensures StripLeft(ReplaceAll(s, [c], [d])) == ReplaceAll(StripLeft(s), [c], [d])
    decreases |s|
  {
    var u := ReplaceAll(s, [c], [d]);
    ReplaceCharPointwise(s, c, d);
    if |s| > 0 {
      ReplaceCharSlice(s, c, d, 1, |s|);
      assert s[1..|s|] == s[1..] && u[1..|s|] == u[1..];
      if IsSpace(s[0]) {
        assert IsSpace(u[0]);
        StripLeftReplace(s[1..], c, d);
      } else {
        assert !IsSpace(u[0]);
      }
    }
  }

  lemma {:induction false} StripRightReplace(s: string, c: char, d: char)
    requires !IsSpace(c) && !IsSpace(d)
    ensures StripRight(ReplaceAll(s, [c], [d])) == ReplaceAll(StripRight(s), [c], [d])
    decreases |s|
  {
    var u := ReplaceAll(s, [c], [d]);
    ReplaceCharPointwise(s, c, d);
    if |s| > 0 {
      ReplaceCharSlice(s, c, d, 0, |s| - 1);
      assert s[0..|s| - 1] == s[..|s| - 1] && u[0..|s| - 1] == u[..|s| - 1];
      if IsSpace(s[|s| - 1]) {
        assert IsSpace(u[|u| - 1]);
        StripRightReplace(s[..|s| - 1], c, d);
      } else {
        assert !IsSpace(u[|u| - 1]);
      }
    }
  }

  lemma {:induction false} StripLeftPadded(p: string, w: string)
    requires AllSpace(p)
    requires w == [] || !IsSpace(w[0])
    ensures StripLeft(p + w) == w
    decreases |p|
  {
    if p == [] {
      assert p + w == w;
    } else {
      assert (p + w)[0] == p[0];
      assert (p + w)[1..] == p[1..] + w;
      StripLeftPadded(p[1..], w);
    }
  }

  lemma {:induction false} StripRightPadded(w: string, q: string)
    requires AllSpace(q)
    requires w == [] || !IsSpace(w[|w| - 1])
    ensures StripRight(w + q) == w
    decreases |q|
  {
    if q == [] {
      assert w + q == w;
    } else {
      var s := w + q;
      assert s[|s| - 1] == q[|q| - 1];
      assert s[..|s| - 1] == w + q[..|q| - 1];
      StripRightPadded(w, q[..|q| - 1]);
    }
  }

  /** Whitespace around unpadded text is exactly what `strip` removes. */
  lemma StripPadded(p: string, v: string, q: string)
    requires AllSpace(p) && AllSpace(q)
    requires Unpadded(v)
    ensures Strip(p + v + q) == v
  {
    if v == [] {
      assert p + v + q == (p + q) + [];
      StripLeftPadded(p + q, []);
    } else {
      assert p + v + q == p + (v + q);
      StripLeftPadded(p, v + q);
      StripRightPadded(v, q);
    }
  }

  // ---------------------------------------------------------------------------
  // str.title()
  // ---------------------------------------------------------------------------

  predicate IsUpper(c: char) { 'A' <= c <= 'Z' }
  predicate IsLower(c: char) { 'a' <= c <= 'z' }

  /** A letter with case; only ASCII letters are modelled as cased. */
  predicate IsCased(c: char) { IsUpper(c) || IsLower(c) }

  function ToUpper(c: char): char {
    if IsLower(c) then (c as int - 32) as char else c
  }

  function ToLower(c: char): char {
    if IsUpper(c) then (c as int + 32) as char else c
  }

  /** Title-cases `s`, given whether the character before it was cased. */
  function TitleFrom(s: string, afterCased: bool): (r: string)
    ensures |r| == |s|
    ensures forall i :: 0 <= i < |s| ==> (IsCased(r[i]) <==> IsCased(s[i]))
    ensures forall i :: 0 <= i < |s| && !IsCased(s[i]) ==> r[i] == s[i]
    ensures forall i :: 0 <= i < |s| && IsCased(s[i]) ==> ToLower(r[i]) == ToLower(s[i])
    ensures forall i :: 0 <= i < |s| && IsCased(s[i]) ==>
              (IsUpper(r[i]) <==> if i == 0 then !afterCased else !IsCased(s[i - 1]))
  {
    if s == [] then
      []
    else
      var c := s[0];
      var head := if !IsCased(c) then c else if afterCased then ToLower(c) else ToUpper(c);
      var rest := TitleFrom(s[1..], IsCased(c));
      [head] + rest
  }

  /** Python's `s.title()`: a cased character is upper-cased when it starts a run
      of cased characters and lower-cased otherwise; everything else is kept. */
  function Title(s: string): (r: string)
    ensures |r| == |s|
    ensures forall i :: 0 <= i < |s| && !IsCased(s[i]) ==> r[i] == s[i]
    ensures forall i :: 0 <= i < |s| && IsCased(s[i]) ==>
              && IsCased(r[i])
              && ToLower(r[i]) == ToLower(s[i])
              && (IsUpper(r[i]) <==> (i == 0 || !IsCased(s[i - 1])))
  {
    TitleFrom(s, false)
  }

  /** Two cased characters that agree ignoring case and agree on case are equal. */
  lemma SameLetter(x: char, y: char)
    requires IsCased(x) && IsCased(y)
    requires ToLower(x) == ToLower(y)
    requires IsUpper(x) <==> IsUpper(y)
    ensures x == y
  {
  }

  /** Title-casing is idempotent. */
  lemma TitleIdempotent(s: string)
    ensures Title(Title(s)) == Title(s)
  {
    var t := Title(s);
    var u := Title(t);
    forall i | 0 <= i < |s|
      ensures u[i] == t[i]
    {
      if IsCased(s[i]) {
        assert IsCased(t[i]);
        if i > 0 {
          assert IsCased(t[i - 1]) <==> IsCased(s[i - 1]);
        }
        SameLetter(u[i], t[i]);
      }
    }
  }

  // ---------------------------------------------------------------------------
  // String ordering
  // ---------------------------------------------------------------------------

  /** Python's `a <= b` on strings: lexicographic by code point, a proper
      prefix sorting first. */
  predicate LexLe(a: string, b: string) {
    a == [] || (b != [] && (a[0] < b[0] || (a[0] == b[0] && LexLe(a[1..], b[1..]))))
  }

  lemma {:induction false} LexLeTotal(a: string, b: string)
    ensures LexLe(a, b) || LexLe(b, a)
    decreases |a|
  {
    if a != [] && b != [] && a[0] == b[0] {
      LexLeTotal(a[1..], b[1..]);
    }
  }

  lemma {:induction false} LexLeAntisymmetric(a: string, b: string)
    requires LexLe(a, b) && LexLe(b, a)
    ensures a == b
    decreases |a|
  {
    if a != [] {
      LexLeAntisymmetric(a[1..], b[1..]);
      assert a == [a[0]] + a[1..] && b == [b[0]] + b[1..];
    }
  }

  lemma {:induction false} LexLeTransitive(a: string, b: string, c: string)
    requires LexLe(a, b) && LexLe(b, c)
    ensures LexLe(a, c)
    decreases |a|
  {
    if a != [] && a[0] == b[0] && b[0] == c[0] {
      LexLeTransitive(a[1..], b[1..], c[1..]);
    }
  }
}
