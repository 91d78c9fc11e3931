/** The decimal literals accepted in place of Python's `float()`:
    `[-+]? digits ('.' digits?)? | [-+]? '.' digits`, read as exact reals. */
module Decimal {
  import opened Wrappers

  datatype Sign = Unsigned | Plus | Minus

  /** A literal split into its parts: the sign, the digits before the point,
      whether a point is written, and the digits after it. */
  datatype Literal = Literal(sign: Sign, whole: string, point: bool, frac: string)

  predicate IsDigit(c: char) { '0' <= c <= '9' }

  predicate AllDigits(s: string) {
    forall i :: 0 <= i < |s| ==> IsDigit(s[i])
  }

  /** The parts form a literal of the grammar: digits only, a fraction only
      after a point, and at least one digit overall. */
  predicate WellFormed(l: Literal) {
    && AllDigits(l.whole)
    && AllDigits(l.frac)
    && (l.point || l.frac == [])
    && (l.whole != [] || l.frac != [])
  }

  function SignText(sign: Sign): string {
    match sign
    case Unsigned => ""
    case Plus => "+"
    case Minus => "-"
  }

  /** The text of a literal. */
  function Render(l: Literal): string {
    SignText(l.sign) + l.whole + (if l.point then "." else "") + l.frac
  }

  function DigitValue(c: char): nat
    requires IsDigit(c)
  {
    c as int - '0' as int
  }

  /** The natural number a string of decimal digits denotes. */
  function DigitsValue(ds: string): nat
    requires AllDigits(ds)
  {
    if ds == [] then 0 else DigitsValue(ds[..|ds| - 1]) * 10 + DigitValue(ds[|ds| - 1])
  }

  /** `d / 10^n`, the value of `n` fraction digits that read `d`. */
  function Shifted(d: nat, n: nat): real {
    if n == 0 then d as real else Shifted(d, n - 1) / 10.0
  }

  /** The exact value of a well-formed literal. */
  function Value(l: Literal): real
    requires WellFormed(l)
  {
    var magnitude := DigitsValue(l.whole) as real + Shifted(DigitsValue(l.frac), |l.frac|);
    if l.sign == Minus then -magnitude else magnitude
  }

  /** Index of the first `c` in `s`, or `|s|` when there is none. */
  function IndexOf(s: string, c: char): (k: nat)
    ensures k <= |s|
    ensures forall i :: 0 <= i < k ==> s[i] != c
    ensures k < |s| ==> s[k] == c
  {
    if s == [] then 0 else if s[0] == c then 0 else 1 + IndexOf(s[1..], c)
  }

  /** Splits an optional leading sign off `s`. */
  function SplitSign(s: string): (r: (Sign, string))
    ensures SignText(r.0) + r.1 == s
  {
    if |s| > 0 && s[0] == '+' then (Plus, s[1..])
    else if |s| > 0 && s[0] == '-' then (Minus, s[1..])
    else (Unsigned, s)
  }

  /** Splits `body` at its first point into the digits before it, whether there
      is a point, and the rest after it. */
  function SplitPoint(body: string): (r: (string, bool, string))
    ensures Body(r.0, r.1, r.2) == body
    ensures '.' !in r.0
  {
    var k := IndexOf(body, '.');
    if k < |body| then
      assert body == body[..k] + [body[k]] + body[k + 1..];
      (body[..k], true, body[k + 1..])
    else
      assert body[..k] == body;
      (body, false, [])
  }

  /** Splits `s` into the parts of a literal; `None` when `s` is not one. */
  function Lex(s: string): Option<Literal> {
    var (sign, body) := SplitSign(s);
    var (whole, point, frac) := SplitPoint(body);
    var l := Literal(sign, whole, point, frac);
    if WellFormed(l) then Some(l) else None
  }

  /** What `Lex` accepts is a well-formed literal whose text is the input. */
  lemma LexSound(s: string)
    requires Lex(s).Some?
    ensures WellFormed(Lex(s).value) && Render(Lex(s).value) == s
  {
    RenderBody(Lex(s).value);
  }

  lemma RenderBody(l: Literal)
    ensures Render(l) == SignText(l.sign) + Body(l.whole, l.point, l.frac)
  {
  }

  /** `s` is the rendering of a well-formed literal whose value is `x`. */
  ghost predicate Denotes(s: string, x: real) {
    exists l :: WellFormed(l) && Render(l) == s && Value(l) == x
  }

  /** The value of `s` when it is a decimal literal. */
  function Parse(s: string): Option<real> {
    match Lex(s)
    case Some(l) => Some(Value(l))
    case None => None
  }

  /** The texts `Parse` accepts are exactly the renderings of well-formed
      literals, and it reads each as the literal's value. */
  lemma ParseExactly(s: string)
    ensures Parse(s).Some? <==> exists l :: WellFormed(l) && Render(l) == s
    ensures Parse(s).Some? ==> exists l :: WellFormed(l) && Render(l) == s && Parse(s).value == Value(l)
  {
    if Lex(s).Some? {
      LexSound(s);
      var l := Lex(s).value;
      assert WellFormed(l) && Render(l) == s && Parse(s).value == Value(l);
    } else {
      NoLiteralRenders(s);
    }
  }

  /** Text the lexer rejects is the rendering of no well-formed literal. */
  lemma NoLiteralRenders(s: string)
    requires Lex(s).None?
    ensures forall l :: WellFormed(l) ==> Render(l) != s
  {
    forall l | WellFormed(l) ensures Render(l) != s {
      LexRender(l);
    }
  }

  /** Lexing the text of a literal gives the literal back. */
  lemma LexRender(l: Literal)
    requires WellFormed(l)
    ensures Lex(Render(l)) == Some(l)
  {
    var body := Body(l.whole, l.point, l.frac);
    assert Render(l) == SignText(l.sign) + body;
    BodyStart(l);
    SplitSignRender(l.sign, body);
    SplitPointRender(l.whole, l.point, l.frac);
  }

  /** The text of a literal after its sign. */
  function Body(whole: string, point: bool, frac: string): string {
    whole + (if point then "." else "") + frac
  }

  lemma BodyStart(l: Literal)
    requires WellFormed(l)
    ensures var body := Body(l.whole, l.point, l.frac);
            |body| > 0 && (IsDigit(body[0]) || body[0] == '.')
  {
    var body := Body(l.whole, l.point, l.frac);
    if l.whole != [] {
      assert body[0] == l.whole[0];
    } else {
      assert body[0] == (if l.point then "." else "")[0];
    }
  }

  /** A sign in front of text that starts with a digit or the point splits off. */
  lemma SplitSignRender(sign: Sign, body: string)
    requires |body| > 0 && (IsDigit(body[0]) || body[0] == '.')
    ensures SplitSign(SignText(sign) + body) == (sign, body)
  {
    var s := SignText(sign) + body;
    if sign == Unsigned {
      assert s == body;
    } else {
      assert s[0] == SignText(sign)[0];
      assert s[1..] == body;
    }
  }

  /** The text after the sign splits at its point into the two digit runs. */
  lemma SplitPointRender(whole: string, point: bool, frac: string)
    requires AllDigits(whole) && (point || frac == [])
    ensures SplitPoint(Body(whole, point, frac)) == (whole, point, frac)
  {
    var dot := if point then "." else "";
    var body := Body(whole, point, frac);
    IndexOfPrefix(whole, dot + frac, '.');
    assert body == whole + (dot + frac);
    if point {
      assert (dot + frac)[0] == '.';
      assert body[..|whole|] == whole;
      assert body[|whole| + 1..] == frac;
    } else {
      assert body == whole;
    }
  }

  lemma {:induction false} IndexOfPrefix(a: string, b: string, c: char)
    requires forall i :: 0 <= i < |a| ==> a[i] != c
    ensures IndexOf(a + b, c) == |a| + IndexOf(b, c)
    decreases |a|
  {
    if a != [] {
      assert (a + b)[1..] == a[1..] + b;
      IndexOfPrefix(a[1..], b, c);
    } else {
      assert a + b == b;
    }
  }

  lemma IndexOfAbsent(s: string, c: char)
    requires AllDigits(s) && !IsDigit(c)
    ensures IndexOf(s, c) == |s|
  {
  }

  /** Every well-formed literal parses, to its value. */
  lemma ParseRender(l: Literal)
    requires WellFormed(l)
    ensures Parse(Render(l)) == Some(Value(l))
  {
    LexRender(l);
  }

  lemma ParseText(l: Literal, s: string)
    requires WellFormed(l) && Render(l) == s
    ensures Parse(s) == Some(Value(l))
  {
    LexRender(l);
  }

  /** Writing the sign `-` in front of an unsigned literal negates its value. */
  lemma ParseNegated(l: Literal)
    requires WellFormed(l) && l.sign == Unsigned
    ensures Parse("-" + Render(l)) == Some(-Value(l))
  {
    var m := Negated(l);
    ParseText(m, "-" + Render(l));
  }

  /** The literal with a minus sign written in front. */
  function Negated(l: Literal): (m: Literal)
    requires WellFormed(l) && l.sign == Unsigned
    ensures WellFormed(m) && m.sign == Minus
    ensures Render(m) == "-" + Render(l)
    ensures Value(m) == -Value(l)
  {
    var m := l.(sign := Minus);
    assert Render(m) == "-" + Render(l) by { RenderBody(l); RenderBody(m); }
    m
  }

  /** An unsigned literal begins with a digit or the point, so it has no sign. */
  lemma UnsignedStart(l: Literal)
    requires WellFormed(l) && l.sign == Unsigned
    ensures |Render(l)| > 0
    ensures IsDigit(Render(l)[0]) || Render(l)[0] == '.'
  {
  }

  /** Every character of a literal is a digit, a sign or the point. */
  lemma LiteralAlphabet(l: Literal)
    requires WellFormed(l)
    ensures forall i :: 0 <= i < |Render(l)| ==>
              IsDigit(Render(l)[i]) || Render(l)[i] in "+-."
  {
    var s := Render(l);
    var dot := if l.point then "." else "";
    forall i | 0 <= i < |s|
      ensures IsDigit(s[i]) || s[i] in "+-."
    {
      var n := |SignText(l.sign)|;
      if i < n {
        assert s[i] == SignText(l.sign)[i];
      } else if i < n + |l.whole| {
        assert s[i] == l.whole[i - n];
      } else if i < n + |l.whole| + |dot| {
        assert s[i] == '.';
      } else {
        assert s[i] == l.frac[i - n - |l.whole| - |dot|];
      }
    }
  }

  /** A literal has at most one point. */
  lemma OnePoint(l: Literal)
    requires WellFormed(l)
    ensures multiset(Render(l))['.'] <= 1
  {
    var dot := if l.point then "." else "";
    DigitsHaveNoPoint(l.whole);
    DigitsHaveNoPoint(l.frac);
    assert '.' !in SignText(l.sign);
    MultisetConcat4(SignText(l.sign), l.whole, dot, l.frac);
  }

  lemma DigitsHaveNoPoint(s: string)
    requires AllDigits(s)
    ensures multiset(s)['.'] == 0
  {
    assert '.' !in s;
  }

  lemma MultisetConcat4<T>(a: seq<T>, b: seq<T>, c: seq<T>, d: seq<T>)
    ensures multiset(a + b + c + d) == multiset(a) + multiset(b) + multiset(c) + multiset(d)
  {
  }

  /** Text with two points is not a number. */
  lemma TwoPointsRejected(s: string)
    requires multiset(s)['.'] >= 2
    ensures Parse(s) == None
  {
    if Parse(s).Some? {
      LexSound(s);
      OnePoint(Lex(s).value);
      assert false;
    }
  }

  /** Text with a character other than a digit, a sign or the point is not a
      number. */
  lemma ForeignRejected(s: string, i: nat)
    requires i < |s| && !IsDigit(s[i]) && s[i] !in "+-."
    ensures Parse(s) == None
  {
    if Parse(s).Some? {
      LexSound(s);
      LiteralAlphabet(Lex(s).value);
      assert false;
    }
  }

  /** The texts `""` and `"-"` are not numbers. */
  lemma NotLiterals()
    ensures Parse("") == None
    ensures Parse("-") == None
  {
    assert Lex("").None?;
    assert "-"[1..] == "";
    assert Lex("-").None?;
  }
}
