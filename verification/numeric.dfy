/** The three numeric-text normalisers of the scripts: `clean_numeric` of
    data_preparation.py, `clean_numeric` of cleandata.py and
    `convert_to_float` of dashboardprep.py. Each is a textual rewrite
    followed by Python's `float()`. */
module Numeric {
  import opened Wrappers
  import opened Text
  import Decimal

  /** A raw table cell as pandas hands it over: missing (NaN, which is also
      what `read_csv` makes of its NA markers), a number pandas already
      parsed, or text. */
  datatype Cell = Missing | Num(number: real) | Str(text: string)

  /** A normalised value put back into a cell. */
  function ToCell(v: Option<real>): (c: Cell)
    ensures c.Str? == false
  {
    match v
    case Some(x) => Num(x)
    case None => Missing
  }

  /** Python's `float(s)` on the modelled grammar: surrounding whitespace is
      ignored and the rest must be a decimal literal. */
  function PyFloat(s: string): (r: Option<real>)
    ensures r.Some? ==> Decimal.Denotes(Strip(s), r.value)
    ensures forall x :: Decimal.Denotes(Strip(s), x) ==> r == Some(x)
  {
    PyFloatExactly(s);
    Decimal.Parse(Strip(s))
  }

  lemma PyFloatExactly(s: string)
    ensures Decimal.Parse(Strip(s)).Some? ==> Decimal.Denotes(Strip(s), Decimal.Parse(Strip(s)).value)
    ensures forall x :: Decimal.Denotes(Strip(s), x) ==> Decimal.Parse(Strip(s)) == Some(x)
  {
    var t := Strip(s);
    Decimal.ParseExactly(t);
    forall x | Decimal.Denotes(t, x) ensures Decimal.Parse(t) == Some(x) {
      var l :| Decimal.WellFormed(l) && Decimal.Render(l) == t && Decimal.Value(l) == x;
      Decimal.ParseRender(l);
    }
  }

  /** `s.replace(c, '')`. */
  function DropChar(s: string, c: char): (r: string)
    ensures c !in r
  {
    DeleteCharContents(s, c);
    ReplaceAll(s, [c], [])
  }

  /** `s.replace(',', '.')`: the comma read as the decimal point. */
  function CommaToPoint(s: string): (r: string)
    ensures |r| == |s|
    ensures forall i :: 0 <= i < |s| ==> r[i] == if s[i] == ',' then '.' else s[i]
  {
    ReplaceCharPointwise(s, ',', '.');
    ReplaceAll(s, [','], ['.'])
  }

  /** The text contains no whitespace other than the space character. */
  predicate SpacesOnly(s: string) {
    forall i :: 0 <= i < |s| && IsSpace(s[i]) ==> s[i] == ' '
  }

  // ---------------------------------------------------------------------------
  // data_preparation.py: clean_numeric
  // ---------------------------------------------------------------------------

  /** The header clean-up: every column name stripped of surrounding
      whitespace, in order. */
  function TrimHeaders(cols: seq<string>): (r: seq<string>)
    ensures |r| == |cols|
    ensures forall i :: 0 <= i < |r| ==> r[i] == Strip(cols[i])
  {
    if cols == [] then [] else [Strip(cols[0])] + TrimHeaders(cols[1..])
  }

  /** No trimmed header begins or ends with whitespace. */
  lemma TrimHeadersUnpadded(cols: seq<string>)
    ensures forall i :: 0 <= i < |cols| ==> Unpadded(TrimHeaders(cols)[i])
  {
    var t := TrimHeaders(cols);
    forall i | 0 <= i < |cols| ensures Unpadded(t[i]) {
      assert t[i] == Strip(cols[i]);
    }
  }

  /** Trimming the headers twice is trimming them once. */
  lemma TrimHeadersIdempotent(cols: seq<string>)
    ensures TrimHeaders(TrimHeaders(cols)) == TrimHeaders(cols)
  {
    var t := TrimHeaders(cols);
    forall i | 0 <= i < |t| ensures Strip(t[i]) == t[i] {
      StripIdempotent(cols[i]);
    }
  }

  /** The texts read as "no value" once stripped. */
  predicate IsSentinel(t: string) {
    t == "-" || t == "$-" || t == ""
  }

  /** Drops currency signs and spaces. */
  function DropDollarsAndSpaces(s: string): (r: string)
    ensures '$' !in r && ' ' !in r
  {
    var d := DropChar(s, '$');
    var r := DropChar(d, ' ');
    DeleteCharContents(d, ' ');
    assert multiset(d)['$'] == 0;
    assert multiset(r)['$'] == 0;
    r
  }

  /** Dropping `$` and spaces keeps every other character, as often as it
      occurs. */
  lemma DropKeeps(s: string)
    ensures forall c :: c != '$' && c != ' ' ==> multiset(DropDollarsAndSpaces(s))[c] == multiset(s)[c]
  {
    DeleteCharContents(s, '$');
    DeleteCharContents(DropChar(s, '$'), ' ');
  }

  /** `(x)` becomes `-x`. */
  function Parenthesised(v: string): (r: string)
    ensures forall c :: c in r ==> c in v || c == '-'
  {
    if |v| > 0 && v[0] == '(' && v[|v| - 1] == ')' then "-" + v[1..|v| - 1] else v
  }

  /** The textual rewrite applied before parsing: `$` and spaces dropped, the
      comma read as the decimal point, parentheses read as a minus sign. */
  function PrepRewrite(t: string): (r: string)
    ensures '$' !in r && ' ' !in r && ',' !in r
  {
    var v := CommaToPoint(DropDollarsAndSpaces(t));
    assert '$' !in v && ' ' !in v && ',' !in v by {
      var w := DropDollarsAndSpaces(t);
      forall i | 0 <= i < |v| ensures v[i] != '$' && v[i] != ' ' && v[i] != ',' {
        assert v[i] == '.' || v[i] == w[i];
        assert w[i] in w;
      }
    }
    Parenthesised(v)
  }

  /** `clean_numeric` of data_preparation.py: never fails; anything that is not
      a number after the rewrite is missing. */
  function PrepareNumber(c: Cell): (r: Option<real>)
    ensures c.Missing? ==> r.None?
    ensures c.Num? ==> r == Some(c.number)
    ensures c.Str? && IsSentinel(Strip(c.text)) ==> r.None?
  {
    match c
    case Missing => None
    case Num(x) => Some(x)
    case Str(s) =>
      var t := Strip(s);
      if IsSentinel(t) then None else PyFloat(PrepRewrite(t))
  }

  /** The rewrite is idempotent: its output has no `$`, space or comma, and is
      never parenthesised again. */
  lemma PrepRewriteIdempotent(s: string)
    ensures PrepRewrite(PrepRewrite(s)) == PrepRewrite(s)
  {
    var r := PrepRewrite(s);
    var v := CommaToPoint(DropDollarsAndSpaces(s));
    if |v| > 0 && v[0] == '(' && v[|v| - 1] == ')' {
      assert r[0] == '-';
    }
    PrepRewriteFixed(r);
  }

  /** Text the rewrite has nothing to do on is left as it is. */
  lemma PrepRewriteFixed(e: string)
    requires '$' !in e && ' ' !in e && ',' !in e
    requires !(|e| > 0 && e[0] == '(' && e[|e| - 1] == ')')
    ensures PrepRewrite(e) == e
  {
    DropNothing(e);
    ReplaceAbsentChar(e, ',', ['.']);
  }

  /** With no whitespace but spaces, stripping does not change what is left
      once `$` and spaces are dropped. */
  lemma DropAfterStrip(s: string)
    requires SpacesOnly(s)
    ensures DropDollarsAndSpaces(Strip(s)) == DropDollarsAndSpaces(s)
  {
    var t := Strip(s);
    var pre, post := StripParts(s);
    SpacesOnlyParts(pre, t, post);
    SpacesDropToNothing(pre);
    SpacesDropToNothing(post);
    DropConcat(pre, t);
    DropConcat(pre + t, post);
    var d := DropDollarsAndSpaces(t);
    assert [] + d + [] == d;
  }

  lemma SpacesOnlyParts(a: string, b: string, c: string)
    requires SpacesOnly(a + b + c)
    ensures SpacesOnly(a) && SpacesOnly(c)
  {
    var s := a + b + c;
    forall i | 0 <= i < |a| ensures IsSpace(a[i]) ==> a[i] == ' ' {
      assert a[i] == s[i];
    }
    forall i | 0 <= i < |c| ensures IsSpace(c[i]) ==> c[i] == ' ' {
      assert c[i] == s[|a| + |b| + i];
    }
  }

  /** `DropDollarsAndSpaces` distributes over concatenation. */
  lemma DropConcat(a: string, b: string)
    ensures DropDollarsAndSpaces(a + b) == DropDollarsAndSpaces(a) + DropDollarsAndSpaces(b)
  {
    ReplaceCharConcat(a, b, '$', []);
    ReplaceCharConcat(DropChar(a, '$'), DropChar(b, '$'), ' ', []);
  }

  /** Whitespace made of spaces only drops to nothing. */
  lemma SpacesDropToNothing(p: string)
    requires AllSpace(p) && SpacesOnly(p)
    ensures DropDollarsAndSpaces(p) == []
  {
    var r := DropDollarsAndSpaces(p);
    DropKeeps(p);
    forall c ensures multiset(r)[c] == 0 {
      if c != '$' && c != ' ' {
        assert multiset(r)[c] == multiset(p)[c];
      }
    }
    assert multiset(r) == multiset{};
  }

  /** Text free of whitespace, `$` and spaces is its own strip and its own drop. */
  lemma DroppedIsFixed(e: string)
    requires forall i :: 0 <= i < |e| ==> !IsSpace(e[i]) && e[i] != '$'
    ensures Strip(e) == e
    ensures DropDollarsAndSpaces(e) == e
  {
    if e != [] {
      StripUnpadded(e);
    }
    assert IsSpace(' ');
    assert '$' !in e && ' ' !in e;
    ReplaceAbsentChar(e, '$', []);
    assert DropChar(e, '$') == e;
    ReplaceAbsentChar(e, ' ', []);
  }

  /** Dropping `$` and spaces from text with no other whitespace leaves text
      with no whitespace at all. */
  lemma DroppedHasNoSpace(s: string)
    requires SpacesOnly(s)
    ensures var e := DropDollarsAndSpaces(s);
            forall i :: 0 <= i < |e| ==> !IsSpace(e[i]) && e[i] != '$'
  {
    var e := DropDollarsAndSpaces(s);
    DropKeeps(s);
    forall i | 0 <= i < |e| ensures !IsSpace(e[i]) && e[i] != '$' {
      assert e[i] in multiset(e);
      if e[i] != ' ' && e[i] != '$' {
        assert e[i] in multiset(s);
        assert e[i] in s;
      }
    }
  }

  /** `$` and space characters never affect the result (for text whose only
      whitespace is the space character). */
  lemma PrepIgnoresDollarsAndSpaces(s: string)
    requires SpacesOnly(s)
    ensures PrepareNumber(Str(s)) == PrepareNumber(Str(DropDollarsAndSpaces(s)))
  {
    var t := Strip(s);
    var e := DropDollarsAndSpaces(s);
    DropAfterStrip(s);
    DroppedHasNoSpace(s);
    PrepOnDropped(e);
    PrepAfterDrop(t);
    if IsSentinel(t) {
      SentinelDrops(t);
    } else if IsSentinel(e) {
      SentinelsAreNotNumbers();
    }
  }

  /** Text with no whitespace and no `$` is read without stripping. */
  lemma PrepOnDropped(e: string)
    requires forall i :: 0 <= i < |e| ==> !IsSpace(e[i]) && e[i] != '$'
    ensures PrepareNumber(Str(e)) == if IsSentinel(e) then None else PyFloat(PrepRewrite(e))
  {
    DroppedIsFixed(e);
  }

  /** The rewrite starts by dropping `$` and spaces, so doing that first
      changes nothing. */
  lemma PrepAfterDrop(t: string)
    ensures PrepRewrite(t) == PrepRewrite(DropDollarsAndSpaces(t))
  {
    var d := DropDollarsAndSpaces(t);
    DropNothing(d);
  }

  /** What is left of a sentinel is not a number either. */
  lemma SentinelsAreNotNumbers()
    ensures PyFloat(PrepRewrite("-")) == None
    ensures PyFloat(PrepRewrite("")) == None
  {
    Decimal.NotLiterals();
    PrepRewriteFixed("-");
    PrepRewriteFixed("");
    StripUnpadded("-");
  }

  /** The sentinels drop to the sentinels `-` and the empty text. */
  lemma SentinelDrops(t: string)
    requires IsSentinel(t)
    ensures DropDollarsAndSpaces(t) == "-" || DropDollarsAndSpaces(t) == ""
  {
    if t == "$-" {
      ReplaceCharStep(t, '$', []);
      assert t[1..] == "-";
      ReplaceAbsentChar("-", '$', []);
      ReplaceAbsentChar("-", ' ', []);
    } else {
      ReplaceAbsentChar(t, '$', []);
      ReplaceAbsentChar(t, ' ', []);
    }
  }

  /** A comma is read as a decimal point: replacing commas by points in the
      input never changes the result. */
  lemma PrepCommaIsPoint(s: string)
    ensures PrepareNumber(Str(CommaToPoint(s))) == PrepareNumber(Str(s))
  {
    var t := Strip(s);
    var u := CommaToPoint(t);
    StripReplaceChar(s, ',', '.');
    assert Strip(CommaToPoint(s)) == u;
    SentinelUnderComma(t);
    RewriteUnderComma(t);
  }

  lemma SentinelUnderComma(t: string)
    ensures IsSentinel(CommaToPoint(t)) <==> IsSentinel(t)
  {
    var u := CommaToPoint(t);
    if |t| == 1 {
      assert u == "-" <==> t == "-";
    }
    if |t| == 2 {
      assert u == "$-" <==> t == "$-" by {
        assert u[0] == '$' <==> t[0] == '$';
        assert u[1] == '-' <==> t[1] == '-';
      }
    }
  }

  lemma RewriteUnderComma(t: string)
    ensures PrepRewrite(CommaToPoint(t)) == PrepRewrite(t)
  {
    CommaDropCommute(t);
    ReplaceCharTwice(DropDollarsAndSpaces(t), ',', '.');
  }

  /** Dropping `$` and spaces commutes with reading commas as points. */
  lemma CommaDropCommute(t: string)
    ensures DropDollarsAndSpaces(CommaToPoint(t)) == CommaToPoint(DropDollarsAndSpaces(t))
  {
    DeleteReplaceCommute(t, '$', ',', '.');
    DeleteReplaceCommute(DropChar(t, '$'), ' ', ',', '.');
  }

  /** Parenthesised text gives the negation of its contents: when the contents
      rewrite to an unsigned decimal literal, `(x)` reads as minus its value
      and `x` alone as its value. */
  lemma PrepParentheses(x: string, l: Decimal.Literal)
    requires Decimal.WellFormed(l) && l.sign == Decimal.Unsigned
    requires CommaToPoint(DropDollarsAndSpaces(x)) == Decimal.Render(l)
    ensures PrepareNumber(Str("(" + x + ")")) == Some(-Decimal.Value(l))
    ensures PrepareNumber(Str(x)) == Some(Decimal.Value(l))
  {
    PrepNegated(x, l);
    PrepUnsigned(x, l);
  }

  lemma {:induction false} PrepNegated(x: string, l: Decimal.Literal)
    requires Decimal.WellFormed(l) && l.sign == Decimal.Unsigned
    requires CommaToPoint(DropDollarsAndSpaces(x)) == Decimal.Render(l)
    ensures PrepareNumber(Str("(" + x + ")")) == Some(-Decimal.Value(l))
  {
    var m := Decimal.Negated(l);
    assert Decimal.Value(m) == -Decimal.Value(l);
    ParenthesisedUnpadded(x);
    ParenthesisedRewrite(x, l);
    PrepReadsAs("(" + x + ")", m);
  }

  /** Unpadded text that is not a sentinel and rewrites to a literal reads as
      the literal's value. */
  lemma PrepReadsAs(w: string, m: Decimal.Literal)
    requires Decimal.WellFormed(m)
    requires Strip(w) == w && !IsSentinel(w)
    requires PrepRewrite(w) == Decimal.Render(m)
    ensures PrepareNumber(Str(w)) == Some(Decimal.Value(m))
  {
    LiteralReads(m);
  }

  lemma ParenthesisedUnpadded(x: string)
    ensures Strip("(" + x + ")") == "(" + x + ")"
    ensures !IsSentinel("(" + x + ")")
  {
    var w := "(" + x + ")";
    assert w[0] == '(' && w[|w| - 1] == ')';
    assert !IsSpace('(') && !IsSpace(')');
    StripUnpadded(w);
    assert w != "$-" by { assert w[0] != "$-"[0]; }
  }

  lemma ParenthesisedRewrite(x: string, l: Decimal.Literal)
    requires CommaToPoint(DropDollarsAndSpaces(x)) == Decimal.Render(l)
    ensures PrepRewrite("(" + x + ")") == "-" + Decimal.Render(l)
  {
    var lit := Decimal.Render(l);
    RewriteParenthesised(x);
    var v := "(" + lit + ")";
    assert v[1..|v| - 1] == lit;
  }

  /** Parentheses survive the first two steps of the rewrite. */
  lemma RewriteParenthesised(x: string)
    ensures CommaToPoint(DropDollarsAndSpaces("(" + x + ")"))
         == "(" + CommaToPoint(DropDollarsAndSpaces(x)) + ")"
  {
    DropNothing("(");
    DropNothing(")");
    DropAround("(", x, ")");
    CommaAround("(", DropDollarsAndSpaces(x), ")");
  }

  lemma DropAround(a: string, x: string, b: string)
    requires DropDollarsAndSpaces(a) == a && DropDollarsAndSpaces(b) == b
    ensures DropDollarsAndSpaces(a + x + b) == a + DropDollarsAndSpaces(x) + b
  {
    DropConcat(a, x);
    DropConcat(a + x, b);
  }

  lemma CommaAround(a: string, x: string, b: string)
    requires ',' !in a && ',' !in b
    ensures CommaToPoint(a + x + b) == a + CommaToPoint(x) + b
  {
    ReplaceCharConcat(a, x, ',', ['.']);
    ReplaceCharConcat(a + x, b, ',', ['.']);
    ReplaceAbsentChar(a, ',', ['.']);
    ReplaceAbsentChar(b, ',', ['.']);
  }

  /** A literal has no surrounding whitespace. */
  lemma LiteralUnpadded(l: Decimal.Literal)
    requires Decimal.WellFormed(l)
    ensures Strip(Decimal.Render(l)) == Decimal.Render(l)
  {
    var lit := Decimal.Render(l);
    Decimal.LiteralAlphabet(l);
    assert |lit| > 0 by { Decimal.NotLiterals(); Decimal.ParseRender(l); }
    StripUnpadded(lit);
  }

  /** Text that rewrites to an unsigned literal reads as its value. */
  lemma PrepUnsigned(x: string, l: Decimal.Literal)
    requires Decimal.WellFormed(l) && l.sign == Decimal.Unsigned
    requires CommaToPoint(DropDollarsAndSpaces(x)) == Decimal.Render(l)
    ensures PrepareNumber(Str(x)) == Some(Decimal.Value(l))
  {
    var lit := Decimal.Render(l);
    var t := Strip(x);
    PrepUnsignedStripped(x, l);
    PrepUnsignedNotSentinel(x, l);
    PrepUnsignedRewrite(x, l);
    LiteralReads(l);
  }

  lemma PrepUnsignedStripped(x: string, l: Decimal.Literal)
    requires Decimal.WellFormed(l)
    requires CommaToPoint(DropDollarsAndSpaces(x)) == Decimal.Render(l)
    ensures CommaToPoint(DropDollarsAndSpaces(Strip(x))) == Decimal.Render(l)
  {
    LiteralSourceSpacesOnly(x, l);
    DropAfterStrip(x);
  }

  lemma PrepUnsignedNotSentinel(x: string, l: Decimal.Literal)
    requires Decimal.WellFormed(l)
    requires CommaToPoint(DropDollarsAndSpaces(x)) == Decimal.Render(l)
    ensures !IsSentinel(Strip(x))
  {
    var t := Strip(x);
    PrepUnsignedStripped(x, l);
    if IsSentinel(t) {
      SentinelDrops(t);
      assert false;
    }
  }

  lemma PrepUnsignedRewrite(x: string, l: Decimal.Literal)
    requires Decimal.WellFormed(l) && l.sign == Decimal.Unsigned
    requires CommaToPoint(DropDollarsAndSpaces(x)) == Decimal.Render(l)
    ensures PrepRewrite(Strip(x)) == Decimal.Render(l)
  {
    PrepUnsignedStripped(x, l);
    Decimal.UnsignedStart(l);
  }

  /** `float()` reads a literal as its value. */
  lemma LiteralReads(l: Decimal.Literal)
    requires Decimal.WellFormed(l)
    ensures PyFloat(Decimal.Render(l)) == Some(Decimal.Value(l))
  {
    LiteralUnpadded(l);
    Decimal.ParseRender(l);
  }

  /** Text that rewrites to a literal has no whitespace other than spaces. */
  lemma LiteralSourceSpacesOnly(x: string, l: Decimal.Literal)
    requires Decimal.WellFormed(l)
    requires CommaToPoint(DropDollarsAndSpaces(x)) == Decimal.Render(l)
    ensures SpacesOnly(x)
  {
    LiteralHasNoSpace(l);
    RewriteSourceSpacesOnly(x);
  }

  /** A literal holds no whitespace. */
  lemma LiteralHasNoSpace(l: Decimal.Literal)
    requires Decimal.WellFormed(l)
    ensures forall i :: 0 <= i < |Decimal.Render(l)| ==> !IsSpace(Decimal.Render(l)[i])
  {
    Decimal.LiteralAlphabet(l);
  }

  /** Text whose rewrite holds no whitespace has no whitespace but spaces. */
  lemma RewriteSourceSpacesOnly(x: string)
    requires var v := CommaToPoint(DropDollarsAndSpaces(x));
             forall i :: 0 <= i < |v| ==> !IsSpace(v[i])
    ensures SpacesOnly(x)
  {
    var d := DropDollarsAndSpaces(x);
    var v := CommaToPoint(d);
    DropKeeps(x);
    forall i | 0 <= i < |x| && x[i] != ' ' ensures !IsSpace(x[i]) {
      var c := x[i];
      if c != '$' && c != ',' {
        assert c in multiset(x);
        assert c in multiset(d);
        var j :| 0 <= j < |d| && d[j] == c;
        assert v[j] == c;
      }
    }
  }

  // ---------------------------------------------------------------------------
  // cleandata.py: clean_numeric
  // ---------------------------------------------------------------------------

  /** `clean_numeric` of cleandata.py on a cell after `astype(str)`: `NA ` is
      removed, the text stripped, spaces dropped and the comma read as the
      decimal point. A text `float()` rejects raises, which is the failure
      carrying that text. A missing cell stays missing (NaN turned into the
      text `nan` reads back as NaN). */
  function CleanNumber(c: Cell): (r: Result<Option<real>, string>)
    ensures c.Missing? <==> r == Success(None)
    ensures c.Num? ==> r == Success(Some(c.number))
    ensures r.Failure? ==> c == Str(r.error)
  {
    match c
    case Missing => Success(None)
    case Num(x) => Success(Some(x))
    case Str(s) =>
      var v := CommaToPoint(DropChar(Strip(ReplaceAll(s, "NA ", "")), ' '));
      match PyFloat(v)
      case Some(x) => Success(Some(x))
      case None => Failure(s)
  }

  // ---------------------------------------------------------------------------
  // dashboardprep.py: convert_to_float
  // ---------------------------------------------------------------------------

  /** `convert_to_float` of dashboardprep.py: spaces dropped, the comma read as
      the decimal point; never raises. */
  function ConvertToFloat(c: Cell): (r: Option<real>)
    ensures c.Missing? ==> r.None?
    ensures c.Num? ==> r == Some(c.number)
  {
    match c
    case Missing => None
    case Num(x) => Some(x)
    case Str(s) => PyFloat(CommaToPoint(DropChar(s, ' ')))
  }

  /** Spaces never affect `convert_to_float`. */
  lemma ConvertIgnoresSpaces(s: string)
    ensures ConvertToFloat(Str(DropChar(s, ' '))) == ConvertToFloat(Str(s))
  {
    ReplaceAbsentChar(DropChar(s, ' '), ' ', []);
  }

  /** `convert_to_float` reads a comma as a decimal point. */
  lemma ConvertCommaIsPoint(s: string)
    ensures ConvertToFloat(Str(CommaToPoint(s))) == ConvertToFloat(Str(s))
  {
    DeleteReplaceCommute(s, ' ', ',', '.');
    ReplaceCharTwice(DropChar(s, ' '), ',', '.');
  }

  /** The star-schema script converts the amount columns twice (once after
      loading, once when shaping); the second pass changes nothing. */
  lemma ConvertTwice(c: Cell)
    ensures ConvertToFloat(ToCell(ConvertToFloat(c))) == ConvertToFloat(c)
  {
  }

  /** On text without `NA `, cleandata.py's normaliser succeeds exactly when
      dashboardprep.py's yields a number, and then with the same number. */
  lemma CleanAgreesWithConvert(s: string)
    requires forall i :: 0 <= i < |s| ==> !OccursAt(s, "NA ", i)
    ensures CleanNumber(Str(s)).Success? <==> ConvertToFloat(Str(s)).Some?
    ensures ConvertToFloat(Str(s)).Some? ==> CleanNumber(Str(s)).value == ConvertToFloat(Str(s))
  {
    ReplaceNoMatch(s, "NA ", "");
    ConvertReadsStripped(s);
    CleanReadsStripped(s);
  }

  /** `convert_to_float` reads the text as if it had been stripped first. */
  lemma ConvertReadsStripped(s: string)
    ensures ConvertToFloat(Str(s)) == Decimal.Parse(CommaToPoint(DropChar(Strip(s), ' ')))
  {
    var v := CommaToPoint(DropChar(Strip(s), ' '));
    assert Strip(CommaToPoint(DropChar(s, ' '))) == v by { RewriteAfterStrip(s); }
  }

  /** The normaliser parses the stripped rewrite of the text once `NA ` is
      removed. */
  lemma CleanReadsStripped(s: string)
    ensures var p := Decimal.Parse(CommaToPoint(DropChar(Strip(ReplaceAll(s, "NA ", "")), ' ')));
            CleanNumber(Str(s)) == if p.Some? then Success(p) else Failure(s)
  {
    var t := ReplaceAll(s, "NA ", "");
    var v := CommaToPoint(DropChar(Strip(t), ' '));
    assert CleanNumber(Str(s)) == if PyFloat(v).Some? then Success(PyFloat(v)) else Failure(s);
    RewriteKeepsEnds(Strip(t));
    PyFloatUnpadded(v);
  }

  /** Dropping spaces and reading commas as points works piece by piece. */
  lemma RewriteConcat(a: string, b: string, c: string)
    ensures CommaToPoint(DropChar(a + b + c, ' '))
         == CommaToPoint(DropChar(a, ' ')) + CommaToPoint(DropChar(b, ' ')) + CommaToPoint(DropChar(c, ' '))
  {
    ReplaceCharConcat(a, b, ' ', []);
    ReplaceCharConcat(a + b, c, ' ', []);
    var a', b', c' := DropChar(a, ' '), DropChar(b, ' '), DropChar(c, ' ');
    ReplaceCharConcat(a', b', ',', ['.']);
    ReplaceCharConcat(a' + b', c', ',', ['.']);
  }

  /** Stripping before the rewrite gives the stripped result of the rewrite. */
  lemma RewriteAfterStrip(s: string)
    ensures Strip(CommaToPoint(DropChar(s, ' '))) == CommaToPoint(DropChar(Strip(s), ' '))
  {
    var pre, post := StripParts(s);
    RewriteBetweenSpaces(s, pre, Strip(s), post);
  }

  /** Text without surrounding whitespace, padded with whitespace on both
      sides, rewrites to text whose strip is the rewrite of the middle. */
  lemma RewriteBetweenSpaces(s: string, pre: string, t: string, post: string)
    requires s == pre + t + post && AllSpace(pre) && AllSpace(post)
    requires Unpadded(t)
    ensures Strip(CommaToPoint(DropChar(s, ' '))) == CommaToPoint(DropChar(t, ' '))
  {
    RewriteConcat(pre, t, post);
    SpacesStaySpaces(pre);
    SpacesStaySpaces(post);
    RewriteKeepsEnds(t);
    StripPadded(CommaToPoint(DropChar(pre, ' ')), CommaToPoint(DropChar(t, ' ')), CommaToPoint(DropChar(post, ' ')));
  }

  /** `float()` strips its argument, which changes nothing on text without
      surrounding whitespace. */
  lemma PyFloatUnpadded(v: string)
    requires Unpadded(v)
    ensures PyFloat(v) == Decimal.Parse(v)
  {
    StripUnpadded(v);
  }

  /** The rewrite of text without surrounding whitespace has none either. */
  lemma RewriteKeepsEnds(t: string)
    requires Unpadded(t)
    ensures var v := CommaToPoint(DropChar(t, ' '));
            Unpadded(v)
  {
    if t != [] {
      RewriteKeepsNonEmptyEnds(t);
    }
  }

  lemma RewriteKeepsNonEmptyEnds(t: string)
    requires |t| > 0 && !IsSpace(t[0]) && !IsSpace(t[|t| - 1])
    ensures var v := CommaToPoint(DropChar(t, ' '));
            |v| > 0 && !IsSpace(v[0]) && !IsSpace(v[|v| - 1])
  {
    var d := DropChar(t, ' ');
    var v := CommaToPoint(d);
    DropFirstKept(t);
    DropLastKept(t);
    assert !IsSpace('.');
    assert v[0] == '.' || v[0] == t[0];
    assert v[|v| - 1] == '.' || v[|v| - 1] == t[|t| - 1];
  }

  /** Dropping spaces from text that starts with a non-space keeps that first character. */
  lemma DropFirstKept(t: string)
    requires |t| > 0 && !IsSpace(t[0])
    ensures var v := DropChar(t, ' '); |v| > 0 && v[0] == t[0]
  {
    ReplaceCharStep(t, ' ', []);
  }

  /** Whitespace stays whitespace once spaces are dropped and commas read as points. */
  lemma SpacesStaySpaces(p: string)
    requires AllSpace(p)
    ensures AllSpace(CommaToPoint(DropChar(p, ' ')))
  {
    var d := DropChar(p, ' ');
    DeleteCharContents(p, ' ');
    forall i | 0 <= i < |d| ensures IsSpace(d[i]) {
      assert d[i] in multiset(d);
      assert d[i] in p;
    }
  }

  /** Dropping spaces from text that ends in a non-space keeps that last character. */
  lemma DropLastKept(t: string)
    requires |t| > 0 && !IsSpace(t[|t| - 1])
    ensures var v := DropChar(t, ' '); |v| > 0 && v[|v| - 1] == t[|t| - 1]
  {
    var n := |t| - 1;
    assert t == t[..n] + [t[n]];
    ReplaceCharConcat(t[..n], [t[n]], ' ', []);
    ReplaceCharStep([t[n]], ' ', []);
    assert [t[n]][1..] == [];
  }

  // ---------------------------------------------------------------------------
  // Worked examples
  // ---------------------------------------------------------------------------

  /** Text without `$` or spaces is left alone by their removal. */
  lemma DropNothing(s: string)
    requires '$' !in s && ' ' !in s
    ensures DropDollarsAndSpaces(s) == s
  {
    ReplaceAbsentChar(s, '$', []);
    ReplaceAbsentChar(s, ' ', []);
  }

  /** The literal `1.50`, worth 1.5. */
  lemma OnePointFifty() returns (l: Decimal.Literal)
    ensures Decimal.WellFormed(l) && l.sign == Decimal.Unsigned
    ensures Decimal.Render(l) == "1.50" && Decimal.Value(l) == 1.5
  {
    l := Decimal.Literal(Decimal.Unsigned, "1", true, "50");
    assert "1"[..0] == "" && "50"[..1] == "5" && "5"[..0] == "";
    assert Decimal.DigitsValue("1") == 1;
    assert Decimal.DigitsValue("50") == 50;
    assert Decimal.Shifted(50, 1) == 5.0 && Decimal.Shifted(50, 2) == 0.5;
  }

  /** `"1,50"` and `"1.50"` both read as 1.5. */
  lemma PrepCommaExample()
    ensures PrepareNumber(Str("1,50")) == Some(1.5)
    ensures PrepareNumber(Str("1.50")) == Some(1.5)
  {
    var l := OnePointFifty();
    CommaExampleRewrite("1,50");
    CommaExampleRewrite("1.50");
    PrepUnsigned("1,50", l);
    PrepUnsigned("1.50", l);
  }

  /** `"($1,50)"` reads as -1.5. */
  lemma PrepParenthesesExample()
    ensures PrepareNumber(Str("($1,50)")) == Some(-1.5)
  {
    var l := OnePointFifty();
    var x := "$1,50";
    assert "(" + x + ")" == "($1,50)";
    assert PrepareNumber(Str("(" + x + ")")) == Some(-Decimal.Value(l)) by {
      DollarExampleRewrite();
      PrepNegated(x, l);
    }
  }

  lemma CommaExampleRewrite(s: string)
    requires s == "1,50" || s == "1.50"
    ensures CommaToPoint(DropDollarsAndSpaces(s)) == "1.50"
  {
    assert DropDollarsAndSpaces(s) == s by { DropNothing(s); }
    CommaExampleChars(s);
  }

  lemma DollarExampleRewrite()
    ensures CommaToPoint(DropDollarsAndSpaces("$1,50")) == "1.50"
  {
    assert '$' !in "1,50" && ' ' !in "1,50";
    DropLeadingDollar("1,50");
    CommaExampleChars("1,50");
  }

  lemma CommaExampleChars(s: string)
    requires s == "1,50" || s == "1.50"
    ensures CommaToPoint(s) == "1.50"
  {
    var r := CommaToPoint(s);
    assert r[0] == '1' && r[1] == '.' && r[2] == '5' && r[3] == '0';
  }

  lemma DropLeadingDollar(s: string)
    requires '$' !in s && ' ' !in s
    ensures DropDollarsAndSpaces("$" + s) == s
  {
    var w := "$" + s;
    ReplaceCharStep(w, '$', []);
    assert w[1..] == s;
    ReplaceAbsentChar(s, '$', []);
    assert DropChar(w, '$') == s;
    ReplaceAbsentChar(s, ' ', []);
    assert DropChar(s, ' ') == s;
  }

  /** Text holding two separators (points or commas, in any mix) is never a
      number: after the rewrite it has two points. So `"1.234,56"`, which
      becomes `"1.234.56"`, is missing. */
  lemma {:induction false} PrepRejectsTwoSeparators(s: string)
    requires multiset(s)['.'] + multiset(s)[','] >= 2
    ensures PrepareNumber(Str(s)) == None
  {
    var t := Strip(s);
    if !IsSentinel(t) {
      var v := CommaToPoint(DropDollarsAndSpaces(t));
      assert multiset(v)['.'] >= 2 by {
        StripKeeps(s, '.');
        StripKeeps(s, ',');
        DropKeeps(t);
        ReplaceCharCount(DropDollarsAndSpaces(t), ',', '.');
      }
      var r := PrepRewrite(t);
      assert multiset(r)['.'] >= 2 by { ParenthesisedPoints(v); }
      assert multiset(Strip(r))['.'] >= 2 by { StripKeeps(r, '.'); }
      Decimal.TwoPointsRejected(Strip(r));
    }
  }

  /** Reading parentheses as a minus sign keeps the points. */
  lemma ParenthesisedPoints(v: string)
    ensures multiset(Parenthesised(v))['.'] == multiset(v)['.']
  {
    if |v| > 0 && v[0] == '(' && v[|v| - 1] == ')' {
      var inner := v[1..|v| - 1];
      assert v == [v[0]] + inner + [v[|v| - 1]];
    }
  }

  lemma PrepRejectsExample()
    ensures PrepareNumber(Str("1.234,56")) == None
  {
    var s := "1.234,56";
    BothSeparators(s, 1, 5);
    PrepRejectsTwoSeparators(s);
  }

  /** `convert_to_float` also reads text with two separators as missing, so
      `"1,234.56"` is missing. */
  lemma {:induction false} ConvertRejectsTwoSeparators(s: string)
    requires multiset(s)['.'] + multiset(s)[','] >= 2
    ensures ConvertToFloat(Str(s)) == None
  {
    var d := DropChar(s, ' ');
    var v := CommaToPoint(d);
    DeleteCharContents(s, ' ');
    assert multiset(v)['.'] >= 2 by { ReplaceCharCount(d, ',', '.'); }
    assert multiset(Strip(v))['.'] >= 2 by { StripKeeps(v, '.'); }
    Decimal.TwoPointsRejected(Strip(v));
  }

  lemma ConvertRejectsExample()
    ensures ConvertToFloat(Str("1,234.56")) == None
  {
    var s := "1,234.56";
    BothSeparators(s, 5, 1);
    ConvertRejectsTwoSeparators(s);
  }

  lemma BothSeparators(s: string, i: nat, j: nat)
    requires i < |s| && j < |s| && s[i] == '.' && s[j] == ','
    ensures multiset(s)['.'] + multiset(s)[','] >= 2
  {
    assert s[i] in multiset(s) && s[j] in multiset(s);
  }

  /** `"NA 1 500,25"` is cleaned to 1500.25. */
  lemma CleanExample()
    ensures CleanNumber(Str("NA 1 500,25")) == Success(Some(1500.25))
  {
    var s, a := "NA 1 500,25", "1 500,25";
    var t := ReplaceAll(s, "NA ", "");
    CleanExampleMarker(s, a);
    assert a[0] == '1' && a[|a| - 1] == '5';
    RewriteStripped(a);
    var v := CleanExampleTail(a);
    assert CommaToPoint(DropChar(Strip(t), ' ')) == v;
    CleanReadsStripped(s);
  }

  /** Stripping text without surrounding whitespace before the rewrite
      changes nothing. */
  lemma RewriteStripped(a: string)
    requires Unpadded(a)
    ensures CommaToPoint(DropChar(Strip(a), ' ')) == CommaToPoint(DropChar(a, ' '))
  {
    StripUnpadded(a);
  }

  lemma CleanExampleTail(a: string) returns (v: string)
    requires a == "1 500,25"
    ensures CommaToPoint(DropChar(a, ' ')) == v
    ensures Decimal.Parse(v) == Some(1500.25)
  {
    v := "1500.25";
    var b := DropChar(a, ' ');
    assert b == "1500,25" by { CleanExampleSpace(a, "1500,25"); }
    assert CommaToPoint(b) == v by { CleanExampleComma(b, v); }
    CleanExampleValue(v);
  }

  lemma CleanExampleMarker(s: string, a: string)
    requires s == "NA 1 500,25" && a == "1 500,25"
    ensures ReplaceAll(s, "NA ", "") == a
  {
    assert s[..3] == "NA " && s[3..] == a;
    ReplaceAbsentHead(a, "NA ", "");
  }

  lemma CleanExampleSpace(a: string, b: string)
    requires a == "1 500,25" && b == "1500,25"
    ensures DropChar(a, ' ') == b
  {
    var x, y := a[..1], a[2..];
    assert a == x + " " + y && b == x + y;
    DropOneSpace(x, y);
  }

  /** Dropping the one space between two space-free texts joins them. */
  lemma DropOneSpace(x: string, y: string)
    requires ' ' !in x && ' ' !in y
    ensures DropChar(x + " " + y, ' ') == x + y
  {
    DropTrailingSpace(x);
    ReplaceCharConcat(x + " ", y, ' ', []);
    ReplaceAbsentChar(y, ' ', []);
  }

  lemma DropTrailingSpace(x: string)
    requires ' ' !in x
    ensures ReplaceAll(x + " ", [' '], []) == x
  {
    ReplaceCharConcat(x, " ", ' ', []);
    ReplaceAbsentChar(x, ' ', []);
    ReplaceCharStep(" ", ' ', []);
    assert x + [] == x;
  }

  lemma CleanExampleComma(b: string, v: string)
    requires b == "1500,25" && v == "1500.25"
    ensures CommaToPoint(b) == v
  {
    var r := CommaToPoint(b);
    assert r[4] == '.';
    assert forall i :: 0 <= i < 7 && i != 4 ==> r[i] == v[i];
  }

  lemma CleanExampleValue(v: string)
    requires v == "1500.25"
    ensures Decimal.Parse(v) == Some(1500.25)
  {
    var l := Decimal.Literal(Decimal.Unsigned, "1500", true, "25");
    ExampleLiteral(l);
    Decimal.ParseRender(l);
  }

  lemma ExampleLiteral(l: Decimal.Literal)
    requires l == Decimal.Literal(Decimal.Unsigned, "1500", true, "25")
    ensures Decimal.WellFormed(l) && Decimal.Render(l) == "1500.25"
    ensures Decimal.Value(l) == 1500.25
  {
    ExampleDigits();
    assert Decimal.Shifted(25, 1) == 2.5 && Decimal.Shifted(25, 2) == 0.25;
  }

  lemma ExampleDigits()
    ensures Decimal.AllDigits("1500") && Decimal.DigitsValue("1500") == 1500
    ensures Decimal.AllDigits("25") && Decimal.DigitsValue("25") == 25
  {
    assert "1500"[..3] == "150" && "150"[..2] == "15" && "15"[..1] == "1" && "1"[..0] == "";
    assert "25"[..1] == "2" && "2"[..0] == "";
  }

  /** Text that is still not a number after the clean-up, such as `"abc"`, is
      not recovered: the cell fails with its text. */
  lemma CleanRejectsExample()
    ensures CleanNumber(Str("abc")) == Failure("abc")
  {
    CleanRejectsWord("abc");
  }

  lemma CleanRejectsWord(s: string)
    requires s == "abc"
    ensures CleanNumber(Str(s)) == Failure(s)
  {
    assert !IsSpace(s[0]) && !IsSpace(s[|s| - 1]);
    assert !Decimal.IsDigit(s[0]) && s[0] !in "+-.";
    assert 'N' !in s && ' ' !in s && ',' !in s;
    CleanRejectsForeign(s);
  }

  /** `NA` is removed only together with the space after it: ` NA` strips
      to `NA`, `NA  ` to nothing, and neither is a number. */
  lemma CleanRejectsBareNA()
    ensures CleanNumber(Str(" NA")) == Failure(" NA")
    ensures CleanNumber(Str("NA  ")) == Failure("NA  ")
  {
    CleanRejectsLeadingSpaceNA(" NA");
    CleanRejectsEmptiedNA("NA  ");
  }

  lemma CleanRejectsLeadingSpaceNA(s: string)
    requires s == " NA"
    ensures CleanNumber(Str(s)) == Failure(s)
  {
    var t := s[1..];
    LeadingSpaceNAKept(s);
    LeadingSpaceNAStrips(s);
    assert t == ['N', 'A'];
    assert !IsSpace(t[0]) && !IsSpace(t[|t| - 1]) && !Decimal.IsDigit(t[0]) && t[0] !in "+-.";
    ReplaceAbsentChar(t, ' ', []);
    ReplaceAbsentChar(t, ',', ['.']);
    ForeignStartRejected(t);
  }

  lemma LeadingSpaceNAKept(s: string)
    requires s == " NA"
    ensures ReplaceAll(s, "NA ", "") == s
  {
    assert s[..3] != "NA " by {
      assert s[..3][0] == ' ';
    }
    assert ReplaceAll(s[1..], "NA ", "") == s[1..];
  }

  lemma LeadingSpaceNAStrips(s: string)
    requires s == " NA"
    ensures Strip(s) == s[1..]
  {
    var t := s[1..];
    assert IsSpace(s[0]) && t == ['N', 'A'] && !IsSpace(t[0]) && !IsSpace(t[|t| - 1]);
    assert StripLeft(s) == StripLeft(t);
    StripUnpadded(t);
    assert StripLeft(t) == t;
  }

  lemma CleanRejectsEmptiedNA(s: string)
    requires s == "NA  "
    ensures CleanNumber(Str(s)) == Failure(s)
  {
    EmptiedNAStrips(s);
    EmptyNotFloat();
  }

  lemma EmptiedNAStrips(s: string)
    requires s == "NA  "
    ensures Strip(ReplaceAll(s, "NA ", "")) == []
  {
    assert s[..3] == "NA " && s[3..] == [' '];
    assert ReplaceAll(s, "NA ", "") == [' '];
    assert IsSpace(' ');
    assert StripLeft([' ']) == StripLeft([]) == [];
  }

  lemma EmptyNotFloat()
    ensures PyFloat(CommaToPoint(DropChar([], ' '))) == None
  {
    assert CommaToPoint(DropChar([], ' ')) == [] by {
      assert ReplaceAll([], [' '], []) == [];
    }
    assert Strip([]) == [];
    Decimal.NotLiterals();
  }

  /** Unpadded text without `N`, spaces or commas whose first character
      cannot begin a number fails with its own text. */
  lemma CleanRejectsForeign(s: string)
    requires |s| > 0 && !IsSpace(s[0]) && !IsSpace(s[|s| - 1])
    requires !Decimal.IsDigit(s[0]) && s[0] !in "+-."
    requires 'N' !in s && ' ' !in s && ',' !in s
    ensures CleanNumber(Str(s)) == Failure(s)
  {
    ReplaceAbsentHead(s, "NA ", "");
    StripUnpadded(s);
    ReplaceAbsentChar(s, ' ', []);
    ReplaceAbsentChar(s, ',', ['.']);
    assert CommaToPoint(DropChar(Strip(ReplaceAll(s, "NA ", "")), ' ')) == s;
    ForeignStartRejected(s);
  }

  /** Unpadded text starting with a character that cannot begin a number is
      not one. */
  lemma ForeignStartRejected(s: string)
    requires |s| > 0 && !IsSpace(s[0]) && !IsSpace(s[|s| - 1])
    requires !Decimal.IsDigit(s[0]) && s[0] !in "+-."
    ensures PyFloat(s) == None
  {
    StripUnpadded(s);
    Decimal.ForeignRejected(s, 0);
  }
}
