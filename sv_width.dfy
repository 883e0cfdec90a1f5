/** Packed-range text and width in src/sv_parse.rs: the expression builder
    `parse_expression`, which joins the source text of the tokens under a
    node while skipping repeats of the same source span, the width rule
    `compute_packed_range_width_bits` and its wrapper
    `parse_packed_dimension_range`. */
module SvWidth {
  import opened Text
  import opened SvEval

  /** A span of source text, as the parser reports it. */
  datatype Locate = Locate(offset: nat, line: nat, len: nat)

  /** A leaf the expression builder recognises (identifier, symbol or
      number), with its span and its source text; a based number's text is
      its size, base and digits together, and its span is the base's. */
  datatype Token = Token(locate: Locate, text: string)

  /** The span the builder starts from. */
  const StartLocate := Locate(0, 0, 0)

  /** The span of the last token in `ts`, or the start span. */
  function LastLocate(ts: seq<Token>): Locate
  {
    if ts == [] then StartLocate else ts[|ts| - 1].locate
  }

  /** The tokens the builder accepts, in visit order: a token is accepted
      when its span differs from that of the last accepted token. */
  function Accepted(tokens: seq<Token>): seq<Token>
    decreases |tokens|
  {
    if tokens == [] then []
    else
      var prev := Accepted(tokens[..|tokens| - 1]);
      var t := tokens[|tokens| - 1];
      if t.locate != LastLocate(prev) then prev + [t] else prev
  }

  /** The texts of `ts` concatenated. */
  function Concat(ts: seq<Token>): string
    decreases |ts|
  {
    if ts == [] then "" else Concat(ts[..|ts| - 1]) + ts[|ts| - 1].text
  }

  /** What `parse_expression` returns for the visited tokens: the
      concatenated accepted texts with the last accepted span, or
      `unknown` with no span when that text is empty. */
  function ExpressionOf(tokens: seq<Token>): (string, Option<Locate>)
  {
    var acc := Accepted(tokens);
    if Concat(acc) == "" then ("unknown", None) else (Concat(acc), Some(LastLocate(acc)))
  }

  /** `parse_expression`. */
  method ParseExpression(tokens: seq<Token>) returns (expression: string, locate: Option<Locate>)
    ensures (expression, locate) == ExpressionOf(tokens)
  {
    var lastLocate := StartLocate;
    expression := "";
    var i := 0;
    while i < |tokens|
      invariant 0 <= i <= |tokens|
      invariant lastLocate == LastLocate(Accepted(tokens[..i]))
      invariant expression == Concat(Accepted(tokens[..i]))
    {
      var t := tokens[i];
      assert tokens[..i + 1][..i] == tokens[..i];
      if t.locate != lastLocate {
        lastLocate := t.locate;
        expression := expression + t.text;
      }
      i := i + 1;
    }
    assert tokens[..i] == tokens;
    if expression == "" {
      expression, locate := "unknown", None;
    } else {
      locate := Some(lastLocate);
    }
  }

  /** No two consecutive tokens share a span, and the first is not at the
      start span. */
  predicate Deduplicated(ts: seq<Token>)
  {
    && (ts == [] || ts[0].locate != StartLocate)
    && forall i :: 0 < i < |ts| ==> ts[i].locate != ts[i - 1].locate
  }

  /** The accepted tokens never repeat a span back to back. */
  lemma {:induction false} AcceptedDeduplicated(tokens: seq<Token>)
    ensures Deduplicated(Accepted(tokens))
    decreases |tokens|
  {
    if tokens != [] {
      AcceptedDeduplicated(tokens[..|tokens| - 1]);
    }
  }

  /** Tokens that never repeat a span back to back are all accepted, and
      only then is every token accepted. */
  lemma {:induction false} AcceptedAll(tokens: seq<Token>)
    ensures Accepted(tokens) == tokens <==> Deduplicated(tokens)
    decreases |tokens|
  {
    AcceptedDeduplicated(tokens);
    if tokens != [] {
      var front := tokens[..|tokens| - 1];
      AcceptedAll(front);
      AcceptedLength(front);
      if Deduplicated(tokens) {
        assert Deduplicated(front);
        assert front + [tokens[|tokens| - 1]] == tokens;
      }
    }
  }

  lemma {:induction false} AcceptedLength(tokens: seq<Token>)
    ensures |Accepted(tokens)| <= |tokens|
    decreases |tokens|
  {
    if tokens != [] {
      AcceptedLength(tokens[..|tokens| - 1]);
    }
  }

  /** Each token visited twice in a row, as when several nested nodes lead
      to the same leaf. */
  function Stutter(tokens: seq<Token>): (r: seq<Token>)
    ensures |r| == 2 * |tokens|
    decreases |tokens|
  {
    if tokens == [] then []
    else Stutter(tokens[..|tokens| - 1]) + [tokens[|tokens| - 1]] + [tokens[|tokens| - 1]]
  }

  /** Visiting one more token. */
  lemma AcceptedSnoc(ts: seq<Token>, t: Token)
    ensures Accepted(ts + [t])
         == if t.locate != LastLocate(Accepted(ts)) then Accepted(ts) + [t] else Accepted(ts)
    ensures LastLocate(Accepted(ts + [t])) == t.locate
  {
    assert (ts + [t])[..|ts|] == ts;
  }

  /** Reaching each leaf twice in a row builds the same expression as
      reaching it once. */
  lemma {:induction false} StutterAccepted(tokens: seq<Token>)
    ensures Accepted(Stutter(tokens)) == Accepted(tokens)
    decreases |tokens|
  {
    if tokens != [] {
      var front := tokens[..|tokens| - 1];
      var t := tokens[|tokens| - 1];
      StutterAccepted(front);
      var s1 := Stutter(front) + [t];
      AcceptedSnoc(Stutter(front), t);
      AcceptedSnoc(s1, t);
    }
  }

  lemma StutterExpression(tokens: seq<Token>)
    ensures ExpressionOf(Stutter(tokens)) == ExpressionOf(tokens)
  {
    StutterAccepted(tokens);
  }

  /** The expression is `unknown` with no span exactly when the accepted
      texts are all empty; otherwise it carries the span of the last
      accepted token. */
  lemma ExpressionSpan(tokens: seq<Token>)
    ensures ExpressionOf(tokens).1.None? <==> Concat(Accepted(tokens)) == ""
    ensures ExpressionOf(tokens).1.Some? ==>
      (|Accepted(tokens)| > 0 && ExpressionOf(tokens).1.value == Accepted(tokens)[|Accepted(tokens)| - 1].locate)
  {
    if Accepted(tokens) == [] {
      assert Concat(Accepted(tokens)) == "";
    }
  }

  /** Splitting at the first `sep`: the text before it and, when `sep`
      occurs, the text after it (Rust's `splitn(2, sep)`). */
  function SplitOnce(s: string, sep: char): (r: (string, Option<string>))
    ensures sep in s <==> r.1.Some?
    ensures sep !in r.0
    ensures r.1.None? ==> r.0 == s
    ensures r.1.Some? ==> s == r.0 + [sep] + r.1.value
    decreases |s|
  {
    if s == [] then ("", None)
    else if s[0] == sep then ("", Some(s[1..]))
    else
      var rest := SplitOnce(s[1..], sep);
      ([s[0]] + rest.0, rest.1)
  }

  /** The text split at a separator the first part does not hold. */
  lemma {:induction false} SplitOnceAt(a: string, sep: char, b: string)
    requires sep !in a
    ensures SplitOnce(a + [sep] + b, sep) == (a, Some(b))
    decreases |a|
  {
    var s := a + [sep] + b;
    if a == [] {
      assert s[0] == sep && s[1..] == b;
    } else {
      assert s[0] == a[0] && s[1..] == a[1..] + [sep] + b;
      SplitOnceAt(a[1..], sep, b);
      assert [a[0]] + a[1..] == a;
    }
  }

  /** The text starts with `[` and ends with `]`. */
  predicate Bracketed(t: string)
  {
    |t| >= 2 && t[0] == '[' && t[|t| - 1] == ']'
  }

  /** The two bounds of a range text: the trimmed text must be bracketed
      and its inside hold a colon; the inside is split at the first colon
      and both sides are trimmed. */
  function RangeBounds(expr: string): (r: Option<(string, string)>)
    ensures r.Some? <==> Bracketed(Trim(expr)) && ':' in Trim(expr)[1..|Trim(expr)| - 1]
  {
    var t := Trim(expr);
    if !Bracketed(t) then None
    else
      var parts := SplitOnce(t[1..|t| - 1], ':');
      if parts.1.None? then None else Some((Trim(parts.0), Trim(parts.1.value)))
  }

  /** The width of a range with the given evaluated bounds:
      `|msb - lsb| + 1` when both evaluated. */
  function BoundsWidth(msb: Option<int>, lsb: Option<int>): (r: Option<int>)
    ensures r.Some? <==> msb.Some? && lsb.Some?
    ensures r.Some? ==> r.value >= 1 && (r.value == msb.value - lsb.value + 1 || r.value == lsb.value - msb.value + 1)
  {
    if msb.Some? && lsb.Some? then Some(Abs(msb.value - lsb.value) + 1) else None
  }

  /** The width does not depend on which bound is written first. */
  lemma BoundsWidthSymmetric(msb: Option<int>, lsb: Option<int>)
    ensures BoundsWidth(msb, lsb) == BoundsWidth(lsb, msb)
  {
    if msb.Some? && lsb.Some? {
      assert Abs(msb.value - lsb.value) == Abs(lsb.value - msb.value);
    }
  }

  /** `compute_packed_range_width_bits`, with `evalBound` as the bound
      evaluator (`eval_int_expr` over the macros in scope): both bounds of a
      range text are evaluated and the width is `|msb - lsb| + 1`; there is
      no width when the text is not a range or a bound fails to evaluate. */
  function PackedRangeWidth(evalBound: string -> Option<int>, expr: string): (r: Option<int>)
    ensures r.Some? ==> r.value >= 1
    ensures r.Some? <==>
      (&& RangeBounds(expr).Some?
       && evalBound(RangeBounds(expr).value.0).Some?
       && evalBound(RangeBounds(expr).value.1).Some?)
  {
    match RangeBounds(expr)
    case None => None
    case Some((left, right)) => BoundsWidth(evalBound(left), evalBound(right))
  }

  /** The bound evaluator `eval_int_expr` provides for a macro map. */
  function Evaluator(engine: Engine, defines: map<string, string>): string -> Option<int>
  {
    (s: string) => EvalInt(engine, s, defines)
  }

  function Abs(x: int): (r: nat)
    ensures r == x || r == -x
  {
    if x < 0 then -x else x
  }

  /** The bounds of `[a:b]` are `a` and `b` when they are unpadded and
      `a` holds no colon. */
  lemma RangeBoundsOf(a: string, b: string)
    requires ':' !in a && Unpadded(a) && Unpadded(b)
    ensures RangeBounds("[" + a + ":" + b + "]") == Some((a, b))
  {
    var s := "[" + a + ":" + b + "]";
    BracketedRange(a, b);
    SplitOnceAt(a, ':', b);
    TrimUntouched(a);
    TrimUntouched(b);
  }

  lemma BracketedRange(a: string, b: string)
    ensures var s := "[" + a + ":" + b + "]";
      Trim(s) == s && Bracketed(s) && s[1..|s| - 1] == a + [':'] + b
  {
    var s := "[" + a + ":" + b + "]";
    assert s[0] == '[' && s[|s| - 1] == ']';
    TrimUntouched(s);
    assert s[1..|s| - 1] == a + [':'] + b;
  }

  /** A bracketed range `[a:b]` whose bounds are unpadded and colon-free
      has the width `|msb - lsb| + 1` of its evaluated bounds, and none when
      a bound fails to evaluate. */
  lemma RangeWidth(evalBound: string -> Option<int>, a: string, b: string)
    requires ':' !in a && Unpadded(a) && Unpadded(b)
    ensures PackedRangeWidth(evalBound, "[" + a + ":" + b + "]") == BoundsWidth(evalBound(a), evalBound(b))
  {
    RangeBoundsOf(a, b);
  }

  /** Writing a range the other way round gives the same width. */
  lemma RangeWidthSymmetric(evalBound: string -> Option<int>, a: string, b: string)
    requires ':' !in a && ':' !in b && Unpadded(a) && Unpadded(b)
    ensures PackedRangeWidth(evalBound, "[" + a + ":" + b + "]")
         == PackedRangeWidth(evalBound, "[" + b + ":" + a + "]")
  {
    RangeWidth(evalBound, a, b);
    RangeWidth(evalBound, b, a);
    BoundsWidthSymmetric(evalBound(a), evalBound(b));
  }

  /** A trimmed text that is not bracketed, or whose inside holds no
      colon, has no width. */
  lemma NoWidthWithoutColon(evalBound: string -> Option<int>, expr: string)
    requires !Bracketed(Trim(expr)) || ':' !in Trim(expr)[1..|Trim(expr)| - 1]
    ensures PackedRangeWidth(evalBound, expr).None?
  {
  }

  /** For an engine that reads decimal text as its value, a decimal bound
      evaluates to itself whatever the macros. */
  lemma DecimalBound(engine: Engine, n: nat, defines: map<string, string>)
    requires forall scope, k: nat :: engine.eval(scope, DecimalText(k)) == Some(k)
    ensures Evaluator(engine, defines)(DecimalText(n)) == Some(n)
  {
    DigitsPlain(DecimalText(n));
    PreprocessPlain(DecimalText(n));
  }

  /** A range written in decimal, `[m:l]`, whose bounds evaluate to their
      values has width `|m - l| + 1`. */
  lemma DecimalRangeWidth(evalBound: string -> Option<int>, m: nat, l: nat)
    requires evalBound(DecimalText(m)) == Some(m) && evalBound(DecimalText(l)) == Some(l)
    ensures PackedRangeWidth(evalBound, "[" + DecimalText(m) + ":" + DecimalText(l) + "]") == Some(Abs(m - l) + 1)
  {
    DigitsPlain(DecimalText(m));
    DigitsPlain(DecimalText(l));
    RangeWidthOfValues(evalBound, DecimalText(m), DecimalText(l), m, l);
  }

  lemma RangeWidthOfValues(evalBound: string -> Option<int>, a: string, b: string, msb: int, lsb: int)
    requires ':' !in a && Unpadded(a) && Unpadded(b)
    requires evalBound(a) == Some(msb) && evalBound(b) == Some(lsb)
    ensures PackedRangeWidth(evalBound, "[" + a + ":" + b + "]") == Some(Abs(msb - lsb) + 1)
  {
    RangeWidth(evalBound, a, b);
  }

  lemma DigitsPlain(s: string)
    requires |s| > 0 && AllDigits(s)
    ensures ':' !in s && '\'' !in s && '*' !in s && '$' !in s && Unpadded(s)
  {
    forall c | c in s
      ensures IsDigit(c)
    {
      var i :| 0 <= i < |s| && s[i] == c;
    }
  }

  /** `parse_packed_dimension_range` on the text of a range: `unknown` gives
      no expression; otherwise the expression is kept, and the width is the
      decimal text of the computed width, or the expression itself when no
      width can be computed. */
  function DimensionRange(engine: Engine, expr: string, defines: map<string, string>): (r: (string, Option<string>))
    ensures r.1.None? <==> expr == "unknown"
    ensures r.1.None? ==> r.0 == "unknown"
    ensures r.1.Some? ==> r.1.value == expr
    ensures r.1.Some? && PackedRangeWidth(Evaluator(engine, defines), expr).None? ==> r.0 == expr
    ensures r.1.Some? && PackedRangeWidth(Evaluator(engine, defines), expr).Some? ==>
      AllDigits(r.0) && DecimalValue(r.0) == PackedRangeWidth(Evaluator(engine, defines), expr).value
  {
    if expr == "unknown" then ("unknown", None)
    else
      match PackedRangeWidth(Evaluator(engine, defines), expr)
      case Some(w) => DecimalRoundTrip(w); (DecimalText(w), Some(expr))
      case None => (expr, Some(expr))
  }

  /** `parse_packed_dimension_range`: build the range's expression text from
      its tokens, then compute its width. */
  method ParsePackedDimensionRange(engine: Engine, tokens: seq<Token>, defines: map<string, string>)
    returns (width: string, expression: Option<string>)
    ensures (width, expression) == DimensionRange(engine, ExpressionOf(tokens).0, defines)
  {
    var expr, _ := ParseExpression(tokens);
    if expr == "unknown" {
      return "unknown", None;
    }
    var w := PackedRangeWidth(Evaluator(engine, defines), expr);
    width := if w.Some? then DecimalText(w.value) else expr;
    expression := Some(expr);
  }
}
