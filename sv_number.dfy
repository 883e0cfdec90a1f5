/** The literal normaliser of src/sv_parse.rs (`parse_sv_number`): every match
    of the case-insensitive pattern `(\d+)?'([sdhbo])([0-9a-f_xz]+)`, taken
    leftmost first and without overlap, is replaced by the decimal value of
    its digits (size prefix dropped, underscores removed), or by `unknown`
    when the digits do not parse as a signed 64-bit integer in the radix. */
module SvNumber {
  import opened Text

  const I64Max: int := 0x7FFF_FFFF_FFFF_FFFF

  /** A character `[sdhbo]` matches under case-insensitive matching: the base
      letters in either case, and U+017F (long s), which Unicode simple case
      folding equates with `s`. */
  predicate IsBaseChar(c: char)
  {
    c in "sdhboSDHBO" || c == '\U{17F}'
  }

  /** A character `[0-9a-f_xz]` matches under case-insensitive matching. */
  predicate IsLiteralDigit(c: char)
  {
    IsDigit(c) || ('a' <= c <= 'f') || ('A' <= c <= 'F') || c in "_xzXZ"
  }

  /** The radix selected by a base character after ASCII lower-casing:
      `h` 16, `b` 2, `o` 8, `d` and `s` 10; long s is not lower-cased by
      ASCII rules and selects none. */
  function Radix(base: char): (r: Option<nat>)
    ensures r.Some? <==> base in "sdhboSDHBO"
    ensures base in "hH" <==> r == Some(16)
    ensures base in "bB" <==> r == Some(2)
    ensures base in "oO" <==> r == Some(8)
    ensures base in "dDsS" <==> r == Some(10)
  {
    if base in "hH" then Some(16)
    else if base in "bB" then Some(2)
    else if base in "oO" then Some(8)
    else if base in "dDsS" then Some(10)
    else None
  }

  /** Rust's `char::to_digit` value of an alphanumeric ASCII character;
      every other character gets a value no radix accepts. */
  function DigitValue(c: char): nat
  {
    if '0' <= c <= '9' then c as int - '0' as int
    else if 'a' <= c <= 'z' then c as int - 'a' as int + 10
    else if 'A' <= c <= 'Z' then c as int - 'A' as int + 10
    else 99
  }

  /** The text with every underscore removed. */
  function RemoveUnderscores(s: string): (r: string)
    ensures |r| <= |s| && '_' !in r
  {
    if s == [] then "" else (if s[0] == '_' then "" else [s[0]]) + RemoveUnderscores(s[1..])
  }

  /** Removing underscores keeps every other character. */
  lemma {:induction false} RemoveUnderscoresKeeps(s: string, i: nat)
    requires i < |s| && s[i] != '_'
    ensures s[i] in RemoveUnderscores(s)
    decreases i
  {
    if i > 0 {
      RemoveUnderscoresKeeps(s[1..], i - 1);
    }
  }

  /** A single character is dropped exactly when it is an underscore. */
  lemma RemoveUnderscoresChar(c: char)
    ensures RemoveUnderscores([c]) == if c == '_' then "" else [c]
  {
    assert [c][1..] == [];
  }

  /** Underscores are removed piecewise: the rest keeps its order. */
  lemma {:induction false} RemoveUnderscoresConcat(a: string, b: string)
    ensures RemoveUnderscores(a + b) == RemoveUnderscores(a) + RemoveUnderscores(b)
    decreases |a|
  {
    if a == [] {
      assert a + b == b;
    } else {
      assert (a + b)[0] == a[0] && (a + b)[1..] == a[1..] + b;
      RemoveUnderscoresConcat(a[1..], b);
    }
  }

  /** Text without underscores is left as it is. */
  lemma {:induction false} RemoveUnderscoresNone(s: string)
    requires '_' !in s
    ensures RemoveUnderscores(s) == s
    decreases |s|
  {
    if s != [] {
      RemoveUnderscoresNone(s[1..]);
      assert [s[0]] + s[1..] == s;
    }
  }

  predicate ValidDigits(digits: string, radix: nat)
  {
    forall i :: 0 <= i < |digits| ==> DigitValue(digits[i]) < radix
  }

  /** The value of `digits` in `radix`, most significant digit first. */
  function RadixValue(digits: string, radix: nat): nat
    requires ValidDigits(digits, radix)
  {
    if digits == [] then 0
    else RadixValue(digits[..|digits| - 1], radix) * radix + DigitValue(digits[|digits| - 1])
  }

  /** Rust's `i64::from_str_radix` on text made only of literal digits (no
      sign can occur): empty text, a digit the radix rejects, and a value
      above the largest i64 are errors. */
  function FromStrRadix(digits: string, radix: nat): (r: Option<nat>)
    ensures r.Some? <==> |digits| > 0 && ValidDigits(digits, radix) && RadixValue(digits, radix) <= I64Max
    ensures r.Some? ==> r.value == RadixValue(digits, radix)
  {
    if |digits| > 0 && ValidDigits(digits, radix) && RadixValue(digits, radix) <= I64Max
    then Some(RadixValue(digits, radix)) else None
  }

  /** Decimal digits read in radix 10 have their decimal value. */
  lemma {:induction false} RadixTenIsDecimal(s: string)
    requires AllDigits(s)
    ensures ValidDigits(s, 10) && RadixValue(s, 10) == DecimalValue(s)
    decreases |s|
  {
    if s != [] {
      var init := s[..|s| - 1];
      assert AllDigits(init) by {
        forall i | 0 <= i < |init| ensures IsDigit(init[i]) {
          assert init[i] == s[i];
        }
      }
      RadixTenIsDecimal(init);
    }
  }

  /** Parsing the decimal text of an i64 value in radix 10 gives it back. */
  lemma FromStrRadixDecimal(n: nat)
    requires n <= I64Max
    ensures FromStrRadix(DecimalText(n), 10) == Some(n)
  {
    RadixTenIsDecimal(DecimalText(n));
    DecimalRoundTrip(n);
  }

  /** The replacement text of one matched literal. */
  function ReplacementText(base: char, digits: string): string
  {
    match Radix(base)
    case None => "unknown"
    case Some(radix) =>
      match FromStrRadix(RemoveUnderscores(digits), radix)
      case Some(v) => DecimalText(v)
      case None => "unknown"
  }

  /** One match of the pattern: the optional size prefix, the base character
      and the digit run. */
  datatype Literal = Literal(size: string, base: char, digits: string)
  {
    function Text(): string { size + ['\''] + [base] + digits }
  }

  /** Length of the longest prefix of ASCII decimal digits. */
  function DigitRun(s: string): (n: nat)
    ensures n <= |s| && (n == |s| || !IsDigit(s[n]))
  {
    if s != [] && IsDigit(s[0]) then 1 + DigitRun(s[1..]) else 0
  }

  /** Every character of the leading digit run is a digit. */
  lemma {:induction false} DigitRunDigits(s: string)
    ensures AllDigits(s[..DigitRun(s)])
    decreases |s|
  {
    if s != [] && IsDigit(s[0]) {
      DigitRunDigits(s[1..]);
      assert s[..DigitRun(s)] == [s[0]] + s[1..][..DigitRun(s[1..])];
    }
  }

  /** Length of the longest prefix of literal digit characters. */
  function LiteralDigitRun(s: string): (n: nat)
    ensures n <= |s| && (n == |s| || !IsLiteralDigit(s[n]))
  {
    if s != [] && IsLiteralDigit(s[0]) then 1 + LiteralDigitRun(s[1..]) else 0
  }

  /** Every character of the leading literal digit run is a literal digit. */
  lemma {:induction false} LiteralDigitRunDigits(s: string)
    ensures forall i :: 0 <= i < LiteralDigitRun(s) ==> IsLiteralDigit(s[i])
    decreases |s|
  {
    if s != [] && IsLiteralDigit(s[0]) {
      LiteralDigitRunDigits(s[1..]);
      forall i | 0 < i < LiteralDigitRun(s)
        ensures IsLiteralDigit(s[i])
      {
        assert s[i] == s[1..][i - 1];
      }
    }
  }

  /** The match that starts at the first character of `s`, if any: the size
      prefix takes every leading digit (a shorter prefix would leave a digit
      where the quote must be), then a quote, a base character and the
      longest non-empty run of literal digits. */
  function LiteralAt(s: string): (r: Option<Literal>)
    ensures r.Some? ==> 3 <= |r.value.Text()| <= |s|
  {
    var k := DigitRun(s);
    if k + 2 < |s| && s[k] == '\'' && IsBaseChar(s[k + 1]) && LiteralDigitRun(s[k + 2..]) > 0 then
      Some(Literal(s[..k], s[k + 1], s[k + 2..k + 2 + LiteralDigitRun(s[k + 2..])]))
    else None
  }

  /** A match is a prefix of the text: digits, a quote, a base character and
      at least one literal digit. */
  lemma LiteralAtIsPrefix(s: string)
    requires LiteralAt(s).Some?
    ensures var lit := LiteralAt(s).value;
      && s[..|lit.Text()|] == lit.Text()
      && AllDigits(lit.size) && IsBaseChar(lit.base) && |lit.digits| > 0
      && forall i :: 0 <= i < |lit.digits| ==> IsLiteralDigit(lit.digits[i])
  {
    var lit := LiteralAt(s).value;
    var k := DigitRun(s);
    DigitRunDigits(s);
    var t := s[k + 2..];
    LiteralDigitRunDigits(t);
    forall i | 0 <= i < |lit.digits|
      ensures IsLiteralDigit(lit.digits[i])
    {
      assert lit.digits[i] == t[i];
    }
    assert s[..|lit.Text()|] == lit.Text();
  }

  /** `parse_sv_number`: scan left to right; where a match starts, emit its
      replacement and continue after it, otherwise copy one character. */
  function ParseSvNumber(s: string): string
    decreases |s|
  {
    if s == [] then ""
    else match LiteralAt(s)
      case Some(lit) => ReplacementText(lit.base, lit.digits) + ParseSvNumber(s[|lit.Text()|..])
      case None => [s[0]] + ParseSvNumber(s[1..])
  }

  /** Text holding no quote is left unchanged. */
  lemma {:induction false} NoQuoteUnchanged(s: string)
    requires '\'' !in s
    ensures ParseSvNumber(s) == s
    decreases |s|
  {
    if s != [] {
      var k := DigitRun(s);
      assert k < |s| ==> s[k] != '\'';
      assert LiteralAt(s).None?;
      NoQuoteUnchanged(s[1..]);
      assert [s[0]] + s[1..] == s;
    }
  }

  /** The run of leading digits stops at or before any non-digit. */
  lemma {:induction false} DigitRunStops(s: string, i: nat)
    requires i < |s| && !IsDigit(s[i])
    ensures DigitRun(s) <= i
    decreases i
  {
    if i > 0 && IsDigit(s[0]) {
      DigitRunStops(s[1..], i - 1);
    }
  }

  /** No match starts at the front of text that begins with a non-empty
      piece holding no quote and not ending in a digit. */
  lemma NoLiteralBeforeQuoteFree(p: string, rest: string)
    requires p != [] && '\'' !in p && !IsDigit(p[|p| - 1])
    ensures LiteralAt(p + rest).None?
  {
    var s := p + rest;
    DigitRunStops(s, |p| - 1);
    assert s[DigitRun(s)] == p[DigitRun(s)];
  }

  /** Where a quote-free piece not ending in a digit starts the text, the
      scan copies its first character. */
  lemma ScanCopiesFirst(p: string, rest: string)
    requires p != [] && '\'' !in p && !IsDigit(p[|p| - 1])
    ensures ParseSvNumber(p + rest) == [p[0]] + ParseSvNumber(p[1..] + rest)
  {
    NoLiteralBeforeQuoteFree(p, rest);
    var s := p + rest;
    assert s[1..] == p[1..] + rest;
  }

  /** One step of PrefixUntouched: the first character is copied and the
      rest of the quote-free piece is left to the induction hypothesis. */
  lemma PrefixUntouchedStep(p: string, rest: string)
    requires p != [] && '\'' !in p && !IsDigit(p[|p| - 1])
    requires ParseSvNumber(p[1..] + rest) == p[1..] + ParseSvNumber(rest)
    ensures ParseSvNumber(p + rest) == p + ParseSvNumber(rest)
  {
    ScanCopiesFirst(p, rest);
    ConsConcat(p, ParseSvNumber(p + rest), ParseSvNumber(p[1..] + rest), ParseSvNumber(rest));
  }

  lemma ConsConcat(p: string, whole: string, after: string, tail: string)
    requires p != [] && whole == [p[0]] + after && after == p[1..] + tail
    ensures whole == p + tail
  {
    assert [p[0]] + (p[1..] + tail) == ([p[0]] + p[1..]) + tail;
    assert [p[0]] + p[1..] == p;
  }

  /** Text that holds no quote and does not end in a digit passes through
      unchanged, whatever follows it. */
  lemma {:induction false} PrefixUntouched(p: string, rest: string)
    requires '\'' !in p
    requires p == [] || !IsDigit(p[|p| - 1])
    ensures ParseSvNumber(p + rest) == p + ParseSvNumber(rest)
    decreases |p|
  {
    if p == [] {
      assert p + rest == rest;
    } else {
      PrefixUntouched(p[1..], rest);
      PrefixUntouchedStep(p, rest);
    }
  }

  /** A whole literal followed by text that does not continue its digit run
      is replaced by its value, and the scan resumes after it. */
  lemma LiteralReplaced(size: string, base: char, digits: string, rest: string)
    requires AllDigits(size) && IsBaseChar(base)
    requires |digits| > 0 && forall i :: 0 <= i < |digits| ==> IsLiteralDigit(digits[i])
    requires rest == [] || !IsLiteralDigit(rest[0])
    ensures ParseSvNumber(Literal(size, base, digits).Text() + rest)
         == ReplacementText(base, digits) + ParseSvNumber(rest)
  {
    var lit := Literal(size, base, digits);
    var s := lit.Text() + rest;
    LiteralAtLiteral(size, base, digits, rest);
    assert s[|lit.Text()|..] == rest;
  }

  /** The match at the front of a literal followed by text that does not
      continue its digit run is that literal. */
  lemma LiteralAtLiteral(size: string, base: char, digits: string, rest: string)
    requires AllDigits(size) && IsBaseChar(base)
    requires |digits| > 0 && forall i :: 0 <= i < |digits| ==> IsLiteralDigit(digits[i])
    requires rest == [] || !IsLiteralDigit(rest[0])
    ensures LiteralAt(Literal(size, base, digits).Text() + rest) == Some(Literal(size, base, digits))
  {
    var s := Literal(size, base, digits).Text() + rest;
    var k := |size|;
    assert s[..k] == size;
    assert s == size + s[k..];
    DigitRunPrefix(size, s[k..]);
    assert s[k + 2..] == digits + rest;
    LiteralDigitRunPrefix(digits, rest);
  }

  lemma {:induction false} DigitRunPrefix(size: string, tail: string)
    requires AllDigits(size) && |tail| > 0 && !IsDigit(tail[0])
    ensures DigitRun(size + tail) == |size|
    decreases |size|
  {
    if size == [] {
      assert size + tail == tail;
    } else {
      DigitRunPrefix(size[1..], tail);
      DigitRunStep(size, tail);
    }
  }

  lemma DigitRunStep(size: string, tail: string)
    requires size != [] && IsDigit(size[0])
    ensures DigitRun(size + tail) == 1 + DigitRun(size[1..] + tail)
  {
    assert (size + tail)[1..] == size[1..] + tail;
  }

  lemma {:induction false} LiteralDigitRunPrefix(digits: string, rest: string)
    requires forall i :: 0 <= i < |digits| ==> IsLiteralDigit(digits[i])
    requires rest == [] || !IsLiteralDigit(rest[0])
    ensures LiteralDigitRun(digits + rest) == |digits|
    decreases |digits|
  {
    if digits == [] {
      assert digits + rest == rest;
    } else {
      LiteralDigitRunPrefix(digits[1..], rest);
      LiteralDigitRunStep(digits, rest);
    }
  }

  lemma LiteralDigitRunStep(digits: string, rest: string)
    requires digits != [] && IsLiteralDigit(digits[0])
    ensures LiteralDigitRun(digits + rest) == 1 + LiteralDigitRun(digits[1..] + rest)
  {
    assert (digits + rest)[1..] == digits[1..] + rest;
  }

  /** A digit, other than an underscore, that the radix rejects (or a base
      character without a radix) makes a literal unparsable. */
  lemma InvalidDigitUnknown(base: char, digits: string, i: nat)
    requires i < |digits| && digits[i] != '_'
    requires Radix(base).None? || DigitValue(digits[i]) >= Radix(base).value
    ensures ReplacementText(base, digits) == "unknown"
  {
    if Radix(base).Some? {
      var clean := RemoveUnderscores(digits);
      RemoveUnderscoresKeeps(digits, i);
      var j :| 0 <= j < |clean| && clean[j] == digits[i];
      assert !ValidDigits(clean, Radix(base).value);
    }
  }

  /** Don't-care digits (x or z) make a literal unparsable. */
  lemma DontCareIsUnknown(base: char, digits: string)
    requires exists i :: 0 <= i < |digits| && digits[i] in "xzXZ"
    ensures ReplacementText(base, digits) == "unknown"
  {
    var i :| 0 <= i < |digits| && digits[i] in "xzXZ";
    InvalidDigitUnknown(base, digits, i);
  }

  /** A successful replacement is the decimal text of a value that fits in an
      i64, and reading that text back gives the value. */
  lemma ReplacementRoundTrip(base: char, digits: string)
    requires ReplacementText(base, digits) != "unknown"
    ensures AllDigits(ReplacementText(base, digits))
    ensures var radix := Radix(base).value;
            var clean := RemoveUnderscores(digits);
            && ValidDigits(clean, radix) && |clean| > 0
            && DecimalValue(ReplacementText(base, digits)) == RadixValue(clean, radix) <= I64Max
  {
    var radix := Radix(base).value;
    var v := FromStrRadix(RemoveUnderscores(digits), radix).value;
    DecimalRoundTrip(v);
  }

  /** Digits that, once their underscores are removed, the radix accepts
      and whose value fits in an i64 are replaced by the decimal text of
      that value. */
  lemma ValidDigitsText(base: char, digits: string)
    requires Radix(base).Some? && |RemoveUnderscores(digits)| > 0
    requires ValidDigits(RemoveUnderscores(digits), Radix(base).value)
    requires RadixValue(RemoveUnderscores(digits), Radix(base).value) <= I64Max
    ensures ReplacementText(base, digits) == DecimalText(RadixValue(RemoveUnderscores(digits), Radix(base).value))
  {
  }

  /** An underscore anywhere among the digits changes nothing. */
  lemma UnderscoreIgnored(base: char, a: string, b: string)
    ensures ReplacementText(base, a + "_" + b) == ReplacementText(base, a + b)
  {
    RemoveUnderscoresConcat(a + "_", b);
    RemoveUnderscoresConcat(a, "_");
    RemoveUnderscoresChar('_');
    RemoveUnderscoresConcat(a, b);
    assert RemoveUnderscores(a) + "" == RemoveUnderscores(a);
  }

  lemma HexDigitsValue()
    ensures ReplacementText('h', "FF") == "255"
  {
    var d := "FF";
    HexValue(d);
    RemoveUnderscoresNone(d);
    ValidDigitsText('h', d);
    DecimalText255();
  }

  lemma HexValue(d: string)
    requires d == "FF"
    ensures ValidDigits(d, 16) && RadixValue(d, 16) == 255
  {
    var f := d[..1];
    assert f[..0] == [];
    assert RadixValue(f, 16) == 15;
  }

  /** Underscores separating digits are dropped: `F_F` reads as `FF`. */
  lemma SeparatedHexValue()
    ensures ReplacementText('h', "F_F") == "255"
  {
    UnderscoreIgnored('h', "F", "F");
    assert "F" + "_" + "F" == "F_F" && "F" + "F" == "FF";
    HexDigitsValue();
  }

  lemma DecimalText255()
    ensures DecimalText(255) == "255"
  {
    assert DecimalText(2) == "2";
    assert DecimalText(25) == "25";
  }

  lemma BinaryDigitsValue()
    ensures ReplacementText('b', "1010") == "10"
  {
    var d := "1010";
    BinaryValue(d);
    RemoveUnderscoresNone(d);
    ValidDigitsText('b', d);
    DecimalText10();
  }

  lemma DecimalText10()
    ensures DecimalText(10) == "10"
  {
    assert DecimalText(1) == "1";
  }

  lemma BinaryValue(d: string)
    requires d == "1010"
    ensures ValidDigits(d, 2) && RadixValue(d, 2) == 10
  {
    var d1, d2, d3 := d[..1], d[..2], d[..3];
    assert d1[..0] == [] && d2[..1] == d1 && d3[..2] == d2 && d[..3] == d3;
    assert RadixValue(d1, 2) == 1;
    assert RadixValue(d2, 2) == 2;
    assert RadixValue(d3, 2) == 5;
  }

  lemma SignedDigitsValue()
    ensures ReplacementText('s', "d12") == "unknown"
  {
    InvalidDigitUnknown('s', "d12", 0);
  }

  /** The example 8'hFF normalises to 255. */
  lemma HexLiteralExample()
    ensures ParseSvNumber(Literal("8", 'h', "FF").Text()) == "255"
  {
    LiteralReplaced("8", 'h', "FF", "");
    assert Literal("8", 'h', "FF").Text() + "" == Literal("8", 'h', "FF").Text();
    HexDigitsValue();
  }

  /** The example 4'b1010 normalises to 10. */
  lemma BinaryLiteralExample()
    ensures ParseSvNumber(Literal("4", 'b', "1010").Text()) == "10"
  {
    LiteralReplaced("4", 'b', "1010", "");
    assert Literal("4", 'b', "1010").Text() + "" == Literal("4", 'b', "1010").Text();
    BinaryDigitsValue();
  }

  /** The example 4'bxxz0, whose digits are don't-cares, normalises to
      `unknown`. */
  lemma DontCareLiteralExample()
    ensures ParseSvNumber(Literal("4", 'b', "xxz0").Text()) == "unknown"
  {
    LiteralReplaced("4", 'b', "xxz0", "");
    assert Literal("4", 'b', "xxz0").Text() + "" == Literal("4", 'b', "xxz0").Text();
    assert "xxz0"[0] in "xzXZ";
    DontCareIsUnknown('b', "xxz0");
  }

  /** The signed decimal literal 8'sd12 normalises to `unknown`: `s` is
      taken as the base and `d12` as its digits, which are not decimal. */
  lemma SignedLiteralExample()
    ensures ParseSvNumber(Literal("8", 's', "d12").Text()) == "unknown"
  {
    LiteralReplaced("8", 's', "d12", "");
    assert Literal("8", 's', "d12").Text() + "" == Literal("8", 's', "d12").Text();
    SignedDigitsValue();
  }
}
