/** Text helpers shared by the model: an Option type, decimal rendering of
    integers (Rust's `to_string`), substring replacement (`str::replace`),
    joining and splitting on a separator character, Rust's `str::lines` and
    `str::trim`. */
module Text {

  datatype Option<+T> = None | Some(value: T)

  predicate IsDigit(c: char) { '0' <= c <= '9' }

  predicate AllDigits(s: string) { forall i :: 0 <= i < |s| ==> IsDigit(s[i]) }

  function DigitChar(d: nat): (c: char)
    requires d < 10
    ensures IsDigit(c) && c as int - '0' as int == d
  {
    ('0' as int + d) as char
  }

  /** The decimal text of a non-negative integer, as Rust prints an integer:
      at least one digit, no sign, no leading zero. */
  function DecimalText(n: nat): (s: string)
    ensures |s| > 0 && AllDigits(s)
    ensures |s| > 1 ==> s[0] != '0'
    ensures n < 10 <==> |s| == 1
    decreases n
  {
    if n < 10 then [DigitChar(n)] else DecimalText(n / 10) + [DigitChar(n % 10)]
  }

  /** The value of a string of decimal digits (most significant first). */
  function DecimalValue(s: string): nat
    requires AllDigits(s)
  {
    if s == [] then 0
    else DecimalValue(s[..|s| - 1]) * 10 + (s[|s| - 1] as int - '0' as int)
  }

  /** Reading back the decimal text of `n` gives `n`. */
  lemma {:induction false} DecimalRoundTrip(n: nat)
    ensures DecimalValue(DecimalText(n)) == n
    decreases n
  {
    if n >= 10 {
      DecimalRoundTrip(n / 10);
      var s := DecimalText(n);
      assert s[..|s| - 1] == DecimalText(n / 10);
    }
  }

  /** Two numbers with the same decimal text are equal. */
  lemma DecimalTextInjective(m: nat, n: nat)
    requires DecimalText(m) == DecimalText(n)
    ensures m == n
  {
    DecimalRoundTrip(m);
    DecimalRoundTrip(n);
  }

  /** `pat` occurs in `s` at index `i`. */
  predicate OccursAt(s: string, pat: string, i: int)
  {
    0 <= i && i + |pat| <= |s| && s[i..i + |pat|] == pat
  }

  /** `pat` occurs nowhere in `s`. */
  predicate Absent(s: string, pat: string)
  {
    forall i :: 0 <= i <= |s| ==> !OccursAt(s, pat, i)
  }

  /** Rust's `str::replace`: every non-overlapping occurrence of `pat`,
      scanning left to right, is replaced by `rep`. */
  function ReplaceAll(s: string, pat: string, rep: string): string
    requires |pat| > 0
    decreases |s|
  {
    if |s| < |pat| then s
    else if s[..|pat|] == pat then rep + ReplaceAll(s[|pat|..], pat, rep)
    else [s[0]] + ReplaceAll(s[1..], pat, rep)
  }

  /** Replacing a pattern that does not occur changes nothing. */
  lemma {:induction false} ReplaceAllAbsent(s: string, pat: string, rep: string)
    requires |pat| > 0 && Absent(s, pat)
    ensures ReplaceAll(s, pat, rep) == s
    decreases |s|
  {
    if |s| >= |pat| {
      assert !OccursAt(s, pat, 0);
      forall i | 0 <= i <= |s[1..]|
        ensures !OccursAt(s[1..], pat, i)
      {
        assert !OccursAt(s, pat, i + 1);
        if i + |pat| <= |s[1..]| {
          assert s[1..][i..i + |pat|] == s[i + 1..i + 1 + |pat|];
        }
      }
      ReplaceAllAbsent(s[1..], pat, rep);
    }
  }

  /** The first character of a replacement result, when the text does not
      start with the pattern's first character. */
  lemma ReplaceAllHead(s: string, pat: string, rep: string)
    requires |pat| > 0 && |s| > 0 && s[0] != pat[0]
    ensures |ReplaceAll(s, pat, rep)| > 0 && ReplaceAll(s, pat, rep)[0] == s[0]
  {
    if |s| >= |pat| {
      assert s[..|pat|][0] != pat[0];
    }
  }

  /** A prefix holding no first character of the pattern is copied through
      unchanged, and the replacement goes on with what follows it. */
  lemma {:induction false} ReplaceAllPrefix(a: string, rest: string, pat: string, rep: string)
    requires |pat| > 0 && pat[0] !in a
    ensures ReplaceAll(a + rest, pat, rep) == a + ReplaceAll(rest, pat, rep)
    decreases |a|
  {
    if a == [] {
      assert a + rest == rest;
    } else {
      var s := a + rest;
      if |s| < |pat| {
        ReplaceAllShort(rest, pat, rep);
      } else {
        assert s[..|pat|][0] == a[0];
        assert s[1..] == a[1..] + rest;
        ReplaceAllPrefix(a[1..], rest, pat, rep);
        assert [a[0]] + a[1..] == a;
      }
    }
  }

  /** Text shorter than the pattern is left as it is. */
  lemma ReplaceAllShort(s: string, pat: string, rep: string)
    requires |pat| > 0 && |s| < |pat|
    ensures ReplaceAll(s, pat, rep) == s
  {
  }

  /** One occurrence between texts that cannot start the pattern: exactly
      that occurrence is replaced. */
  lemma ReplaceAllOnce(a: string, b: string, pat: string, rep: string)
    requires |pat| > 0 && pat[0] !in a && pat[0] !in b
    ensures ReplaceAll(a + pat + b, pat, rep) == a + rep + b
  {
    ReplaceAllPrefix(a, pat + b, pat, rep);
    var s := pat + b;
    assert s[..|pat|] == pat && s[|pat|..] == b;
    assert ReplaceAll(s, pat, rep) == rep + ReplaceAll(b, pat, rep);
    ReplaceAllWithoutFirst(b, pat, rep);
    assert a + pat + b == a + (pat + b);
  }

  /** Text holding no first character of the pattern is left as it is. */
  lemma ReplaceAllWithoutFirst(s: string, pat: string, rep: string)
    requires |pat| > 0 && pat[0] !in s
    ensures ReplaceAll(s, pat, rep) == s
  {
    ReplaceAllPrefix(s, [], pat, rep);
    ReplaceAllShort([], pat, rep);
    assert s + [] == s;
  }

  /** Rust's `join`: the parts with `sep` between consecutive ones. */
  function Join(parts: seq<string>, sep: char): string
  {
    if |parts| == 0 then ""
    else if |parts| == 1 then parts[0]
    else parts[0] + [sep] + Join(parts[1..], sep)
  }

  /** Splitting at every `sep`; always at least one piece. */
  function Split(s: string, sep: char): (r: seq<string>)
    ensures |r| >= 1
    decreases |s|
  {
    if s == [] then [""]
    else
      var rest := Split(s[1..], sep);
      if s[0] == sep then [""] + rest else [[s[0]] + rest[0]] + rest[1..]
  }

  lemma {:induction false} SplitNoSep(a: string, sep: char)
    requires sep !in a
    ensures Split(a, sep) == [a]
    decreases |a|
  {
    if a != [] {
      SplitNoSep(a[1..], sep);
      assert [a[0]] + a[1..] == a;
    }
  }

  lemma {:induction false} SplitAfterPiece(a: string, sep: char, b: string)
    requires sep !in a
    ensures Split(a + [sep] + b, sep) == [a] + Split(b, sep)
    decreases |a|
  {
    if a == [] {
      assert a + [sep] + b == [sep] + b;
      assert ([sep] + b)[1..] == b;
    } else {
      var s := a + [sep] + b;
      assert s[1..] == a[1..] + [sep] + b;
      SplitAfterPiece(a[1..], sep, b);
      assert [a[0]] + a[1..] == a;
    }
  }

  /** Splitting a join gives the parts back, when no part holds the separator. */
  lemma {:induction false} SplitJoin(parts: seq<string>, sep: char)
    requires |parts| >= 1
    requires forall i :: 0 <= i < |parts| ==> sep !in parts[i]
    ensures Split(Join(parts, sep), sep) == parts
    decreases |parts|
  {
    if |parts| == 1 {
      SplitNoSep(parts[0], sep);
    } else {
      SplitJoin(parts[1..], sep);
      SplitAfterPiece(parts[0], sep, Join(parts[1..], sep));
      assert [parts[0]] + parts[1..] == parts;
    }
  }

  /** Joining the pieces of a split gives the text back. */
  lemma {:induction false} JoinSplit(s: string, sep: char)
    ensures Join(Split(s, sep), sep) == s
    decreases |s|
  {
    if s != [] {
      JoinSplit(s[1..], sep);
      var rest := Split(s[1..], sep);
      if s[0] == sep {
        assert ([""] + rest)[1..] == rest;
      } else {
        var r := [[s[0]] + rest[0]] + rest[1..];
        assert r[1..] == rest[1..];
        if |rest| > 1 {
          assert Join(rest, sep) == rest[0] + [sep] + Join(rest[1..], sep);
        }
      }
    }
  }

  /** One trailing carriage return removed, if there is one. */
  function StripCr(line: string): string
  {
    if |line| > 0 && line[|line| - 1] == '\r' then line[..|line| - 1] else line
  }

  function MapStripCr(lines: seq<string>): (r: seq<string>)
    ensures |r| == |lines|
    ensures forall i :: 0 <= i < |lines| ==> r[i] == StripCr(lines[i])
  {
    if lines == [] then [] else [StripCr(lines[0])] + MapStripCr(lines[1..])
  }

  /** Rust's `str::lines`: pieces between line feeds; a piece ended by a line
      feed loses one trailing carriage return; a final line feed does not
      start an empty last line; the empty text has no lines. */
  function Lines(s: string): seq<string>
  {
    var pieces := Split(s, '\n');
    var ended := MapStripCr(pieces[..|pieces| - 1]);
    if pieces[|pieces| - 1] == "" then ended else ended + [pieces[|pieces| - 1]]
  }

  /** Reading the lines of a join of lines gives the lines back, when no line
      holds a line feed or ends in a carriage return and the last is not
      empty. */
  lemma {:induction false} MapStripCrUnchanged(lines: seq<string>)
    requires forall i :: 0 <= i < |lines| ==> StripCr(lines[i]) == lines[i]
    ensures MapStripCr(lines) == lines
  {
  }

  /** The lines of a text whose pieces between line feeds are `pieces`,
      when no piece ends in a carriage return and the last is not empty. */
  lemma LinesFromPieces(text: string, pieces: seq<string>)
    requires Split(text, '\n') == pieces
    requires forall i :: 0 <= i < |pieces| ==> StripCr(pieces[i]) == pieces[i]
    requires pieces[|pieces| - 1] != ""
    ensures Lines(text) == pieces
  {
    var front := pieces[..|pieces| - 1];
    MapStripCrUnchanged(front);
    assert front + [pieces[|pieces| - 1]] == pieces;
  }

  lemma LinesOfJoin(parts: seq<string>)
    requires forall i :: 0 <= i < |parts| ==> '\n' !in parts[i]
    requires forall i :: 0 <= i < |parts| ==> StripCr(parts[i]) == parts[i]
    requires parts == [] || parts[|parts| - 1] != ""
    ensures Lines(Join(parts, '\n')) == parts
  {
    if parts != [] {
      SplitJoin(parts, '\n');
      LinesFromPieces(Join(parts, '\n'), parts);
    }
  }

  /** Rust's `char::is_whitespace` (the Unicode White_Space property). */
  predicate IsWhitespace(c: char)
  {
    ('\t' <= c <= '\r') || c == ' ' || c == '\U{85}' || c == '\U{A0}' || c == '\U{1680}'
    || ('\U{2000}' <= c <= '\U{200A}') || c == '\U{2028}' || c == '\U{2029}'
    || c == '\U{202F}' || c == '\U{205F}' || c == '\U{3000}'
  }

  /** Rust's `str::trim_start`. */
  function TrimStart(s: string): (r: string)
    ensures |r| <= |s|
    decreases |s|
  {
    if s != [] && IsWhitespace(s[0]) then TrimStart(s[1..]) else s
  }

  /** Rust's `str::trim_end`. */
  function TrimEnd(s: string): (r: string)
    ensures |r| <= |s|
    decreases |s|
  {
    if s != [] && IsWhitespace(s[|s| - 1]) then TrimEnd(s[..|s| - 1]) else s
  }

  /** Rust's `str::trim`. */
  function Trim(s: string): string
  {
    TrimEnd(TrimStart(s))
  }

  /** Text that neither starts nor ends with whitespace. */
  predicate Unpadded(s: string)
  {
    s == [] || (!IsWhitespace(s[0]) && !IsWhitespace(s[|s| - 1]))
  }

  /** `trim_start` yields a suffix, cuts only whitespace and stops at the
      first character that is not whitespace. */
  lemma {:induction false} TrimStartSpec(s: string)
    ensures TrimStart(s) == s[|s| - |TrimStart(s)|..]
    ensures forall k :: 0 <= k < |s| - |TrimStart(s)| ==> IsWhitespace(s[k])
    ensures TrimStart(s) == [] || !IsWhitespace(TrimStart(s)[0])
    decreases |s|
  {
    if s != [] && IsWhitespace(s[0]) {
      TrimStartSpec(s[1..]);
      forall k | 1 <= k < |s| - |TrimStart(s)|
        ensures IsWhitespace(s[k])
      {
        assert s[k] == s[1..][k - 1];
      }
    }
  }

  /** `trim_end` yields a prefix, cuts only whitespace and stops at the
      last character that is not whitespace. */
  lemma {:induction false} TrimEndSpec(s: string)
    ensures TrimEnd(s) == s[..|TrimEnd(s)|]
    ensures forall k :: |TrimEnd(s)| <= k < |s| ==> IsWhitespace(s[k])
    ensures TrimEnd(s) == [] || !IsWhitespace(TrimEnd(s)[|TrimEnd(s)| - 1])
    decreases |s|
  {
    if s != [] && IsWhitespace(s[|s| - 1]) {
      TrimEndSpec(s[..|s| - 1]);
      forall k | |TrimEnd(s)| <= k < |s| - 1
        ensures IsWhitespace(s[k])
      {
        assert s[k] == s[..|s| - 1][k];
      }
    }
  }

  /** `trim` yields the slice `s[i..j]` that neither starts nor ends with
      whitespace, with only whitespace cut on either side. */
  lemma TrimSpec(s: string)
    ensures exists i, j ::
      && 0 <= i <= j <= |s| && Trim(s) == s[i..j]
      && (forall k :: 0 <= k < i ==> IsWhitespace(s[k]))
      && (forall k :: j <= k < |s| ==> IsWhitespace(s[k]))
    ensures Unpadded(Trim(s))
  {
    var t := TrimStart(s);
    var r := TrimEnd(t);
    TrimStartSpec(s);
    TrimEndSpec(t);
    CutWindow(s, t, r);
  }

  /** Cutting whitespace from the front of `s`, giving `t`, and then from
      the back of `t`, giving `r`, leaves a slice of `s` with only
      whitespace around it. */
  lemma CutWindow(s: string, t: string, r: string)
    requires |t| <= |s| && t == s[|s| - |t|..]
    requires forall k :: 0 <= k < |s| - |t| ==> IsWhitespace(s[k])
    requires |r| <= |t| && r == t[..|r|]
    requires forall k :: |r| <= k < |t| ==> IsWhitespace(t[k])
    ensures exists i, j ::
      && 0 <= i <= j <= |s| && r == s[i..j]
      && (forall k :: 0 <= k < i ==> IsWhitespace(s[k]))
      && (forall k :: j <= k < |s| ==> IsWhitespace(s[k]))
  {
    var i := |s| - |t|;
    var j := i + |r|;
    assert r == s[i..j];
    forall k | j <= k < |s|
      ensures IsWhitespace(s[k])
    {
      assert s[k] == t[k - i];
    }
  }

  /** Text that neither starts nor ends with whitespace is its own trim. */
  lemma TrimUntouched(s: string)
    requires Unpadded(s)
    ensures Trim(s) == s
  {
  }

  function Spaces(n: nat): (r: string)
    ensures |r| == n && forall i :: 0 <= i < n ==> r[i] == ' '
  {
    seq(n, _ => ' ')
  }
}
