/**
 The handful of JavaScript built-ins the time calculators rely on, stated over
 Dafny's unbounded integers, exact reals and strings:
 - `Number(s)` for decimal numerals (`ParseNumber`),
 - `String(n)` for natural numbers (`NatToString`),
 - `s.padStart(n, c)`, `s.split(c)`, `s.replace(a, b)` with a one-character pattern,
 - the truncating remainder `a % b`, `Math.floor` and `Math.round`.
 */
module JsRuntime {

  /** `None` stands for JavaScript's `null`, `undefined` or a non-finite number. */
  datatype Option<+T> = None | Some(value: T)

  /* ---------------------------------------------------------------------- */
  /* Digits                                                                 */
  /* ---------------------------------------------------------------------- */

  predicate IsDigit(c: char) {
    '0' <= c <= '9'
  }

  predicate AllDigits(s: string) {
    forall i :: 0 <= i < |s| ==> IsDigit(s[i])
  }

  function DigitValue(c: char): (d: nat)
    requires IsDigit(c)
    ensures d < 10
  {
    (c as int - '0' as int) as nat
  }

  function DigitChar(d: nat): (c: char)
    requires d < 10
    ensures IsDigit(c) && DigitValue(c) == d
  {
    (d + '0' as int) as char
  }

  /** The value of a string of decimal digits, most significant first. */
  function DigitsValue(s: string): nat
    requires AllDigits(s)
  {
    if |s| == 0 then 0 else DigitsValue(s[..|s| - 1]) * 10 + DigitValue(s[|s| - 1])
  }

  /** The value of the digits after a decimal point: `0.d1d2d3...`. */
  function FractionValue(s: string): (v: real)
    requires AllDigits(s)
    ensures 0.0 <= v <= 1.0
  {
    if |s| == 0 then 0.0 else (DigitValue(s[0]) as real + FractionValue(s[1..])) / 10.0
  }

  /* ---------------------------------------------------------------------- */
  /* String.prototype.indexOf / replace / split / padStart                   */
  /* ---------------------------------------------------------------------- */

  /** Position of the first `c` in `s`, or `|s|` when there is none. */
  function IndexOf(s: string, c: char): (k: nat)
    ensures k <= |s|
    ensures k < |s| ==> s[k] == c
    ensures c !in s[..k]
  {
    IndexFrom(s, c, 0)
  }

  /** Position of the first `c` in `s` at or after `start`, or `|s|`. */
  function IndexFrom(s: string, c: char, start: nat): (k: nat)
    requires start <= |s|
    ensures start <= k <= |s|
    ensures k < |s| ==> s[k] == c
    ensures forall i :: start <= i < k ==> s[i] != c
    decreases |s| - start
  {
    if start == |s| then start
    else if s[start] == c then start
    else IndexFrom(s, c, start + 1)
  }

  /** `s.replace(from, to)` with a one-character string pattern: only the first
      occurrence is replaced. */
  function ReplaceFirst(s: string, from: char, to: char): (r: string)
    ensures |r| == |s|
    ensures from !in s ==> r == s
    ensures from in s ==> exists k :: 0 <= k < |s| && s[k] == from && from !in s[..k]
                                     && r == s[..k] + [to] + s[k + 1..]
  {
    var k := IndexOf(s, from);
    if k == |s| then
      assert forall i :: 0 <= i < |s| ==> s[i] != from;
      s
    else
      assert forall i :: 0 <= i < k ==> s[..k][i] != from;
      s[..k] + [to] + s[k + 1..]
  }

  /** `s.split(sep)` with a one-character separator: the pieces between the
      separators, always at least one (splitting `""` gives `[""]`). */
  function Split(s: string, sep: char): (pieces: seq<string>)
    ensures |pieces| >= 1
    ensures sep !in s ==> pieces == [s]
    decreases |s|
  {
    var k := IndexOf(s, sep);
    if k == |s| then [s] else [s[..k]] + Split(s[k + 1..], sep)
  }

  /** The first piece of a split is the text before the first separator, or
      all of it when there is none. */
  lemma FirstPiece(s: string, sep: char)
    ensures Split(s, sep)[0] == s[..IndexOf(s, sep)]
  {
    if IndexOf(s, sep) == |s| {
      assert s[..|s|] == s;
    }
  }

  /** One step of splitting: the text before the first separator, then the
      pieces of what follows it. */
  lemma SplitAtFirst(s: string, sep: char)
    requires sep in s
    ensures var k := IndexOf(s, sep);
            k < |s| && Split(s, sep) == [s[..k]] + Split(s[k + 1..], sep)
  {
  }

  /** `pieces.join(sep)`. */
  function Join(pieces: seq<string>, sep: char): string
    requires |pieces| >= 1
  {
    if |pieces| == 1 then pieces[0] else pieces[0] + [sep] + Join(pieces[1..], sep)
  }

  /** Splitting loses nothing: the pieces joined with the separator give back the input. */
  lemma {:induction false} JoinSplit(s: string, sep: char)
    ensures Join(Split(s, sep), sep) == s
    decreases |s|
  {
    var k := IndexOf(s, sep);
    if k < |s| {
      var head, rest := s[..k], s[k + 1..];
      JoinSplit(rest, sep);
      SplitAtFirst(s, sep);
      JoinCons(head, Split(rest, sep), sep);
      Around(s, k, head, rest);
    } else {
      assert Split(s, sep) == [s];
    }
  }

  /** A string is the text before position `k`, the character there, and the text after. */
  lemma Around(s: string, k: nat, head: string, rest: string)
    requires k < |s| && head == s[..k] && rest == s[k + 1..]
    ensures s == head + [s[k]] + rest
  {
  }

  /** Joining a piece in front of other pieces puts one separator between. */
  lemma JoinCons(head: string, pieces: seq<string>, sep: char)
    requires |pieces| >= 1
    ensures Join([head] + pieces, sep) == head + [sep] + Join(pieces, sep)
  {
    assert ([head] + pieces)[1..] == pieces;
  }

  /** Splitting undoes joining, as long as no piece holds the separator. */
  lemma {:induction false} SplitJoin(pieces: seq<string>, sep: char)
    requires |pieces| >= 1
    requires forall i :: 0 <= i < |pieces| ==> sep !in pieces[i]
    ensures Split(Join(pieces, sep), sep) == pieces
    decreases |pieces|
  {
    var first := pieces[0];
    assert sep !in first;
    if |pieces| == 1 {
      IndexOfAbsentPrefix(first, sep, []);
      assert first + [] == first;
    } else {
      SplitJoin(pieces[1..], sep);
      SplitJoinStep(pieces, sep);
    }
  }

  /** If the later pieces come back from their join, so do all of them. */
  lemma SplitJoinStep(pieces: seq<string>, sep: char)
    requires |pieces| >= 2 && sep !in pieces[0]
    requires Split(Join(pieces[1..], sep), sep) == pieces[1..]
    ensures Split(Join(pieces, sep), sep) == pieces
  {
    var first, rest := pieces[0], Join(pieces[1..], sep);
    assert Join(pieces, sep) == first + ([sep] + rest);
    SplitCons(first, rest, sep);
    assert pieces == [first] + pieces[1..];
  }

  /** Text before the first separator splits off as the first piece. */
  lemma SplitCons(first: string, rest: string, sep: char)
    requires sep !in first
    ensures Split(first + ([sep] + rest), sep) == [first] + Split(rest, sep)
  {
    var s := first + ([sep] + rest);
    IndexOfAbsentPrefix(first, sep, [sep] + rest);
    assert IndexOf([sep] + rest, sep) == 0;
    assert s[..|first|] == first && s[|first| + 1..] == rest;
  }

  /** The first `c` in `p + q` is the first `c` of `q` when `p` holds none. */
  lemma {:induction false} IndexOfAbsentPrefix(p: string, c: char, q: string)
    requires c !in p
    ensures IndexOf(p + q, c) == |p| + IndexOf(q, c)
    decreases |p|
  {
    if |p| == 0 {
      assert p + q == q;
    } else {
      assert p[0] != c;
      assert (p + q)[0] == p[0];
      assert (p + q)[1..] == p[1..] + q;
      IndexOfAbsentPrefix(p[1..], c, q);
    }
  }

  /** Text appended after one more separator does not change the first piece. */
  lemma FirstPieceOfAppend(s: string, sep: char, tail: string)
    ensures Split(s + [sep] + tail, sep)[0] == Split(s, sep)[0]
  {
    var k := IndexOf(s, sep);
    var t := s + [sep] + tail;
    assert s[..k] == t[..k];
    assert sep !in s[..k];
    if k < |s| {
      assert t == s[..k] + t[k..];
      IndexOfAbsentPrefix(s[..k], sep, t[k..]);
    } else {
      assert t == s + ([sep] + tail);
      IndexOfAbsentPrefix(s, sep, [sep] + tail);
    }
  }

  /** Appending text does not move a separator that is already there. */
  lemma IndexOfExtend(s: string, c: char, tail: string)
    requires c in s
    ensures IndexOf(s + tail, c) == IndexOf(s, c)
  {
    var k := IndexOf(s, c);
    assert c !in s[..k];
    assert s + tail == s[..k] + (s[k..] + tail);
    IndexOfAbsentPrefix(s[..k], c, s[k..] + tail);
  }

  /** When `s` already holds the separator, appending the separator and more
      text leaves the first two pieces as they were. */
  lemma SplitAppendKeepsTwo(s: string, sep: char, tail: string)
    requires sep in s
    ensures |Split(s, sep)| >= 2 && |Split(s + [sep] + tail, sep)| >= 2
    ensures Split(s + [sep] + tail, sep)[0] == Split(s, sep)[0]
    ensures Split(s + [sep] + tail, sep)[1] == Split(s, sep)[1]
  {
    var k := IndexOf(s, sep);
    var rest, longer := s[k + 1..], s + [sep] + tail;
    AfterFirstSeparator(s, sep, tail, longer);
    SplitAtFirst(s, sep);
    SplitAtFirst(longer, sep);
    FirstPieceOfAppend(rest, sep, tail);
  }

  /** In `s + [sep] + tail`, the first separator is still that of `s`, with the
      same text before it and the rest of `s`, the separator and `tail` after it. */
  lemma AfterFirstSeparator(s: string, sep: char, tail: string, longer: string)
    requires sep in s && longer == s + [sep] + tail
    ensures var k := IndexOf(s, sep);
            && IndexOf(longer, sep) == k && longer[..k] == s[..k]
            && longer[k + 1..] == s[k + 1..] + [sep] + tail
  {
    assert longer == s + ([sep] + tail);
    IndexOfExtend(s, sep, [sep] + tail);
  }

  /** `s.padStart(width, fill)`: prefixes copies of `fill` until `s` is `width` long. */
  function PadStart(s: string, width: nat, fill: char): (r: string)
    ensures |r| == if |s| >= width then |s| else width
    ensures r[|r| - |s|..] == s
    ensures forall i :: 0 <= i < |r| - |s| ==> r[i] == fill
  {
    if |s| >= width then s else seq(width - |s|, _ => fill) + s
  }

  /* ---------------------------------------------------------------------- */
  /* String(n) and Number(s)                                                */
  /* ---------------------------------------------------------------------- */

  /** `String(n)` for a natural number: its shortest decimal numeral. */
  function NatToString(n: nat): (s: string)
    ensures |s| >= 1 && AllDigits(s)
    ensures DigitsValue(s) == n
    ensures n < 10 <==> |s| == 1
    ensures |s| > 1 ==> s[0] != '0'
  {
    if n < 10 then [DigitChar(n)]
    else
      var s := NatToString(n / 10) + [DigitChar(n % 10)];
      assert s[..|s| - 1] == NatToString(n / 10);
      s
  }

  /** `Number(s)` restricted to decimal numerals: the empty string is 0, and an
      optional sign followed by digits with at most one decimal point (and at
      least one digit) is its value. Anything else is `None` (NaN). */
  function ParseNumber(s: string): (r: Option<real>)
    ensures s == [] ==> r == Some(0.0)
    ensures AllDigits(s) && s != [] ==> r == Some(DigitsValue(s) as real)
  {
    if s == [] then Some(0.0)
    else if s[0] == '-' then
      match ParseUnsigned(s[1..])
      case None => None
      case Some(v) => Some(-v)
    else if s[0] == '+' then ParseUnsigned(s[1..])
    else ParseUnsigned(s)
  }

  /** A numeral without sign: digits, optionally a point and more digits, at
      least one digit in all. */
  function ParseUnsigned(s: string): (r: Option<real>)
    ensures r.Some? ==> r.value >= 0.0
    ensures AllDigits(s) ==> r == if s == [] then None else Some(DigitsValue(s) as real)
  {
    var k := IndexOf(s, '.');
    var whole := s[..k];
    var fraction := if k < |s| then s[k + 1..] else [];
    assert AllDigits(s) ==> k == |s| && whole == s && fraction == [];
    if AllDigits(whole) && AllDigits(fraction) && |whole| + |fraction| > 0 then
      Some(DigitsValue(whole) as real + FractionValue(fraction))
    else None
  }

  /** A numeral with a decimal point is its whole part plus its fraction. */
  lemma NumberOfDecimal(s: string, whole: string, fraction: string, v: real)
    requires AllDigits(whole) && AllDigits(fraction) && |whole| + |fraction| > 0
    requires s == whole + "." + fraction
    requires v == DigitsValue(whole) as real + FractionValue(fraction)
    ensures ParseNumber(s) == Some(v)
  {
    DecimalPoint(s, whole, fraction);
    UnsignedDecimal(s, whole, fraction, v);
    Unsigned(s);
  }

  /** In `whole.fraction` the first `.` follows the whole part, and the text
      starts with a digit or the point, never a sign. */
  lemma DecimalPoint(s: string, whole: string, fraction: string)
    requires AllDigits(whole) && s == whole + "." + fraction
    ensures IndexOf(s, '.') == |whole| < |s|
    ensures s[..|whole|] == whole && s[|whole| + 1..] == fraction
    ensures s[0] != '-' && s[0] != '+'
  {
    assert '.' !in whole by {
      assert forall i :: 0 <= i < |whole| ==> whole[i] != '.' by { assert AllDigits(whole); }
    }
    assert s == whole + ("." + fraction);
    IndexOfAbsentPrefix(whole, '.', "." + fraction);
    assert s[..|whole|] == whole && s[|whole| + 1..] == fraction;
    assert s[0] != '-' && s[0] != '+' by {
      if whole != [] { assert s[0] == whole[0] && IsDigit(whole[0]); } else { assert s[0] == '.'; }
    }
  }

  /** Text that starts with neither sign is read as an unsigned numeral. */
  lemma Unsigned(s: string)
    requires s != [] && s[0] != '-' && s[0] != '+'
    ensures ParseNumber(s) == ParseUnsigned(s)
  {
  }

  lemma UnsignedDecimal(s: string, whole: string, fraction: string, v: real)
    requires AllDigits(whole) && AllDigits(fraction) && |whole| + |fraction| > 0
    requires IndexOf(s, '.') == |whole| < |s|
    requires s[..|whole|] == whole && s[|whole| + 1..] == fraction
    requires v == DigitsValue(whole) as real + FractionValue(fraction)
    ensures ParseUnsigned(s) == Some(v)
  {
  }

  /** `Number("0")` is zero. */
  lemma NumberOfZero()
    ensures ParseNumber("0") == Some(0.0)
  {
    assert AllDigits("0");
    assert DigitsValue("0") == 0 by { assert "0"[..0] == []; }
  }

  /** `Number("1.5")` is one and a half. */
  lemma OneAndAHalf()
    ensures ParseNumber("1.5") == Some(1.5)
  {
    assert DigitsValue("1") == 1 by { assert "1"[..0] == []; }
    assert FractionValue("5") == 0.5 by { assert "5"[1..] == []; }
    NumberOfDecimal("1.5", "1", "5", 1.5);
  }

  /** What an unsigned numeral looks like, character by character: digits and
      at most one decimal point, with at least one digit. */
  predicate NumeralChars(s: string) {
    && (forall i :: 0 <= i < |s| ==> IsDigit(s[i]) || s[i] == '.')
    && (forall i, j :: 0 <= i < j < |s| && s[i] == '.' ==> s[j] != '.')
    && (exists i :: 0 <= i < |s| && IsDigit(s[i]))
  }

  /** `ParseUnsigned` reads exactly the texts that look like a numeral. */
  lemma UnsignedNumeral(s: string)
    ensures ParseUnsigned(s).Some? <==> NumeralChars(s)
  {
    if ParseUnsigned(s).Some? {
      ReadNumeralChars(s);
    } else if NumeralChars(s) {
      NumeralCharsRead(s);
      assert false;
    }
  }

  /** Only numeral-looking text is read. */
  lemma ReadNumeralChars(s: string)
    requires ParseUnsigned(s).Some?
    ensures NumeralChars(s)
  {
    var k := IndexOf(s, '.');
    var whole, fraction := s[..k], if k < |s| then s[k + 1..] else [];
    assert AllDigits(whole) && AllDigits(fraction) && |whole| + |fraction| > 0;
    forall i | 0 <= i < |s|
      ensures IsDigit(s[i]) || s[i] == '.'
      ensures s[i] == '.' ==> i == k
    {
      if i < k {
        assert s[i] == whole[i];
      } else if i > k {
        assert s[i] == fraction[i - k - 1];
      }
    }
    if |whole| > 0 {
      assert IsDigit(s[0]);
    } else {
      assert IsDigit(s[k + 1]) by { assert s[k + 1] == fraction[0]; }
    }
  }

  /** Every numeral-looking text is read. */
  lemma NumeralCharsRead(s: string)
    requires NumeralChars(s)
    ensures ParseUnsigned(s).Some?
  {
    var k := IndexOf(s, '.');
    var whole, fraction := s[..k], if k < |s| then s[k + 1..] else [];
    assert AllDigits(whole) by {
      forall i | 0 <= i < k ensures IsDigit(whole[i]) {
        assert whole[i] == s[i] && s[i] != '.';
      }
    }
    assert AllDigits(fraction) by {
      forall i | 0 <= i < |fraction| ensures IsDigit(fraction[i]) {
        assert fraction[i] == s[k + 1 + i] && s[k] == '.';
      }
    }
    var d :| 0 <= d < |s| && IsDigit(s[d]);
    if d < k {
      assert |whole| > 0;
    } else {
      assert d > k && |fraction| > 0;
    }
  }

  /** `Number` reads the empty text, and otherwise exactly a numeral with an
      optional leading `-` or `+`; everything else is NaN. */
  lemma NumberIsNumeral(s: string)
    ensures ParseNumber(s).Some? <==>
              || s == []
              || NumeralChars(s)
              || ((s[0] == '-' || s[0] == '+') && NumeralChars(s[1..]))
  {
    if s != [] {
      UnsignedNumeral(s[1..]);
      if s[0] != '-' && s[0] != '+' {
        UnsignedNumeral(s);
      } else {
        assert !IsDigit(s[0]) && s[0] != '.';
      }
    }
  }

  /** A character other than a digit or a point past the first position makes
      the text NaN, so `"x"` in `"8:x"` is not a number. */
  lemma NonNumeral(s: string, i: nat)
    requires 1 <= i < |s| && !(IsDigit(s[i]) || s[i] == '.')
    ensures ParseNumber(s).None?
  {
    NumberIsNumeral(s);
    assert s[1..][i - 1] == s[i];
  }

  /** A leading `-` negates the numeral that follows it, and leaves NaN as NaN. */
  lemma NegatedNumber(s: string, t: string)
    requires t != [] && t[0] != '-' && t[0] != '+' && s == ['-'] + t
    ensures ParseNumber(t).None? ==> ParseNumber(s).None?
    ensures ParseNumber(t).Some? ==> ParseNumber(s) == Some(-ParseNumber(t).value)
  {
    assert s[0] == '-' && s[1..] == t;
    Unsigned(t);
  }

  /** A leading `+` changes nothing. */
  lemma PlusNumber(s: string, t: string)
    requires t != [] && t[0] != '-' && t[0] != '+' && s == ['+'] + t
    ensures ParseNumber(s) == ParseNumber(t)
  {
    assert s[0] == '+' && s[1..] == t;
    Unsigned(t);
  }

  /** `-` followed by digits is minus their decimal value. */
  lemma NegativeNumeral(s: string, d: string, v: real)
    requires d != [] && AllDigits(d) && s == ['-'] + d && v == DigitsValue(d) as real
    ensures ParseNumber(s) == Some(-v)
  {
    assert IsDigit(d[0]);
    NegatedNumber(s, d);
  }

  /** `Number("-2")` is minus two. */
  lemma MinusTwo()
    ensures ParseNumber("-2") == Some(-2.0)
  {
    assert DigitsValue("2") == 2 by { assert "2"[..0] == []; }
    NegativeNumeral("-2", "2", 2.0);
  }

  /* ---------------------------------------------------------------------- */
  /* Arithmetic                                                             */
  /* ---------------------------------------------------------------------- */

  /** The quotient of `a / b` truncated toward zero, `Math.trunc(a / b)`. */
  function TruncQuotient(a: int, b: int): (q: int)
    requires b > 0
    ensures a >= 0 ==> q >= 0
    ensures a <= 0 ==> q <= 0
  {
    if a >= 0 then a / b else -((-a) / b)
  }

  /** JavaScript's `a % b` on integers, for a positive divisor: what remains of
      `a` after the quotient truncated toward zero, so it has the sign of the
      dividend (unlike Dafny's `%`, which is never negative). */
  function Rem(a: int, b: int): (r: int)
    requires b > 0
    ensures a == TruncQuotient(a, b) * b + r
    ensures a >= 0 ==> 0 <= r < b
    ensures a < 0 ==> -b < r <= 0
  {
    if a >= 0 then a % b
    else
      var q, m := (-a) / b, (-a) % b;
      assert -a == q * b + m;
      assert (-q) * b == -(q * b);
      -m
  }

  /** `Math.floor(x)`: the greatest integer not above `x`. */
  function Floor(x: real): (r: int)
    ensures r as real <= x < r as real + 1.0
  {
    x.Floor
  }

  /** `Math.round(x)`: the nearest integer, halves rounded up. */
  function Round(x: real): (r: int)
    ensures r as real - 0.5 <= x < r as real + 0.5
  {
    Floor(x + 0.5)
  }

  /** Shifting by a whole number shifts the floor by the same amount. */
  lemma FloorAddInt(x: real, k: int)
    ensures (x + k as real).Floor == x.Floor + k
  {
  }

  /** For a positive divisor, `Math.floor(a / b)` is the integer quotient that
      Dafny's `/` computes. */
  lemma FloorOfQuotient(a: int, b: int)
    requires b > 0
    ensures Floor(a as real / b as real) == a / b
  {
    var q, m := a / b, a % b;
    assert a == q * b + m;
    assert (a as real) / (b as real) == q as real + (m as real) / (b as real);
    assert 0.0 <= (m as real) / (b as real) < 1.0;
  }
}
