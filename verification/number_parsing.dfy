/** `parseFloat` as ECMAScript defines it: skip leading white space, then read
    the LONGEST prefix that is a StrDecimalLiteral (an optional sign, digits
    with an optional fraction or a fraction alone, an optional exponent);
    no such prefix gives NaN. Values are exact reals. */
module NumberParsing {
  import opened Wrappers
  import opened Text
  import opened JsNumber

  predicate AllDigits(s: string)
  {
    forall i | 0 <= i < |s| :: IsDigit(s[i])
  }

  /** Length of the run of digits at the start of `s`. */
  function DigitRun(s: string): (n: nat)
    ensures n <= |s|
    ensures AllDigits(s[..n])
    ensures n < |s| ==> !IsDigit(s[n])
  {
    if s != [] && IsDigit(s[0]) then 1 + DigitRun(s[1..]) else 0
  }

  function DigitValue(c: char): nat
    requires IsDigit(c)
  {
    c as int - '0' as int
  }

  function DigitChar(d: nat): (c: char)
    requires d < 10
    ensures IsDigit(c) && DigitValue(c) == d
  {
    ('0' as int + d) as char
  }

  /** The value of a run of decimal digits, most significant first. */
  function DigitsValue(d: string): nat
    requires AllDigits(d)
  {
    if d == [] then 0 else DigitsValue(d[..|d| - 1]) * 10 + DigitValue(d[|d| - 1])
  }

  function Pow10(k: nat): (r: nat)
    ensures r >= 1
  {
    if k == 0 then 1 else 10 * Pow10(k - 1)
  }

  /** The numeric prefix `parseFloat` found: sign, whole digits, fraction
      digits, and exponent sign and digits (empty when there is none). */
  datatype Literal = Literal(negative: bool, whole: string, fraction: string,
                             exponentNegative: bool, exponent: string)
  {
    predicate Valid()
    {
      AllDigits(whole) && AllDigits(fraction) && AllDigits(exponent) && (whole != [] || fraction != [])
    }

    function Value(): real
      requires Valid()
    {
      var mantissa := DigitsValue(whole) as real + DigitsValue(fraction) as real / Pow10(|fraction|) as real;
      var scale := Pow10(DigitsValue(exponent)) as real;
      var magnitude := if exponentNegative then mantissa / scale else mantissa * scale;
      if negative then -magnitude else magnitude
    }

    /** The literal written out: `-` when negative, then `Unsigned()`. */
    function Spelled(): string
    {
      (if negative then "-" else "") + Unsigned()
    }

    /** The whole digits, `.` and the fraction digits when there are any,
        and `e`, an optional `-` and the exponent digits when there are
        any. */
    function Unsigned(): string
    {
      whole + FractionPart() + ExponentPart()
    }

    function FractionPart(): string
    {
      if fraction == [] then "" else "." + fraction
    }

    function ExponentPart(): string
    {
      if exponent == [] then "" else "e" + (if exponentNegative then "-" else "") + exponent
    }
  }

  predicate IsSign(c: char)
  {
    c == '+' || c == '-'
  }

  /** Reads an ExponentPart at the start of `s`: its sign and digits, or no
      digits when `s` does not start with one (`e` without digits is not
      part of the literal). */
  function ScanExponent(s: string): (r: (bool, string))
    ensures AllDigits(r.1)
    ensures r.1 == [] ==> !r.0
  {
    if s != [] && (s[0] == 'e' || s[0] == 'E') then
      var v := s[1..];
      var d := if v != [] && IsSign(v[0]) then v[1..] else v;
      var k := DigitRun(d);
      (k > 0 && v != [] && v[0] == '-', d[..k])
    else (false, [])
  }

  /** Reads the `.` and fraction digits at the start of `a`, if any:
      returns the fraction digits and what follows them. */
  function ScanFraction(a: string): (r: (string, string))
    ensures AllDigits(r.0)
    ensures r.0 != [] <==> StartsUnsigned(a) && !IsDigit(a[0])
  {
    if a != [] && a[0] == '.' then
      var f := DigitRun(a[1..]);
      assert [a[0]] + a[1..][..f] + a[1..][f..] == a;
      (a[1..][..f], a[1..][f..])
    else ([], a)
  }

  /** The longest unsigned literal at the start of `u`, with the sign
      already read. */
  function ScanUnsigned(negative: bool, u: string): (r: Option<Literal>)
    ensures r.Some? ==> r.value.Valid() && r.value.negative == negative
    ensures r.None? <==> !StartsUnsigned(u)
  {
    var w := DigitRun(u);
    var (fraction, rest) := ScanFraction(u[w..]);
    if w == 0 && fraction == [] then None
    else
      var (expNegative, exponent) := ScanExponent(rest);
      Some(Literal(negative, u[..w], fraction, expNegative, exponent))
  }

  /** The longest StrDecimalLiteral prefix of `s` after its white space. */
  function Scan(s: string): (r: Option<Literal>)
    ensures r.Some? ==> r.value.Valid()
  {
    var t := SkipSpace(s);
    if t != [] && IsSign(t[0]) then ScanUnsigned(t[0] == '-', t[1..]) else ScanUnsigned(false, t)
  }

  /** An unsigned decimal literal starts here: a digit, or `.` then a digit. */
  predicate StartsUnsigned(u: string)
  {
    (u != [] && IsDigit(u[0])) || (|u| > 1 && u[0] == '.' && IsDigit(u[1]))
  }

  /** `s` has a numeric prefix in the sense of `parseFloat`. */
  predicate HasNumericPrefix(s: string)
  {
    var t := SkipSpace(s);
    StartsUnsigned(t) || (t != [] && IsSign(t[0]) && StartsUnsigned(t[1..]))
  }

  /** `parseFloat(s)`: NaN exactly when `s` has no numeric prefix. */
  function ParseFloat(s: string): (r: Num)
    ensures r.NaN? <==> !HasNumericPrefix(s)
  {
    match Scan(s)
    case None => NaN
    case Some(lit) => Val(lit.Value())
  }

  /** The decimal digits of `n`, most significant first. */
  function NatDigits(n: nat): (d: string)
    ensures d != [] && AllDigits(d)
    ensures DigitsValue(d) == n
    decreases n
  {
    if n < 10 then [DigitChar(n)]
    else
      var d := NatDigits(n / 10) + [DigitChar(n % 10)];
      assert d[..|d| - 1] == NatDigits(n / 10);
      d
  }

  function Abs(c: int): nat
  {
    if c < 0 then -c else c
  }

  /** An amount of cents written the way a price is printed: an optional
      `-`, the whole units, `.`, and exactly two digits of cents. */
  function CentsText(c: int): (s: string)
  {
    (if c < 0 then "-" else "") + NatDigits(Abs(c) / 100) + "." + CentsDigits(c)
  }

  /** The two digits of cents of an amount. */
  function CentsDigits(c: int): (d: string)
    ensures |d| == 2 && AllDigits(d)
  {
    var m := Abs(c) % 100;
    [DigitChar(m / 10), DigitChar(m % 10)]
  }

  lemma TwoDigitsValue(a: char, b: char)
    requires IsDigit(a) && IsDigit(b)
    ensures AllDigits([a, b]) && DigitsValue([a, b]) == 10 * DigitValue(a) + DigitValue(b)
  {
    assert [a, b][..1] == [a];
    assert [a][..0] == [];
    calc {
      DigitsValue([a, b]);
      DigitsValue([a]) * 10 + DigitValue(b);
      (DigitsValue([]) * 10 + DigitValue(a)) * 10 + DigitValue(b);
    }
  }

  /** A digit run followed by a non-digit is read up to its end. */
  lemma {:induction false} DigitRunStops(d: string, v: string)
    requires AllDigits(d)
    requires v == [] || !IsDigit(v[0])
    ensures DigitRun(d + v) == |d|
  {
    if d != [] {
      assert (d + v)[1..] == d[1..] + v;
      DigitRunStops(d[1..], v);
    } else {
      assert d + v == v;
    }
  }

  /** What `ScanUnsigned` finds in digits, `.`, two digits and a tail that
      does not continue the literal. */
  lemma ScanAmount(negative: bool, d: string, cents: string, tail: string)
    requires AllDigits(d) && d != [] && AllDigits(cents) && |cents| == 2
    requires tail == [] || !(IsDigit(tail[0]) || tail[0] == 'e' || tail[0] == 'E')
    ensures ScanUnsigned(negative, d + ("." + cents + tail)) == Some(Literal(negative, d, cents, false, []))
  {
    var u := d + ("." + cents + tail);
    DigitRunStops(d, "." + cents + tail);
    assert u[|d|..] == "." + cents + tail;
    assert u[..|d|] == d;
    DigitRunStops(cents, tail);
    assert ("." + cents + tail)[1..] == cents + tail;
    assert (cents + tail)[..2] == cents;
    assert (cents + tail)[2..] == tail;
    assert ScanFraction("." + cents + tail) == (cents, tail);
    assert ScanExponent(tail) == (false, []);
  }

  /** The value of a literal without exponent. */
  lemma PlainValue(lit: Literal)
    requires lit.Valid() && lit.exponent == []
    ensures var m := DigitsValue(lit.whole) as real + DigitsValue(lit.fraction) as real / Pow10(|lit.fraction|) as real;
            lit.Value() == if lit.negative then -m else m
  {
    assert DigitsValue(lit.exponent) == 0;
  }

  lemma NoSpaceToSkip(s: string)
    requires s != [] && (s[0] == '-' || s[0] == '.' || IsDigit(s[0]))
    ensures SkipSpace(s) == s
  {
    assert !IsJsSpace(s[0]);
  }

  /** A literal that starts with a digit or `.`, after an optional `-`, is
      scanned without skipping anything. */
  lemma ScanSigned(negative: bool, u: string, s: string)
    requires s == (if negative then "-" else "") + u
    requires u != [] && (IsDigit(u[0]) || u[0] == '.')
    ensures Scan(s) == ScanUnsigned(negative, u)
  {
    NoSpaceToSkip(s);
    if negative {
      assert s[1..] == u;
    } else {
      assert s == u;
    }
  }

  /** The literal `Scan` finds in a printed amount followed by a tail that
      does not continue it. */
  lemma ScanCentsText(c: int, tail: string)
    requires tail == [] || !(IsDigit(tail[0]) || tail[0] == 'e' || tail[0] == 'E')
    ensures Scan(CentsText(c) + tail) == Some(Literal(c < 0, NatDigits(Abs(c) / 100), CentsDigits(c), false, []))
  {
    var d := NatDigits(Abs(c) / 100);
    var u := d + ("." + CentsDigits(c) + tail);
    assert CentsText(c) + tail == (if c < 0 then "-" else "") + u;
    ScanSigned(c < 0, u, CentsText(c) + tail);
    ScanAmount(c < 0, d, CentsDigits(c), tail);
  }

  /** The literal of a printed amount has the amount's value. */
  lemma CentsLiteralValue(c: int)
    ensures Literal(c < 0, NatDigits(Abs(c) / 100), CentsDigits(c), false, []).Value() == c as real / 100.0
  {
    var q := Abs(c) / 100;
    var m := Abs(c) % 100;
    var cents := CentsDigits(c);
    var lit := Literal(c < 0, NatDigits(q), cents, false, []);
    PlainValue(lit);
    TwoDigitsValue(cents[0], cents[1]);
    assert DigitsValue(cents) == m;
    assert Pow10(2) == 100 by {
      assert Pow10(1) == 10;
    }
    assert DigitsValue(lit.whole) == q && DigitsValue(lit.fraction) == m;
    assert Pow10(|lit.fraction|) as real == 100.0;
    var mantissa := q as real + m as real / 100.0;
    assert lit.Value() == if c < 0 then -mantissa else mantissa;
    AmountValue(c, q, m);
  }

  /** Round trip: `parseFloat` reads a printed amount back as its value, and
      ignores whatever follows it unless that continues the literal (a digit
      or an exponent marker). */
  lemma ParseCentsText(c: int, tail: string)
    requires tail == [] || !(IsDigit(tail[0]) || tail[0] == 'e' || tail[0] == 'E')
    ensures ParseFloat(CentsText(c) + tail) == Val(c as real / 100.0)
  {
    var s := CentsText(c) + tail;
    var lit := Literal(c < 0, NatDigits(Abs(c) / 100), CentsDigits(c), false, []);
    ScanCentsText(c, tail);
    assert ParseFloat(s) == Val(lit.Value());
    CentsLiteralValue(c);
  }

  lemma AmountValue(c: int, q: nat, m: nat)
    requires q == Abs(c) / 100 && m == Abs(c) % 100
    ensures (if c < 0 then -(q as real + m as real / 100.0) else q as real + m as real / 100.0) == c as real / 100.0
  {
    assert Abs(c) == 100 * q + m;
  }

  /** `t` starts an ExponentPart: `e` or `E`, an optional sign, a digit. */
  predicate StartsExponent(t: string)
  {
    && t != [] && (t[0] == 'e' || t[0] == 'E')
    && ((|t| > 1 && IsDigit(t[1])) || (|t| > 2 && IsSign(t[1]) && IsDigit(t[2])))
  }

  /** Text after a written literal that the literal would absorb: a digit;
      for a literal without exponent, an ExponentPart; for a literal with
      neither fraction nor exponent, also a `.`. */
  predicate Continues(lit: Literal, tail: string)
  {
    && tail != []
    && (|| IsDigit(tail[0])
        || (lit.exponent == [] && (StartsExponent(tail) || (lit.fraction == [] && tail[0] == '.'))))
  }

  /** Text that does not start an ExponentPart has none. */
  lemma ScanNoExponent(t: string)
    requires !StartsExponent(t)
    ensures ScanExponent(t) == (false, [])
  {
    if t != [] && (t[0] == 'e' || t[0] == 'E') {
      var v := t[1..];
      var d := if v != [] && IsSign(v[0]) then v[1..] else v;
      assert d == [] || !IsDigit(d[0]);
    }
  }

  /** A written ExponentPart is read back up to its last digit. */
  lemma ScanExponentDigits(negative: bool, e: string, tail: string)
    requires AllDigits(e) && e != [] && (tail == [] || !IsDigit(tail[0]))
    ensures ScanExponent("e" + (if negative then "-" else "") + e + tail) == (negative, e)
  {
    var es := if negative then "-" else "";
    var v := es + e + tail;
    assert ("e" + es + e + tail)[1..] == v;
    var d := e + tail;
    assert (if v != [] && IsSign(v[0]) then v[1..] else v) == d by {
      if negative { assert v[1..] == d; } else { assert v == d; }
    }
    DigitRunStops(e, tail);
    assert d[..|e|] == e;
  }

  /** The exponent part of a written literal is read back. */
  lemma ScanWrittenExponent(lit: Literal, tail: string)
    requires lit.Valid() && !Continues(lit, tail)
    ensures ScanExponent(lit.ExponentPart() + tail) == (lit.exponent != [] && lit.exponentNegative, lit.exponent)
  {
    if lit.exponent == [] {
      assert lit.ExponentPart() + tail == tail;
      ScanNoExponent(tail);
    } else {
      ScanExponentDigits(lit.exponentNegative, lit.exponent, tail);
    }
  }

  /** The fraction part of a written literal is read back, leaving the
      exponent part and the tail. */
  lemma ScanWrittenFraction(lit: Literal, rest: string, tail: string)
    requires lit.Valid() && !Continues(lit, tail)
    requires rest == lit.ExponentPart() + tail
    ensures rest == [] || !IsDigit(rest[0])
    ensures var after := lit.FractionPart() + rest; after == [] || !IsDigit(after[0])
    ensures ScanFraction(lit.FractionPart() + rest) == (lit.fraction, rest)
  {
    if lit.exponent == [] {
      assert rest == tail;
    } else {
      assert rest[0] == 'e';
    }
    if lit.fraction == [] {
      assert lit.FractionPart() + rest == rest;
    } else {
      assert (lit.FractionPart() + rest)[0] == '.';
      var a := "." + lit.fraction + rest;
      assert lit.FractionPart() + rest == a;
      assert a[0] == '.';
      assert a[1..] == lit.fraction + rest;
      DigitRunStops(lit.fraction, rest);
      assert (lit.fraction + rest)[..|lit.fraction|] == lit.fraction;
      assert (lit.fraction + rest)[|lit.fraction|..] == rest;
    }
  }

  /** The unsigned part of a written literal is read back as the literal,
      up to the sign of an absent exponent. */
  lemma ScanWrittenUnsigned(lit: Literal, tail: string)
    requires lit.Valid() && !Continues(lit, tail)
    ensures ScanUnsigned(lit.negative, lit.Unsigned() + tail)
         == Some(Literal(lit.negative, lit.whole, lit.fraction, lit.exponent != [] && lit.exponentNegative, lit.exponent))
  {
    var rest := lit.ExponentPart() + tail;
    var after := lit.FractionPart() + rest;
    var u := lit.whole + after;
    Regroup(lit.whole, lit.FractionPart(), lit.ExponentPart(), tail);
    ScanWrittenExponent(lit, tail);
    ScanWrittenFraction(lit, rest, tail);
    DigitRunStops(lit.whole, after);
    assert u[..|lit.whole|] == lit.whole && u[|lit.whole|..] == after;
    ScanUnsignedOf(lit.negative, u, |lit.whole|, lit.fraction, rest, ScanExponent(rest));
  }

  /** Concatenation regrouped to the right. */
  lemma Regroup3(a: string, b: string, c: string)
    ensures a + b + c == a + (b + c)
  {
  }

  /** Concatenation regrouped to the right. */
  lemma Regroup(a: string, b: string, c: string, d: string)
    ensures a + b + c + d == a + (b + (c + d))
  {
  }

  /** `ScanUnsigned` assembled from what its three readers find. */
  lemma ScanUnsignedOf(negative: bool, u: string, w: nat, fraction: string, rest: string, e: (bool, string))
    requires DigitRun(u) == w && ScanFraction(u[w..]) == (fraction, rest) && ScanExponent(rest) == e
    requires w > 0 || fraction != []
    ensures ScanUnsigned(negative, u) == Some(Literal(negative, u[..w], fraction, e.0, e.1))
  {
  }

  /** A written literal starts with a digit or `.`. */
  lemma UnsignedStart(lit: Literal, tail: string)
    requires lit.Valid()
    ensures var u := lit.Unsigned() + tail; u != [] && (u[0] == '.' || IsDigit(u[0]))
  {
    var u := lit.Unsigned() + tail;
    Regroup(lit.whole, lit.FractionPart(), lit.ExponentPart(), tail);
    if lit.whole == [] {
      assert lit.FractionPart()[0] == '.';
      assert u[0] == lit.FractionPart()[0];
    } else {
      assert u[0] == lit.whole[0];
    }
  }

  /** `Scan` finds a written literal, up to the sign of an absent
      exponent. */
  lemma ScanWritten(lit: Literal, tail: string)
    requires lit.Valid() && !Continues(lit, tail)
    ensures Scan(lit.Spelled() + tail)
         == Some(Literal(lit.negative, lit.whole, lit.fraction, lit.exponent != [] && lit.exponentNegative, lit.exponent))
  {
    var s := lit.Spelled() + tail;
    var u := lit.Unsigned() + tail;
    ScanWrittenUnsigned(lit, tail);
    UnsignedStart(lit, tail);
    var sign := if lit.negative then "-" else "";
    Regroup3(sign, lit.Unsigned(), tail);
    ScanSigned(lit.negative, u, s);
  }

  /** The sign of an absent exponent does not change the value. */
  lemma NoExponentSign(lit: Literal)
    requires lit.Valid()
    ensures Literal(lit.negative, lit.whole, lit.fraction, lit.exponent != [] && lit.exponentNegative, lit.exponent).Value()
         == lit.Value()
  {
    if lit.exponent == [] {
      assert DigitsValue(lit.exponent) == 0;
    }
  }

  /** Round trip: `parseFloat` reads any written literal back as its value,
      whatever follows it, unless that continues the literal: the longest
      literal prefix is the one read. Leading white space and a `+` are
      skipped (below). */
  lemma ParseWrittenLiteral(lit: Literal, tail: string)
    requires lit.Valid() && !Continues(lit, tail)
    ensures ParseFloat(lit.Spelled() + tail) == Val(lit.Value())
  {
    ScanWritten(lit, tail);
    NoExponentSign(lit);
  }

  /** Leading white space is skipped. */
  lemma {:induction false} SkipLeadingSpace(w: string, s: string)
    requires forall i | 0 <= i < |w| :: IsJsSpace(w[i])
    ensures SkipSpace(w + s) == SkipSpace(s)
    ensures ParseFloat(w + s) == ParseFloat(s)
  {
    if w != [] {
      assert (w + s)[1..] == w[1..] + s;
      SkipLeadingSpace(w[1..], s);
    } else {
      assert w + s == s;
    }
  }

  /** A `+` before unsigned text changes nothing. */
  lemma ScanPlus(u: string)
    requires u == [] || !(IsJsSpace(u[0]) || IsSign(u[0]))
    ensures Scan("+" + u) == Scan(u)
  {
    assert ("+" + u)[0] == '+';
    assert ("+" + u)[1..] == u;
  }

  lemma PlusSign(u: string)
    requires u == [] || !(IsJsSpace(u[0]) || IsSign(u[0]))
    ensures ParseFloat("+" + u) == ParseFloat(u)
  {
    ScanPlus(u);
  }
}
