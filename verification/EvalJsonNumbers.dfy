/** What a fixture's numbers look like, and that they are read as exactly that. */
module EvalJsonNumbers {
  import opened Words
  import opened Json
  import opened EvalJson
  import V = ValidationProofs

  /** A number by its parts: digits, then perhaps a fraction and an exponent. */
  datatype Numeral = Numeral(minus: bool, whole: bytes, fraction: bytes, mark: Option<u8>, sign: Option<u8>, exponent: bytes)

  ghost predicate Digits(d: bytes) {
    forall k :: 0 <= k < |d| ==> '0' as int <= d[k] <= '9' as int
  }

  ghost predicate Proper(n: Numeral) {
    && Digits(n.whole) && n.whole != [] && Digits(n.fraction) && Digits(n.exponent)
    && (n.mark.Some? ==> n.mark.value == 'e' as int || n.mark.value == 'E' as int)
    && (n.sign.Some? ==> n.mark.Some? && (n.sign.value == '+' as int || n.sign.value == '-' as int))
    && (n.mark.Some? <==> n.exponent != [])
  }

  function Byte(x: Option<u8>): bytes {
    match x case None => [] case Some(y) => [y]
  }

  function Minus(n: Numeral): bytes {
    if n.minus then ['-' as int] else []
  }

  function FractionText(n: Numeral): bytes {
    if n.fraction == [] then [] else ['.' as int] + n.fraction
  }

  function ExponentText(n: Numeral): bytes {
    if n.mark.None? then [] else Byte(n.mark) + (Byte(n.sign) + n.exponent)
  }

  function NumberText(n: Numeral): bytes {
    Minus(n) + (n.whole + (FractionText(n) + ExponentText(n)))
  }

  /** With no fraction and no exponent it is an integer, if in range; otherwise a
      float, kept as its text. */
  ghost predicate Stands(n: Numeral, v: Data) {
    if n.fraction == [] && n.mark.None? then
      var m := if n.minus then 0 - Worth(n.whole) else Worth(n.whole);
      -0x8000_0000_0000_0000 <= m < 0x8000_0000_0000_0000 && v == Int(m)
    else v == Float(NumberText(n))
  }

  lemma DigitsSame(d: bytes)
    ensures Digits(d) <==> AllDigits(d)
  {
  }

  /** The place values of digits. */
  lemma {:induction false} WorthIs(d: bytes, x: u8)
    requires Digits(d + [x])
    ensures Worth([]) == 0 && Worth(d + [x]) == 10 * Worth(d) + (x as int - '0' as int)
  {
    assert (d + [x])[..|d|] == d;
  }

  lemma SomeBack(d: bytes, t: bytes)
    requires Digits(d) && d != [] && (t == [] || !Digit(t[0]))
    ensures SomeDigits(d + t) == Ok(|d|)
  {
    hide DigitsLen;
    DigitsSame(d);
    V.DigitsRun(d, t);
    assert (d + t)[0] == d[0];
  }

  lemma SomeThere(r: bytes)
    requires SomeDigits(r).Ok?
    ensures var n := SomeDigits(r).value; n >= 1 && Digits(r[..n]) && r == r[..n] + r[n..]
  {
  }

  /** What may follow a number among values: nothing of a number. */
  lemma ExponentStarts(n: Numeral, t: bytes)
    requires Proper(n) && Boundary(t)
    ensures var e := ExponentText(n) + t; e == [] || (!Digit(e[0]) && e[0] != 0x2E)
    ensures var f := FractionText(n) + (ExponentText(n) + t); f == [] || !Digit(f[0])
  {
  }

  lemma FractionBack(n: Numeral, t: bytes)
    requires Proper(n) && Boundary(t)
    ensures FractionLen(FractionText(n) + (ExponentText(n) + t)) == Ok(|FractionText(n)|)
  {
    hide SomeDigits;
    ExponentStarts(n, t);
    var rest := ExponentText(n) + t;
    if n.fraction == [] {
      assert [] + rest == rest;
    } else {
      SomeBack(n.fraction, rest);
      assert (['.' as int] + n.fraction + rest)[1..] == n.fraction + rest;
    }
  }

  lemma ExponentBack(n: Numeral, t: bytes)
    requires Proper(n) && Boundary(t)
    ensures ExponentLen(ExponentText(n) + t) == Ok(|ExponentText(n)|)
  {
    hide SomeDigits, Boundary;
    if n.mark.None? {
      assert [] + t == t;
      BoundaryEnds(t);
    } else {
      hide Proper, ExponentText;
      var r := ExponentText(n) + t;
      ExponentSplit(n, t);
      SignSeen(n, t);
      ExponentDigits(n, t);
    }
  }

  lemma BoundaryEnds(t: bytes)
    requires Boundary(t)
    ensures !StartsWith(t, 0x65) && !StartsWith(t, 0x45) && (t == [] || !Digit(t[0]))
  {
  }

  lemma ExponentSplit(n: Numeral, t: bytes)
    requires Proper(n) && n.mark.Some?
    ensures var r, k := ExponentText(n) + t, |Byte(n.sign)|;
            && r != [] && (r[0] == 0x65 || r[0] == 0x45) && |ExponentText(n)| == 1 + k + |n.exponent|
            && r[1..] == Byte(n.sign) + (n.exponent + t) && r[1 + k..] == n.exponent + t
            && k == if n.sign.Some? then 1 else 0
  {
    Regroup(Byte(n.mark), Byte(n.sign) + n.exponent, t);
    Regroup(Byte(n.sign), n.exponent, t);
    Dropped(Byte(n.mark), Byte(n.sign) + (n.exponent + t));
    Dropped(Byte(n.sign), n.exponent + t);
    Twice(ExponentText(n) + t, 1, |Byte(n.sign)|);
  }

  lemma SignSeen(n: Numeral, t: bytes)
    requires Proper(n) && n.mark.Some?
    ensures var s := Byte(n.sign) + (n.exponent + t); StartsWith(s, 0x2B) || StartsWith(s, 0x2D) <==> n.sign.Some?
  {
    var s := Byte(n.sign) + (n.exponent + t);
    assert s[0] == if n.sign.Some? then n.sign.value else n.exponent[0];
  }

  lemma ExponentDigits(n: Numeral, t: bytes)
    requires Proper(n) && n.mark.Some? && Boundary(t)
    ensures SomeDigits(n.exponent + t) == Ok(|n.exponent|)
  {
    hide SomeDigits, Boundary;
    BoundaryEnds(t);
    SomeBack(n.exponent, t);
  }

  /** A number's parts, seen from its whole text. */
  lemma Parts(n: Numeral, t: bytes)
    requires Proper(n)
    ensures var r := NumberText(n) + t;
            var s, w, f := |Minus(n)|, |n.whole|, |FractionText(n)|;
            && s + w + f + |ExponentText(n)| == |NumberText(n)|
            && r[s..] == n.whole + (FractionText(n) + (ExponentText(n) + t))
            && r[s + w..] == FractionText(n) + (ExponentText(n) + t)
            && r[s + w + f..] == ExponentText(n) + t
            && r[|NumberText(n)|..] == t && r[..|NumberText(n)|] == NumberText(n)
            && (StartsWith(r, 0x2D) <==> n.minus)
  {
    var a, b, c, d := Minus(n), n.whole, FractionText(n), ExponentText(n);
    FourParts(a, b, c, d, t);
    FirstByte(n, c + d, t);
  }

  lemma FirstByte(n: Numeral, rest: bytes, t: bytes)
    requires Proper(n)
    ensures StartsWith(Minus(n) + (n.whole + rest) + t, 0x2D) <==> n.minus
  {
    var r := Minus(n) + (n.whole + rest) + t;
    assert r[0] == if n.minus then '-' as int else n.whole[0];
  }

  lemma FourParts(a: bytes, b: bytes, c: bytes, d: bytes, t: bytes)
    ensures var r := (a + (b + (c + d))) + t;
            var n := |a| + |b| + |c|;
            && r[|a|..] == b + (c + (d + t)) && r[|a| + |b|..] == c + (d + t)
            && r[n..] == d + t && r[n + |d|..] == t && r[..n + |d|] == a + (b + (c + d))
  {
    Regroup(a, b + (c + d), t);
    Regroup(b, c + d, t);
    Regroup(c, d, t);
    Dropped(a, b + (c + (d + t)));
    Dropped(b, c + (d + t));
    Dropped(c, d + t);
    Dropped(a + (b + (c + d)), t);
    Twice(a + (b + (c + (d + t))), |a|, |b|);
    Twice(a + (b + (c + (d + t))), |a| + |b|, |c|);
  }

  lemma Dropped(a: bytes, b: bytes)
    ensures (a + b)[|a|..] == b && (a + b)[..|a|] == a
  {
  }

  lemma Twice(r: bytes, j: nat, k: nat)
    requires j + k <= |r|
    ensures r[j..][k..] == r[j + k..]
  {
  }

  lemma SpanIs(r: bytes, s: nat, w: nat, f: nat, e: nat)
    requires s == (if StartsWith(r, 0x2D) then 1 else 0) && s + w + f <= |r|
    requires SomeDigits(r[s..]) == Ok(w) && FractionLen(r[s + w..]) == Ok(f) && ExponentLen(r[s + w + f..]) == Ok(e)
    ensures NumberSpan(r) == Ok((s + w, s + w + f + e))
  {
    hide SomeDigits, FractionLen, ExponentLen, StartsWith;
  }

  lemma SpanBack(n: Numeral, t: bytes)
    requires Proper(n) && Boundary(t)
    ensures NumberSpan(NumberText(n) + t) == Ok((|Minus(n)| + |n.whole|, |NumberText(n)|))
  {
    hide NumberSpan, SomeDigits, FractionLen, ExponentLen, Boundary, NumberText, FractionText, ExponentText, Proper, StartsWith;
    Parts(n, t);
    WholeBack(n, t);
    FractionBack(n, t);
    ExponentBack(n, t);
    SpanIs(NumberText(n) + t, |Minus(n)|, |n.whole|, |FractionText(n)|, |ExponentText(n)|);
  }

  lemma WholeBack(n: Numeral, t: bytes)
    requires Proper(n) && Boundary(t)
    ensures SomeDigits(n.whole + (FractionText(n) + (ExponentText(n) + t))) == Ok(|n.whole|)
  {
    hide SomeDigits, FractionText, ExponentText;
    ExponentStarts(n, t);
    SomeBack(n.whole, FractionText(n) + (ExponentText(n) + t));
  }

  lemma NumberBack(n: Numeral, v: Data, t: bytes)
    requires Proper(n) && Stands(n, v) && Boundary(t)
    ensures TakeNumeral(NumberText(n) + t) == Ok((v, t))
  {
    hide NumberSpan, Boundary, Worth, NumberText, FractionText, ExponentText, SignedWorth;
    SpanBack(n, t);
    Parts(n, t);
    TailEmpty(n);
    if n.fraction == [] && n.mark.None? {
      WholeOnly(n);
    }
  }

  lemma TailEmpty(n: Numeral)
    requires Proper(n)
    ensures |FractionText(n)| + |ExponentText(n)| == 0 <==> n.fraction == [] && n.mark.None?
  {
  }

  lemma WholeOnly(n: Numeral)
    requires Proper(n) && n.fraction == [] && n.mark.None?
    ensures SignedWorth(NumberText(n)) == if n.minus then 0 - Worth(n.whole) else Worth(n.whole)
  {
    hide Worth;
    assert NumberText(n) == Minus(n) + n.whole;
    if n.minus {
      assert NumberText(n)[1..] == n.whole;
    } else {
      assert NumberText(n) == n.whole;
    }
  }

  lemma FractionThere(r: bytes) returns (fraction: bytes)
    requires FractionLen(r).Ok?
    ensures var f := FractionLen(r).value;
            Digits(fraction) && f <= |r| && r[..f] == (if fraction == [] then [] else ['.' as int] + fraction)
  {
    hide SomeDigits;
    if StartsWith(r, 0x2E) {
      SomeThere(r[1..]);
      fraction := r[1..][..SomeDigits(r[1..]).value];
    } else {
      fraction := [];
    }
  }

  lemma ExponentThere(r: bytes) returns (mark: Option<u8>, sign: Option<u8>, exponent: bytes)
    requires ExponentLen(r).Ok?
    ensures Digits(exponent) && (mark.Some? <==> exponent != []) && (sign.Some? ==> mark.Some?)
    ensures mark.Some? ==> mark.value == 'e' as int || mark.value == 'E' as int
    ensures sign.Some? ==> sign.value == '+' as int || sign.value == '-' as int
    ensures var e := ExponentLen(r).value;
            e <= |r| && r[..e] == if mark.None? then [] else Byte(mark) + (Byte(sign) + exponent)
  {
    hide SomeDigits;
    if !StartsWith(r, 0x65) && !StartsWith(r, 0x45) {
      mark, sign, exponent := None, None, [];
    } else {
      mark := Some(r[0]);
      sign := if StartsWith(r[1..], 0x2B) || StartsWith(r[1..], 0x2D) then Some(r[1]) else None;
      var k := 1 + if sign.Some? then 1 else 0;
      SomeThere(r[k..]);
      exponent := r[k..][..SomeDigits(r[k..]).value];
      assert r[..k] == Byte(mark) + Byte(sign);
      assert r[..k + |exponent|] == r[..k] + exponent;
    }
  }

  lemma SpanThere(r: bytes) returns (n: Numeral)
    requires NumberSpan(r).Ok?
    ensures var (whole, all) := NumberSpan(r).value;
            Proper(n) && r[..all] == NumberText(n) && (whole < all <==> n.fraction != [] || n.mark.Some?)
  {
    hide SomeDigits, FractionLen, ExponentLen;
    var s := if StartsWith(r, 0x2D) then 1 else 0;
    var w := SomeDigits(r[s..]).value;
    SomeThere(r[s..]);
    var f := FractionLen(r[s + w..]).value;
    var fraction := FractionThere(r[s + w..]);
    var e := ExponentLen(r[s + w + f..]).value;
    var mark, sign, exponent := ExponentThere(r[s + w + f..]);
    n := Numeral(s == 1, r[s..][..w], fraction, mark, sign, exponent);
    Cuts(r, s, w, f, e);
    assert r[..s] == Minus(n);
    TailEmpty(n);
  }

  lemma Cuts(r: bytes, s: nat, w: nat, f: nat, e: nat)
    requires s + w + f + e <= |r|
    ensures r[..s + w + f + e] == r[..s] + (r[s..][..w] + (r[s + w..][..f] + r[s + w + f..][..e]))
  {
  }

  lemma NumberThere(r: bytes) returns (n: Numeral)
    requires TakeNumeral(r).Ok?
    ensures var (v, t) := TakeNumeral(r).value;
            Proper(n) && Stands(n, v) && r == NumberText(n) + t
  {
    hide NumberSpan, Worth;
    n := SpanThere(r);
    var (whole, all) := NumberSpan(r).value;
    assert r == r[..all] + r[all..];
    if n.fraction == [] && n.mark.None? {
      WholeOnly(n);
    }
  }
}
