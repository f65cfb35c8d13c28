/** Rendering and parsing undo each other, and two values render alike exactly
    when they are canonically equal. */
module EvalJsonProofs {
  import opened Words
  import opened Json
  import opened EvalJson
  import V = ValidationProofs

  // Key order.

  lemma {:induction false} LessTotal(a: bytes, b: bytes)
    ensures a == b ==> !Less(a, b)
    ensures a != b ==> (Less(a, b) <==> !Less(b, a))
  {
    if a != [] && b != [] && a[0] == b[0] {
      LessTotal(a[1..], b[1..]);
      assert a == [a[0]] + a[1..] && b == [b[0]] + b[1..];
    }
  }

  lemma {:induction false} LessChains(a: bytes, b: bytes, c: bytes)
    requires Less(a, b) && Less(b, c)
    ensures Less(a, c)
  {
    if a != [] && a[0] == b[0] && b[0] == c[0] {
      LessChains(a[1..], b[1..], c[1..]);
    }
  }

  ghost predicate Increasing(keys: seq<bytes>) {
    forall i, j :: 0 <= i < j < |keys| ==> Less(keys[i], keys[j])
  }

  ghost predicate InOrder(keys: seq<bytes>, order: seq<nat>)
    requires forall i :: 0 <= i < |order| ==> order[i] < |keys|
  {
    forall i, j :: 0 <= i < j < |order| ==> Less(keys[order[i]], keys[order[j]])
  }

  lemma {:induction false} PlacedInOrder(keys: seq<bytes>, order: seq<nat>, k: nat)
    requires k < |keys| && forall i :: 0 <= i < |order| ==> order[i] < |keys| && keys[order[i]] != keys[k]
    requires InOrder(keys, order)
    ensures InOrder(keys, Placed(keys, order, k))
    ensures forall x: nat :: x in Placed(keys, order, k) <==> x == k || x in order
  {
    hide Less;
    if order != [] {
      LessTotal(keys[k], keys[order[0]]);
      if Less(keys[k], keys[order[0]]) {
        forall i | 0 <= i < |order| ensures Less(keys[k], keys[order[i]]) {
          if i > 0 {
            LessChains(keys[k], keys[order[0]], keys[order[i]]);
          }
        }
      } else {
        var rest := Placed(keys, order[1..], k);
        PlacedInOrder(keys, order[1..], k);
        forall i | 0 <= i < |rest| ensures Less(keys[order[0]], keys[rest[i]]) {
          assert rest[i] in rest;
        }
        assert order == [order[0]] + order[1..];
      }
    }
  }

  lemma {:induction false} OrderUpToSorts(keys: seq<bytes>, n: nat)
    requires n <= |keys| && Unique(keys)
    ensures InOrder(keys, OrderUpTo(keys, n))
    ensures forall x: nat :: x in OrderUpTo(keys, n) <==> x < n
  {
    hide Placed;
    if n > 0 {
      var before := OrderUpTo(keys, n - 1);
      OrderUpToSorts(keys, n - 1);
      assert forall i :: 0 <= i < |before| ==> before[i] in before;
      PlacedInOrder(keys, before, n - 1);
    }
  }

  /** Unique keys have one increasing list. */
  lemma {:induction false} SameKeys(a: seq<bytes>, b: seq<bytes>)
    requires Increasing(a) && Increasing(b) && forall x :: x in a <==> x in b
    ensures a == b
  {
    hide Less;
    assert (a != [] ==> a[0] in b) && (b != [] ==> b[0] in a);
    if a != [] && b != [] {
      var i :| 0 <= i < |b| && b[i] == a[0];
      var j :| 0 <= j < |a| && a[j] == b[0];
      LessTotal(a[0], b[0]);
      assert a[0] == b[0];
      forall x ensures x in a[1..] <==> x in b[1..] {
        TailHas(a, x);
        TailHas(b, x);
      }
      SameKeys(a[1..], b[1..]);
      assert a == [a[0]] + a[1..] && b == [b[0]] + b[1..];
    }
  }

  lemma TailHas(a: seq<bytes>, x: bytes)
    requires a != [] && Increasing(a)
    ensures x in a[1..] <==> x in a && x != a[0]
  {
    hide Less;
    forall i | 0 < i < |a| ensures a[i] != a[0] {
      LessTotal(a[0], a[i]);
    }
    if x in a && x != a[0] {
      var i :| 0 <= i < |a| && a[i] == x;
      assert a[1..][i - 1] == x;
    }
  }

  /** The keys in order. */
  function Ordered(keys: seq<bytes>): (r: seq<bytes>)
    ensures |r| == |keys|
  {
    var order := Order(keys);
    seq(|keys|, i requires 0 <= i < |keys| => keys[order[i]])
  }

  lemma OrderedKeys(keys: seq<bytes>)
    requires Unique(keys)
    ensures Increasing(Ordered(keys))
    ensures forall x :: x in Ordered(keys) <==> x in keys
    ensures forall x: nat :: x in Order(keys) <==> x < |keys|
  {
    hide Less, OrderUpTo;
    OrderUpToSorts(keys, |keys|);
    var order := Order(keys);
    forall x | x in keys ensures x in Ordered(keys) {
      var k :| 0 <= k < |keys| && keys[k] == x;
      assert k in order;
      var i :| 0 <= i < |order| && order[i] == k;
      assert Ordered(keys)[i] == x;
    }
    forall x | x in Ordered(keys) ensures x in keys {
    }
  }

  // Canonical values.

  lemma CanonKeys(pairs: seq<(bytes, Data)>)
    ensures Keys(Canon(Dict(pairs)).pairs) == Ordered(Keys(pairs))
  {
    hide Order;
  }

  lemma {:induction false} IncreasingUnique(keys: seq<bytes>)
    requires Increasing(keys)
    ensures Unique(keys)
  {
    hide Less;
    forall i, j | 0 <= i < j < |keys| ensures keys[i] != keys[j] {
      LessTotal(keys[i], keys[j]);
    }
  }

  lemma {:induction false} CanonKeeps(v: Data)
    requires WellFormed(v) && FloatFree(v)
    ensures WellFormed(Canon(v)) && FloatFree(Canon(v))
    decreases v
  {
    hide Order, Less, Utf8;
    match v {
      case List(items) =>
        forall i | 0 <= i < |items| ensures WellFormed(Canon(items[i])) && FloatFree(Canon(items[i])) {
          CanonKeeps(items[i]);
        }
      case Dict(pairs) =>
        OrderedKeys(Keys(pairs));
        CanonKeys(pairs);
        IncreasingUnique(Ordered(Keys(pairs)));
        forall i | 0 <= i < |pairs| ensures WellFormed(Canon(pairs[i].1)) && FloatFree(Canon(pairs[i].1)) {
          CanonKeeps(pairs[i].1);
        }
      case _ =>
    }
  }

  lemma {:induction false} CanonWithin(v: Data, depth: int)
    requires WellFormed(v)
    ensures Within(Canon(v), depth) <==> Within(v, depth)
    decreases v
  {
    hide Order, Less, Utf8;
    match v {
      case List(items) =>
        forall i | 0 <= i < |items| ensures Within(Canon(items[i]), depth - 1) <==> Within(items[i], depth - 1) {
          CanonWithin(items[i], depth - 1);
        }
        assert forall i :: 0 <= i < |items| ==> Canon(v).items[i] == Canon(items[i]);
      case Dict(pairs) =>
        var order := Order(Keys(pairs));
        OrderedKeys(Keys(pairs));
        forall i | 0 <= i < |pairs| ensures Within(Canon(pairs[i].1), depth - 1) <==> Within(pairs[i].1, depth - 1) {
          CanonWithin(pairs[i].1, depth - 1);
        }
        DictWithin(v, order, depth);
      case _ =>
    }
  }

  lemma DictWithin(v: Data, order: seq<nat>, depth: int)
    requires v.Dict? && order == Order(Keys(v.pairs)) && forall x: nat :: x in order <==> x < |v.pairs|
    requires forall i :: 0 <= i < |v.pairs| ==> (Within(Canon(v.pairs[i].1), depth - 1) <==> Within(v.pairs[i].1, depth - 1))
    ensures Within(Canon(v), depth) <==> Within(v, depth)
  {
    hide Order;
    var c := Canon(v).pairs;
    assert forall i :: 0 <= i < |c| ==> c[i].1 == Canon(v.pairs[order[i]].1);
    if Within(Canon(v), depth) {
      forall k | 0 <= k < |v.pairs| ensures Within(v.pairs[k].1, depth - 1) {
        assert k in order;
        var i :| 0 <= i < |order| && order[i] == k;
        assert Within(c[i].1, depth - 1);
      }
    }
  }

  /** Rendering without sorting. */
  function Plain(v: Data): bytes
    requires FloatFree(v)
    decreases v
  {
    match v
    case Nil => NULL
    case Truth(t) => if t then TRUE else FALSE
    case Int(n) => IntText(n)
    case Text(text) => Quoted(text)
    case List(items) => [0x5B] + (Commas(ItemTexts(v)) + [0x5D])
    case Dict(pairs) => [OPEN] + (Commas(PairTexts(v)) + [SHUT])
  }

  function ItemTexts(v: Data): (r: seq<bytes>)
    requires v.List? && FloatFree(v)
    ensures |r| == |v.items|
    decreases v, 0
  {
    seq(|v.items|, i requires 0 <= i < |v.items| => Plain(v.items[i]))
  }

  function PairTexts(v: Data): (r: seq<bytes>)
    requires v.Dict? && FloatFree(v)
    ensures |r| == |v.pairs|
    decreases v, 0
  {
    seq(|v.pairs|, i requires 0 <= i < |v.pairs| => PairText(v.pairs[i].0, Plain(v.pairs[i].1)))
  }

  lemma {:induction false} RenderIsPlain(show: shown, v: Data)
    requires WellFormed(v) && FloatFree(v)
    ensures FloatFree(Canon(v)) && Render(show, v) == Plain(Canon(v))
    decreases v
  {
    hide Order, Commas, PairText;
    CanonKeeps(v);
    match v {
      case List(items) =>
        forall i | 0 <= i < |items| ensures FloatFree(Canon(items[i])) && Render(show, items[i]) == Plain(Canon(items[i])) {
          RenderIsPlain(show, items[i]);
        }
        assert seq(|items|, i requires 0 <= i < |items| => Render(show, items[i])) == ItemTexts(Canon(v));
      case Dict(pairs) =>
        var order := Order(Keys(pairs));
        forall i | 0 <= i < |pairs| ensures FloatFree(Canon(pairs[i].1)) && Render(show, pairs[i].1) == Plain(Canon(pairs[i].1)) {
          RenderIsPlain(show, pairs[i].1);
        }
        assert seq(|pairs|, i requires 0 <= i < |pairs| => PairText(pairs[order[i]].0, Render(show, pairs[order[i]].1))) == PairTexts(Canon(v));
      case _ =>
    }
  }

  // Canonical equality.

  lemma FindUnique(keys: seq<bytes>, k: nat)
    requires Unique(keys) && k < |keys|
    ensures Find(keys, keys[k]) == Some(k)
  {
  }

  lemma {:induction false} EqualHaveCanon(a: Data, b: Data)
    requires WellFormed(a) && WellFormed(b) && EqualsCanonical(a, b)
    ensures Canon(a) == Canon(b)
    decreases a
  {
    hide Order, Find, Utf8;
    match (a, b) {
      case (List(x), List(y)) =>
        forall i | 0 <= i < |x| ensures Canon(x[i]) == Canon(y[i]) {
          EqualHaveCanon(x[i], y[i]);
        }
      case (Dict(x), Dict(y)) =>
        forall i | 0 <= i < |x|
          ensures Find(Keys(y), x[i].0).Some? && Canon(x[i].1) == Canon(y[Find(Keys(y), x[i].0).value].1)
        {
          EqualHaveCanon(x[i].1, y[Find(Keys(y), x[i].0).value].1);
        }
        DictsAlike(x, y);
      case _ =>
    }
  }

  /** Each key of `x` stands in `y` over the same canonical value. */
  ghost predicate Alike(x: seq<(bytes, Data)>, y: seq<(bytes, Data)>) {
    |x| == |y| && forall i :: 0 <= i < |x| ==> Find(Keys(y), x[i].0).Some? && Canon(x[i].1) == Canon(y[Find(Keys(y), x[i].0).value].1)
  }

  lemma {:induction false} KeySets(x: seq<bytes>, y: seq<bytes>)
    requires Unique(x) && Unique(y) && |x| == |y| && forall k :: k in x ==> k in y
    ensures forall k :: k in y ==> k in x
  {
    var sx, sy := set k | k in x, set k | k in y;
    SetSize(x, sx);
    SetSize(y, sy);
    assert sx <= sy;
    SameSize(sx, sy);
    forall k | k in y ensures k in x {
      assert k in sy;
    }
  }

  lemma SameSize(a: set<bytes>, b: set<bytes>)
    requires a <= b && |a| == |b|
    ensures a == b
  {
    assert b == a + (b - a);
    assert |b| == |a| + |b - a|;
  }

  lemma {:induction false} SetSize(x: seq<bytes>, s: set<bytes>)
    requires Unique(x) && s == set k | k in x
    ensures |s| == |x|
  {
    if x != [] {
      var n := |x| - 1;
      var rest := set k | k in x[..n];
      SetSize(x[..n], rest);
      assert x == x[..n] + [x[n]];
      assert x[n] !in x[..n];
      assert s == rest + {x[n]};
    }
  }

  lemma DictsAlike(x: seq<(bytes, Data)>, y: seq<(bytes, Data)>)
    requires Unique(Keys(x)) && Unique(Keys(y)) && Alike(x, y)
    ensures Canon(Dict(x)) == Canon(Dict(y))
  {
    hide Order, Find, Less, Ordered;
    var kx, ky := Keys(x), Keys(y);
    forall k | k in kx ensures k in ky {
      var i :| 0 <= i < |kx| && kx[i] == k;
      assert Find(ky, x[i].0).Some?;
    }
    KeySets(kx, ky);
    OrderedKeys(kx);
    OrderedKeys(ky);
    SameKeys(Ordered(kx), Ordered(ky));
    CanonKeys(x);
    CanonKeys(y);
    var cx, cy := Canon(Dict(x)).pairs, Canon(Dict(y)).pairs;
    forall i | 0 <= i < |cx| ensures cx[i] == cy[i] {
      assert Keys(cx)[i] == Keys(cy)[i];
      var p, q := Order(kx)[i], Order(ky)[i];
      assert kx[p] == ky[q];
      FindUnique(ky, q);
    }
  }

  lemma {:induction false} CanonAreEqual(a: Data, b: Data)
    requires WellFormed(a) && WellFormed(b) && FloatFree(a) && Canon(a) == Canon(b)
    ensures EqualsCanonical(a, b)
    decreases a
  {
    hide Order, Find, Utf8;
    match (a, b) {
      case (List(x), List(y)) =>
        forall i | 0 <= i < |x| ensures EqualsCanonical(x[i], y[i]) {
          assert Canon(a).items[i] == Canon(b).items[i];
          CanonAreEqual(x[i], y[i]);
        }
      case (Dict(x), Dict(y)) =>
        forall i | 0 <= i < |x|
          ensures Find(Keys(y), x[i].0).Some? && EqualsCanonical(x[i].1, y[Find(Keys(y), x[i].0).value].1)
        {
          var j := CanonPlace(x, y, i);
          CanonAreEqual(x[i].1, y[j].1);
        }
        assert |x| == |Canon(a).pairs| && |y| == |Canon(b).pairs|;
        DictsEqual(a, b);
      case _ =>
    }
  }

  lemma DictsEqual(a: Data, b: Data)
    requires a.Dict? && b.Dict? && |a.pairs| == |b.pairs|
    requires forall i :: 0 <= i < |a.pairs| ==>
               Find(Keys(b.pairs), a.pairs[i].0).Some? && EqualsCanonical(a.pairs[i].1, b.pairs[Find(Keys(b.pairs), a.pairs[i].0).value].1)
    ensures EqualsCanonical(a, b)
  {
    hide Find;
  }

  /** A key of `x` stands in `y` where the common canonical value has it. */
  lemma CanonPlace(x: seq<(bytes, Data)>, y: seq<(bytes, Data)>, i: nat) returns (j: nat)
    requires Unique(Keys(x)) && Unique(Keys(y)) && Canon(Dict(x)) == Canon(Dict(y)) && i < |x|
    ensures j < |y| && Find(Keys(y), x[i].0) == Some(j) && Canon(x[i].1) == Canon(y[j].1)
  {
    hide Order, Find, Less;
    OrderedKeys(Keys(x));
    OrderedKeys(Keys(y));
    assert i in Order(Keys(x));
    var p :| 0 <= p < |x| && Order(Keys(x))[p] == i;
    var cx, cy := Canon(Dict(x)).pairs, Canon(Dict(y)).pairs;
    assert cx[p] == cy[p] && cx[p] == (x[i].0, Canon(x[i].1));
    j := Order(Keys(y))[p];
    assert cy[p] == (y[j].0, Canon(y[j].1));
    FindUnique(Keys(y), j);
  }

  // Parsing what was rendered.

  lemma HexBack(x: nat)
    requires x < 16
    ensures HexValue(Hex(x)) == Some(x)
  {
  }

  lemma Hex4Back(x: nat, t: bytes)
    requires x < 0x20
    ensures TakeHex4([0x30, 0x30, Hex(x / 16), Hex(x % 16)] + t) == Ok((x, t))
  {
    hide Hex, HexValue;
    HexBack(x / 16);
    HexBack(x % 16);
    HexBack(0);
    assert Hex(0) == 0x30 by { HexZero(); }
    var r := [0x30, 0x30, Hex(x / 16), Hex(x % 16)] + t;
    assert r[0] == 0x30 && r[1] == 0x30 && r[2] == Hex(x / 16) && r[3] == Hex(x % 16) && r[4..] == t;
  }

  lemma HexZero()
    ensures Hex(0) == 0x30
  {
  }

  lemma UnicodeBack(x: nat, t: bytes)
    requires x < 0x20
    ensures TakeEscape([0x75, 0x30, 0x30, Hex(x / 16), Hex(x % 16)] + t) == Ok(([x], t))
  {
    hide Hex, TakeHex4;
    Hex4Back(x, t);
    var r := [0x75, 0x30, 0x30, Hex(x / 16), Hex(x % 16)] + t;
    assert r[1..] == [0x30, 0x30, Hex(x / 16), Hex(x % 16)] + t;
  }

  /** One byte's escape decodes to that byte. */
  lemma ByteBack(x: u8, t: bytes, tail: bytes, rest: bytes)
    requires Decode(t) == Ok((tail, rest))
    ensures Decode(EscapeByte(x) + t) == Ok(([x] + tail, rest))
  {
    hide TakeUnicode;
    var r := EscapeByte(x) + t;
    if EscapeByte(x) == [x] {
      assert r[1..] == t;
    } else if |EscapeByte(x)| == 2 {
      assert r[1..][1..] == t;
    } else {
      UnicodeBack(x, t);
      assert r[1..] == [0x75, 0x30, 0x30, Hex(x / 16), Hex(x % 16)] + t;
    }
  }

  lemma {:induction false} DecodeBack(text: bytes, rest: bytes)
    ensures Decode(Escaped(text) + ([QUOTE] + rest)) == Ok((text, rest))
  {
    hide EscapeByte, TakeEscape;
    if text == [] {
      assert [] + ([QUOTE] + rest) == [QUOTE] + rest;
    } else {
      var t := Escaped(text[1..]) + ([QUOTE] + rest);
      DecodeBack(text[1..], rest);
      ByteBack(text[0], t, text[1..], rest);
      Regroup(EscapeByte(text[0]), Escaped(text[1..]), [QUOTE] + rest);
      assert text == [text[0]] + text[1..];
    }
  }

  lemma TextBack(text: bytes, rest: bytes)
    requires Utf8(text)
    ensures TakeText(Escaped(text) + ([QUOTE] + rest)) == Ok((text, rest))
    ensures Quoted(text) + rest == [QUOTE] + (Escaped(text) + ([QUOTE] + rest))
  {
    hide Utf8, Escaped, Decode;
    DecodeBack(text, rest);
    Regroup([QUOTE], Escaped(text) + [QUOTE], rest);
    Regroup(Escaped(text), [QUOTE], rest);
  }

  lemma DigitsBack(n: nat, t: bytes)
    requires Boundary(t)
    ensures SomeDigits(Decimal(n) + t) == Ok(|Decimal(n)|)
  {
    hide Decimal, DigitsLen, Worth;
    V.DecimalWorth(n);
    V.DigitsRun(Decimal(n), t);
  }

  lemma NothingMore(t: bytes)
    requires Boundary(t)
    ensures FractionLen(t) == Ok(0) && ExponentLen(t) == Ok(0)
  {
  }

  lemma SpanBack(sign: bytes, n: nat, t: bytes)
    requires Boundary(t) && (sign == [] || sign == [0x2D])
    ensures NumberSpan(sign + (Decimal(n) + t)) == Ok((|sign| + |Decimal(n)|, |sign| + |Decimal(n)|))
  {
    hide Decimal, SomeDigits, Worth, FractionLen, ExponentLen, Boundary;
    DigitsBack(n, t);
    NothingMore(t);
    V.DecimalWorth(n);
    var d := Decimal(n);
    var r := sign + (d + t);
    assert r[|sign|..] == d + t;
    assert r[|sign| + |d|..] == t;
    assert r[|sign| + |d| + 0..] == t;
    if sign == [] {
      assert r[0] == d[0] && Digit(d[0]);
    } else {
      assert r[0] == 0x2D;
    }
  }

  lemma IntBack(n: i64, t: bytes)
    requires Boundary(t)
    ensures TakeNumeral(IntText(n) + t) == Ok((Int(n), t))
  {
    hide Decimal, NumberSpan, Worth;
    var sign: bytes, m: nat := if n < 0 then [0x2D] else [], if n < 0 then 0 - n as int else n as int;
    Regroup(sign, Decimal(m), t);
    SpanBack(sign, m, t);
    V.DecimalWorth(m);
    var r := sign + (Decimal(m) + t);
    var s := sign + Decimal(m);
    assert IntText(n) == s && IntText(n) + t == r;
    assert r[..|s|] == s && r[|s|..] == t;
    assert s[|sign|..] == Decimal(m);
    assert s[0..] == s && (n >= 0 ==> s[0] == Decimal(m)[0]);
  }

  /** What a rendered value starts with. */
  lemma PlainStarts(v: Data, t: bytes)
    requires FloatFree(v)
    ensures var p := Plain(v) + t;
            && Plain(v) != [] && p != [] && !Space(p[0]) && p[0] != 0x5D && p[0] != SHUT
            && Skip(p) == p
            && (v.Int? ==> p[0] == 0x2D || Digit(p[0]))
  {
    hide Decimal, Worth, Escaped, Commas;
    if v.Int? {
      V.DecimalWorth(if v.n < 0 then 0 - v.n as int else v.n as int);
    }
    V.SkipGap([], Plain(v) + t);
    assert [] + (Plain(v) + t) == Plain(v) + t;
  }

  lemma ScalarBack(v: Data, t: bytes, depth: nat, limit: nat)
    requires FloatFree(v) && WellFormed(v) && !v.List? && !v.Dict? && Boundary(t) && depth <= limit
    ensures ParseData(Plain(v) + t, depth, limit) == Ok((v, t))
  {
    hide Skip, TakeText, TakeNumeral, Decimal, Escaped, Utf8;
    PlainStarts(v, t);
    var r := Plain(v) + t;
    match v {
      case Nil => assert r[|NULL|..] == t;
      case Truth(b) => assert r[|Plain(v)|..] == t;
      case Int(n) => IntBack(n, t);
      case Text(text) =>
        TextBack(text, t);
        assert ([QUOTE] + (Escaped(text) + ([QUOTE] + t)))[1..] == Escaped(text) + ([QUOTE] + t);
    }
  }

  lemma CommasNext(chunks: seq<bytes>, k: nat)
    requires k < |chunks|
    ensures k + 1 == |chunks| ==> Commas(chunks[k..]) == chunks[k]
    ensures k + 1 < |chunks| ==> Commas(chunks[k..]) == chunks[k] + ([COMMA] + Commas(chunks[k + 1..]))
  {
    assert chunks[k..][1..] == chunks[k + 1..];
  }

  /** What follows chunk `k`, through the closing byte. */
  function After(chunks: seq<bytes>, k: nat, close: u8, t: bytes): bytes
    requires k < |chunks|
  {
    if k + 1 == |chunks| then [close] + t else [COMMA] + (Commas(chunks[k + 1..]) + ([close] + t))
  }

  lemma AfterChunk(chunks: seq<bytes>, k: nat, close: u8, t: bytes)
    requires k < |chunks|
    ensures Commas(chunks[k..]) + ([close] + t) == chunks[k] + After(chunks, k, close, t)
  {
    hide Commas;
    CommasNext(chunks, k);
    if k + 1 < |chunks| {
      Regroup(chunks[k], [COMMA] + Commas(chunks[k + 1..]), [close] + t);
      Regroup([COMMA], Commas(chunks[k + 1..]), [close] + t);
    }
  }

  lemma AfterBounds(chunks: seq<bytes>, k: nat, close: u8, t: bytes)
    requires k < |chunks| && (close == 0x5D || close == SHUT)
    ensures var a := After(chunks, k, close, t);
            && Boundary(a) && Skip(a) == a && a != []
            && (if k + 1 == |chunks| then a[0] == close && a[1..] == t else a[0] == COMMA && a[1..] == Commas(chunks[k + 1..]) + ([close] + t))
  {
    hide Commas;
    var a := After(chunks, k, close, t);
    V.SkipGap([], a);
    assert [] + a == a;
    assert ([close] + t)[1..] == t;
    if k + 1 < |chunks| {
      assert ([COMMA] + (Commas(chunks[k + 1..]) + ([close] + t)))[1..] == Commas(chunks[k + 1..]) + ([close] + t);
    }
  }

  /** A rendered value parses back to itself, within the depth allowed. */
  lemma {:induction false} PlainBack(v: Data, t: bytes, depth: nat, limit: nat)
    requires FloatFree(v) && WellFormed(v) && Within(v, limit - depth) && Boundary(t)
    ensures ParseData(Plain(v) + t, depth, limit) == Ok((v, t))
    decreases v, 1, 0
  {
    hide Plain, ItemTexts, PairTexts, ParseItems, ParsePairs, Skip, Commas, Utf8, TakeText, TakeNumeral, TakeWord;
    match v {
      case List(items) =>
        if items != [] {
          ItemsBack(v, 0, t, depth, limit);
          assert items[..0] == [];
        }
        ListBack(v, t, depth, limit);
      case Dict(pairs) =>
        if pairs != [] {
          PairsBack(v, 0, t, depth, limit);
          assert pairs[..0] == [];
        }
        DictBack(v, t, depth, limit);
      case _ => ScalarBack(v, t, depth, limit);
    }
  }

  lemma ListBack(v: Data, t: bytes, depth: nat, limit: nat)
    requires v.List? && FloatFree(v) && depth <= limit
    requires v.items != [] ==> ParseItems(Commas(ItemTexts(v)[0..]) + ([0x5D] + t), depth, limit, []) == Ok((v, t))
    ensures ParseData(Plain(v) + t, depth, limit) == Ok((v, t))
  {
    hide ParseItems, Skip, ItemTexts;
    var body := Commas(ItemTexts(v));
    PlainStarts(v, t);
    Regroup([0x5B], body + [0x5D], t);
    Regroup(body, [0x5D], t);
    var r := Plain(v) + t;
    var inner := body + ([0x5D] + t);
    assert r == [0x5B] + inner && r[1..] == inner;
    assert ItemTexts(v)[0..] == ItemTexts(v);
    if v.items == [] {
      assert inner == [0x5D] + t;
      V.SkipGap([], inner);
      assert [] + inner == inner && inner[1..] == t;
    } else {
      ItemStarts(v, [0x5D] + t);
    }
  }

  lemma ItemStarts(v: Data, t: bytes)
    requires v.List? && FloatFree(v) && v.items != []
    ensures var inner := Commas(ItemTexts(v)) + t; Skip(inner) == inner && !StartsWith(inner, 0x5D)
  {
    hide Plain, Skip;
    var inner := Commas(ItemTexts(v)) + t;
    PlainStarts(v.items[0], []);
    assert Plain(v.items[0]) + [] == Plain(v.items[0]);
    assert inner[0] == Plain(v.items[0])[0];
    V.SkipGap([], inner);
    assert [] + inner == inner;
  }

  lemma {:induction false} ItemsBack(v: Data, k: nat, t: bytes, depth: nat, limit: nat)
    requires v.List? && FloatFree(v) && WellFormed(v) && Within(v, limit - depth) && k < |v.items|
    ensures ParseItems(Commas(ItemTexts(v)[k..]) + ([0x5D] + t), depth, limit, v.items[..k]) == Ok((v, t))
    decreases v, 0, |v.items| - k
  {
    hide Plain, ParseData, Skip, Commas, After, Utf8;
    var chunks := ItemTexts(v);
    AfterChunk(chunks, k, 0x5D, t);
    AfterBounds(chunks, k, 0x5D, t);
    PlainBack(v.items[k], After(chunks, k, 0x5D, t), depth + 1, limit);
    assert v.items[..k] + [v.items[k]] == v.items[..k + 1];
    if k + 1 < |v.items| {
      ItemsBack(v, k + 1, t, depth, limit);
    } else {
      assert v.items[..k + 1] == v.items;
    }
  }

  lemma DictBack(v: Data, t: bytes, depth: nat, limit: nat)
    requires v.Dict? && FloatFree(v) && depth <= limit
    requires v.pairs != [] ==> ParsePairs(Commas(PairTexts(v)[0..]) + ([SHUT] + t), depth, limit, []) == Ok((v, t))
    ensures ParseData(Plain(v) + t, depth, limit) == Ok((v, t))
  {
    hide ParsePairs, Skip, PairTexts;
    var body := Commas(PairTexts(v));
    PlainStarts(v, t);
    Regroup([OPEN], body + [SHUT], t);
    Regroup(body, [SHUT], t);
    var r := Plain(v) + t;
    var inner := body + ([SHUT] + t);
    assert r == [OPEN] + inner && r[1..] == inner;
    assert PairTexts(v)[0..] == PairTexts(v);
    if v.pairs == [] {
      assert inner == [SHUT] + t;
      V.SkipGap([], inner);
      assert [] + inner == inner && inner[1..] == t;
    } else {
      PairStarts(v, [SHUT] + t);
    }
  }

  lemma PairStarts(v: Data, t: bytes)
    requires v.Dict? && FloatFree(v) && v.pairs != []
    ensures var inner := Commas(PairTexts(v)) + t; Skip(inner) == inner && !StartsWith(inner, SHUT)
  {
    hide Plain, Skip, Escaped;
    var inner := Commas(PairTexts(v)) + t;
    assert inner[0] == QUOTE;
    V.SkipGap([], inner);
    assert [] + inner == inner;
  }

  lemma KeyBack(key: bytes, value: bytes, a: bytes)
    requires Utf8(key)
    ensures TakeKey(PairText(key, value) + a) == Ok((key, value + a))
  {
    hide Skip, Escaped, Utf8, TakeText;
    var r := PairText(key, value) + a;
    Regroup(Quoted(key), [COLON] + value, a);
    Regroup([COLON], value, a);
    var rest := [COLON] + (value + a);
    TextBack(key, rest);
    var inner := Escaped(key) + ([QUOTE] + rest);
    assert r == [QUOTE] + inner;
    V.SkipGap([], r);
    V.SkipGap([], rest);
    assert [] + r == r && [] + rest == rest && r[1..] == inner && rest[1..] == value + a;
  }

  lemma {:induction false} PairsBack(v: Data, k: nat, t: bytes, depth: nat, limit: nat)
    requires v.Dict? && FloatFree(v) && WellFormed(v) && Within(v, limit - depth) && k < |v.pairs|
    ensures ParsePairs(Commas(PairTexts(v)[k..]) + ([SHUT] + t), depth, limit, v.pairs[..k]) == Ok((v, t))
    decreases v, 0, |v.pairs| - k
  {
    hide Plain, ParseData, Skip, Commas, After, Utf8, TakeKey, PairText;
    var chunks := PairTexts(v);
    var (key, value) := v.pairs[k];
    AfterChunk(chunks, k, SHUT, t);
    AfterBounds(chunks, k, SHUT, t);
    KeyBack(key, Plain(value), After(chunks, k, SHUT, t));
    PlainBack(value, After(chunks, k, SHUT, t), depth + 1, limit);
    NewPair(v.pairs, k);
    assert v.pairs[..k] + [(key, value)] == v.pairs[..k + 1];
    if k + 1 < |v.pairs| {
      PairsBack(v, k + 1, t, depth, limit);
    } else {
      assert v.pairs[..k + 1] == v.pairs;
    }
  }

  lemma NewPair(pairs: seq<(bytes, Data)>, k: nat)
    requires Unique(Keys(pairs)) && k < |pairs|
    ensures pairs[k].0 !in Keys(pairs[..k])
  {
    var keys := Keys(pairs);
    assert forall i :: 0 <= i < k ==> Keys(pairs[..k])[i] == keys[i] && keys[i] != keys[k];
  }

  // Too deep.

  lemma {:induction false} PlainTooDeep(v: Data, t: bytes, depth: nat, limit: nat)
    requires FloatFree(v) && WellFormed(v) && !Within(v, limit - depth) && Boundary(t)
    ensures ParseData(Plain(v) + t, depth, limit) == Err(TooDeep)
    decreases v, 1, 0
  {
    hide Plain, ItemTexts, PairTexts, ParseItems, ParsePairs, Skip, Commas, Utf8, TakeText, TakeNumeral, TakeWord;
    if depth <= limit {
      match v {
        case List(items) =>
          ItemsTooDeep(v, 0, t, depth, limit);
          assert items[..0] == [];
          ListFails(v, t, depth, limit);
        case Dict(pairs) =>
          PairsTooDeep(v, 0, t, depth, limit);
          assert pairs[..0] == [];
          DictFails(v, t, depth, limit);
        case _ =>
      }
    }
  }

  lemma ListFails(v: Data, t: bytes, depth: nat, limit: nat)
    requires v.List? && FloatFree(v) && depth <= limit && v.items != []
    requires ParseItems(Commas(ItemTexts(v)[0..]) + ([0x5D] + t), depth, limit, []) == Err(TooDeep)
    ensures ParseData(Plain(v) + t, depth, limit) == Err(TooDeep)
  {
    hide ParseItems, Skip, ItemTexts;
    var body := Commas(ItemTexts(v));
    PlainStarts(v, t);
    Regroup([0x5B], body + [0x5D], t);
    Regroup(body, [0x5D], t);
    var r := Plain(v) + t;
    var inner := body + ([0x5D] + t);
    assert r == [0x5B] + inner && r[1..] == inner;
    assert ItemTexts(v)[0..] == ItemTexts(v);
    ItemStarts(v, [0x5D] + t);
  }

  lemma DictFails(v: Data, t: bytes, depth: nat, limit: nat)
    requires v.Dict? && FloatFree(v) && depth <= limit && v.pairs != []
    requires ParsePairs(Commas(PairTexts(v)[0..]) + ([SHUT] + t), depth, limit, []) == Err(TooDeep)
    ensures ParseData(Plain(v) + t, depth, limit) == Err(TooDeep)
  {
    hide ParsePairs, Skip, PairTexts;
    var body := Commas(PairTexts(v));
    PlainStarts(v, t);
    Regroup([OPEN], body + [SHUT], t);
    Regroup(body, [SHUT], t);
    var r := Plain(v) + t;
    var inner := body + ([SHUT] + t);
    assert r == [OPEN] + inner && r[1..] == inner;
    assert PairTexts(v)[0..] == PairTexts(v);
    PairStarts(v, [SHUT] + t);
  }

  lemma {:induction false} ItemsTooDeep(v: Data, k: nat, t: bytes, depth: nat, limit: nat)
    requires v.List? && FloatFree(v) && WellFormed(v) && k < |v.items|
    requires exists i :: k <= i < |v.items| && !Within(v.items[i], limit - depth - 1)
    ensures ParseItems(Commas(ItemTexts(v)[k..]) + ([0x5D] + t), depth, limit, v.items[..k]) == Err(TooDeep)
    decreases v, 0, |v.items| - k
  {
    hide Plain, ParseData, Skip, Commas, After, Utf8;
    var chunks := ItemTexts(v);
    AfterChunk(chunks, k, 0x5D, t);
    AfterBounds(chunks, k, 0x5D, t);
    if Within(v.items[k], limit - depth - 1) {
      PlainBack(v.items[k], After(chunks, k, 0x5D, t), depth + 1, limit);
      assert v.items[..k] + [v.items[k]] == v.items[..k + 1];
      ItemsTooDeep(v, k + 1, t, depth, limit);
    } else {
      PlainTooDeep(v.items[k], After(chunks, k, 0x5D, t), depth + 1, limit);
    }
  }

  lemma {:induction false} PairsTooDeep(v: Data, k: nat, t: bytes, depth: nat, limit: nat)
    requires v.Dict? && FloatFree(v) && WellFormed(v) && k < |v.pairs|
    requires exists i :: k <= i < |v.pairs| && !Within(v.pairs[i].1, limit - depth - 1)
    ensures ParsePairs(Commas(PairTexts(v)[k..]) + ([SHUT] + t), depth, limit, v.pairs[..k]) == Err(TooDeep)
    decreases v, 0, |v.pairs| - k
  {
    hide Plain, ParseData, Skip, Commas, After, Utf8, TakeKey, PairText;
    var chunks := PairTexts(v);
    var (key, value) := v.pairs[k];
    AfterChunk(chunks, k, SHUT, t);
    AfterBounds(chunks, k, SHUT, t);
    KeyBack(key, Plain(value), After(chunks, k, SHUT, t));
    if Within(value, limit - depth - 1) {
      PlainBack(value, After(chunks, k, SHUT, t), depth + 1, limit);
      NewPair(v.pairs, k);
      assert v.pairs[..k] + [(key, value)] == v.pairs[..k + 1];
      PairsTooDeep(v, k + 1, t, depth, limit);
    } else {
      PlainTooDeep(value, After(chunks, k, SHUT, t), depth + 1, limit);
    }
  }

  // The laws.

  /** Parsing a rendering gives the value back in canonical form, exactly when
      it nests no deeper than the limit. */
  lemma ParseRender(show: shown, v: Data, limit: nat)
    requires WellFormed(v) && FloatFree(v)
    ensures ParseWithin(Render(show, v), limit) == if Within(v, limit) then Ok(Canon(v)) else Err(TooDeep)
    ensures EqualsCanonical(v, Canon(v))
  {
    hide Render, Plain, Canon, ParseData, EqualsCanonical, Within, WellFormed;
    RenderIsPlain(show, v);
    CanonKeeps(v);
    CanonWithin(v, limit);
    CanonTwice(v);
    CanonAreEqual(v, Canon(v));
    var c := Canon(v);
    assert Plain(c) + [] == Plain(c);
    if Within(v, limit) {
      PlainBack(c, [], 0, limit);
    } else {
      PlainTooDeep(c, [], 0, limit);
    }
  }

  /** The fixture parser reads back whatever was rendered, up to its depth. */
  lemma ParseUndoesRender(show: shown, v: Data)
    requires WellFormed(v) && FloatFree(v)
    ensures Parse(Render(show, v)).Ok? <==> Within(v, LIMIT)
    ensures Parse(Render(show, v)).Ok? ==> Parse(Render(show, v)).value == Canon(v) && EqualsCanonical(v, Parse(Render(show, v)).value)
  {
    hide Render, Canon, ParseWithin, EqualsCanonical, Within, WellFormed;
    ParseRender(show, v, LIMIT);
  }

  lemma {:induction false} OrderOfIncreasing(keys: seq<bytes>, n: nat)
    requires Increasing(keys) && n <= |keys|
    ensures forall i :: 0 <= i < n ==> OrderUpTo(keys, n)[i] == i
  {
    hide Placed, Less;
    if n > 0 {
      OrderOfIncreasing(keys, n - 1);
      LastPlaced(keys, OrderUpTo(keys, n - 1), n - 1, 0);
    }
  }

  /** A key after all those placed goes last. */
  lemma {:induction false} LastPlaced(keys: seq<bytes>, order: seq<nat>, k: nat, base: nat)
    requires Increasing(keys) && k < |keys| && base + |order| == k && forall i :: 0 <= i < |order| ==> order[i] == base + i
    ensures Placed(keys, order, k) == order + [k]
    decreases |order|
  {
    hide Less;
    if order != [] {
      LessTotal(keys[order[0]], keys[k]);
      LastPlaced(keys, order[1..], k, base + 1);
      assert order == [order[0]] + order[1..];
    } else {
      assert [k] + order == order + [k];
    }
  }

  lemma {:induction false} CanonTwice(v: Data)
    requires WellFormed(v)
    ensures Canon(Canon(v)) == Canon(v)
    decreases v
  {
    hide OrderUpTo, Less, Utf8;
    match v {
      case List(items) =>
        forall i | 0 <= i < |items| ensures Canon(Canon(items[i])) == Canon(items[i]) {
          CanonTwice(items[i]);
        }
        assert Canon(Canon(v)).items == Canon(v).items;
      case Dict(pairs) =>
        var c := Canon(v).pairs;
        OrderedKeys(Keys(pairs));
        CanonKeys(pairs);
        OrderOfIncreasing(Keys(c), |c|);
        forall i | 0 <= i < |pairs| ensures Canon(Canon(pairs[i].1)) == Canon(pairs[i].1) {
          CanonTwice(pairs[i].1);
        }
        assert Canon(Canon(v)).pairs == c;
      case _ =>
    }
  }

  lemma {:induction false} DeepEnough(v: Data) returns (d: nat)
    ensures Within(v, d)
    decreases v
  {
    d := 0;
    match v {
      case List(items) =>
        for k := 0 to |items|
          invariant forall i :: 0 <= i < k ==> Within(items[i], d)
        {
          var e := DeepEnough(items[k]);
          d := Raise(items, k, d, e);
        }
        d := d + 1;
      case Dict(pairs) =>
        var values := seq(|pairs|, i requires 0 <= i < |pairs| => pairs[i].1);
        for k := 0 to |pairs|
          invariant forall i :: 0 <= i < k ==> Within(values[i], d)
        {
          var e := DeepEnough(pairs[k].1);
          d := Raise(values, k, d, e);
        }
        assert forall i :: 0 <= i < |pairs| ==> Within(pairs[i].1, d) by {
          assert forall i :: 0 <= i < |pairs| ==> values[i] == pairs[i].1;
        }
        d := d + 1;
      case _ =>
    }
  }

  lemma Raise(items: seq<Data>, k: nat, d: nat, e: nat) returns (f: nat)
    requires k < |items| && (forall i :: 0 <= i < k ==> Within(items[i], d)) && Within(items[k], e)
    ensures forall i :: 0 <= i < k + 1 ==> Within(items[i], f)
  {
    f := if d >= e then d else e;
    forall i | 0 <= i < k + 1 ensures Within(items[i], f) {
      WithinMore(items[i], if i < k then d else e, f);
    }
  }

  lemma {:induction false} WithinMore(v: Data, d: int, e: int)
    requires Within(v, d) && d <= e
    ensures Within(v, e)
    decreases v
  {
    match v {
      case List(items) =>
        forall i | 0 <= i < |items| ensures Within(items[i], e - 1) {
          WithinMore(items[i], d - 1, e - 1);
        }
      case Dict(pairs) =>
        forall i | 0 <= i < |pairs| ensures Within(pairs[i].1, e - 1) {
          WithinMore(pairs[i].1, d - 1, e - 1);
        }
      case _ =>
    }
  }

  /** Two values render alike exactly when they are canonically equal. */
  lemma RenderExact(show: shown, a: Data, b: Data)
    requires WellFormed(a) && FloatFree(a) && WellFormed(b) && FloatFree(b)
    ensures Render(show, a) == Render(show, b) <==> EqualsCanonical(a, b)
  {
    hide Render, Plain, Canon, ParseWithin, EqualsCanonical, Within, WellFormed, FloatFree;
    RenderIsPlain(show, a);
    RenderIsPlain(show, b);
    if EqualsCanonical(a, b) {
      EqualHaveCanon(a, b);
    }
    if Render(show, a) == Render(show, b) {
      var d := DeepEnough(a);
      var e := DeepEnough(b);
      var f := if d >= e then d else e;
      WithinMore(a, d, f);
      WithinMore(b, e, f);
      ParseRender(show, a, f);
      ParseRender(show, b, f);
      CanonAreEqual(a, b);
    }
  }
}
