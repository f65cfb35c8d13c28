/** What a fixture's strings say: scalars and their UTF-8, escapes and what each
    stands for, and that strings are read as exactly that. */
module EvalJsonText {
  import opened Words
  import opened Json
  import opened EvalJson

  // Scalars and their bytes.

  /** A Unicode scalar value: a code point that is no surrogate. */
  ghost predicate Scalar(c: nat) {
    c < 0xD800 || 0xE000 <= c < 0x11_0000
  }

  ghost predicate Payload(x: u8, bits: int) {
    x == 0x80 + bits && 0 <= bits < 0x40
  }

  /** What is left of a byte under its mark. */
  ghost function Under(x: u8, mark: int): int {
    x as int - mark
  }

  /** `e` is the one well-formed UTF-8 sequence for `c`: its length says how wide
      the scalar is, and its payload bits, read back, are the scalar. */
  ghost predicate Encodes(e: bytes, c: nat) {
    && Scalar(c)
    && (if c < 0x80 then |e| == 1 && e[0] == c
        else if c < 0x800 then |e| == 2 && 0xC0 <= e[0] < 0xE0 && Payload(e[1], c - Under(e[0], 0xC0) * 0x40)
        else if c < 0x1_0000 then
          && |e| == 3 && 0xE0 <= e[0] < 0xF0
          && 0x80 <= e[1] < 0xC0 && Payload(e[2], c - Under(e[0], 0xE0) * 0x1000 - Under(e[1], 0x80) * 0x40)
        else
          && |e| == 4 && 0xF0 <= e[0] < 0xF8
          && 0x80 <= e[1] < 0xC0 && 0x80 <= e[2] < 0xC0
          && Payload(e[3], c - Under(e[0], 0xF0) * 0x4_0000 - Under(e[1], 0x80) * 0x1000 - Under(e[2], 0x80) * 0x40))
  }

  lemma Places(c: nat)
    ensures c == c / 0x40 * 0x40 + c % 0x40
    ensures c / 0x40 == c / 0x1000 * 0x40 + c / 0x40 % 0x40
    ensures c / 0x1000 == c / 0x4_0000 * 0x40 + c / 0x1000 % 0x40
  {
    assert c / 0x1000 == c / 0x40 / 0x40;
    assert c / 0x4_0000 == c / 0x1000 / 0x40;
  }

  /** What the parser emits for a scalar encodes it. */
  lemma EncodedBack(c: nat)
    requires Scalar(c)
    ensures Encodes(EncodeUtf8(c), c)
  {
    Places(c);
  }

  lemma EncodesOne(e: bytes, f: bytes, c: nat)
    requires Encodes(e, c) && Encodes(f, c)
    ensures e == f
  {
  }

  /** And is the only sequence that does. */
  lemma EncodeExact(e: bytes, c: nat)
    requires Scalar(c)
    ensures Encodes(e, c) <==> e == EncodeUtf8(c)
  {
    hide EncodeUtf8, Encodes;
    EncodedBack(c);
    if Encodes(e, c) {
      EncodesOne(e, EncodeUtf8(c), c);
    }
  }

  // Hex digits.

  /** `x` is the hex digit of value `v`, in either case. */
  ghost predicate HexIs(x: u8, v: int) {
    || (0 <= v < 10 && x == '0' as int + v)
    || (10 <= v < 16 && (x == 'a' as int + v - 10 || x == 'A' as int + v - 10))
  }

  /** Four hex digits that spell `n`. */
  ghost predicate Hex4(d: bytes, n: nat) {
    && |d| == 4 && n < 0x1_0000
    && HexIs(d[0], n / 0x1000) && HexIs(d[1], n / 0x100 % 16) && HexIs(d[2], n / 16 % 16) && HexIs(d[3], n % 16)
  }

  lemma HexExact(x: u8, v: nat)
    ensures HexValue(x) == Some(v) <==> HexIs(x, v)
  {
  }

  lemma Hex4Back(d: bytes, n: nat, t: bytes)
    requires Hex4(d, n)
    ensures TakeHex4(d + t) == Ok((n, t))
  {
    hide HexValue, HexIs;
    var r := d + t;
    HexExact(d[0], n / 0x1000);
    HexExact(d[1], n / 0x100 % 16);
    HexExact(d[2], n / 16 % 16);
    HexExact(d[3], n % 16);
    assert r[0] == d[0] && r[1] == d[1] && r[2] == d[2] && r[3] == d[3] && r[4..] == t;
    Nibbles(n);
  }

  lemma Nibbles(n: nat)
    requires n < 0x1_0000
    ensures ((n / 0x1000 * 16 + n / 0x100 % 16) * 16 + n / 16 % 16) * 16 + n % 16 == n
  {
    assert n / 0x100 == n / 16 / 16 && n / 0x1000 == n / 16 / 16 / 16;
  }

  lemma NibblesBack(a: nat, b: nat, c: nat, d: nat)
    requires a < 16 && b < 16 && c < 16 && d < 16
    ensures var n := ((a * 16 + b) * 16 + c) * 16 + d;
            n < 0x1_0000 && n / 0x1000 == a && n / 0x100 % 16 == b && n / 16 % 16 == c && n % 16 == d
  {
    var n := ((a * 16 + b) * 16 + c) * 16 + d;
    assert n / 16 == (a * 16 + b) * 16 + c;
    assert n / 0x100 == a * 16 + b;
  }

  lemma Hex4There(r: bytes)
    requires TakeHex4(r).Ok?
    ensures var (n, t) := TakeHex4(r).value;
            |r| >= 4 && Hex4(r[..4], n) && r == r[..4] + t
  {
    hide HexValue, HexIs;
    var a, b, c, d := HexValue(r[0]).value, HexValue(r[1]).value, HexValue(r[2]).value, HexValue(r[3]).value;
    HexExact(r[0], a);
    HexExact(r[1], b);
    HexExact(r[2], c);
    HexExact(r[3], d);
    HexSmall(r[0], a);
    HexSmall(r[1], b);
    HexSmall(r[2], c);
    HexSmall(r[3], d);
    NibblesBack(a, b, c, d);
  }

  lemma HexSmall(x: u8, v: int)
    requires HexIs(x, v)
    ensures 0 <= v < 16
  {
  }

  // The pieces of a string.

  /** A byte as it is, a short escape, or a scalar by its hex digits: one unit,
      or a surrogate pair. */
  datatype Piece = Raw(x: u8) | Short(x: u8) | Unit(digits: bytes, c: nat) | Pair(high: bytes, low: bytes, c: nat)

  ghost predicate Sound(p: Piece) {
    match p
    case Raw(x) => x >= 0x20 && x != '"' as int && x != '\\' as int
    case Short(x) => exists k :: 0 <= k < 8 && x == "\"\\/bfnrt"[k] as int
    case Unit(digits, c) => Scalar(c) && Hex4(digits, c)
    case Pair(high, low, c) =>
      && 0x1_0000 <= c < 0x11_0000
      && Hex4(high, 0xD800 + (c - 0x1_0000) / 0x400) && Hex4(low, 0xDC00 + (c - 0x1_0000) % 0x400)
  }

  function Spelled(p: Piece): bytes {
    match p
    case Raw(x) => [x]
    case Short(x) => ['\\' as int, x]
    case Unit(digits, _) => ['\\' as int, 'u' as int] + digits
    case Pair(high, low, _) => (['\\' as int, 'u' as int] + high) + (['\\' as int, 'u' as int] + low)
  }

  /** What a short escape stands for. */
  function Control(x: u8): u8 {
    if x == 'b' as int then 8
    else if x == 't' as int then 9
    else if x == 'n' as int then 10
    else if x == 'f' as int then 12
    else if x == 'r' as int then 13
    else x
  }

  /** The bytes a piece stands for. */
  ghost predicate Means(p: Piece, e: bytes) {
    match p
    case Raw(x) => e == [x]
    case Short(x) => e == [Control(x)]
    case Unit(_, c) => Encodes(e, c)
    case Pair(_, _, c) => Encodes(e, c)
  }

  lemma UnitBack(digits: bytes, c: nat, t: bytes)
    requires Scalar(c) && Hex4(digits, c)
    ensures TakeUnicode(digits + t) == Ok((c, t))
  {
    hide TakeHex4, Hex4;
    Hex4Back(digits, c, t);
  }

  lemma PairBack(high: bytes, low: bytes, c: nat, t: bytes)
    requires Sound(Pair(high, low, c))
    ensures TakeUnicode(high + (['\\' as int, 'u' as int] + (low + t))) == Ok((c, t))
  {
    hide TakeHex4, Hex4;
    var rest := ['\\' as int, 'u' as int] + (low + t);
    Hex4Back(high, 0xD800 + (c - 0x1_0000) / 0x400, rest);
    Hex4Back(low, 0xDC00 + (c - 0x1_0000) % 0x400, t);
    assert rest[2..] == low + t;
  }

  lemma PairSpelled(high: bytes, low: bytes, c: nat, t: bytes)
    ensures (Spelled(Pair(high, low, c)) + t)[1..] == [0x75] + (high + (['\\' as int, 'u' as int] + (low + t)))
  {
  }

  lemma UnicodeStep(r: bytes, c: nat, t: bytes)
    requires TakeUnicode(r) == Ok((c, t))
    ensures c < 0x11_0000 && TakeEscape([0x75] + r) == Ok((EncodeUtf8(c), t))
  {
    hide TakeUnicode, EncodeUtf8;
    assert ([0x75] + r)[1..] == r;
  }

  /** A piece's spelling is read as what the piece means. */
  lemma PieceBack(p: Piece, e: bytes, t: bytes)
    requires Sound(p) && Means(p, e)
    ensures p.Raw? || TakeEscape((Spelled(p) + t)[1..]) == Ok((e, t))
    ensures p.Raw? ==> Spelled(p) + t == [p.x] + t && e == [p.x]
    ensures !p.Raw? ==> (Spelled(p) + t)[0] == BACKSLASH
  {
    hide TakeUnicode, EncodeUtf8, Encodes, Hex4;
    var r := Spelled(p) + t;
    match p {
      case Raw(_) =>
      case Short(x) => assert r[1..] == [x] + t && r[1..][1..] == t;
      case Unit(digits, c) =>
        assert r[1..] == [0x75] + (digits + t);
        UnitBack(digits, c, t);
        EncodeExact(e, c);
        UnicodeStep(digits + t, c, t);
      case Pair(high, low, c) =>
        var after := high + (['\\' as int, 'u' as int] + (low + t));
        PairSpelled(high, low, c, t);
        PairBack(high, low, c, t);
        EncodeExact(e, c);
        UnicodeStep(after, c, t);
    }
  }

  /** Whatever escape is read is some piece, spelled so. */
  lemma EscapeThere(r: bytes) returns (p: Piece)
    requires TakeEscape(r).Ok?
    ensures var (e, t) := TakeEscape(r).value;
            !p.Raw? && Sound(p) && Means(p, e) && [BACKSLASH] + r == Spelled(p) + t
  {
    hide TakeUnicode, EncodeUtf8, Encodes, Hex4;
    if r[0] == 0x75 {
      p := UnicodeThere(r[1..]);
      var (e, t) := TakeEscape(r).value;
      EncodeExact(e, p.c);
      assert [BACKSLASH] + r == [BACKSLASH, 0x75] + r[1..];
    } else {
      p := Short(r[0]);
      ShortSound(r[0]);
      assert [BACKSLASH] + r == [BACKSLASH, r[0]] + r[1..];
    }
  }

  lemma ShortSound(x: u8)
    requires x in [0x22, 0x5C, 0x2F, 0x62, 0x66, 0x6E, 0x72, 0x74]
    ensures Sound(Short(x))
  {
    var s := "\"\\/bfnrt";
    assert s[0] == '\"' && s[1] == '\\' && s[2] == '/' && s[3] == 'b' && s[4] == 'f' && s[5] == 'n' && s[6] == 'r' && s[7] == 't';
  }

  lemma UnicodeThere(r: bytes) returns (p: Piece)
    requires TakeUnicode(r).Ok?
    ensures var (c, t) := TakeUnicode(r).value;
            (p.Unit? || p.Pair?) && p.c == c && Sound(p) && Scalar(c) && [BACKSLASH, 0x75] + r == Spelled(p) + t
  {
    hide TakeHex4, Hex4;
    Hex4There(r);
    var high := TakeHex4(r).value;
    var (c, t) := TakeUnicode(r).value;
    if 0xD800 <= high.0 < 0xDC00 {
      var s := high.1;
      Hex4There(s[2..]);
      var low := TakeHex4(s[2..]).value;
      p := Pair(r[..4], s[2..][..4], c);
      PairParts(high.0, low.0);
      assert s == [BACKSLASH, 0x75] + s[2..];
      assert [BACKSLASH, 0x75] + r == Spelled(p) + t;
    } else {
      p := Unit(r[..4], c);
      assert [BACKSLASH, 0x75] + r == Spelled(p) + t;
    }
  }

  lemma PairParts(high: nat, low: nat)
    requires 0xD800 <= high < 0xDC00 && 0xDC00 <= low < 0xE000
    ensures var c := 0x1_0000 + (high - 0xD800) * 0x400 + (low - 0xDC00);
            && 0x1_0000 <= c < 0x11_0000
            && 0xD800 + (c - 0x1_0000) / 0x400 == high && 0xDC00 + (c - 0x1_0000) % 0x400 == low
  {
  }

  // Whole strings.

  ghost predicate AllSound(ps: seq<Piece>) {
    forall i :: 0 <= i < |ps| ==> Sound(ps[i])
  }

  function Spelling(ps: seq<Piece>): bytes {
    if ps == [] then [] else Spelled(ps[0]) + Spelling(ps[1..])
  }

  /** What the pieces stand for, one after the other. */
  ghost predicate Says(ps: seq<Piece>, out: bytes) {
    if ps == [] then out == []
    else exists e :: Means(ps[0], e) && e <= out && Says(ps[1..], out[|e|..])
  }

  lemma {:induction false} DecodedBack(ps: seq<Piece>, out: bytes, rest: bytes)
    requires AllSound(ps) && Says(ps, out)
    ensures Decode(Spelling(ps) + ([QUOTE] + rest)) == Ok((out, rest))
  {
    hide TakeEscape, Sound, Means, Spelled;
    if ps == [] {
      assert [] + ([QUOTE] + rest) == [QUOTE] + rest;
    } else {
      var e :| Means(ps[0], e) && e <= out && Says(ps[1..], out[|e|..]);
      var t := Spelling(ps[1..]) + ([QUOTE] + rest);
      DecodedBack(ps[1..], out[|e|..], rest);
      Regroup(Spelled(ps[0]), Spelling(ps[1..]), [QUOTE] + rest);
      PieceBack(ps[0], e, t);
      DecodeStep(ps[0], e, t);
      assert out == e + out[|e|..];
    }
  }

  lemma DecodeStep(p: Piece, e: bytes, t: bytes)
    requires Sound(p) && Means(p, e) && Decode(t).Ok?
    ensures Decode(Spelled(p) + t) == Ok((e + Decode(t).value.0, Decode(t).value.1))
  {
    hide TakeEscape, Hex4, Encodes;
    PieceBack(p, e, t);
    if p.Raw? {
      assert (Spelled(p) + t)[1..] == t;
    }
  }

  lemma {:induction false} DecodedThere(r: bytes) returns (ps: seq<Piece>)
    requires Decode(r).Ok?
    ensures var (out, rest) := Decode(r).value;
            AllSound(ps) && Says(ps, out) && r == Spelling(ps) + ([QUOTE] + rest)
    decreases |r|
  {
    hide TakeEscape, Sound, Means, Spelled;
    var (out, rest) := Decode(r).value;
    if r[0] == QUOTE {
      ps := [];
      assert r == [QUOTE] + r[1..];
    } else if r[0] == BACKSLASH {
      var (e, t) := TakeEscape(r[1..]).value;
      var p := EscapeThere(r[1..]);
      var tail := DecodedThere(t);
      ps := [p] + tail;
      assert r == [BACKSLASH] + r[1..];
      Regroup(Spelled(p), Spelling(tail), [QUOTE] + rest);
      assert out[|e|..] == Decode(t).value.0 && ps[1..] == tail;
    } else {
      var tail := DecodedThere(r[1..]);
      var p := RawOf(r[0]);
      ps := [p] + tail;
      assert r == [r[0]] + r[1..];
      Regroup(Spelled(p), Spelling(tail), [QUOTE] + rest);
      assert out[1..] == Decode(r[1..]).value.0 && ps[1..] == tail;
      assert Means(p, [r[0]]) && [r[0]] <= out;
    }
  }

  lemma RawOf(x: u8) returns (p: Piece)
    requires x >= 0x20 && x != QUOTE && x != BACKSLASH
    ensures Sound(p) && Means(p, [x]) && Spelled(p) == [x]
  {
    p := Raw(x);
  }

  /** A string is decoded to `out` exactly when it spells pieces that stand for
      `out` and ends in a quote. */
  lemma StringExact(r: bytes, out: bytes, rest: bytes)
    ensures Decode(r) == Ok((out, rest)) <==> exists ps :: AllSound(ps) && Says(ps, out) && r == Spelling(ps) + ([QUOTE] + rest)
  {
    hide Decode, AllSound, Says, Spelling;
    if Decode(r) == Ok((out, rest)) {
      var ps := DecodedThere(r);
    }
    if ps :| AllSound(ps) && Says(ps, out) && r == Spelling(ps) + ([QUOTE] + rest) {
      DecodedBack(ps, out, rest);
    }
  }

  // Valid text.

  /** One well-formed sequence after another. */
  ghost predicate Sequences(b: bytes, cs: seq<nat>) {
    if cs == [] then b == []
    else exists n :: 0 <= n <= |b| && Encodes(b[..n], cs[0]) && Sequences(b[n..], cs[1..])
  }

  /** The sequence at the front of some bytes, when there is one, is a scalar's. */
  lemma FirstSequence(b: bytes) returns (c: nat)
    requires b != [] && Utf8Len(b) > 0
    ensures Encodes(b[..Utf8Len(b)], c)
  {
    var x := b[0];
    c := if x < 0x80 then x
         else if x < 0xE0 then Under(x, 0xC0) * 0x40 + Under(b[1], 0x80)
         else if x < 0xF0 then Under(x, 0xE0) * 0x1000 + Under(b[1], 0x80) * 0x40 + Under(b[2], 0x80)
         else Under(x, 0xF0) * 0x4_0000 + Under(b[1], 0x80) * 0x1000 + Under(b[2], 0x80) * 0x40 + Under(b[3], 0x80);
  }

  lemma SequenceLen(b: bytes, n: nat, c: nat)
    requires n <= |b| && Encodes(b[..n], c)
    ensures n > 0 && Utf8Len(b) == n
  {
  }

  /** Valid text is exactly some scalars' sequences, end to end. */
  lemma {:induction false} Utf8There(b: bytes) returns (cs: seq<nat>)
    requires Utf8(b)
    ensures Sequences(b, cs)
  {
    hide Utf8Len, Encodes;
    if b == [] {
      cs := [];
    } else {
      var c := FirstSequence(b);
      var rest := Utf8There(b[Utf8Len(b)..]);
      cs := [c] + rest;
      assert cs[1..] == rest;
    }
  }

  lemma {:induction false} Utf8Back(b: bytes, cs: seq<nat>)
    requires Sequences(b, cs)
    ensures Utf8(b)
    decreases cs
  {
    hide Utf8Len, Encodes;
    if cs != [] {
      var n :| 0 <= n <= |b| && Encodes(b[..n], cs[0]) && Sequences(b[n..], cs[1..]);
      SequenceLen(b, n, cs[0]);
      Utf8Back(b[n..], cs[1..]);
    }
  }

  lemma TextExact(b: bytes)
    ensures Utf8(b) <==> exists cs :: Sequences(b, cs)
  {
    hide Utf8, Sequences;
    if Utf8(b) {
      var cs := Utf8There(b);
    }
    if cs :| Sequences(b, cs) {
      Utf8Back(b, cs);
    }
  }

  /** What the renderer writes for a byte: itself, unless it is a quote, a
      backslash or below a space; then the short escape for it if there is one
      for line ends, tabs, quotes and backslashes, else its two hex digits. */
  lemma EscapeExact(x: u8)
    ensures var e := EscapeByte(x);
            if x == '"' as int || x == '\\' as int then e == ['\\' as int, x]
            else if x >= 0x20 then e == [x]
            else if x == 10 then e == ['\\' as int, 'n' as int]
            else if x == 13 then e == ['\\' as int, 'r' as int]
            else if x == 9 then e == ['\\' as int, 't' as int]
            else |e| == 6 && e[..2] == ['\\' as int, 'u' as int] && Hex4(e[2..], x) && !('A' as int <= e[5] <= 'F' as int)
  {
  }

  /** Where `a` and `b` part, `a` ends or has the smaller byte. */
  ghost predicate PartsAt(a: bytes, b: bytes, k: nat) {
    && k <= |a| && k < |b| && (forall i :: 0 <= i < k ==> a[i] == b[i])
    && (k == |a| || a[k] < b[k])
  }

  /** Keys are ordered byte by byte, a prefix first. */
  lemma {:induction false} LessExact(a: bytes, b: bytes)
    ensures Less(a, b) <==> exists k :: PartsAt(a, b, k)
  {
    if a != [] && b != [] {
      LessExact(a[1..], b[1..]);
      if k: nat :| PartsAt(a[1..], b[1..], k) && a[0] == b[0] {
        assert PartsAt(a, b, k + 1);
      }
      if k: nat :| PartsAt(a, b, k) && k > 0 {
        assert PartsAt(a[1..], b[1..], k - 1);
      }
    }
    if b != [] && (a == [] || a[0] < b[0]) {
      assert PartsAt(a, b, 0);
    }
  }
}
