/** Fixture JSON: values, their canonical rendering, and the parser, which takes
    each construct off the front of what is left. */
module EvalJson {
  import opened Words
  import opened Json

  const LIMIT := 64
  const I64_SPAN := 0x8000_0000_0000_0000

  type i64 = x: int | -I64_SPAN <= x < I64_SPAN

  /** A value. Strings are their UTF-8 bytes; a float is kept as its text. */
  datatype Data =
    | Nil
    | Truth(truth: bool)
    | Int(n: i64)
    | Float(spelling: bytes)
    | Text(text: bytes)
    | List(items: seq<Data>)
    | Dict(pairs: seq<(bytes, Data)>)

  // Lexicographic order of keys.

  predicate Less(a: bytes, b: bytes) {
    b != [] && (a == [] || a[0] < b[0] || (a[0] == b[0] && Less(a[1..], b[1..])))
  }

  function Placed(keys: seq<bytes>, order: seq<nat>, k: nat): (r: seq<nat>)
    requires k < |keys| && forall i :: 0 <= i < |order| ==> order[i] < |keys|
    ensures |r| == |order| + 1 && forall i :: 0 <= i < |r| ==> r[i] < |keys|
  {
    if order == [] || Less(keys[k], keys[order[0]]) then [k] + order
    else [order[0]] + Placed(keys, order[1..], k)
  }

  /** The positions of the first `n` keys, by key. */
  function OrderUpTo(keys: seq<bytes>, n: nat): (r: seq<nat>)
    requires n <= |keys|
    ensures |r| == n && forall i :: 0 <= i < n ==> r[i] < |keys|
  {
    if n == 0 then [] else Placed(keys, OrderUpTo(keys, n - 1), n - 1)
  }

  function Order(keys: seq<bytes>): (r: seq<nat>)
    ensures |r| == |keys| && forall i :: 0 <= i < |r| ==> r[i] < |keys|
  {
    OrderUpTo(keys, |keys|)
  }

  function Keys(pairs: seq<(bytes, Data)>): (r: seq<bytes>)
    ensures |r| == |pairs| && forall i :: 0 <= i < |r| ==> r[i] == pairs[i].0
  {
    seq(|pairs|, i requires 0 <= i < |pairs| => pairs[i].0)
  }

  // Rendering.

  function Hex(x: nat): u8
    requires x < 16
  {
    if x < 10 then 0x30 + x else 0x61 + x - 10
  }

  function EscapeByte(x: u8): (r: bytes)
    ensures |r| >= 1
  {
    if x == QUOTE then [BACKSLASH, QUOTE]
    else if x == BACKSLASH then [BACKSLASH, BACKSLASH]
    else if x == 0x0A then [BACKSLASH, 0x6E]
    else if x == 0x0D then [BACKSLASH, 0x72]
    else if x == 0x09 then [BACKSLASH, 0x74]
    else if x < 0x20 then [BACKSLASH, 0x75, 0x30, 0x30, Hex(x / 16), Hex(x % 16)]
    else [x]
  }

  function Escaped(text: bytes): bytes {
    if text == [] then [] else EscapeByte(text[0]) + Escaped(text[1..])
  }

  function Quoted(text: bytes): bytes {
    [QUOTE] + (Escaped(text) + [QUOTE])
  }

  function IntText(n: int): bytes {
    if n < 0 then [0x2D] + Decimal(-n) else Decimal(n)
  }

  const COMMA_BYTE: u8 := 0x2C

  /** Chunks with commas between. */
  function Commas(chunks: seq<bytes>): bytes {
    if chunks == [] then []
    else if |chunks| == 1 then chunks[0]
    else chunks[0] + ([COMMA_BYTE] + Commas(chunks[1..]))
  }

  predicate FloatFree(v: Data)
    decreases v
  {
    match v
    case Float(_) => false
    case List(items) => forall i :: 0 <= i < |items| ==> FloatFree(items[i])
    case Dict(pairs) => forall i :: 0 <= i < |pairs| ==> FloatFree(pairs[i].1)
    case _ => true
  }

  /** How the host prints a float, given its text. */
  type shown = bytes -> bytes

  /** Canonical compact JSON: keys sorted, no spaces. */
  function Render(show: shown, v: Data): bytes
    decreases v
  {
    match v
    case Nil => NULL
    case Truth(t) => if t then TRUE else FALSE
    case Int(n) => IntText(n)
    case Float(spelling) => show(spelling)
    case Text(text) => Quoted(text)
    case List(items) => [0x5B] + (Commas(seq(|items|, i requires 0 <= i < |items| => Render(show, items[i]))) + [0x5D])
    case Dict(pairs) =>
      var order := Order(Keys(pairs));
      [OPEN] + (Commas(seq(|pairs|, i requires 0 <= i < |pairs| => PairText(pairs[order[i]].0, Render(show, pairs[order[i]].1)))) + [SHUT])
  }

  function PairText(key: bytes, value: bytes): bytes {
    Quoted(key) + ([COLON] + value)
  }

  /** The value with every object's pairs in key order. */
  function Canon(v: Data): Data
    decreases v
  {
    match v
    case List(items) => List(seq(|items|, i requires 0 <= i < |items| => Canon(items[i])))
    case Dict(pairs) =>
      var order := Order(Keys(pairs));
      Dict(seq(|pairs|, i requires 0 <= i < |pairs| => (pairs[order[i]].0, Canon(pairs[order[i]].1))))
    case _ => v
  }

  function Find(keys: seq<bytes>, key: bytes): (r: Option<nat>)
    ensures r.Some? ==> r.value < |keys| && keys[r.value] == key && forall k :: 0 <= k < r.value ==> keys[k] != key
    ensures r.None? ==> forall k :: 0 <= k < |keys| ==> keys[k] != key
  {
    FirstIndex(keys, (x: bytes) => x == key)
  }

  /** Equality with objects compared whatever their order. */
  predicate EqualsCanonical(a: Data, b: Data)
    decreases a
  {
    match (a, b)
    case (List(x), List(y)) => |x| == |y| && forall i :: 0 <= i < |x| ==> EqualsCanonical(x[i], y[i])
    case (Dict(x), Dict(y)) =>
      && |x| == |y|
      && forall i :: 0 <= i < |x| ==>
           var at := Find(Keys(y), x[i].0);
           at.Some? && EqualsCanonical(x[i].1, y[at.value].1)
    case _ => a == b && !a.List? && !a.Dict?
  }

  // Well-formed values.

  predicate Continues(b: bytes, k: nat) {
    k < |b| && 0x80 <= b[k] <= 0xBF
  }

  /** How many bytes the well-formed UTF-8 sequence at the front takes, or 0. */
  function Utf8Len(b: bytes): (n: nat)
    requires b != []
    ensures n <= |b| && n <= 4
  {
    var x := b[0];
    if x < 0x80 then 1
    else if 0xC2 <= x <= 0xDF && Continues(b, 1) then 2
    else if 0xE0 <= x <= 0xEF && Continues(b, 1) && Continues(b, 2) && (x == 0xE0 ==> b[1] >= 0xA0) && (x == 0xED ==> b[1] < 0xA0) then 3
    else if 0xF0 <= x <= 0xF4 && Continues(b, 1) && Continues(b, 2) && Continues(b, 3) && (x == 0xF0 ==> b[1] >= 0x90) && (x == 0xF4 ==> b[1] < 0x90) then 4
    else 0
  }

  predicate Utf8(b: bytes) {
    b == [] || (Utf8Len(b) > 0 && Utf8(b[Utf8Len(b)..]))
  }

  predicate Unique(keys: seq<bytes>) {
    forall i, j :: 0 <= i < j < |keys| ==> keys[i] != keys[j]
  }

  /** Strings are text and keys are unique, all the way down. */
  predicate WellFormed(v: Data)
    decreases v
  {
    match v
    case Text(text) => Utf8(text)
    case List(items) => forall i :: 0 <= i < |items| ==> WellFormed(items[i])
    case Dict(pairs) => Unique(Keys(pairs)) && forall i :: 0 <= i < |pairs| ==> Utf8(pairs[i].0) && WellFormed(pairs[i].1)
    case _ => true
  }

  /** No scalar lies under more than `depth` lists and objects. */
  predicate Within(v: Data, depth: int)
    decreases v
  {
    depth >= 0 &&
    match v
    case List(items) => forall i :: 0 <= i < |items| ==> Within(items[i], depth - 1)
    case Dict(pairs) => forall i :: 0 <= i < |pairs| ==> Within(pairs[i].1, depth - 1)
    case _ => true
  }

  // Parsing.

  datatype Fault =
    TooDeep | UnexpectedChar | InputEnded | BadLiteral | NoKey | NoColon | Repeated | NoCommaOrClose | NoDigits | TooLarge |
    Unterminated | ControlChar | BadUtf8 | BadEscapeChar | LoneSurrogate | NoHexDigit | Trailing

  function HexValue(x: u8): Option<nat> {
    if 0x30 <= x <= 0x39 then Some(x as int - 0x30)
    else if 0x61 <= x <= 0x66 then Some(x as int - 0x61 + 10)
    else if 0x41 <= x <= 0x46 then Some(x as int - 0x41 + 10)
    else None
  }

  /** Four hex digits, and what follows. */
  function TakeHex4(r: bytes): (p: Result<(nat, bytes), Fault>)
    ensures p.Ok? ==> p.value.0 < 0x1_0000 && |p.value.1| <= |r|
  {
    if |r| < 4 || exists k :: 0 <= k < 4 && HexValue(r[k]).None? then Err(NoHexDigit)
    else Ok((((HexValue(r[0]).value * 16 + HexValue(r[1]).value) * 16 + HexValue(r[2]).value) * 16 + HexValue(r[3]).value, r[4..]))
  }

  function EncodeUtf8(c: nat): bytes
    requires c < 0x11_0000
  {
    if c < 0x80 then [c]
    else if c < 0x800 then [0xC0 + c / 0x40, 0x80 + c % 0x40]
    else if c < 0x1_0000 then [0xE0 + c / 0x1000, 0x80 + c / 0x40 % 0x40, 0x80 + c % 0x40]
    else [0xF0 + c / 0x4_0000, 0x80 + c / 0x1000 % 0x40, 0x80 + c / 0x40 % 0x40, 0x80 + c % 0x40]
  }

  /** A `\u` escape's scalar: one unit, or a surrogate pair. */
  function TakeUnicode(r: bytes): (p: Result<(nat, bytes), Fault>)
    ensures p.Ok? ==> p.value.0 < 0x11_0000 && |p.value.1| <= |r|
  {
    var high :- TakeHex4(r);
    if 0xD800 <= high.0 < 0xDC00 then
      if |high.1| < 2 || high.1[0] != BACKSLASH || high.1[1] != 0x75 then Err(LoneSurrogate)
      else
        var low :- TakeHex4(high.1[2..]);
        if 0xDC00 <= low.0 < 0xE000 then Ok((0x1_0000 + (high.0 - 0xD800) * 0x400 + (low.0 - 0xDC00), low.1)) else Err(LoneSurrogate)
    else if 0xDC00 <= high.0 < 0xE000 then Err(LoneSurrogate)
    else Ok(high)
  }

  /** What an escape stands for, after its backslash, and what follows it. */
  function TakeEscape(r: bytes): (p: Result<(bytes, bytes), Fault>)
    ensures p.Ok? ==> |p.value.1| <= |r|
  {
    if r == [] then Err(BadEscapeChar)
    else
      match r[0]
      case 0x22 => Ok(([0x22], r[1..]))
      case 0x5C => Ok(([0x5C], r[1..]))
      case 0x2F => Ok(([0x2F], r[1..]))
      case 0x62 => Ok(([0x08], r[1..]))
      case 0x66 => Ok(([0x0C], r[1..]))
      case 0x6E => Ok(([0x0A], r[1..]))
      case 0x72 => Ok(([0x0D], r[1..]))
      case 0x74 => Ok(([0x09], r[1..]))
      case 0x75 =>
        var u :- TakeUnicode(r[1..]);
        Ok((EncodeUtf8(u.0), u.1))
      case _ => Err(BadEscapeChar)
  }

  /** A string's decoded bytes up to its closing quote, and what follows it. */
  function Decode(r: bytes): (p: Result<(bytes, bytes), Fault>)
    ensures p.Ok? ==> |p.value.1| < |r|
    decreases |r|
  {
    if r == [] then Err(Unterminated)
    else if r[0] == QUOTE then Ok(([], r[1..]))
    else if r[0] == BACKSLASH then
      var e :- TakeEscape(r[1..]);
      var rest :- Decode(e.1);
      Ok((e.0 + rest.0, rest.1))
    else if r[0] < 0x20 then Err(ControlChar)
    else
      var rest :- Decode(r[1..]);
      Ok(([r[0]] + rest.0, rest.1))
  }

  function TakeText(r: bytes): (p: Result<(bytes, bytes), Fault>)
    ensures p.Ok? ==> |p.value.1| < |r|
  {
    var p :- Decode(r);
    if Utf8(p.0) then Ok(p) else Err(BadUtf8)
  }

  /** A literal ends where a value may. */
  predicate Boundary(r: bytes) {
    r == [] || Space(r[0]) || r[0] == COMMA || r[0] == 0x5D || r[0] == SHUT
  }

  function TakeWord(r: bytes, word: bytes, v: Data): (p: Result<(Data, bytes), Fault>)
    requires word != []
    ensures p.Ok? ==> |p.value.1| < |r|
  {
    if word <= r && Boundary(r[|word|..]) then Ok((v, r[|word|..])) else Err(BadLiteral)
  }

  /** The length of a number's sign and digits, and of the number. */
  function NumberSpan(r: bytes): (p: Result<(nat, nat), Fault>)
    ensures p.Ok? ==> 1 <= p.value.0 <= p.value.1 <= |r|
  {
    var sign := if StartsWith(r, 0x2D) then 1 else 0;
    match SomeDigits(r[sign..])
    case Err(_) => Err(NoDigits)
    case Ok(n) =>
      match FractionLen(r[sign + n..])
      case Err(_) => Err(NoDigits)
      case Ok(f) =>
        match ExponentLen(r[sign + n + f..])
        case Err(_) => Err(NoDigits)
        case Ok(e) => Ok((sign + n, sign + n + f + e))
  }

  function SignedWorth(s: bytes): int {
    if StartsWith(s, 0x2D) then -Worth(s[1..]) else Worth(s)
  }

  function TakeNumeral(r: bytes): (p: Result<(Data, bytes), Fault>)
    ensures p.Ok? ==> |p.value.1| < |r|
  {
    var p :- NumberSpan(r);
    var (whole, all) := p;
    if whole < all then Ok((Float(r[..all]), r[all..]))
    else if -I64_SPAN <= SignedWorth(r[..all]) < I64_SPAN then Ok((Int(SignedWorth(r[..all])), r[all..]))
    else Err(TooLarge)
  }

  /** One value, `depth` lists and objects deep. */
  function ParseData(r: bytes, depth: nat, limit: nat): (p: Result<(Data, bytes), Fault>)
    ensures p.Ok? ==> |p.value.1| < |r|
    decreases |r|, 1
  {
    if depth > limit then Err(TooDeep)
    else
      var s := Skip(r);
      if s == [] then Err(InputEnded)
      else if s[0] == OPEN then
        var t := Skip(s[1..]);
        if StartsWith(t, SHUT) then Ok((Dict([]), t[1..])) else ParsePairs(s[1..], depth, limit, [])
      else if s[0] == 0x5B then
        var t := Skip(s[1..]);
        if StartsWith(t, 0x5D) then Ok((List([]), t[1..])) else ParseItems(s[1..], depth, limit, [])
      else if s[0] == QUOTE then
        var p :- TakeText(s[1..]);
        Ok((Text(p.0), p.1))
      else if s[0] == 0x74 then TakeWord(s, TRUE, Truth(true))
      else if s[0] == 0x66 then TakeWord(s, FALSE, Truth(false))
      else if s[0] == 0x6E then TakeWord(s, NULL, Nil)
      else if s[0] == 0x2D || Digit(s[0]) then TakeNumeral(s)
      else Err(UnexpectedChar)
  }

  function ParseItems(r: bytes, depth: nat, limit: nat, items: seq<Data>): (p: Result<(Data, bytes), Fault>)
    ensures p.Ok? ==> |p.value.1| < |r|
    decreases |r|, 2
  {
    var item :- ParseData(r, depth + 1, limit);
    var s := Skip(item.1);
    if StartsWith(s, COMMA) then ParseItems(s[1..], depth, limit, items + [item.0])
    else if StartsWith(s, 0x5D) then Ok((List(items + [item.0]), s[1..]))
    else Err(NoCommaOrClose)
  }

  /** A key and the colon after it, and what follows. */
  function TakeKey(r: bytes): (p: Result<(bytes, bytes), Fault>)
    ensures p.Ok? ==> |p.value.1| < |r|
  {
    var s := Skip(r);
    if !StartsWith(s, QUOTE) then Err(NoKey)
    else
      var key :- TakeText(s[1..]);
      var t := Skip(key.1);
      if StartsWith(t, COLON) then Ok((key.0, t[1..])) else Err(NoColon)
  }

  function ParsePairs(r: bytes, depth: nat, limit: nat, pairs: seq<(bytes, Data)>): (p: Result<(Data, bytes), Fault>)
    ensures p.Ok? ==> |p.value.1| < |r|
    decreases |r|, 2
  {
    var key :- TakeKey(r);
    var value :- ParseData(key.1, depth + 1, limit);
    if key.0 in Keys(pairs) then Err(Repeated)
    else
      var s := Skip(value.1);
      if StartsWith(s, COMMA) then ParsePairs(s[1..], depth, limit, pairs + [(key.0, value.0)])
      else if StartsWith(s, SHUT) then Ok((Dict(pairs + [(key.0, value.0)]), s[1..]))
      else Err(NoCommaOrClose)
  }

  function ParseWithin(b: bytes, limit: nat): Result<Data, Fault> {
    var p :- ParseData(b, 0, limit);
    if Skip(p.1) != [] then Err(Trailing) else Ok(p.0)
  }

  /** Parse one document. */
  function Parse(b: bytes): Result<Data, Fault> {
    ParseWithin(b, LIMIT)
  }
}
