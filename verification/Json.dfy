/** The strict JSON reader tool arguments go through: what each token takes off
    the front of the bytes that are left. */
module Json {
  import opened Words

  datatype JsonError =
    UnexpectedByte | UnexpectedEnd | BadEscape | UnterminatedString | BadNumber | TrailingBytes | DepthExceeded | DuplicateKey | TooManyKeys

  const MAX_DEPTH := 3
  const MAX_KEYS := 8

  const QUOTE: u8 := 0x22
  const BACKSLASH: u8 := 0x5C
  const COMMA: u8 := 0x2C
  const COLON: u8 := 0x3A
  const OPEN: u8 := 0x7B
  const SHUT: u8 := 0x7D

  predicate Space(x: u8) {
    x == 0x20 || x == 0x09 || x == 0x0A || x == 0x0D
  }

  predicate HexDigit(x: u8) {
    Digit(x) || 0x41 <= x <= 0x46 || 0x61 <= x <= 0x66
  }

  function Skip(r: bytes): (s: bytes)
    ensures |s| <= |r|
    ensures s != [] ==> !Space(s[0])
  {
    if r != [] && Space(r[0]) then Skip(r[1..]) else r
  }

  predicate StartsWith(r: bytes, x: u8) {
    r != [] && r[0] == x
  }

  // Strings.

  /** `"` `\` `/` b f n r t. */
  predicate ShortEscape(x: u8) {
    x in [0x22, 0x5C, 0x2F, 0x62, 0x66, 0x6E, 0x72, 0x74]
  }

  /** How many bytes an escape takes after its backslash. */
  function EscapeLen(r: bytes): (n: Result<nat, JsonError>)
    ensures n.Ok? ==> 1 <= n.value <= |r|
  {
    if r == [] then Err(BadEscape)
    else if ShortEscape(r[0]) then Ok(1)
    else if r[0] == 0x75 && |r| >= 5 && (forall k :: 1 <= k < 5 ==> HexDigit(r[k])) then Ok(5)
    else Err(BadEscape)
  }

  /** How many bytes come before the closing quote. */
  function StringLen(r: bytes): (n: Result<nat, JsonError>)
    ensures n.Ok? ==> n.value < |r| && r[n.value] == QUOTE
  {
    if r == [] then Err(UnterminatedString)
    else if r[0] == QUOTE then Ok(0)
    else if r[0] == BACKSLASH then
      var e :- EscapeLen(r[1..]);
      var n :- StringLen(r[1 + e..]);
      Ok(1 + e + n)
    else if r[0] < 0x20 then Err(UnexpectedByte)
    else
      var n :- StringLen(r[1..]);
      Ok(1 + n)
  }

  /** What may stand between quotes, escapes and all. */
  predicate Raw(s: bytes) {
    s == [] ||
    if s[0] == BACKSLASH then EscapeLen(s[1..]).Ok? && Raw(s[1 + EscapeLen(s[1..]).value..])
    else s[0] != QUOTE && s[0] >= 0x20 && Raw(s[1..])
  }

  /** A string's raw content, and what follows its closing quote. `r` starts
      after the opening one. */
  function TakeString(r: bytes): Result<(bytes, bytes), JsonError> {
    var n :- StringLen(r);
    Ok((r[..n], r[n + 1..]))
  }

  // Numbers.

  function DigitsLen(r: bytes): (n: nat)
    ensures n <= |r| && (forall k :: 0 <= k < n ==> Digit(r[k])) && (n < |r| ==> !Digit(r[n]))
  {
    if r != [] && Digit(r[0]) then 1 + DigitsLen(r[1..]) else 0
  }

  function IntegerLen(r: bytes): (n: Result<nat, JsonError>)
    ensures n.Ok? ==> 1 <= n.value <= |r|
  {
    if r == [] || !Digit(r[0]) then Err(BadNumber)
    else if r[0] == 0x30 then if |r| > 1 && Digit(r[1]) then Err(BadNumber) else Ok(1)
    else Ok(DigitsLen(r))
  }

  /** One or more digits. */
  function SomeDigits(r: bytes): (n: Result<nat, JsonError>)
    ensures n.Ok? ==> 1 <= n.value <= |r|
  {
    if r == [] || !Digit(r[0]) then Err(BadNumber) else Ok(DigitsLen(r))
  }

  function FractionLen(r: bytes): (n: Result<nat, JsonError>)
    ensures n.Ok? ==> n.value <= |r|
  {
    if !StartsWith(r, 0x2E) then Ok(0)
    else
      var n :- SomeDigits(r[1..]);
      Ok(1 + n)
  }

  function ExponentLen(r: bytes): (n: Result<nat, JsonError>)
    ensures n.Ok? ==> n.value <= |r|
  {
    if !StartsWith(r, 0x65) && !StartsWith(r, 0x45) then Ok(0)
    else
      var sign := if StartsWith(r[1..], 0x2B) || StartsWith(r[1..], 0x2D) then 1 else 0;
      var n :- SomeDigits(r[1 + sign..]);
      Ok(1 + sign + n)
  }

  function NumberLen(r: bytes): (n: Result<nat, JsonError>)
    ensures n.Ok? ==> 1 <= n.value <= |r|
  {
    var sign := if StartsWith(r, 0x2D) then 1 else 0;
    var i :- IntegerLen(r[sign..]);
    var f :- FractionLen(r[sign + i..]);
    var e :- ExponentLen(r[sign + i + f..]);
    Ok(sign + i + f + e)
  }

  function TakeNumber(r: bytes): Result<(bytes, bytes), JsonError> {
    var n :- NumberLen(r);
    Ok((r[..n], r[n..]))
  }

  // Values.

  /** A value as read: scalars by their bytes, composites only entered. */
  datatype Value = Null | Bool(truth: bool) | Number(digits: bytes) | Str(content: bytes) | Array | Object

  const NULL: bytes := [0x6E, 0x75, 0x6C, 0x6C]
  const TRUE: bytes := [0x74, 0x72, 0x75, 0x65]
  const FALSE: bytes := [0x66, 0x61, 0x6C, 0x73, 0x65]

  function TakeLiteral(r: bytes, word: bytes, v: Value): (p: Result<(Value, bytes), JsonError>)
    ensures p.Ok? ==> |p.value.1| <= |r|
  {
    if word <= r then Ok((v, r[|word|..])) else Err(UnexpectedByte)
  }

  predicate NumberStart(x: u8) {
    x == 0x2D || x == 0x2B || x == 0x2E || Digit(x)
  }

  /** One value, after any spaces; `depth` composites are open around it. */
  function TakeValue(r: bytes, depth: nat): (p: Result<(Value, bytes), JsonError>)
    ensures p.Ok? ==> |p.value.1| <= |r|
  {
    var s := Skip(r);
    if s == [] then Err(UnexpectedEnd)
    else if s[0] == 0x6E then TakeLiteral(s, NULL, Null)
    else if s[0] == 0x74 then TakeLiteral(s, TRUE, Bool(true))
    else if s[0] == 0x66 then TakeLiteral(s, FALSE, Bool(false))
    else if s[0] == QUOTE then
      var p :- TakeString(s[1..]);
      Ok((Str(p.0), p.1))
    else if s[0] == 0x5B then if depth >= MAX_DEPTH then Err(DepthExceeded) else Ok((Array, s[1..]))
    else if s[0] == OPEN then if depth >= MAX_DEPTH then Err(DepthExceeded) else Ok((Object, s[1..]))
    else if NumberStart(s[0]) then
      var p :- TakeNumber(s);
      Ok((Number(p.0), p.1))
    else Err(UnexpectedByte)
  }

  // Objects, entry by entry.

  /** The next step through an object: its end, or an entry. */
  datatype Entry = Closed(rest: bytes) | Found(key: bytes, value: Value, rest: bytes)

  function AtKey(s: bytes): Result<Option<bytes>, JsonError> {
    if s == [] then Err(UnexpectedEnd) else if s[0] == QUOTE then Ok(Some(s[1..])) else Err(UnexpectedByte)
  }

  /** Up to the next key's opening quote, or none at the closing brace. */
  function ToKey(r: bytes, first: bool): Result<Option<bytes>, JsonError> {
    var s := Skip(r);
    if StartsWith(s, SHUT) then Ok(None)
    else if first then AtKey(s)
    else if s == [] then Err(UnexpectedEnd)
    else if s[0] == COMMA then AtKey(Skip(s[1..]))
    else Err(UnexpectedByte)
  }

  /** A new key among those already read. */
  function NewKey(keys: seq<bytes>, key: bytes): Result<(), JsonError> {
    if key in keys then Err(DuplicateKey) else if |keys| >= MAX_KEYS then Err(TooManyKeys) else Ok(())
  }

  /** The entry whose key's content comes next. */
  function TakePair(at: bytes, depth: nat, keys: seq<bytes>): (e: Result<Entry, JsonError>)
    ensures e.Ok? ==> e.value.Found?
  {
    var key :- TakeString(at);
    var _ :- NewKey(keys, key.0);
    var s := Skip(key.1);
    if !StartsWith(s, COLON) then Err(UnexpectedByte)
    else
      var value :- TakeValue(s[1..], depth);
      Ok(Found(key.0, value.0, value.1))
  }

  function TakeEntry(r: bytes, depth: nat, keys: seq<bytes>, first: bool): Result<Entry, JsonError> {
    var at :- ToKey(r, first);
    if at.None? then Ok(Closed(Skip(r)[1..])) else TakePair(at.value, depth, keys)
  }

  // Small numbers.

  function Worth(digits: bytes): int {
    if digits == [] then 0 else 10 * Worth(digits[..|digits| - 1]) + digits[|digits| - 1] as int - 0x30
  }

  predicate AllDigits(s: bytes) {
    forall k :: 0 <= k < |s| ==> Digit(s[k])
  }

  /** A plain decimal of at most `width` digits and at most `top`. */
  function ParseUint(digits: bytes, width: nat, top: nat): Result<nat, JsonError> {
    if 1 <= |digits| <= width && AllDigits(digits) && 0 <= Worth(digits) <= top then Ok(Worth(digits)) else Err(BadNumber)
  }
}
