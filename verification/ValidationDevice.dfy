/** The streaming parser and object cursor that validation drives, and the
    validator filling its fixed tables. */
module ValidationDevice {
  import opened Words
  import opened Json
  import opened Validation
  import opened ValidationProofs

  lemma StringEscapes(r: bytes)
    requires r != [] && r[0] == BACKSLASH
    ensures EscapeLen(r[1..]).Err? ==> StringLen(r) == Err(EscapeLen(r[1..]).error)
    ensures EscapeLen(r[1..]).Ok? ==>
              var e := EscapeLen(r[1..]).value;
              && (StringLen(r[1 + e..]).Ok? ==> StringLen(r) == Ok(1 + e + StringLen(r[1 + e..]).value))
              && (StringLen(r[1 + e..]).Err? ==> StringLen(r) == StringLen(r[1 + e..]))
  {
    hide EscapeLen;
  }

  lemma StringGoesOn(r: bytes)
    requires r != [] && r[0] != QUOTE && r[0] != BACKSLASH && r[0] >= 0x20
    ensures StringLen(r[1..]).Ok? ==> StringLen(r) == Ok(1 + StringLen(r[1..]).value)
    ensures StringLen(r[1..]).Err? ==> StringLen(r) == StringLen(r[1..])
  {
    hide EscapeLen;
  }

  lemma StringStops(r: bytes)
    ensures r == [] ==> StringLen(r) == Err(UnterminatedString)
    ensures r != [] && r[0] == QUOTE ==> StringLen(r) == Ok(0)
    ensures r != [] && r[0] != QUOTE && r[0] != BACKSLASH && r[0] < 0x20 ==> StringLen(r) == Err(UnexpectedByte)
  {
    hide EscapeLen;
  }

  // A number's length part by part.

  lemma SpanInteger(r: bytes, sign: nat)
    requires sign == (if StartsWith(r, 0x2D) then 1 else 0) && sign <= |r|
    ensures IntegerLen(r[sign..]).Err? ==> NumberLen(r) == IntegerLen(r[sign..])
  {
    hide IntegerLen, FractionLen, ExponentLen;
  }

  lemma SpanFraction(r: bytes, sign: nat, i: nat)
    requires sign == (if StartsWith(r, 0x2D) then 1 else 0) && sign + i <= |r| && IntegerLen(r[sign..]) == Ok(i)
    ensures FractionLen(r[sign + i..]).Err? ==> NumberLen(r) == FractionLen(r[sign + i..])
  {
    hide IntegerLen, FractionLen, ExponentLen;
  }

  lemma SpanExponent(r: bytes, sign: nat, i: nat, f: nat)
    requires sign == (if StartsWith(r, 0x2D) then 1 else 0) && sign + i + f <= |r|
    requires IntegerLen(r[sign..]) == Ok(i) && FractionLen(r[sign + i..]) == Ok(f)
    ensures NumberLen(r) == match ExponentLen(r[sign + i + f..]) case Err(e) => Err(e) case Ok(e) => Ok(sign + i + f + e)
  {
    hide IntegerLen, FractionLen, ExponentLen;
  }

  class Parser {
    const buf: bytes
    var pos: nat
    var depth: nat

    ghost predicate Valid()
      reads this
    {
      pos <= |buf|
    }

    ghost function Rest(): bytes
      requires Valid()
      reads this
    {
      buf[pos..]
    }

    constructor (buf: bytes)
      ensures Valid() && this.buf == buf && Rest() == buf && depth == 0
    {
      this.buf := buf;
      pos, depth := 0, 0;
    }

    function Peek(): (x: Option<u8>)
      requires Valid()
      reads this
      ensures x == if Rest() == [] then None else Some(Rest()[0])
    {
      if pos < |buf| then Some(buf[pos]) else None
    }

    /** Move over one byte. */
    method Step()
      requires Valid() && Rest() != []
      modifies this`pos
      ensures Valid() && pos == old(pos) + 1 && Rest() == old(Rest())[1..]
    {
      pos := pos + 1;
    }

    method SkipSpaces()
      requires Valid()
      modifies this`pos
      ensures Valid() && Rest() == Skip(old(Rest()))
    {
      while pos < |buf| && Space(buf[pos])
        invariant Valid() && Skip(Rest()) == Skip(old(Rest()))
      {
        assert Rest()[0] == buf[pos] && Rest()[1..] == buf[pos + 1..];
        pos := pos + 1;
      }
    }

    method ParseEscape() returns (r: Result<nat, JsonError>)
      requires Valid()
      modifies this`pos
      ensures Valid() && r == EscapeLen(old(Rest()))
      ensures r.Ok? ==> pos == old(pos) + r.value
    {
      if pos >= |buf| {
        return Err(BadEscape);
      }
      ghost var rest := Rest();
      var x := buf[pos];
      assert x == rest[0];
      pos := pos + 1;
      if ShortEscape(x) {
        return Ok(1);
      }
      if x != 0x75 {
        return Err(BadEscape);
      }
      for k := 1 to 5
        invariant Valid() && pos == old(pos) + k && forall j :: 1 <= j < k ==> HexDigit(rest[j])
      {
        if pos >= |buf| {
          return Err(BadEscape);
        }
        assert buf[pos] == rest[k];
        if !HexDigit(buf[pos]) {
          return Err(BadEscape);
        }
        pos := pos + 1;
      }
      return Ok(5);
    }

    /** Past the closing quote of the content that is next. */
    method ScanString() returns (r: Result<nat, JsonError>)
      requires Valid()
      modifies this`pos
      ensures Valid() && r == StringLen(old(Rest()))
      ensures r.Ok? ==> pos == old(pos) + r.value + 1
    {
      hide EscapeLen, StringLen;
      var start := pos;
      while true
        invariant Valid() && start <= pos
        invariant match StringLen(Rest()) case Ok(n) => StringLen(old(Rest())) == Ok(pos - old(pos) + n) case Err(e) => StringLen(old(Rest())) == Err(e)
        decreases |buf| - pos
      {
        StringStops(Rest());
        if pos >= |buf| {
          return Err(UnterminatedString);
        }
        var x := buf[pos];
        ghost var before := Rest();
        pos := pos + 1;
        assert Rest() == before[1..];
        if x == QUOTE {
          return Ok(pos - 1 - start);
        } else if x == BACKSLASH {
          StringEscapes(before);
          var e := ParseEscape();
          if e.Err? {
            return Err(e.error);
          }
          assert Rest() == before[1 + e.value..];
        } else if x < 0x20 {
          return Err(UnexpectedByte);
        } else {
          StringGoesOn(before);
        }
      }
    }

    /** The string whose opening quote is next. */
    method ParseString() returns (r: Result<bytes, JsonError>)
      requires Valid() && Rest() != []
      modifies this`pos
      ensures Valid()
      ensures match TakeString(old(Rest())[1..]) case Ok(p) => r == Ok(p.0) && Rest() == p.1 case Err(e) => r == Err(e)
    {
      hide StringLen;
      Step();
      var start := pos;
      ghost var content := Rest();
      var n :- ScanString();
      assert content[..n] == buf[start..start + n] && content[n + 1..] == buf[pos..];
      return Ok(buf[start..pos - 1]);
    }

    method ParseDigits()
      requires Valid()
      modifies this`pos
      ensures Valid() && pos == old(pos) + DigitsLen(old(Rest()))
    {
      while pos < |buf| && Digit(buf[pos])
        invariant Valid() && old(pos) <= pos && pos - old(pos) + DigitsLen(Rest()) == DigitsLen(old(Rest()))
      {
        assert Rest()[0] == buf[pos] && Rest()[1..] == buf[pos + 1..];
        pos := pos + 1;
      }
    }

    /** A digit and any that follow it. */
    method ParseSomeDigits() returns (r: Result<nat, JsonError>)
      requires Valid()
      modifies this`pos
      ensures Valid() && r == SomeDigits(old(Rest()))
      ensures r.Ok? ==> pos == old(pos) + r.value
    {
      hide DigitsLen;
      if pos >= |buf| || !Digit(buf[pos]) {
        return Err(BadNumber);
      }
      var start := pos;
      assert Rest()[0] == buf[pos];
      ParseDigits();
      return Ok(pos - start);
    }

    method ParseInteger() returns (r: Result<nat, JsonError>)
      requires Valid()
      modifies this`pos
      ensures Valid() && r == IntegerLen(old(Rest()))
      ensures r.Ok? ==> pos == old(pos) + r.value
    {
      hide DigitsLen;
      ghost var rest := Rest();
      if pos >= |buf| || !Digit(buf[pos]) {
        return Err(BadNumber);
      }
      assert rest[0] == buf[pos];
      if buf[pos] == 0x30 {
        pos := pos + 1;
        if pos < |buf| && Digit(buf[pos]) {
          assert rest[1] == buf[pos];
          return Err(BadNumber);
        }
        assert |rest| > 1 ==> rest[1] == buf[pos];
        return Ok(1);
      }
      var start := pos;
      ParseDigits();
      return Ok(pos - start);
    }

    method ParseFraction() returns (r: Result<nat, JsonError>)
      requires Valid()
      modifies this`pos
      ensures Valid() && r == FractionLen(old(Rest()))
      ensures r.Ok? ==> pos == old(pos) + r.value
    {
      hide SomeDigits;
      if Peek() != Some(0x2E) {
        return Ok(0);
      }
      Step();
      var n :- ParseSomeDigits();
      return Ok(1 + n);
    }

    method ParseExponent() returns (r: Result<nat, JsonError>)
      requires Valid()
      modifies this`pos
      ensures Valid() && r == ExponentLen(old(Rest()))
      ensures r.Ok? ==> pos == old(pos) + r.value
    {
      hide SomeDigits;
      ghost var rest := Rest();
      if Peek() != Some(0x65) && Peek() != Some(0x45) {
        return Ok(0);
      }
      Step();
      assert Rest() == rest[1..];
      var sign := 0;
      if Peek() == Some(0x2B) || Peek() == Some(0x2D) {
        sign := 1;
        Step();
        assert Rest() == rest[2..];
      }
      var n :- ParseSomeDigits();
      return Ok(1 + sign + n);
    }

    /** `rest` was what was left at `start`. */
    ghost predicate Left(rest: bytes, start: nat) {
      start <= |buf| && rest == buf[start..]
    }

    lemma LeftHere()
      requires Valid()
      ensures Left(Rest(), pos)
    {
    }

    lemma LeftNow(rest: bytes, start: nat, n: nat)
      requires Valid() && Left(rest, start) && pos == start + n
      ensures n <= |rest| && Rest() == rest[n..]
    {
    }

    method ParseSign() returns (n: nat)
      requires Valid()
      modifies this`pos
      ensures Valid() && pos == old(pos) + n && n == if StartsWith(old(Rest()), 0x2D) then 1 else 0
    {
      if Peek() != Some(0x2D) {
        return 0;
      }
      Step();
      return 1;
    }

    method ParseSpan() returns (r: Result<nat, JsonError>)
      requires Valid()
      modifies this`pos
      ensures Valid() && r == NumberLen(old(Rest()))
      ensures r.Ok? ==> pos == old(pos) + r.value
    {
      hide NumberLen, IntegerLen, FractionLen, ExponentLen, StartsWith, Rest, Left;
      ghost var rest := Rest();
      var start := pos;
      LeftHere();
      var sign := ParseSign();
      LeftNow(rest, start, sign);
      SpanInteger(rest, sign);
      var i :- ParseInteger();
      LeftNow(rest, start, sign + i);
      SpanFraction(rest, sign, i);
      var f :- ParseFraction();
      LeftNow(rest, start, sign + i + f);
      SpanExponent(rest, sign, i, f);
      var e :- ParseExponent();
      return Ok(sign + i + f + e);
    }

    method ParseNumber() returns (r: Result<bytes, JsonError>)
      requires Valid()
      modifies this`pos
      ensures Valid()
      ensures match TakeNumber(old(Rest())) case Ok(p) => r == Ok(p.0) && Rest() == p.1 case Err(e) => r == Err(e)
    {
      hide NumberLen;
      ghost var rest := Rest();
      var start := pos;
      var n :- ParseSpan();
      assert buf[start..pos] == rest[..n];
      return Ok(buf[start..pos]);
    }

    method ParseLiteral(word: bytes, v: Value) returns (r: Result<Value, JsonError>)
      requires Valid()
      modifies this`pos
      ensures Valid()
      ensures match TakeLiteral(old(Rest()), word, v) case Ok(p) => r == Ok(p.0) && Rest() == p.1 case Err(e) => r == Err(e)
    {
      ghost var rest := Rest();
      for k := 0 to |word|
        invariant Valid() && pos == old(pos) + k && rest == buf[old(pos)..] && word[..k] == rest[..k]
      {
        if pos >= |buf| || buf[pos] != word[k] {
          assert pos < |buf| ==> rest[k] == buf[pos];
          return Err(UnexpectedByte);
        }
        assert rest[k] == buf[pos];
        pos := pos + 1;
      }
      assert word <= rest;
      return Ok(v);
    }

    method ParseValue() returns (r: Result<Value, JsonError>)
      requires Valid()
      modifies this`pos, this`depth
      ensures Valid() && old(depth) <= depth
      ensures match TakeValue(old(Rest()), old(depth)) {
                case Ok(p) => r == Ok(p.0) && Rest() == p.1 && depth == old(depth) + if p.0.Array? || p.0.Object? then 1 else 0
                case Err(e) => r == Err(e)
              }
    {
      hide Skip, TakeString, TakeNumber;
      SkipSpaces();
      var next := Peek();
      match next {
        case None => return Err(UnexpectedEnd);
        case Some(x) =>
          if x == 0x6E {
            r := ParseLiteral(NULL, Null);
          } else if x == 0x74 {
            r := ParseLiteral(TRUE, Bool(true));
          } else if x == 0x66 {
            r := ParseLiteral(FALSE, Bool(false));
          } else if x == QUOTE {
            var content :- ParseString();
            return Ok(Str(content));
          } else if x == 0x5B || x == OPEN {
            if depth >= MAX_DEPTH {
              return Err(DepthExceeded);
            }
            depth := depth + 1;
            Step();
            return Ok(if x == OPEN then Object else Array);
          } else if NumberStart(x) {
            var raw :- ParseNumber();
            return Ok(Number(raw));
          } else {
            return Err(UnexpectedByte);
          }
      }
    }
  }

  datatype Next = Ended | Pair(key: bytes, value: Value)

  /** A cursor over the entries of the object the parser has entered. */
  class ObjectCursor {
    const parser: Parser
    var keys: array<Option<bytes>>
    var len: nat
    var first: bool
    var done: bool
    ghost var names: seq<bytes>

    ghost predicate Valid()
      reads this, parser, keys
    {
      && parser.Valid() && (done || parser.depth >= 1)
      && keys.Length == MAX_KEYS && len == |names| <= MAX_KEYS
      && (forall k :: 0 <= k < len ==> keys[k] == Some(names[k]))
    }

    constructor (parser: Parser)
      requires parser.Valid() && parser.depth >= 1
      ensures Valid() && fresh(keys) && this.parser == parser && names == [] && first && !done
    {
      this.parser := parser;
      keys := new Option<bytes>[MAX_KEYS](_ => None);
      len, first, done := 0, true, false;
      names := [];
    }

    /** The table holds no such key yet, and has room for it. */
    method NoteKey(key: bytes) returns (r: Result<(), JsonError>)
      requires Valid()
      modifies this`len, this`names, keys
      ensures Valid() && r == NewKey(old(names), key)
      ensures names == if r.Ok? then old(names) + [key] else old(names)
    {
      for k := 0 to len
        invariant forall j :: 0 <= j < k ==> names[j] != key
      {
        if keys[k] == Some(key) {
          assert names[k] == key;
          return Err(DuplicateKey);
        }
      }
      if len >= keys.Length {
        return Err(TooManyKeys);
      }
      keys[len] := Some(key);
      len := len + 1;
      names := names + [key];
      return Ok(());
    }

    /** To the next key's opening quote, or past the closing brace. */
    method FindKey() returns (r: Result<bool, JsonError>)
      requires Valid() && !done
      modifies parser`pos, parser`depth, this`done
      ensures Valid()
      ensures match ToKey(old(parser.Rest()), first) {
                case Err(e) => r == Err(e)
                case Ok(None) => r == Ok(false) && done && parser.Rest() == Skip(old(parser.Rest()))[1..]
                case Ok(Some(at)) =>
                  && r == Ok(true) && !done && parser.depth == old(parser.depth)
                  && parser.Rest() != [] && parser.Rest()[1..] == at
              }
    {
      hide Skip;
      parser.SkipSpaces();
      if parser.Peek() == Some(SHUT) {
        parser.Step();
        parser.depth := parser.depth - 1;
        done := true;
        return Ok(false);
      }
      if !first {
        match parser.Peek() {
          case None => return Err(UnexpectedEnd);
          case Some(x) =>
            if x != COMMA {
              return Err(UnexpectedByte);
            }
        }
        parser.Step();
        parser.SkipSpaces();
      }
      match parser.Peek() {
        case None => return Err(UnexpectedEnd);
        case Some(x) => return if x == QUOTE then Ok(true) else Err(UnexpectedByte);
      }
    }

    method NextEntry() returns (r: Result<Next, JsonError>)
      requires Valid()
      modifies this, keys, parser
      ensures Valid() && keys == old(keys)
      ensures old(done) ==> r == Ok(Ended) && done && parser.Rest() == old(parser.Rest())
      ensures !old(done) ==>
              match TakeEntry(old(parser.Rest()), old(parser.depth), old(names), old(first)) {
                case Err(e) => r == Err(e)
                case Ok(Closed(rest)) => r == Ok(Ended) && done && parser.Rest() == rest
                case Ok(Found(key, value, rest)) =>
                  && r == Ok(Pair(key, value)) && !done && !first && names == old(names) + [key] && parser.Rest() == rest
                  && parser.depth == old(parser.depth) + if value.Array? || value.Object? then 1 else 0
              }
    {
      hide ToKey, TakePair, Skip;
      if done {
        return Ok(Ended);
      }
      var more :- FindKey();
      if !more {
        return Ok(Ended);
      }
      r := ReadPair();
    }

    /** The entry whose key's opening quote is next. */
    method ReadPair() returns (r: Result<Next, JsonError>)
      requires Valid() && !done && parser.Rest() != []
      modifies this, keys, parser
      ensures Valid() && keys == old(keys)
      ensures match TakePair(old(parser.Rest())[1..], old(parser.depth), old(names)) {
                case Err(e) => r == Err(e)
                case Ok(Found(key, value, rest)) =>
                  && r == Ok(Pair(key, value)) && !done && !first && names == old(names) + [key] && parser.Rest() == rest
                  && parser.depth == old(parser.depth) + if value.Array? || value.Object? then 1 else 0
              }
    {
      hide TakeString, NewKey, TakeValue, Skip;
      var key :- parser.ParseString();
      var _ :- NoteKey(key);
      parser.SkipSpaces();
      if parser.Peek() != Some(COLON) {
        return Err(UnexpectedByte);
      }
      parser.Step();
      var value :- parser.ParseValue();
      first := false;
      return Ok(Pair(key, value));
    }
  }

  /** `digits` as a plain decimal, stopping at the first byte that spoils it. */
  method ParseDecimal(digits: bytes, width: nat, top: nat) returns (r: Result<nat, JsonError>)
    ensures r == ParseUint(digits, width, top)
  {
    if |digits| == 0 || |digits| > width {
      return Err(BadNumber);
    }
    var value := 0;
    assert digits[..0] == [] && Worth([]) == 0;
    for k := 0 to |digits|
      invariant AllDigits(digits[..k]) && value == Worth(digits[..k]) && 0 <= value <= top
    {
      if !Digit(digits[k]) {
        return Err(BadNumber);
      }
      assert digits[..k + 1][..k] == digits[..k];
      value := value * 10 + (digits[k] as int - 0x30);
      if value > top {
        WorthGrows(digits, k + 1);
        return Err(BadNumber);
      }
    }
    assert digits[..|digits|] == digits;
    return Ok(value);
  }

  lemma {:induction false} WorthGrows(d: bytes, k: nat)
    requires k <= |d| && Worth(d[..k]) >= 0
    ensures AllDigits(d) ==> Worth(d) >= Worth(d[..k])
    decreases |d|
  {
    if k == |d| {
      assert d[..k] == d;
    } else {
      var init := d[..|d| - 1];
      assert init[..k] == d[..k];
      WorthGrows(init, k);
    }
  }

  method FindName(names: seq<bytes>, name: bytes) returns (r: Option<nat>)
    ensures r == Position(names, name)
  {
    for k := 0 to |names|
      invariant forall j :: 0 <= j < k ==> names[j] != name
    {
      if names[k] == name {
        return Some(k);
      }
    }
    return None;
  }

  method CheckDecimal(name: bytes, v: Value, width: nat, top: nat, lo: nat, hi: nat) returns (r: Result<nat, ValidationError>)
    ensures r == CheckNumber(name, v, width, top, lo, hi)
  {
    hide ParseUint;
    if !v.Number? {
      return Err(WrongType(name));
    }
    var n := ParseDecimal(v.digits, width, top);
    if n.Err? {
      return Err(Syntax(n.error));
    }
    return if n.value < lo || n.value > hi then Err(OutOfRange(name)) else Ok(n.value);
  }

  method CheckValue(spec: ArgSpec, v: Value) returns (r: Result<Scalar, ValidationError>)
    ensures r == CheckScalar(spec, v)
  {
    hide ParseUint, Position, CheckNumber;
    match spec.kind {
      case KindU8(lo, hi) =>
        var n :- CheckDecimal(spec.name, v, 3, 0xFF, lo, hi);
        return Ok(U8(n));
      case KindU16(lo, hi) =>
        var n :- CheckDecimal(spec.name, v, 5, 0xFFFF, lo, hi);
        return Ok(U16(n));
      case KindEnum(options) =>
        if !v.Str? {
          return Err(WrongType(spec.name));
        }
        var at := FindName(options, v.content);
        return if at.None? || at.value > 0xFF then Err(BadEnumValue(spec.name)) else Ok(EnumAt(at.value));
    }
  }

  // The validator's tables.

  /** The first entries of a fixed table are `said`, and the rest are empty. */
  ghost predicate Tabled<T(!new)>(table: seq<Option<T>>, said: seq<T>) {
    |said| <= |table| && forall k :: 0 <= k < |table| ==> table[k] == if k < |said| then Some(said[k]) else None
  }

  /** Put `x` in the first empty entry. */
  method Note<T(!new,==)>(table: array<Option<T>>, x: T, ghost said: seq<T>)
    requires Tabled(table[..], said) && |said| < table.Length
    modifies table
    ensures Tabled(table[..], said + [x])
  {
    var k := 0;
    while k < table.Length && table[k].Some?
      invariant k <= |said|
    {
      k := k + 1;
    }
    table[k] := Some(x);
  }

  method FindSeen(seen: array<Option<(nat, Scalar)>>, position: nat, ghost said: seq<(nat, Scalar)>) returns (r: Option<Scalar>)
    requires Tabled(seen[..], said)
    ensures r == ValueOf(said, position)
  {
    hide ValueOf;
    assert said[0..] == said;
    for k := 0 to seen.Length
      invariant k <= |said| ==> ValueOf(said[k..], position) == ValueOf(said, position)
      invariant k > |said| ==> ValueOf(said, position) == None
    {
      assert k < |said| ==> seen[..][k] == Some(said[k]);
      assert k >= |said| ==> seen[..][k] == None;
      ValueOfTail(said, k, position);
      if seen[k].Some? && seen[k].value.0 == position {
        return Some(seen[k].value.1);
      }
    }
    ValueOfTail(said, |said|, position);
    return None;
  }

  lemma ValueOfTail(said: seq<(nat, Scalar)>, k: nat, position: nat)
    ensures k < |said| ==> ValueOf(said[k..], position) == if said[k].0 == position then Some(said[k].1) else ValueOf(said[k + 1..], position)
    ensures k == |said| ==> ValueOf(said[k..], position) == None
  {
    if k < |said| {
      assert said[k..][1..] == said[k + 1..];
    }
  }

  // No more members than arguments.

  ghost predicate Spelled(args: contract, names: seq<bytes>, said: seq<(nat, Scalar)>) {
    && |names| == |said|
    && (forall k :: 0 <= k < |said| ==> said[k].0 < |args| && args[said[k].0].name == names[k])
    && (forall i, j :: 0 <= i < j < |names| ==> names[i] != names[j])
  }

  lemma SpelledAtMost(args: contract, names: seq<bytes>, said: seq<(nat, Scalar)>)
    requires Spelled(args, names, said)
    ensures |said| <= |args|
  {
    var used := set k | 0 <= k < |said| :: said[k].0;
    SaidCount(said, used);
    SubsetCount(used, |args|);
  }

  lemma {:induction false} SaidCount(said: seq<(nat, Scalar)>, used: set<nat>)
    requires forall i, j :: 0 <= i < j < |said| ==> said[i].0 != said[j].0
    requires used == set k | 0 <= k < |said| :: said[k].0
    ensures |used| == |said|
  {
    if said != [] {
      var n := |said| - 1;
      var rest := set k | 0 <= k < n :: said[k].0;
      SaidCount(said[..n], rest);
      assert said[n].0 !in rest;
      assert used == rest + {said[n].0};
    }
  }

  lemma SpelledNext(args: contract, names: seq<bytes>, said: seq<(nat, Scalar)>, key: bytes, k: nat, v: Scalar)
    requires Spelled(args, names, said) && NewKey(names, key).Ok? && Position(Names(args), key) == Some(k)
    ensures Spelled(args, names + [key], said + [(k, v)])
  {
    hide Position;
    NameFirst(args, key, k);
  }

  /** One member further. */
  lemma MembersNext(args: contract, r: bytes, keys: seq<bytes>, first: bool, said: seq<(nat, Scalar)>, k: nat)
    requires var e := TakeEntry(r, 1, keys, first);
             e.Ok? && e.value.Found? && Position(Names(args), e.value.key) == Some(k) && CheckScalar(args[k], e.value.value).Ok?
    ensures NewKey(keys, TakeEntry(r, 1, keys, first).value.key).Ok?
    ensures var e := TakeEntry(r, 1, keys, first).value;
            && |e.rest| < |r| && !e.value.Array? && !e.value.Object?
            && Members(args, r, keys, first, said) ==
               Members(args, e.rest, keys + [e.key], false, said + [(k, CheckScalar(args[k], e.value).value)])
  {
    hide ToKey, TakeString, TakeValue, Position, ParseUint, NewKey;
    EntryShrinks(r, 1, keys, first);
  }

  /** What the entry read next makes of the members. */
  lemma MembersEnd(args: contract, r: bytes, keys: seq<bytes>, first: bool, said: seq<(nat, Scalar)>)
    ensures var e := TakeEntry(r, 1, keys, first);
            var members := Members(args, r, keys, first, said);
            && (e.Err? ==> members == Err(Syntax(e.error)))
            && (e.Ok? && e.value.Closed? ==> members == Ok((said, e.value.rest)))
            && (e.Ok? && e.value.Found? ==>
                  var at := Position(Names(args), e.value.key);
                  && (at.None? ==> members == Err(UnknownArgument))
                  && (at.Some? && CheckScalar(args[at.value], e.value.value).Err? ==> members == Err(CheckScalar(args[at.value], e.value.value).error)))
  {
    hide TakeEntry, Position, CheckScalar;
  }

  method ReadMembers(args: contract, parser: Parser, seen: array<Option<(nat, Scalar)>>) returns (r: Result<(), ValidationError>, ghost said: seq<(nat, Scalar)>)
    requires |args| <= MAX_ARGS == seen.Length && parser.Valid() && parser.depth == 1 && Tabled(seen[..], [])
    modifies parser, seen
    ensures parser.Valid()
    ensures match Members(args, old(parser.Rest()), [], true, []) {
              case Err(e) => r == Err(e)
              case Ok(m) => r == Ok(()) && said == m.0 && Tabled(seen[..], said) && parser.Rest() == m.1
            }
  {
    hide TakeEntry, Members, CheckScalar, Position, Tabled, Spelled, NewKey;
    var cursor := new ObjectCursor(parser);
    said := [];
    assert Spelled(args, cursor.names, said) by { NoneSpelled(args); }
    while true
      invariant cursor.Valid() && cursor.parser == parser && !cursor.done && fresh(cursor) && fresh(cursor.keys)
      invariant parser.depth == 1 && Tabled(seen[..], said) && Spelled(args, cursor.names, said)
      invariant Members(args, parser.Rest(), cursor.names, cursor.first, said) == Members(args, old(parser.Rest()), [], true, [])
      decreases |parser.Rest()|
    {
      ghost var rest, names, first := parser.Rest(), cursor.names, cursor.first;
      MembersEnd(args, rest, names, first, said);
      var next := cursor.NextEntry();
      if next.Err? {
        return Err(Syntax(next.error)), said;
      }
      match next.value {
        case Ended => return Ok(()), said;
        case Pair(key, value) =>
          var at := FindName(Names(args), key);
          if at.None? {
            return Err(UnknownArgument), said;
          }
          var scalar :- CheckValue(args[at.value], value);
          MembersNext(args, rest, names, first, said, at.value);
          SpelledNext(args, names, said, key, at.value, scalar);
          SpelledAtMost(args, names + [key], said + [(at.value, scalar)]);
          Note(seen, (at.value, scalar), said);
          said := said + [(at.value, scalar)];
      }
    }
  }

  lemma NoneSpelled(args: contract)
    ensures Spelled(args, [], [])
  {
  }

  /** The bound arguments: a fixed table, filled in contract order. */
  class BoundArgs {
    var fields: array<Option<Field>>
    var len: nat
    ghost var bound: seq<Field>

    ghost predicate Valid()
      reads this, fields
    {
      fields.Length == MAX_ARGS && len == |bound| && Tabled(fields[..], bound)
    }

    constructor ()
      ensures Valid() && fresh(fields) && bound == []
    {
      fields := new Option<Field>[MAX_ARGS](_ => None);
      len := 0;
      bound := [];
    }

    method Add(field: Field)
      requires Valid() && len < MAX_ARGS
      modifies this`len, this`bound, fields
      ensures Valid() && bound == old(bound) + [field]
    {
      fields[len] := Some(field);
      len := len + 1;
      bound := bound + [field];
    }

    /** The value bound to `name`, if any. */
    method Get(name: bytes) returns (v: Option<Scalar>)
      requires Valid()
      ensures match v {
                case Some(x) => Field(name, x) in bound
                case None => forall k :: 0 <= k < |bound| ==> bound[k].name != name
              }
    {
      for k := 0 to len
        invariant forall j :: 0 <= j < k ==> bound[j].name != name
      {
        assert fields[..][k] == Some(bound[k]);
        if fields[k].Some? && fields[k].value.name == name {
          return Some(fields[k].value.value);
        }
      }
      return None;
    }
  }

  lemma BindNext(args: contract, said: seq<(nat, Scalar)>, k: nat, bound: seq<Field>)
    requires k < |args| && ValueOf(said, k).Some?
    ensures var rest := Bind(args, said, k + 1);
            && (rest.Err? ==> Bind(args, said, k) == rest)
            && (rest.Ok? ==>
                  && Bind(args, said, k).Ok?
                  && bound + Bind(args, said, k).value == (bound + [Field(args[k].name, ValueOf(said, k).value)]) + rest.value)
  {
    hide ValueOf;
  }

  method BindAll(args: contract, seen: array<Option<(nat, Scalar)>>, ghost said: seq<(nat, Scalar)>) returns (r: Result<BoundArgs, ValidationError>)
    requires |args| <= MAX_ARGS && Tabled(seen[..], said)
    ensures match Bind(args, said, 0) case Ok(fields) => r.Ok? && r.value.Valid() && r.value.bound == fields case Err(e) => r == Err(e)
  {
    hide ValueOf, Tabled;
    var out := new BoundArgs();
    assert Bind(args, said, 0).Ok? ==> [] + Bind(args, said, 0).value == Bind(args, said, 0).value;
    for k := 0 to |args|
      invariant out.Valid() && fresh(out) && fresh(out.fields) && out.len <= k && Tabled(seen[..], said)
      invariant Bind(args, said, 0) == match Bind(args, said, k) { case Ok(rest) => Ok(out.bound + rest) case Err(e) => Err(e) }
    {
      var found := FindSeen(seen, k, said);
      match found {
        case Some(v) =>
          BindNext(args, said, k, out.bound);
          out.Add(Field(args[k].name, v));
        case None =>
          if args[k].required {
            return Err(MissingArgument(args[k].name));
          }
      }
    }
    assert out.bound + [] == out.bound;
    return Ok(out);
  }

  method ReadBody(args: contract, parser: Parser) returns (r: Result<BoundArgs, ValidationError>)
    requires |args| <= MAX_ARGS && parser.Valid() && parser.depth == 1
    modifies parser
    ensures match ValidateBody(args, old(parser.Rest())) case Ok(fields) => r.Ok? && r.value.Valid() && r.value.bound == fields case Err(e) => r == Err(e)
  {
    hide Members, Bind, Tabled, TakeValue;
    var seen := new Option<(nat, Scalar)>[MAX_ARGS](_ => None);
    EmptyTable(seen[..]);
    var read, said := ReadMembers(args, parser, seen);
    if read.Err? {
      return Err(read.error);
    }
    if parser.pos != |parser.buf| {
      return Err(Syntax(TrailingBytes));
    }
    r := BindAll(args, seen, said);
  }

  /** Validate `json` against a contract. */
  method ValidateArgs(args: contract, json: bytes) returns (r: Result<BoundArgs, ValidationError>)
    ensures match Validate(args, json) case Ok(fields) => r.Ok? && r.value.Valid() && r.value.bound == fields case Err(e) => r == Err(e)
  {
    hide TakeValue, ValidateBody, Tabled;
    if |args| > MAX_ARGS {
      return Err(TooManyArguments);
    }
    var parser := new Parser(json);
    var value := parser.ParseValue();
    if value.Err? {
      return Err(Syntax(value.error));
    }
    if !value.value.Object? {
      return Err(NotObject);
    }
    r := ReadBody(args, parser);
  }

  lemma EmptyTable<T(!new)>(table: seq<Option<T>>)
    requires forall k :: 0 <= k < |table| ==> table[k] == None
    ensures Tabled(table, [])
  {
  }
}
