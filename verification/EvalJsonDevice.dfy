/** The fixture parser as a cursor over bytes, and the renderer appending to a
    growing text. */
module EvalJsonDevice {
  import opened Words
  import opened Json
  import opened EvalJson
  import V = ValidationProofs

  // A number's span part by part.

  lemma SpanDigits(r: bytes, sign: nat)
    requires sign == (if StartsWith(r, 0x2D) then 1 else 0) && sign <= |r|
    ensures SomeDigits(r[sign..]).Err? ==> NumberSpan(r) == Err(NoDigits)
  {
    hide SomeDigits, FractionLen, ExponentLen;
  }

  lemma SpanFraction(r: bytes, sign: nat, n: nat)
    requires sign == (if StartsWith(r, 0x2D) then 1 else 0) && sign + n <= |r| && SomeDigits(r[sign..]) == Ok(n)
    ensures FractionLen(r[sign + n..]).Err? ==> NumberSpan(r) == Err(NoDigits)
  {
    hide SomeDigits, FractionLen, ExponentLen;
  }

  lemma SpanExponent(r: bytes, sign: nat, n: nat, f: nat)
    requires sign == (if StartsWith(r, 0x2D) then 1 else 0) && sign + n + f <= |r|
    requires SomeDigits(r[sign..]) == Ok(n) && FractionLen(r[sign + n..]) == Ok(f)
    ensures NumberSpan(r) == match ExponentLen(r[sign + n + f..])
                             case Err(_) => Err(NoDigits)
                             case Ok(e) => Ok((sign + n, sign + n + f + e))
  {
    hide SomeDigits, FractionLen, ExponentLen;
  }

  class FixtureParser {
    const source: bytes
    var pos: nat

    ghost predicate Valid()
      reads this
    {
      pos <= |source|
    }

    ghost function Rest(): bytes
      requires Valid()
      reads this
    {
      source[pos..]
    }

    constructor (source: bytes)
      ensures Valid() && this.source == source && Rest() == source
    {
      this.source := source;
      pos := 0;
    }

    function Peek(): (x: Option<u8>)
      requires Valid()
      reads this
      ensures x == if Rest() == [] then None else Some(Rest()[0])
    {
      if pos < |source| then Some(source[pos]) else None
    }

    method Bump() returns (x: Option<u8>)
      requires Valid()
      modifies this
      ensures Valid()
      ensures match x {
                case None => old(Rest()) == [] && Rest() == []
                case Some(y) => old(Rest()) != [] && y == old(Rest())[0] && Rest() == old(Rest())[1..] && pos == old(pos) + 1
              }
    {
      if pos >= |source| {
        return None;
      }
      pos := pos + 1;
      return Some(source[pos - 1]);
    }

    method SkipSpaces()
      requires Valid()
      modifies this
      ensures Valid() && Rest() == Skip(old(Rest()))
    {
      while pos < |source| && Space(source[pos])
        invariant Valid() && Skip(Rest()) == Skip(old(Rest()))
      {
        assert Rest()[0] == source[pos] && Rest()[1..] == source[pos + 1..];
        pos := pos + 1;
      }
    }

    // Strings.

    method ParseHex4() returns (r: Result<nat, Fault>)
      requires Valid()
      modifies this
      ensures Valid()
      ensures match TakeHex4(old(Rest())) case Ok(p) => r == Ok(p.0) && Rest() == p.1 case Err(e) => r == Err(e)
    {
      hide HexValue;
      ghost var rest := Rest();
      var value, k := 0, 0;
      while k < 4
        invariant k <= 4 && Valid() && pos == old(pos) + k && rest == source[old(pos)..]
        invariant |rest| >= k && forall j :: 0 <= j < k ==> HexValue(rest[j]).Some?
        invariant value == HexSum(rest, k)
      {
        if pos >= |source| || HexValue(source[pos]).None? {
          assert |rest| > k ==> rest[k] == source[pos];
          return Err(NoHexDigit);
        }
        assert rest[k] == source[pos];
        value := value * 16 + HexValue(source[pos]).value;
        k := k + 1;
        pos := pos + 1;
      }
      assert Rest() == rest[4..];
      HexSumOf4(rest);
      return Ok(value);
    }

    method ParseUnicode() returns (r: Result<nat, Fault>)
      requires Valid()
      modifies this
      ensures Valid()
      ensures match TakeUnicode(old(Rest())) case Ok(p) => r == Ok(p.0) && Rest() == p.1 case Err(e) => r == Err(e)
    {
      hide TakeHex4;
      var high :- ParseHex4();
      if 0xD800 <= high < 0xDC00 {
        ghost var rest := Rest();
        var a := Bump();
        if a != Some(BACKSLASH) {
          return Err(LoneSurrogate);
        }
        var b := Bump();
        assert |rest| > 1 ==> rest[1..][0] == rest[1];
        if b != Some(0x75) {
          return Err(LoneSurrogate);
        }
        assert Rest() == rest[2..];
        var low :- ParseHex4();
        return if 0xDC00 <= low < 0xE000 then Ok(0x1_0000 + (high - 0xD800) * 0x400 + (low - 0xDC00)) else Err(LoneSurrogate);
      }
      return if 0xDC00 <= high < 0xE000 then Err(LoneSurrogate) else Ok(high);
    }

    method ParseEscape() returns (r: Result<bytes, Fault>)
      requires Valid()
      modifies this
      ensures Valid()
      ensures match TakeEscape(old(Rest())) case Ok(p) => r == Ok(p.0) && Rest() == p.1 case Err(e) => r == Err(e)
    {
      hide TakeUnicode, EncodeUtf8;
      var x := Bump();
      match x {
        case None => return Err(BadEscapeChar);
        case Some(y) =>
          match y {
            case 0x22 => return Ok([0x22]);
            case 0x5C => return Ok([0x5C]);
            case 0x2F => return Ok([0x2F]);
            case 0x62 => return Ok([0x08]);
            case 0x66 => return Ok([0x0C]);
            case 0x6E => return Ok([0x0A]);
            case 0x72 => return Ok([0x0D]);
            case 0x74 => return Ok([0x09]);
            case 0x75 =>
              var u :- ParseUnicode();
              return Ok(EncodeUtf8(u));
            case _ => return Err(BadEscapeChar);
          }
      }
    }

    /** The decoded text up to the closing quote. */
    method ParseText() returns (r: Result<bytes, Fault>)
      requires Valid()
      modifies this
      ensures Valid()
      ensures match TakeText(old(Rest())) case Ok(p) => r == Ok(p.0) && Rest() == p.1 case Err(e) => r == Err(e)
    {
      hide Decode, TakeEscape, Utf8;
      var out: bytes := [];
      assert Decode(Rest()).Ok? ==> [] + Decode(Rest()).value.0 == Decode(Rest()).value.0;
      while true
        invariant Valid() && pos >= old(pos)
        invariant match Decode(Rest()) case Ok(p) => Decode(old(Rest())) == Ok((out + p.0, p.1)) case Err(e) => Decode(old(Rest())) == Err(e)
        decreases |source| - pos
      {
        ghost var before := Rest();
        DecodeOpens(before);
        var x := Bump();
        match x {
          case None => return Err(Unterminated);
          case Some(y) =>
            if y == QUOTE {
              assert out + [] == out;
              return if Utf8(out) then Ok(out) else Err(BadUtf8);
            } else if y == BACKSLASH {
              DecodeEscapes(before);
              EscapeShrinks(Rest());
              var e :- ParseEscape();
              DecodeJoins(out, e, Rest());
              out := out + e;
            } else if y < 0x20 {
              return Err(ControlChar);
            } else {
              DecodeGoesOn(before);
              DecodeJoins(out, [y], Rest());
              out := out + [y];
            }
        }
      }
    }

    // Numbers and literals.

    method ParseDigits() returns (r: Result<nat, Fault>)
      requires Valid()
      modifies this
      ensures Valid()
      ensures match SomeDigits(old(Rest())) case Ok(n) => r == Ok(n) && pos == old(pos) + n case Err(_) => r == Err(NoDigits)
    {
      var start := pos;
      while pos < |source| && Digit(source[pos])
        invariant Valid() && start <= pos && pos - start + DigitsLen(Rest()) == DigitsLen(old(Rest()))
      {
        assert Rest()[0] == source[pos] && Rest()[1..] == source[pos + 1..];
        pos := pos + 1;
      }
      assert old(Rest()) != [] ==> old(Rest())[0] == source[start];
      return if pos == start then Err(NoDigits) else Ok(pos - start);
    }

    method ParseFraction() returns (r: Result<nat, Fault>)
      requires Valid()
      modifies this
      ensures Valid()
      ensures match FractionLen(old(Rest())) case Ok(n) => r == Ok(n) && pos == old(pos) + n case Err(_) => r == Err(NoDigits)
    {
      hide SomeDigits;
      if Peek() != Some(0x2E) {
        return Ok(0);
      }
      var _ := Bump();
      var n :- ParseDigits();
      return Ok(1 + n);
    }

    method ParseExponent() returns (r: Result<nat, Fault>)
      requires Valid()
      modifies this
      ensures Valid()
      ensures match ExponentLen(old(Rest())) case Ok(n) => r == Ok(n) && pos == old(pos) + n case Err(_) => r == Err(NoDigits)
    {
      hide SomeDigits;
      ghost var rest := Rest();
      if Peek() != Some(0x65) && Peek() != Some(0x45) {
        return Ok(0);
      }
      var _ := Bump();
      var sign := 0;
      if Peek() == Some(0x2B) || Peek() == Some(0x2D) {
        sign := 1;
        var _ := Bump();
        assert Rest() == rest[2..];
      }
      var n :- ParseDigits();
      return Ok(1 + sign + n);
    }

    /** `rest` was what was left at `start`. */
    ghost predicate Left(rest: bytes, start: nat) {
      start <= |source| && rest == source[start..]
    }

    lemma LeftHere()
      requires Valid()
      ensures Left(Rest(), pos)
    {
    }

    lemma LeftNow(rest: bytes, start: nat, n: nat)
      requires Valid() && Left(rest, start) && pos == start + n
      ensures n <= |rest| && Rest() == rest[n..]
    {
    }

    method ParseSign() returns (n: nat)
      requires Valid()
      modifies this
      ensures Valid() && pos == old(pos) + n && n == if StartsWith(old(Rest()), 0x2D) then 1 else 0
    {
      if Peek() != Some(0x2D) {
        return 0;
      }
      var _ := Bump();
      return 1;
    }

    method ParseSpan() returns (r: Result<(nat, nat), Fault>)
      requires Valid()
      modifies this
      ensures Valid() && r == NumberSpan(old(Rest()))
      ensures r.Ok? ==> pos == old(pos) + r.value.1
    {
      hide NumberSpan, SomeDigits, FractionLen, ExponentLen, StartsWith, Rest, Left;
      ghost var rest := Rest();
      var start := pos;
      LeftHere();
      var sign := ParseSign();
      LeftNow(rest, start, sign);
      SpanDigits(rest, sign);
      var n :- ParseDigits();
      LeftNow(rest, start, sign + n);
      SpanFraction(rest, sign, n);
      var f :- ParseFraction();
      LeftNow(rest, start, sign + n + f);
      SpanExponent(rest, sign, n, f);
      var e :- ParseExponent();
      return Ok((sign + n, sign + n + f + e));
    }

    method ParseNumeral() returns (r: Result<Data, Fault>)
      requires Valid()
      modifies this
      ensures Valid()
      ensures match TakeNumeral(old(Rest())) case Ok(p) => r == Ok(p.0) && Rest() == p.1 case Err(e) => r == Err(e)
    {
      hide NumberSpan, Worth;
      ghost var rest := Rest();
      var start := pos;
      var span :- ParseSpan();
      var (whole, all) := span;
      var spelling := source[start..pos];
      assert spelling == rest[..all] && Rest() == rest[all..];
      if whole < all {
        return Ok(Float(spelling));
      }
      var n := SignedWorth(spelling);
      return if -I64_SPAN <= n < I64_SPAN then Ok(Int(n)) else Err(TooLarge);
    }

    method ParseWord(word: bytes, v: Data) returns (r: Result<Data, Fault>)
      requires Valid() && word != []
      modifies this
      ensures Valid()
      ensures match TakeWord(old(Rest()), word, v) case Ok(p) => r == Ok(p.0) && Rest() == p.1 case Err(e) => r == Err(e)
    {
      ghost var rest := Rest();
      for k := 0 to |word|
        invariant Valid() && pos == old(pos) + k && rest == source[old(pos)..] && word[..k] == rest[..k]
      {
        if pos >= |source| || source[pos] != word[k] {
          assert pos < |source| ==> rest[k] == source[pos];
          return Err(BadLiteral);
        }
        assert rest[k] == source[pos];
        pos := pos + 1;
      }
      assert word <= rest && Rest() == rest[|word|..];
      var next := Peek();
      return match next
        case None => Ok(v)
        case Some(x) => if Space(x) || x == COMMA || x == 0x5D || x == SHUT then Ok(v) else Err(BadLiteral);
    }

    // Values.

    method ParseValue(depth: nat, limit: nat) returns (r: Result<Data, Fault>)
      requires Valid()
      modifies this
      ensures Valid()
      ensures match ParseData(old(Rest()), depth, limit) case Ok(p) => r == Ok(p.0) && Rest() == p.1 case Err(e) => r == Err(e)
      decreases |source| - pos, 1
    {
      hide Skip, TakeText, TakeNumeral, TakeWord, ParsePairs, ParseItems;
      if depth > limit {
        return Err(TooDeep);
      }
      SkipSpaces();
      var next := Peek();
      match next {
        case None => return Err(InputEnded);
        case Some(x) =>
          if x == OPEN {
            r := ParseObject(depth, limit);
          } else if x == 0x5B {
            r := ParseArray(depth, limit);
          } else if x == QUOTE {
            var _ := Bump();
            var text :- ParseText();
            return Ok(Text(text));
          } else if x == 0x74 {
            r := ParseWord(TRUE, Truth(true));
          } else if x == 0x66 {
            r := ParseWord(FALSE, Truth(false));
          } else if x == 0x6E {
            r := ParseWord(NULL, Nil);
          } else if x == 0x2D || Digit(x) {
            r := ParseNumeral();
          } else {
            return Err(UnexpectedChar);
          }
      }
    }

    /** What an opening bracket's list reads as. */
    ghost function ArrayOf(s: bytes, depth: nat, limit: nat): Result<(Data, bytes), Fault> {
      var t := Skip(s);
      if StartsWith(t, 0x5D) then Ok((List([]), t[1..])) else ParseItems(s, depth, limit, [])
    }

    ghost function ObjectOf(s: bytes, depth: nat, limit: nat): Result<(Data, bytes), Fault> {
      var t := Skip(s);
      if StartsWith(t, SHUT) then Ok((Dict([]), t[1..])) else ParsePairs(s, depth, limit, [])
    }

    method ParseArray(depth: nat, limit: nat) returns (r: Result<Data, Fault>)
      requires Valid() && Rest() != []
      modifies this
      ensures Valid()
      ensures match ArrayOf(old(Rest())[1..], depth, limit) case Ok(p) => r == Ok(p.0) && Rest() == p.1 case Err(e) => r == Err(e)
      decreases |source| - pos, 0
    {
      hide Skip, ParseItems, ParseData;
      var _ := Bump();
      ghost var body := Rest();
      SkipSpaces();
      if Peek() == Some(0x5D) {
        var _ := Bump();
        return Ok(List([]));
      }
      var items: seq<Data> := [];
      ItemsSkip(body, depth, limit, items);
      while true
        invariant Valid() && pos > old(pos)
        invariant ParseItems(Rest(), depth, limit, items) == ParseItems(body, depth, limit, [])
        decreases |source| - pos
      {
        ghost var before := Rest();
        ItemsStep(before, depth, limit, items);
        var item :- ParseValue(depth + 1, limit);
        items := items + [item];
        SkipSpaces();
        var x := Bump();
        if x == Some(0x5D) {
          return Ok(List(items));
        }
        if x != Some(COMMA) {
          return Err(NoCommaOrClose);
        }
      }
    }

    method ParseKey() returns (r: Result<bytes, Fault>)
      requires Valid()
      modifies this
      ensures Valid()
      ensures match TakeKey(old(Rest())) case Ok(p) => r == Ok(p.0) && Rest() == p.1 case Err(e) => r == Err(e)
    {
      hide Skip, TakeText;
      SkipSpaces();
      if Peek() != Some(QUOTE) {
        return Err(NoKey);
      }
      var _ := Bump();
      var key :- ParseText();
      SkipSpaces();
      var x := Bump();
      return if x == Some(COLON) then Ok(key) else Err(NoColon);
    }

    method ParseObject(depth: nat, limit: nat) returns (r: Result<Data, Fault>)
      requires Valid() && Rest() != []
      modifies this
      ensures Valid()
      ensures match ObjectOf(old(Rest())[1..], depth, limit) case Ok(p) => r == Ok(p.0) && Rest() == p.1 case Err(e) => r == Err(e)
      decreases |source| - pos, 0
    {
      hide Skip, ParsePairs, ParseData, TakeKey;
      var _ := Bump();
      ghost var body := Rest();
      SkipSpaces();
      if Peek() == Some(SHUT) {
        var _ := Bump();
        return Ok(Dict([]));
      }
      var pairs: seq<(bytes, Data)> := [];
      PairsSkip(body, depth, limit, pairs);
      while true
        invariant Valid() && pos > old(pos)
        invariant ParsePairs(Rest(), depth, limit, pairs) == ParsePairs(body, depth, limit, [])
        decreases |source| - pos
      {
        ghost var before := Rest();
        PairsStep(before, depth, limit, pairs);
        var key :- ParseKey();
        var value :- ParseValue(depth + 1, limit);
        if key in Keys(pairs) {
          return Err(Repeated);
        }
        pairs := pairs + [(key, value)];
        SkipSpaces();
        var x := Bump();
        if x == Some(SHUT) {
          return Ok(Dict(pairs));
        }
        if x != Some(COMMA) {
          return Err(NoCommaOrClose);
        }
      }
    }
  }

  function HexSum(r: bytes, k: nat): nat
    requires k <= |r| && forall j :: 0 <= j < k ==> HexValue(r[j]).Some?
  {
    if k == 0 then 0 else HexSum(r, k - 1) * 16 + HexValue(r[k - 1]).value
  }

  lemma HexSumOf4(r: bytes)
    requires |r| >= 4 && forall j :: 0 <= j < 4 ==> HexValue(r[j]).Some?
    ensures TakeHex4(r) == Ok((HexSum(r, 4), r[4..]))
  {
    hide HexValue;
    assert HexSum(r, 1) == HexValue(r[0]).value;
    assert HexSum(r, 2) == HexSum(r, 1) * 16 + HexValue(r[1]).value;
    assert HexSum(r, 3) == HexSum(r, 2) * 16 + HexValue(r[2]).value;
  }

  lemma DecodeOpens(r: bytes)
    ensures r == [] ==> Decode(r) == Err(Unterminated)
    ensures r != [] && r[0] == QUOTE ==> Decode(r) == Ok(([], r[1..]))
    ensures r != [] && r[0] != QUOTE && r[0] != BACKSLASH && r[0] < 0x20 ==> Decode(r) == Err(ControlChar)
  {
    hide TakeEscape;
  }

  lemma DecodeEscapes(r: bytes)
    requires r != [] && r[0] == BACKSLASH
    ensures TakeEscape(r[1..]).Err? ==> Decode(r) == Err(TakeEscape(r[1..]).error)
    ensures TakeEscape(r[1..]).Ok? ==>
              var (e, t) := TakeEscape(r[1..]).value;
              && (Decode(t).Ok? ==> Decode(r) == Ok((e + Decode(t).value.0, Decode(t).value.1)))
              && (Decode(t).Err? ==> Decode(r) == Decode(t))
  {
    hide TakeEscape;
  }

  lemma DecodeGoesOn(r: bytes)
    requires r != [] && r[0] != QUOTE && r[0] != BACKSLASH && r[0] >= 0x20
    ensures Decode(r[1..]).Ok? ==> Decode(r) == Ok(([r[0]] + Decode(r[1..]).value.0, Decode(r[1..]).value.1))
    ensures Decode(r[1..]).Err? ==> Decode(r) == Decode(r[1..])
  {
    hide TakeEscape;
  }

  lemma DecodeJoins(out: bytes, e: bytes, t: bytes)
    ensures Decode(t).Ok? ==> out + (e + Decode(t).value.0) == (out + e) + Decode(t).value.0
  {
    hide Decode;
    if Decode(t).Ok? {
      Regroup(out, e, Decode(t).value.0);
    }
  }

  lemma EscapeShrinks(r: bytes)
    ensures TakeEscape(r).Ok? ==> |TakeEscape(r).value.1| <= |r|
  {
    hide TakeUnicode;
  }

  /** Spaces before a list's or an object's first member change nothing. */
  lemma SkipTwice(r: bytes)
    ensures Skip(Skip(r)) == Skip(r)
  {
    V.SkipGap([], Skip(r));
    assert [] + Skip(r) == Skip(r);
  }

  lemma DataSkip(r: bytes, depth: nat, limit: nat)
    ensures ParseData(Skip(r), depth, limit) == ParseData(r, depth, limit)
  {
    hide Skip, ParseItems, ParsePairs, TakeText, TakeNumeral, TakeWord;
    SkipTwice(r);
  }

  lemma ItemsSkip(r: bytes, depth: nat, limit: nat, items: seq<Data>)
    ensures ParseItems(Skip(r), depth, limit, items) == ParseItems(r, depth, limit, items)
  {
    hide Skip, ParseData;
    DataSkip(r, depth + 1, limit);
  }

  lemma PairsSkip(r: bytes, depth: nat, limit: nat, pairs: seq<(bytes, Data)>)
    ensures ParsePairs(Skip(r), depth, limit, pairs) == ParsePairs(r, depth, limit, pairs)
  {
    hide Skip, ParseData, TakeText;
    SkipTwice(r);
  }

  lemma ItemsStep(r: bytes, depth: nat, limit: nat, items: seq<Data>)
    ensures ParseData(r, depth + 1, limit).Err? ==> ParseItems(r, depth, limit, items) == Err(ParseData(r, depth + 1, limit).error)
    ensures ParseData(r, depth + 1, limit).Ok? ==>
              var p := ParseItems(r, depth, limit, items);
              var (item, t) := ParseData(r, depth + 1, limit).value;
              var s := Skip(t);
              && |t| < |r|
              && (StartsWith(s, COMMA) ==> p == ParseItems(s[1..], depth, limit, items + [item]))
              && (StartsWith(s, 0x5D) ==> p == Ok((List(items + [item]), s[1..])))
              && (!StartsWith(s, COMMA) && !StartsWith(s, 0x5D) ==> p == Err(NoCommaOrClose))
  {
    hide Skip, ParseData;
  }

  lemma PairsStep(r: bytes, depth: nat, limit: nat, pairs: seq<(bytes, Data)>)
    ensures TakeKey(r).Err? ==> ParsePairs(r, depth, limit, pairs) == Err(TakeKey(r).error)
    ensures TakeKey(r).Ok? ==>
              var p := ParsePairs(r, depth, limit, pairs);
              var (key, u) := TakeKey(r).value;
              var data := ParseData(u, depth + 1, limit);
              && |u| < |r|
              && (data.Err? ==> p == Err(data.error))
              && (data.Ok? ==> |data.value.1| < |u| && p == PairsAfter(key, data.value.0, data.value.1, depth, limit, pairs))
  {
    hide Skip, ParseData, TakeKey;
  }

  /** What follows one pair of an object. */
  function PairsAfter(key: bytes, value: Data, t: bytes, depth: nat, limit: nat, pairs: seq<(bytes, Data)>): Result<(Data, bytes), Fault> {
    if key in Keys(pairs) then Err(Repeated)
    else
      var s := Skip(t);
      if StartsWith(s, COMMA) then ParsePairs(s[1..], depth, limit, pairs + [(key, value)])
      else if StartsWith(s, SHUT) then Ok((Dict(pairs + [(key, value)]), s[1..]))
      else Err(NoCommaOrClose)
  }

  method ParseDocument(b: bytes) returns (r: Result<Data, Fault>)
    ensures r == Parse(b)
  {
    hide ParseData, Skip;
    var parser := new FixtureParser(b);
    var v :- parser.ParseValue(0, LIMIT);
    parser.SkipSpaces();
    return if parser.pos < |b| then Err(Trailing) else Ok(v);
  }

  // Rendering.

  class Output {
    var text: bytes

    constructor ()
      ensures text == []
    {
      text := [];
    }

    method Push(b: bytes)
      modifies this
      ensures text == old(text) + b
    {
      text := text + b;
    }

    method RenderString(s: bytes)
      modifies this
      ensures text == old(text) + Quoted(s)
    {
      hide EscapeByte;
      Push([QUOTE]);
      assert s[..0] == [] && Escaped([]) == [];
      for k := 0 to |s|
        invariant text == (old(text) + [QUOTE]) + Escaped(s[..k])
      {
        EscapedSnoc(s[..k], s[k]);
        assert s[..k] + [s[k]] == s[..k + 1];
        PushEscaped(s[k]);
      }
      assert s[..|s|] == s;
      Push([QUOTE]);
      Regroup(old(text) + [QUOTE], Escaped(s), [QUOTE]);
      Regroup(old(text), [QUOTE], Escaped(s) + [QUOTE]);
    }

    method PushEscaped(x: u8)
      modifies this
      ensures text == old(text) + EscapeByte(x)
    {
      match x {
        case 0x22 => Push([BACKSLASH, QUOTE]);
        case 0x5C => Push([BACKSLASH, BACKSLASH]);
        case 0x0A => Push([BACKSLASH, 0x6E]);
        case 0x0D => Push([BACKSLASH, 0x72]);
        case 0x09 => Push([BACKSLASH, 0x74]);
        case _ =>
          if x < 0x20 {
            Push([BACKSLASH, 0x75, 0x30, 0x30, Hex(x / 16), Hex(x % 16)]);
          } else {
            Push([x]);
          }
      }
    }

    method RenderInto(show: shown, v: Data)
      modifies this
      ensures text == old(text) + Render(show, v)
      decreases v, 1
    {
      hide Commas, Order, Decimal, Quoted;
      match v {
        case Nil => Push(NULL);
        case Truth(t) => Push(if t then TRUE else FALSE);
        case Int(n) => Push(IntText(n));
        case Float(spelling) => Push(show(spelling));
        case Text(s) => RenderString(s);
        case List(items) => RenderList(show, v);
        case Dict(pairs) => RenderDict(show, v);
      }
    }

    ghost function ItemChunks(show: shown, items: seq<Data>): seq<bytes>
    {
      seq(|items|, i requires 0 <= i < |items| => Render(show, items[i]))
    }

    ghost function PairChunks(show: shown, pairs: seq<(bytes, Data)>): seq<bytes>
    {
      var order := Order(Keys(pairs));
      seq(|pairs|, i requires 0 <= i < |pairs| => PairText(pairs[order[i]].0, Render(show, pairs[order[i]].1)))
    }

    method RenderList(show: shown, v: Data)
      requires v.List?
      modifies this
      ensures text == old(text) + Render(show, v)
      decreases v, 0
    {
      hide Commas, Render;
      ghost var chunks := ItemChunks(show, v.items);
      Push([0x5B]);
      ghost var start := text;
      CommasNone(chunks);
      for k := 0 to |v.items|
        invariant text == start + Commas(chunks[..k])
      {
        CommasSnoc(chunks, k);
        ghost var before := text;
        if k > 0 {
          Push([COMMA]);
        }
        RenderInto(show, v.items[k]);
        Placed(start, chunks, k, before, text);
      }
      assert chunks[..|chunks|] == chunks;
      Push([0x5D]);
      Regroup(start, Commas(chunks), [0x5D]);
      Regroup(old(text), [0x5B], Commas(chunks) + [0x5D]);
      assert Render(show, v) == [0x5B] + (Commas(chunks) + [0x5D]) by { RenderOfList(show, v); }
    }

    lemma RenderOfList(show: shown, v: Data)
      requires v.List?
      ensures Render(show, v) == [0x5B] + (Commas(ItemChunks(show, v.items)) + [0x5D])
    {
      hide Commas;
    }

    lemma RenderOfDict(show: shown, v: Data)
      requires v.Dict?
      ensures Render(show, v) == [OPEN] + (Commas(PairChunks(show, v.pairs)) + [SHUT])
    {
      hide Commas, Order, PairText;
    }

    /** A chunk in its place, behind a comma unless it is the first. */
    lemma Placed(start: bytes, chunks: seq<bytes>, k: nat, before: bytes, after: bytes)
      requires k < |chunks| && before == start + Commas(chunks[..k])
      requires after == (if k > 0 then before + [COMMA] else before) + chunks[k]
      ensures after == start + Commas(chunks[..k + 1])
    {
      hide Commas;
      CommasSnoc(chunks, k);
      if k > 0 {
        Regroup(before, [COMMA], chunks[k]);
        Regroup(start, Commas(chunks[..k]), [COMMA] + chunks[k]);
      } else {
        CommasNone(chunks);
        assert start + [] == start && [] + chunks[0] == chunks[0];
      }
    }

    method RenderDict(show: shown, v: Data)
      requires v.Dict?
      modifies this
      ensures text == old(text) + Render(show, v)
      decreases v, 0
    {
      hide Commas, Render, Order, Quoted;
      var order := Order(Keys(v.pairs));
      ghost var chunks := PairChunks(show, v.pairs);
      Push([OPEN]);
      ghost var start := text;
      CommasNone(chunks);
      for k := 0 to |v.pairs|
        invariant text == start + Commas(chunks[..k])
      {
        ghost var before := text;
        if k > 0 {
          Push([COMMA]);
        }
        ghost var ready := text;
        var (key, value) := v.pairs[order[k]];
        RenderString(key);
        Push([COLON]);
        RenderInto(show, value);
        Regroup(ready + Quoted(key), [COLON], Render(show, value));
        Regroup(ready, Quoted(key), [COLON] + Render(show, value));
        Placed(start, chunks, k, before, text);
      }
      assert chunks[..|chunks|] == chunks;
      Push([SHUT]);
      Regroup(start, Commas(chunks), [SHUT]);
      Regroup(old(text), [OPEN], Commas(chunks) + [SHUT]);
      RenderOfDict(show, v);
    }
  }

  lemma EscapedSnoc(s: bytes, x: u8)
    ensures Escaped(s + [x]) == Escaped(s) + EscapeByte(x)
  {
    hide EscapeByte;
    if s == [] {
      assert [x][1..] == [] && Escaped([]) == [];
    } else {
      EscapedSnoc(s[1..], x);
      assert (s + [x])[1..] == s[1..] + [x];
      Regroup(EscapeByte(s[0]), Escaped(s[1..]), EscapeByte(x));
    }
  }

  lemma CommasNone(chunks: seq<bytes>)
    ensures Commas(chunks[..0]) == []
  {
  }

  lemma {:induction false} CommasSnoc(chunks: seq<bytes>, k: nat)
    requires k < |chunks|
    ensures k == 0 ==> Commas(chunks[..1]) == chunks[0]
    ensures k > 0 ==> Commas(chunks[..k + 1]) == Commas(chunks[..k]) + ([COMMA] + chunks[k])
    decreases k
  {
    if k > 0 {
      var rest := chunks[1..];
      CommasSnoc(rest, k - 1);
      assert chunks[..k + 1][1..] == rest[..k] && chunks[..k][1..] == rest[..k - 1];
      if k > 1 {
        Regroup([COMMA], Commas(rest[..k - 1]), [COMMA] + chunks[k]);
        Regroup(chunks[0], [COMMA] + Commas(rest[..k - 1]), [COMMA] + chunks[k]);
      }
    }
  }

  /** The canonical rendering, built by appending. */
  method RenderText(show: shown, v: Data) returns (text: bytes)
    ensures text == Render(show, v)
  {
    hide Render;
    var out := new Output();
    out.RenderInto(show, v);
    text := out.text;
    assert [] + Render(show, v) == Render(show, v);
  }
}
