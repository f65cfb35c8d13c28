/** A contract accepts exactly the texts of its documents, and binds what they
    say in contract order. */
module ValidationProofs {
  import opened Words
  import opened Json
  import opened Validation

  // Spaces.

  lemma {:induction false} SkipGap(gap: bytes, t: bytes)
    requires Spaces(gap) && (t == [] || !Space(t[0]))
    ensures Skip(gap + t) == t
  {
    if gap == [] {
      assert gap + t == t;
    } else {
      SkipGap(gap[1..], t);
      assert (gap + t)[1..] == gap[1..] + t;
    }
  }

  function GapOf(r: bytes): bytes {
    r[..|r| - |Skip(r)|]
  }

  lemma {:induction false} SkipSplits(r: bytes)
    ensures r == GapOf(r) + Skip(r) && Spaces(GapOf(r))
  {
    if r != [] && Space(r[0]) {
      SkipSplits(r[1..]);
      assert r == [r[0]] + r[1..];
      assert GapOf(r) == [r[0]] + GapOf(r[1..]);
    } else {
      assert GapOf(r) == [];
    }
  }

  // Strings.

  lemma EscapeBack(s: bytes, t: bytes)
    requires EscapeLen(s).Ok?
    ensures EscapeLen(s + t) == EscapeLen(s)
  {
  }

  lemma {:induction false} StringBack(s: bytes, rest: bytes)
    requires Raw(s)
    ensures StringLen(s + ([QUOTE] + rest)) == Ok(|s|)
    decreases |s|
  {
    var t := [QUOTE] + rest;
    if s == [] {
      assert s + t == t;
    } else if s[0] == BACKSLASH {
      var e := EscapeLen(s[1..]).value;
      StringBack(s[1 + e..], rest);
      EscapedBack(s, t, e);
    } else {
      StringBack(s[1..], rest);
      assert (s + t)[1..] == s[1..] + t;
    }
  }

  lemma EscapedBack(s: bytes, t: bytes, e: nat)
    requires s != [] && s[0] == BACKSLASH && EscapeLen(s[1..]) == Ok(e) && StringLen(s[1 + e..] + t).Ok?
    ensures StringLen(s + t) == Ok(1 + e + StringLen(s[1 + e..] + t).value)
  {
    hide EscapeLen, StringLen;
    var r := s + t;
    assert EscapeLen(r[1..]) == Ok(e) by {
      EscapeBack(s[1..], t);
      DropConcat(s, t, 1);
    }
    DropConcat(s, t, 1 + e);
    StringEscape(r, e);
  }

  lemma StringEscape(r: bytes, e: nat)
    requires r != [] && r[0] == BACKSLASH && EscapeLen(r[1..]) == Ok(e) && StringLen(r[1 + e..]).Ok?
    ensures StringLen(r) == Ok(1 + e + StringLen(r[1 + e..]).value)
  {
    hide EscapeLen;
  }

  lemma DropConcat(s: bytes, t: bytes, k: nat)
    requires k <= |s|
    ensures (s + t)[k..] == s[k..] + t
  {
  }

  lemma EscapeFits(r: bytes, n: nat)
    requires EscapeLen(r).Ok? && EscapeLen(r).value <= n <= |r|
    ensures EscapeLen(r[..n]) == EscapeLen(r)
  {
  }

  lemma PrefixDrop(r: bytes, n: nat, k: nat)
    requires k <= n <= |r|
    ensures r[..n][k..] == r[k..][..n - k]
  {
  }

  lemma {:induction false} StringThere(r: bytes)
    requires StringLen(r).Ok?
    ensures Raw(r[..StringLen(r).value])
    decreases |r|
  {
    var n := StringLen(r).value;
    if r[0] == QUOTE {
      assert r[..0] == [];
    } else if r[0] == BACKSLASH {
      var e := EscapeLen(r[1..]).value;
      StringThere(r[1 + e..]);
      PrefixDrop(r, n, 1);
      PrefixDrop(r, n, 1 + e);
      EscapeFits(r[1..], n - 1);
    } else {
      StringThere(r[1..]);
      PrefixDrop(r, n, 1);
    }
  }

  lemma TakeStringBack(s: bytes, rest: bytes)
    requires Raw(s)
    ensures TakeString(s + ([QUOTE] + rest)) == Ok((s, rest))
  {
    hide StringLen, Raw;
    StringBack(s, rest);
    var r := s + ([QUOTE] + rest);
    assert r[..|s|] == s && r[|s| + 1..] == rest;
  }

  lemma TakeStringThere(r: bytes)
    requires TakeString(r).Ok?
    ensures var p := TakeString(r).value; r == p.0 + ([QUOTE] + p.1) && Raw(p.0)
  {
    hide StringLen, Raw;
    StringThere(r);
  }

  // Numbers.

  lemma {:induction false} DecimalWorth(n: nat)
    ensures AllDigits(Decimal(n)) && Worth(Decimal(n)) == n
    ensures n >= 10 ==> Decimal(n)[0] != 0x30 && |Decimal(n)| > 1
    ensures 1 <= n < 10 ==> Decimal(n)[0] != 0x30
  {
    var d := Decimal(n);
    if n >= 10 {
      DecimalWorth(n / 10);
      assert d[..|d| - 1] == Decimal(n / 10);
    } else {
      assert d[..0] == [] && Worth([]) == 0;
    }
  }

  lemma {:induction false} CanonicalDigits(d: bytes)
    requires d != [] && AllDigits(d) && (|d| == 1 || d[0] != 0x30)
    ensures Worth(d) >= 0 && (d[0] != 0x30 ==> Worth(d) >= 1)
    ensures Decimal(Worth(d)) == d
  {
    var init := d[..|d| - 1];
    if init == [] {
      assert d == [d[0]] && Worth(d) == d[0] as int - 0x30;
    } else {
      CanonicalDigits(init);
      assert d == init + [d[|d| - 1]];
    }
  }

  /** Nothing of a number can follow. */
  predicate Ends(t: bytes) {
    t == [] || !(Digit(t[0]) || t[0] in [0x2E, 0x65, 0x45])
  }

  lemma {:induction false} DigitsRun(d: bytes, t: bytes)
    requires AllDigits(d) && (t == [] || !Digit(t[0]))
    ensures DigitsLen(d + t) == |d|
  {
    if d == [] {
      assert d + t == t;
    } else {
      assert (d + t)[1..] == d[1..] + t;
      DigitsRun(d[1..], t);
    }
  }

  lemma NumberBack(n: nat, t: bytes)
    requires Ends(t)
    ensures TakeNumber(Decimal(n) + t) == Ok((Decimal(n), t))
  {
    hide Decimal, Worth, DigitsLen;
    var d := Decimal(n);
    DecimalWorth(n);
    DigitsRun(d, t);
    var r := d + t;
    assert r[0..] == r && r[..|d|] == d && r[|d|..] == t;
    if n == 0 {
      DecimalZero();
    }
    assert IntegerLen(r) == Ok(|d|);
  }

  lemma DecimalZero()
    ensures Decimal(0) == [0x30]
  {
  }

  /** After its leading digits, a number goes on only with a dot or an e. */
  lemma NumberStops(r: bytes)
    requires TakeNumber(r).Ok? && Digit(r[0])
    ensures var d := TakeNumber(r).value.0;
            IntegerLen(r).Ok? && IntegerLen(r).value <= |d| && (|d| > IntegerLen(r).value ==> !Digit(d[IntegerLen(r).value]))
  {
    hide SomeDigits, DigitsLen;
    var d := TakeNumber(r).value.0;
    assert r[0..] == r;
    var i := IntegerLen(r).value;
    if |d| > i {
      assert d[i] == r[i..][0];
    }
  }

  /** A number of digits alone is a plain decimal. */
  lemma NumberThere(r: bytes)
    requires TakeNumber(r).Ok? && AllDigits(TakeNumber(r).value.0)
    ensures var p := TakeNumber(r).value; r == p.0 + p.1 && Worth(p.0) >= 0 && Decimal(Worth(p.0)) == p.0
  {
    hide Decimal, Worth, DigitsLen, SomeDigits;
    var d := TakeNumber(r).value.0;
    assert d[0] == r[0];
    NumberStops(r);
    CanonicalDigits(d);
  }

  // Values.

  lemma UintBack(n: nat, width: nat, top: nat)
    requires n <= top < Ten(width) && width >= 1
    ensures ParseUint(Decimal(n), width, top) == Ok(n)
  {
    hide Decimal, Worth;
    DecimalWorth(n);
    DecimalDigits(n, width, Ten(width));
  }

  lemma NumberValueBack(n: nat, t: bytes)
    requires Ends(t)
    ensures TakeValue(Decimal(n) + t, 1) == Ok((Number(Decimal(n)), t))
  {
    hide Decimal, Worth, TakeNumber;
    DecimalWorth(n);
    NumberBack(n, t);
    var r := Decimal(n) + t;
    assert r[0] == Decimal(n)[0] && Digit(r[0]) && !Space(r[0]);
    SkipGap([], r);
    assert [] + r == r;
  }

  lemma StringValueBack(s: bytes, t: bytes)
    requires Raw(s)
    ensures TakeValue([QUOTE] + (s + ([QUOTE] + t)), 1) == Ok((Str(s), t))
  {
    hide Raw, TakeString;
    TakeStringBack(s, t);
    var r := [QUOTE] + (s + ([QUOTE] + t));
    SkipGap([], r);
    assert [] + r == r;
    assert r[1..] == s + ([QUOTE] + t);
  }

  lemma {:induction false} PositionIs(names: seq<bytes>, k: nat)
    requires k < |names| && forall j :: 0 <= j < k ==> names[j] != names[k]
    ensures Position(names, names[k]) == Some(k)
  {
  }

  lemma ScalarBack(spec: ArgSpec, v: Scalar, before: bytes, t: bytes)
    requires Fits(spec.kind, v) && Ends(t) && Spaces(before)
    ensures var p := TakeValue(before + (ScalarText(spec.kind, v) + t), 1);
            p.Ok? && p.value.1 == t && CheckScalar(spec, p.value.0) == Ok(v)
  {
    hide Decimal, ParseUint, Raw, TakeString, TakeNumber, Skip;
    var text := ScalarText(spec.kind, v);
    TenDigits();
    match spec.kind {
      case KindU8(lo, hi) =>
        NumberValueBack(v.n8, t);
        UintBack(v.n8, 3, 0xFF);
      case KindU16(lo, hi) =>
        NumberValueBack(v.n16, t);
        UintBack(v.n16, 5, 0xFFFF);
      case KindEnum(options) =>
        Regroup([QUOTE], options[v.index] + [QUOTE], t);
        Regroup(options[v.index], [QUOTE], t);
        StringValueBack(options[v.index], t);
        PositionIs(options, v.index);
    }
    ValueAfterGap(before, text + t);
  }

  /** Spaces before a value change nothing. */
  lemma ValueAfterGap(gap: bytes, r: bytes)
    requires Spaces(gap)
    ensures TakeValue(gap + r, 1) == TakeValue(r, 1)
  {
    hide TakeString, TakeNumber, Skip, TakeLiteral;
    SkipSplits(r);
    Regroup(gap, GapOf(r), Skip(r));
    SkipGap(gap + GapOf(r), Skip(r));
  }

  lemma NumberValueThere(r: bytes, d: bytes, t: bytes)
    requires TakeValue(r, 1) == Ok((Number(d), t))
    ensures TakeNumber(Skip(r)) == Ok((d, t))
  {
    hide TakeString, TakeNumber, Skip;
  }

  lemma StringValueThere(r: bytes, s: bytes, t: bytes)
    requires TakeValue(r, 1) == Ok((Str(s), t))
    ensures Skip(r) == [QUOTE] + (s + ([QUOTE] + t)) && Raw(s)
  {
    hide TakeString, TakeNumber, Skip, Raw;
    TakeStringThere(Skip(r)[1..]);
    assert Skip(r) == [QUOTE] + Skip(r)[1..];
  }

  lemma CheckedNumber(name: bytes, r: bytes, width: nat, top: nat, lo: nat, hi: nat)
    requires TakeValue(r, 1).Ok? && CheckNumber(name, TakeValue(r, 1).value.0, width, top, lo, hi).Ok?
    ensures var n := CheckNumber(name, TakeValue(r, 1).value.0, width, top, lo, hi).value;
            Skip(r) == Decimal(n) + TakeValue(r, 1).value.1
  {
    hide TakeNumber, Skip, TakeValue, Decimal, Worth;
    var (v, t) := TakeValue(r, 1).value;
    NumberValueThere(r, v.digits, t);
    NumberThere(Skip(r));
  }

  lemma ScalarThere(spec: ArgSpec, r: bytes)
    requires TakeValue(r, 1).Ok? && CheckScalar(spec, TakeValue(r, 1).value.0).Ok?
    ensures var (v, t) := TakeValue(r, 1).value;
            var scalar := CheckScalar(spec, v).value;
            Fits(spec.kind, scalar) && r == GapOf(r) + (ScalarText(spec.kind, scalar) + t) && Spaces(GapOf(r))
  {
    hide TakeValue, Skip, GapOf, Decimal, Raw, CheckNumber;
    SkipSplits(r);
    var (v, t) := TakeValue(r, 1).value;
    match spec.kind {
      case KindU8(lo, hi) => CheckedNumber(spec.name, r, 3, 0xFF, lo, hi);
      case KindU16(lo, hi) => CheckedNumber(spec.name, r, 5, 0xFFFF, lo, hi);
      case KindEnum(options) =>
        StringValueThere(r, v.content, t);
        Regroup([QUOTE], v.content + [QUOTE], t);
        Regroup(v.content, [QUOTE], t);
    }
  }

  // Members.

  /** Distinct positions below `n` number at most `n`. */
  lemma AtMost(ms: seq<Member>, n: nat)
    requires Distinct(ms) && forall k :: 0 <= k < |ms| ==> ms[k].position < n
    ensures |ms| <= n
  {
    var used := set k | 0 <= k < |ms| :: ms[k].position;
    UsedCount(ms, used);
    SubsetCount(used, n);
  }

  lemma {:induction false} UsedCount(ms: seq<Member>, used: set<nat>)
    requires Distinct(ms) && used == set k | 0 <= k < |ms| :: ms[k].position
    ensures |used| == |ms|
  {
    if ms != [] {
      var n := |ms| - 1;
      var rest := set k | 0 <= k < n :: ms[k].position;
      UsedCount(ms[..n], rest);
      assert ms[n].position !in rest;
      assert used == rest + {ms[n].position};
    }
  }

  lemma {:induction false} SubsetCount(used: set<nat>, n: nat)
    requires forall x :: x in used ==> x < n
    ensures |used| <= n
  {
    if n > 0 {
      SubsetCount(used - {n - 1}, n - 1);
      if n - 1 in used {
        assert |used - {n - 1}| == |used| - 1;
      } else {
        assert used - {n - 1} == used;
      }
    } else {
      assert used == {};
    }
  }

  /** The text from a member's key on. */
  function KeyedText(args: contract, m: Member, rest: bytes): bytes
    requires MemberOk(args, m)
  {
    args[m.position].name + ([QUOTE] + (m.colon + ([COLON] + (m.before + (ScalarText(args[m.position].kind, m.value) + (m.after + rest))))))
  }

  /** Past its key, a member reads as its name and a value that checks. */
  lemma EntryBack(args: contract, m: Member, rest: bytes, r: bytes, keys: seq<bytes>, first: bool)
    requires MemberOk(args, m) && Ends(m.after + rest)
    requires ToKey(r, first) == Ok(Some(KeyedText(args, m, rest)))
    requires args[m.position].name !in keys && |keys| < MAX_KEYS
    ensures var spec := args[m.position];
            var e := TakeEntry(r, 1, keys, first);
            e.Ok? && e.value.Found? && e.value.key == spec.name && e.value.rest == m.after + rest && CheckScalar(spec, e.value.value) == Ok(m.value)
  {
    hide ToKey, TakeString, TakeValue, CheckScalar, ScalarText, Fits, Raw, Skip, Spaces;
    var spec := args[m.position];
    var valued := m.before + (ScalarText(spec.kind, m.value) + (m.after + rest));
    TakeStringBack(spec.name, m.colon + ([COLON] + valued));
    SkipGap(m.colon, [COLON] + valued);
    assert ([COLON] + valued)[1..] == valued;
    ScalarBack(spec, m.value, m.before, m.after + rest);
  }

  lemma NameAt(args: contract, p: nat)
    requires p < |args| && forall k :: 0 <= k < p ==> args[k].name != args[p].name
    ensures Position(Names(args), args[p].name) == Some(p)
  {
    PositionIs(Names(args), p);
  }

  /** Members so far: the keys of distinct positions, all spelled. */
  ghost predicate Fresh(args: contract, keys: seq<bytes>, ms: seq<Member>) {
    && |keys| + |ms| <= MAX_KEYS
    && Distinct(ms)
    && forall k :: 0 <= k < |ms| ==> ms[k].position < |args| && args[ms[k].position].name !in keys
  }

  lemma FreshNext(args: contract, keys: seq<bytes>, ms: seq<Member>)
    requires forall k :: 0 <= k < |ms| ==> MemberOk(args, ms[k])
    requires ms != [] && Fresh(args, keys, ms)
    ensures forall k :: 0 <= k < |ms[1..]| ==> MemberOk(args, ms[1..][k])
    ensures Fresh(args, keys + [args[ms[0].position].name], ms[1..])
  {
    hide Raw, Fits, Spaces;
    var rest := ms[1..];
    assert forall k :: 0 <= k < |rest| ==> rest[k] == ms[k + 1] && MemberOk(args, ms[k + 1]);
    forall k | 0 <= k < |rest| ensures args[rest[k].position].name != args[ms[0].position].name {
      assert rest[k] == ms[k + 1];
    }
  }

  lemma TailStarts(args: contract, ms: seq<Member>)
    requires forall k :: 0 <= k < |ms| ==> MemberOk(args, ms[k])
    ensures var t := TailText(args, ms); t != [] && (t[0] == COMMA || t == [SHUT])
    ensures ms != [] ==> TailText(args, ms)[0] == COMMA
  {
    hide MemberText;
  }

  lemma AfterEnds(args: contract, m: Member, ms: seq<Member>)
    requires MemberOk(args, m) && forall k :: 0 <= k < |ms| ==> MemberOk(args, ms[k])
    ensures Ends(m.after + TailText(args, ms))
  {
    hide TailText, Raw, Fits;
    TailStarts(args, ms);
    var t := TailText(args, ms);
    assert m.after != [] ==> (m.after + t)[0] == m.after[0];
    assert m.after == [] ==> m.after + t == t;
  }

  /** A member's text is its gap, a quote, and the rest from the key. */
  lemma MemberKeyed(args: contract, m: Member, rest: bytes)
    requires MemberOk(args, m)
    ensures MemberText(args, m, rest) == m.gap + ([QUOTE] + KeyedText(args, m, rest))
    ensures Skip(MemberText(args, m, rest)) == [QUOTE] + KeyedText(args, m, rest)
  {
    hide KeyedText, ScalarText, Raw, Fits, Spaces, Skip;
    assert MemberText(args, m, rest) == m.gap + ([QUOTE] + KeyedText(args, m, rest)) by { KeyedUnfolds(args, m, rest); }
    SkipGap(m.gap, [QUOTE] + KeyedText(args, m, rest));
  }

  lemma KeyedUnfolds(args: contract, m: Member, rest: bytes)
    requires MemberOk(args, m)
    ensures MemberText(args, m, rest) == m.gap + ([QUOTE] + KeyedText(args, m, rest))
  {
    hide ScalarText, Raw, Fits, Spaces;
  }

  lemma ToKeyFirst(args: contract, m: Member, rest: bytes)
    requires MemberOk(args, m)
    ensures ToKey(MemberText(args, m, rest), true) == Ok(Some(KeyedText(args, m, rest)))
  {
    hide KeyedText, MemberText, MemberOk, Skip;
    MemberKeyed(args, m, rest);
    assert ([QUOTE] + KeyedText(args, m, rest))[1..] == KeyedText(args, m, rest);
  }

  lemma ToKeyNext(args: contract, m: Member, rest: bytes, gap: bytes)
    requires MemberOk(args, m) && Spaces(gap)
    ensures ToKey(gap + ([COMMA] + MemberText(args, m, rest)), false) == Ok(Some(KeyedText(args, m, rest)))
  {
    hide KeyedText, MemberText, MemberOk, Skip;
    MemberKeyed(args, m, rest);
    SkipGap(gap, [COMMA] + MemberText(args, m, rest));
    assert ([COMMA] + MemberText(args, m, rest))[1..] == MemberText(args, m, rest);
    assert ([QUOTE] + KeyedText(args, m, rest))[1..] == KeyedText(args, m, rest);
  }

  lemma SaidCons(ms: seq<Member>, seen: seq<(nat, Scalar)>)
    requires ms != []
    ensures seen + Said(ms) == (seen + [(ms[0].position, ms[0].value)]) + Said(ms[1..])
  {
    assert Said(ms) == [(ms[0].position, ms[0].value)] + Said(ms[1..]);
  }

  /** One member read, the rest to go. */
  lemma MemberBack(args: contract, ms: seq<Member>, r: bytes, keys: seq<bytes>, first: bool, seen: seq<(nat, Scalar)>)
    requires forall k :: 0 <= k < |ms| ==> MemberOk(args, ms[k])
    requires ms != [] && Fresh(args, keys, ms)
    requires ToKey(r, first) == Ok(Some(KeyedText(args, ms[0], TailText(args, ms[1..]))))
    ensures Members(args, r, keys, first, seen) ==
              Members(args, ms[0].after + TailText(args, ms[1..]), keys + [args[ms[0].position].name], false, seen + [(ms[0].position, ms[0].value)])
  {
    hide TailText, KeyedText, ToKey, TakeEntry, CheckScalar, Raw, Fits, Spaces;
    AfterEnds(args, ms[0], ms[1..]);
    EntryBack(args, ms[0], TailText(args, ms[1..]), r, keys, first);
    NameAt(args, ms[0].position);
  }

  lemma CloseBack(args: contract, gap: bytes, keys: seq<bytes>, first: bool, seen: seq<(nat, Scalar)>)
    requires Spaces(gap)
    ensures Members(args, gap + [SHUT], keys, first, seen) == Ok((seen, []))
  {
    hide Skip;
    SkipGap(gap, [SHUT]);
    assert [SHUT][1..] == [];
  }

  lemma {:induction false} TailBack(args: contract, gap: bytes, ms: seq<Member>, keys: seq<bytes>, seen: seq<(nat, Scalar)>)
    requires Spaces(gap)
    requires forall k :: 0 <= k < |ms| ==> MemberOk(args, ms[k])
    requires Fresh(args, keys, ms)
    ensures Members(args, gap + TailText(args, ms), keys, false, seen) == Ok((seen + Said(ms), []))
    decreases |ms|
  {
    hide Members, MemberText, KeyedText, ToKey, Raw, Fits, Spaces, Fresh;
    if ms == [] {
      CloseBack(args, gap, keys, false, seen);
      assert seen + Said(ms) == seen;
    } else {
      FreshNext(args, keys, ms);
      ToKeyNext(args, ms[0], TailText(args, ms[1..]), gap);
      MemberBack(args, ms, gap + TailText(args, ms), keys, false, seen);
      SaidCons(ms, seen);
      TailBack(args, ms[0].after, ms[1..], keys + [args[ms[0].position].name], seen + [(ms[0].position, ms[0].value)]);
    }
  }

  lemma ObjectBack(lead: bytes, body: bytes)
    requires Spaces(lead)
    ensures TakeValue(lead + ([OPEN] + body), 0) == Ok((Object, body))
  {
    hide Skip, TakeString, TakeNumber, TakeLiteral;
    SkipGap(lead, [OPEN] + body);
    assert ([OPEN] + body)[1..] == body;
  }

  /** The members of a document read as what it says. */
  lemma DocMembers(args: contract, d: Doc)
    requires |args| <= MAX_ARGS && DocOk(args, d)
    ensures var body := if d.members == [] then d.inside + [SHUT] else MemberText(args, d.members[0], TailText(args, d.members[1..]));
            Members(args, body, [], true, []) == Ok((Said(d.members), []))
  {
    hide Members, MemberText, TailText, KeyedText, ToKey, MemberOk;
    var ms := d.members;
    assert [] + Said(ms) == Said(ms);
    if ms == [] {
      CloseBack(args, d.inside, [], true, []);
    } else {
      assert Fresh(args, [], ms) by { FreshStart(args, ms); }
      FreshNext(args, [], ms);
      ToKeyFirst(args, ms[0], TailText(args, ms[1..]));
      MemberBack(args, ms, MemberText(args, ms[0], TailText(args, ms[1..])), [], true, []);
      SaidCons(ms, []);
      assert ms[0].position < |args| && Spaces(ms[0].after) by { GapsAreSpaces(args, ms[0]); }
      TailBack(args, ms[0].after, ms[1..], [] + [args[ms[0].position].name], [] + [(ms[0].position, ms[0].value)]);
    }
  }

  lemma GapsAreSpaces(args: contract, m: Member)
    requires MemberOk(args, m)
    ensures m.position < |args| && Spaces(m.gap) && Spaces(m.after)
  {
  }

  lemma FreshStart(args: contract, ms: seq<Member>)
    requires |args| <= MAX_ARGS && Distinct(ms) && forall k :: 0 <= k < |ms| ==> MemberOk(args, ms[k])
    ensures Fresh(args, [], ms)
  {
    hide Raw, Fits, Spaces;
    AtMost(ms, |args|);
  }

  // What binding needs.

  lemma {:induction false} BindCovers(args: contract, seen: seq<(nat, Scalar)>, k: nat)
    requires k <= |args|
    ensures Bind(args, seen, k).Ok? <==> forall p :: k <= p < |args| && args[p].required ==> ValueOf(seen, p).Some?
    decreases |args| - k
  {
    hide ValueOf;
    if k < |args| {
      BindCovers(args, seen, k + 1);
    }
  }

  lemma ValueSaid(ms: seq<Member>, p: nat)
    ensures ValueOf(Said(ms), p).Some? <==> exists k :: 0 <= k < |ms| && ms[k].position == p
  {
    hide ValueOf;
    var seen := Said(ms);
    if ValueOf(seen, p).Some? {
      var k :| 0 <= k < |seen| && seen[k] == (p, ValueOf(seen, p).value);
      assert ms[k].position == p;
    } else {
      forall k | 0 <= k < |ms| ensures ms[k].position != p {
        assert seen[k] == (ms[k].position, ms[k].value);
        assert seen[k] in seen;
      }
    }
  }

  lemma CoversExactly(args: contract, ms: seq<Member>)
    ensures Bind(args, Said(ms), 0).Ok? <==>
            forall p :: 0 <= p < |args| && args[p].required ==> exists k :: 0 <= k < |ms| && ms[k].position == p
  {
    hide Bind, ValueOf, Said;
    BindCovers(args, Said(ms), 0);
    forall p | 0 <= p < |args| ensures ValueOf(Said(ms), p).Some? <==> exists k :: 0 <= k < |ms| && ms[k].position == p {
      ValueSaid(ms, p);
    }
  }

  /** Every document of a contract is accepted, and binds what it says. */
  lemma DocAccepted(args: contract, d: Doc)
    requires |args| <= MAX_ARGS && DocOk(args, d)
    ensures Validate(args, DocText(args, d)) == Bind(args, Said(d.members), 0)
    ensures Validate(args, DocText(args, d)).Ok?
  {
    hide Bind, Members, MemberText, TailText, TakeValue, Said, MemberOk;
    DocMembers(args, d);
    ObjectBack(d.lead, if d.members == [] then d.inside + [SHUT] else MemberText(args, d.members[0], TailText(args, d.members[1..])));
    CoversExactly(args, d.members);
  }

  // And nothing else is accepted.

  lemma EntryThere(args: contract, r: bytes, keys: seq<bytes>, first: bool, k: nat)
    requires var e := TakeEntry(r, 1, keys, first);
             && e.Ok? && e.value.Found? && Position(Names(args), e.value.key) == Some(k) && CheckScalar(args[k], e.value.value).Ok?
    ensures var e := TakeEntry(r, 1, keys, first).value;
            && e.key !in keys && e.key == args[k].name && Raw(e.key)
            && (forall j :: 0 <= j < k ==> args[j].name != args[k].name)
            && ToKey(r, first).Ok? && ToKey(r, first).value.Some?
            && var scalar := CheckScalar(args[k], e.value).value;
               && Fits(args[k].kind, scalar)
               && exists colon, before ::
                    && Spaces(colon) && Spaces(before)
                    && ToKey(r, first).value.value ==
                       args[k].name + ([QUOTE] + (colon + ([COLON] + (before + (ScalarText(args[k].kind, scalar) + e.rest)))))
  {
    hide ToKey, TakeString, TakeValue, CheckScalar, ScalarText, Fits, Raw, Skip, Spaces, GapOf, Position;
    var at := ToKey(r, first).value.value;
    TakeStringThere(at);
    var key := TakeString(at).value;
    SkipSplits(key.1);
    var s := Skip(key.1);
    assert s == [COLON] + s[1..];
    ScalarThere(args[k], s[1..]);
    NameFirst(args, key.0, k);
    var e := TakeEntry(r, 1, keys, first).value;
    var scalar := CheckScalar(args[k], e.value).value;
    var colon, before := GapOf(key.1), GapOf(s[1..]);
    assert at == args[k].name + ([QUOTE] + (colon + ([COLON] + (before + (ScalarText(args[k].kind, scalar) + e.rest)))));
  }

  lemma NameFirst(args: contract, key: bytes, k: nat)
    requires Position(Names(args), key) == Some(k)
    ensures k < |args| && args[k].name == key && forall j :: 0 <= j < k ==> args[j].name != key
  {
    var names := Names(args);
    assert forall j :: 0 <= j < k ==> names[j] != key;
  }

  /** An entry read is a member's text from its key on. */
  lemma MemberThere(args: contract, r: bytes, keys: seq<bytes>, first: bool, k: nat, gap: bytes, after: bytes, tail: bytes) returns (m: Member)
    requires var e := TakeEntry(r, 1, keys, first);
             && e.Ok? && e.value.Found? && Position(Names(args), e.value.key) == Some(k) && CheckScalar(args[k], e.value.value).Ok?
             && e.value.rest == after + tail
    requires Spaces(gap) && Spaces(after)
    ensures MemberOk(args, m) && m.position == k && m.gap == gap && m.after == after
    ensures TakeEntry(r, 1, keys, first).value.key == args[k].name && args[k].name !in keys
    ensures m.value == CheckScalar(args[k], TakeEntry(r, 1, keys, first).value.value).value
    ensures ToKey(r, first) == Ok(Some(KeyedText(args, m, tail)))
  {
    hide ToKey, TakeEntry, CheckScalar, ScalarText, Fits, Raw, Spaces, Position;
    EntryThere(args, r, keys, first, k);
    var e := TakeEntry(r, 1, keys, first).value;
    var scalar := CheckScalar(args[k], e.value).value;
    var colon, before :| Spaces(colon) && Spaces(before) && ToKey(r, first).value.value ==
      args[k].name + ([QUOTE] + (colon + ([COLON] + (before + (ScalarText(args[k].kind, scalar) + e.rest)))));
    m := Member(k, scalar, gap, colon, before, after);
  }

  lemma ToKeyNextThere(r: bytes)
    requires ToKey(r, false).Ok? && ToKey(r, false).value.Some?
    ensures Skip(r) != [] && Spaces(GapOf(r)) && Spaces(GapOf(Skip(r)[1..]))
    ensures r == GapOf(r) + ([COMMA] + (GapOf(Skip(r)[1..]) + ([QUOTE] + ToKey(r, false).value.value)))
  {
    hide Skip, GapOf, Spaces;
    SkipSplits(r);
    var s := Skip(r);
    SkipSplits(s[1..]);
    var t := Skip(s[1..]);
    assert s == [COMMA] + s[1..] && t == [QUOTE] + t[1..];
  }

  lemma ToKeyFirstThere(r: bytes)
    requires ToKey(r, true).Ok? && ToKey(r, true).value.Some?
    ensures Spaces(GapOf(r)) && r == GapOf(r) + ([QUOTE] + ToKey(r, true).value.value)
  {
    hide Skip, GapOf, Spaces;
    SkipSplits(r);
    var s := Skip(r);
    assert s == [QUOTE] + s[1..];
  }

  lemma ClosedThere(args: contract, r: bytes, keys: seq<bytes>, first: bool)
    requires TakeEntry(r, 1, keys, first) == Ok(Closed([]))
    ensures Spaces(GapOf(r)) && r == GapOf(r) + [SHUT]
  {
    hide GapOf, Skip, Spaces, TakeString, TakeValue, NewKey;
    SkipSplits(r);
    var s := Skip(r);
    assert s == [s[0]] + s[1..];
  }

  /** What the members after one read: spaces, then a tail of members. */
  ghost predicate TailRead(args: contract, r: bytes, keys: seq<bytes>, gap: bytes, ms: seq<Member>) {
    && Spaces(gap)
    && (forall k :: 0 <= k < |ms| ==> MemberOk(args, ms[k]))
    && (forall k :: 0 <= k < |ms| ==> ms[k].position < |args| && args[ms[k].position].name !in keys)
    && Distinct(ms)
    && r == gap + TailText(args, ms)
  }

  lemma ConsRead(args: contract, m: Member, ms: seq<Member>, r: bytes, keys: seq<bytes>, tail: bytes)
    requires MemberOk(args, m) && args[m.position].name !in keys
    requires TailRead(args, r, keys + [args[m.position].name], m.after, ms)
    ensures var all := [m] + ms;
            && (forall k :: 0 <= k < |all| ==> MemberOk(args, all[k]))
            && (forall k :: 0 <= k < |all| ==> all[k].position < |args| && args[all[k].position].name !in keys)
            && Distinct(all)
  {
    hide Raw, Fits, Spaces, TailText;
    var all := [m] + ms;
    assert forall k :: 0 < k < |all| ==> all[k] == ms[k - 1];
    forall k | 0 <= k < |ms| ensures ms[k].position != m.position && args[ms[k].position].name !in keys {
      assert args[ms[k].position].name !in keys + [args[m.position].name];
    }
  }

  lemma {:induction false} TailThere(args: contract, r: bytes, keys: seq<bytes>, seen: seq<(nat, Scalar)>) returns (gap: bytes, ms: seq<Member>)
    requires Members(args, r, keys, false, seen).Ok? && Members(args, r, keys, false, seen).value.1 == []
    ensures TailRead(args, r, keys, gap, ms)
    ensures Members(args, r, keys, false, seen).value.0 == seen + Said(ms)
    decreases |r|
  {
    hide TakeEntry, CheckScalar, KeyedText, MemberText, MemberOk, ToKey, GapOf, Skip, Spaces, TailRead, Position;
    var e := TakeEntry(r, 1, keys, false).value;
    match e {
      case Closed(rest) =>
        ClosedThere(args, r, keys, false);
        gap, ms := GapOf(r), [];
        assert TailRead(args, r, keys, gap, ms) by { NoneRead(args, r, keys, gap); }
        assert seen + Said(ms) == seen;
      case Found(key, value, rest) =>
        var k := Position(Names(args), key).value;
        var scalar := CheckScalar(args[k], value).value;
        EntryShrinks(r, 1, keys, false);
        var after, later := TailThere(args, rest, keys + [key], seen + [(k, scalar)]);
        gap, ms := NextRead(args, r, keys, k, after, later);
        SaidCons(ms, seen);
        assert ms[1..] == later;
    }
  }

  lemma NoneRead(args: contract, r: bytes, keys: seq<bytes>, gap: bytes)
    requires Spaces(gap) && r == gap + [SHUT]
    ensures TailRead(args, r, keys, gap, [])
  {
  }

  /** One more member in front of those read. */
  lemma NextRead(args: contract, r: bytes, keys: seq<bytes>, k: nat, after: bytes, later: seq<Member>) returns (gap: bytes, ms: seq<Member>)
    requires var e := TakeEntry(r, 1, keys, false);
             && e.Ok? && e.value.Found? && Position(Names(args), e.value.key) == Some(k) && CheckScalar(args[k], e.value.value).Ok?
             && TailRead(args, e.value.rest, keys + [e.value.key], after, later)
    ensures TailRead(args, r, keys, gap, ms) && |ms| == |later| + 1 && ms[1..] == later
    ensures ms[0].position == k && ms[0].value == CheckScalar(args[k], TakeEntry(r, 1, keys, false).value.value).value
  {
    hide TakeEntry, CheckScalar, KeyedText, MemberText, MemberOk, ToKey, GapOf, Skip, Spaces, Position;
    KeyFound(args, r, keys, false, k);
    ToKeyNextThere(r);
    var tail := TailText(args, later);
    var m := MemberThere(args, r, keys, false, k, GapOf(Skip(r)[1..]), after, tail);
    GapsAreSpaces(args, m);
    ConsRead(args, m, later, TakeEntry(r, 1, keys, false).value.rest, keys, tail);
    gap, ms := GapOf(r), [m] + later;
    assert ms[1..] == later;
    MemberKeyed(args, m, tail);
  }

  lemma KeyFound(args: contract, r: bytes, keys: seq<bytes>, first: bool, k: nat)
    requires var e := TakeEntry(r, 1, keys, first);
             && e.Ok? && e.value.Found? && Position(Names(args), e.value.key) == Some(k)
    ensures ToKey(r, first).Ok? && ToKey(r, first).value.Some?
  {
    hide ToKey, TakeString, TakeValue, NewKey, Skip, Position;
  }

  /** The whole list of members, from the opening brace on. */
  lemma BodyThere(args: contract, r: bytes) returns (inside: bytes, ms: seq<Member>)
    requires Members(args, r, [], true, []).Ok? && Members(args, r, [], true, []).value.1 == []
    ensures Spaces(inside) && (forall k :: 0 <= k < |ms| ==> MemberOk(args, ms[k])) && Distinct(ms)
    ensures r == if ms == [] then inside + [SHUT] else MemberText(args, ms[0], TailText(args, ms[1..]))
    ensures Members(args, r, [], true, []).value.0 == Said(ms)
  {
    hide TakeEntry, CheckScalar, KeyedText, MemberText, MemberOk, ToKey, GapOf, Skip, TailRead, Position;
    var e := TakeEntry(r, 1, [], true).value;
    match e {
      case Closed(rest) =>
        ClosedThere(args, r, [], true);
        inside, ms := GapOf(r), [];
        assert Said(ms) == [];
      case Found(key, value, rest) =>
        var k := Position(Names(args), key).value;
        var scalar := CheckScalar(args[k], value).value;
        var after, later := TailThere(args, rest, [] + [key], [] + [(k, scalar)]);
        inside := [];
        ms := FirstRead(args, r, k, after, later);
        SaidCons(ms, []);
        assert ms[1..] == later && [] + Said(ms) == Said(ms);
    }
  }

  lemma FirstRead(args: contract, r: bytes, k: nat, after: bytes, later: seq<Member>) returns (ms: seq<Member>)
    requires var e := TakeEntry(r, 1, [], true);
             && e.Ok? && e.value.Found? && Position(Names(args), e.value.key) == Some(k) && CheckScalar(args[k], e.value.value).Ok?
             && TailRead(args, e.value.rest, [] + [e.value.key], after, later)
    ensures (forall j :: 0 <= j < |ms| ==> MemberOk(args, ms[j])) && Distinct(ms) && |ms| == |later| + 1 && ms[1..] == later
    ensures r == MemberText(args, ms[0], TailText(args, ms[1..]))
    ensures ms[0].position == k && ms[0].value == CheckScalar(args[k], TakeEntry(r, 1, [], true).value.value).value
  {
    hide TakeEntry, CheckScalar, KeyedText, MemberText, MemberOk, ToKey, GapOf, Skip, Spaces, Position;
    KeyFound(args, r, [], true, k);
    ToKeyFirstThere(r);
    var tail := TailText(args, later);
    var m := MemberThere(args, r, [], true, k, GapOf(r), after, tail);
    GapsAreSpaces(args, m);
    ConsRead(args, m, later, TakeEntry(r, 1, [], true).value.rest, [], tail);
    ms := [m] + later;
    assert ms[1..] == later;
    MemberKeyed(args, m, tail);
  }

  lemma ObjectThere(b: bytes)
    requires TakeValue(b, 0).Ok? && TakeValue(b, 0).value.0.Object?
    ensures Spaces(GapOf(b)) && b == GapOf(b) + ([OPEN] + TakeValue(b, 0).value.1)
  {
    hide Skip, GapOf, Spaces, TakeString, TakeNumber;
    SkipSplits(b);
    assert Skip(b) == [OPEN] + Skip(b)[1..];
  }

  /** Whatever is accepted is a document of the contract. */
  lemma AcceptedIsDoc(args: contract, b: bytes) returns (d: Doc)
    requires Validate(args, b).Ok?
    ensures DocOk(args, d) && b == DocText(args, d)
  {
    hide Members, MemberText, TailText, TakeValue, MemberOk, Bind, Said, GapOf;
    ObjectThere(b);
    var body := TakeValue(b, 0).value.1;
    var inside, ms := BodyThere(args, body);
    CoversExactly(args, ms);
    d := Doc(GapOf(b), ms, inside);
  }

  /** The exact language: bytes are accepted precisely when they are the text of
      a document of the contract, and what is bound is what it says. */
  lemma ValidateExact(args: contract, b: bytes)
    requires |args| <= MAX_ARGS
    ensures Validate(args, b).Ok? <==> exists d :: DocOk(args, d) && b == DocText(args, d)
    ensures forall d :: DocOk(args, d) && b == DocText(args, d) ==> Validate(args, b) == Bind(args, Said(d.members), 0)
  {
    hide Validate, DocText, DocOk, Bind, Said;
    if Validate(args, b).Ok? {
      var d := AcceptedIsDoc(args, b);
    }
    forall d | DocOk(args, d) && b == DocText(args, d)
      ensures Validate(args, b).Ok? && Validate(args, b) == Bind(args, Said(d.members), 0)
    {
      DocAccepted(args, d);
    }
  }

  // What is bound.

  lemma {:induction false} BindByValue(args: contract, a: seq<(nat, Scalar)>, b: seq<(nat, Scalar)>, k: nat)
    requires k <= |args| && forall p: nat :: ValueOf(a, p) == ValueOf(b, p)
    ensures Bind(args, a, k) == Bind(args, b, k)
    decreases |args| - k
  {
    hide ValueOf;
    if k < |args| {
      BindByValue(args, a, b, k + 1);
    }
  }

  lemma ValueOfMember(ms: seq<Member>, k: nat)
    requires Distinct(ms) && k < |ms|
    ensures ValueOf(Said(ms), ms[k].position) == Some(ms[k].value)
  {
    hide ValueOf;
    var seen := Said(ms);
    assert seen[k] == (ms[k].position, ms[k].value) && seen[k] in seen;
    var v := ValueOf(seen, ms[k].position).value;
    var j :| 0 <= j < |seen| && seen[j] == (ms[k].position, v);
    assert ms[j].position == ms[k].position;
  }

  /** Neither the order of the members nor the spaces between them matter: two
      documents that say the same bind the same. */
  lemma OrderFree(args: contract, d: Doc, e: Doc)
    requires |args| <= MAX_ARGS && DocOk(args, d) && DocOk(args, e)
    requires forall x :: x in Said(d.members) <==> x in Said(e.members)
    ensures Validate(args, DocText(args, d)) == Validate(args, DocText(args, e))
  {
    hide Validate, DocText, ValueOf, Bind, MemberOk;
    DocAccepted(args, d);
    DocAccepted(args, e);
    forall p: nat ensures ValueOf(Said(d.members), p) == ValueOf(Said(e.members), p) {
      SameValue(d.members, e.members, p);
      SameValue(e.members, d.members, p);
    }
    BindByValue(args, Said(d.members), Said(e.members), 0);
  }

  lemma SameValue(a: seq<Member>, b: seq<Member>, p: nat)
    requires Distinct(b) && forall x :: x in Said(a) ==> x in Said(b)
    ensures ValueOf(Said(a), p).Some? ==> ValueOf(Said(a), p) == ValueOf(Said(b), p)
  {
    hide ValueOf;
    var seen := ValueOf(Said(a), p);
    if seen.Some? {
      var k :| 0 <= k < |Said(b)| && Said(b)[k] == (p, seen.value);
      ValueOfMember(b, k);
    }
  }

  /** The bound fields name contract arguments in contract order. */
  lemma {:induction false} BoundInOrder(args: contract, seen: seq<(nat, Scalar)>, k: nat) returns (at: seq<nat>)
    requires k <= |args| && Bind(args, seen, k).Ok?
    ensures var fields := Bind(args, seen, k).value;
            && |at| == |fields|
            && (forall i :: 0 <= i < |at| ==> k <= at[i] < |args| && fields[i].name == args[at[i]].name && ValueOf(seen, at[i]) == Some(fields[i].value))
            && (forall i, j :: 0 <= i < j < |at| ==> at[i] < at[j])
            && (forall p :: k <= p < |args| && ValueOf(seen, p).Some? ==> p in at)
    decreases |args| - k
  {
    hide ValueOf;
    if k == |args| {
      at := [];
    } else {
      var rest := BoundInOrder(args, seen, k + 1);
      at := if ValueOf(seen, k).Some? then [k] + rest else rest;
    }
  }

  /** Binding fails exactly at the first required argument nobody gave. */
  lemma {:induction false} BindExact(args: contract, seen: seq<(nat, Scalar)>, k: nat)
    requires k <= |args|
    ensures match Bind(args, seen, k) {
              case Ok(_) => forall p :: k <= p < |args| && args[p].required ==> exists v :: (p, v) in seen
              case Err(e) =>
                exists p :: && k <= p < |args| && args[p].required && e == MissingArgument(args[p].name)
                            && (forall v :: (p, v) !in seen)
                            && forall q :: k <= q < p && args[q].required ==> exists v :: (q, v) in seen
            }
    decreases |args| - k
  {
    hide ValueOf;
    if k < |args| {
      BindExact(args, seen, k + 1);
      if ValueOf(seen, k).Some? {
        assert (k, ValueOf(seen, k).value) in seen;
      }
    }
  }

  /** What a value is taken for: a number by its plain decimal digits, in width,
      in type and in range; an option by the first that spells it. */
  lemma CheckExact(spec: ArgSpec, v: Value)
    ensures match spec.kind {
              case KindEnum(options) =>
                if !v.Str? then CheckScalar(spec, v) == Err(WrongType(spec.name))
                else if v.content in options[..Min(|options|, 0x100)] then
                  && CheckScalar(spec, v).Ok? && CheckScalar(spec, v).value.EnumAt?
                  && var k := CheckScalar(spec, v).value.index;
                     k < |options| && options[k] == v.content && forall j :: 0 <= j < k ==> options[j] != v.content
                else CheckScalar(spec, v) == Err(BadEnumValue(spec.name))
              case KindU8(lo, hi) => NumberTaken(spec.name, v, 3, 255, lo, hi, CheckScalar(spec, v))
              case KindU16(lo, hi) => NumberTaken(spec.name, v, 5, 65535, lo, hi, CheckScalar(spec, v))
            }
  {
    hide Worth;
    if spec.kind.KindEnum? && v.Str? {
      FirstAmong(spec.kind.options, v.content);
    }
    if v.Number? && AllDigits(v.digits) {
      WorthNat(v.digits);
    }
  }

  lemma {:induction false} WorthNat(d: bytes)
    requires AllDigits(d)
    ensures Worth(d) >= 0
  {
    if d != [] {
      WorthNat(d[..|d| - 1]);
    }
  }

  ghost predicate NumberTaken(name: bytes, v: Value, width: nat, top: nat, lo: nat, hi: nat, r: Result<Scalar, ValidationError>) {
    if !v.Number? then r == Err(WrongType(name))
    else
      var plain := 1 <= |v.digits| <= width && forall k :: 0 <= k < |v.digits| ==> '0' as int <= v.digits[k] <= '9' as int;
      if !plain || Worth(v.digits) > top then r == Err(Syntax(BadNumber))
      else if Worth(v.digits) < lo || Worth(v.digits) > hi then r == Err(OutOfRange(name))
      else if top == 255 then r.Ok? && r.value.U8? && r.value.n8 == Worth(v.digits)
      else r.Ok? && r.value.U16? && r.value.n16 == Worth(v.digits)
  }

  lemma FirstAmong(options: seq<bytes>, content: bytes)
    ensures match Position(options, content) {
              case None => content !in options[..Min(|options|, 0x100)]
              case Some(k) => content in options[..Min(|options|, 0x100)] <==> k <= 0xFF
            }
  {
    var top := options[..Min(|options|, 0x100)];
    match Position(options, content) {
      case None => assert forall j :: 0 <= j < |top| ==> top[j] == options[j];
      case Some(k) =>
        if k <= 0xFF {
          assert top[k] == content;
        } else {
          assert forall j :: 0 <= j < |top| ==> top[j] == options[j];
        }
    }
  }

  // What may stand between quotes.

  /** A byte as it is, a short escape, or four hex digits after `\u`. */
  datatype Part = Plain(x: u8) | Short(x: u8) | Hex(digits: bytes)

  ghost predicate HexByte(x: u8) {
    '0' as int <= x <= '9' as int || 'a' as int <= x <= 'f' as int || 'A' as int <= x <= 'F' as int
  }

  ghost predicate Legal(p: Part) {
    match p
    case Plain(x) => x >= 0x20 && x != '"' as int && x != '\\' as int
    case Short(x) => exists k :: 0 <= k < 8 && x == "\"\\/bfnrt"[k] as int
    case Hex(digits) => |digits| == 4 && forall k :: 0 <= k < 4 ==> HexByte(digits[k])
  }

  function PartText(p: Part): bytes {
    match p
    case Plain(x) => [x]
    case Short(x) => ['\\' as int, x]
    case Hex(digits) => ['\\' as int, 'u' as int] + digits
  }

  function PartsText(ps: seq<Part>): bytes {
    if ps == [] then [] else PartText(ps[0]) + PartsText(ps[1..])
  }

  ghost predicate AllLegal(ps: seq<Part>) {
    forall i :: 0 <= i < |ps| ==> Legal(ps[i])
  }

  lemma ShortLegal(x: u8)
    ensures ShortEscape(x) <==> Legal(Short(x))
  {
    var s := "\"\\/bfnrt";
    assert s[0] == '\"' && s[1] == '\\' && s[2] == '/' && s[3] == 'b' && s[4] == 'f' && s[5] == 'n' && s[6] == 'r' && s[7] == 't';
  }

  lemma HexLegal(x: u8)
    ensures HexDigit(x) <==> HexByte(x)
  {
  }

  lemma {:induction false} RawThere(s: bytes) returns (ps: seq<Part>)
    requires Raw(s)
    ensures AllLegal(ps) && PartsText(ps) == s
    decreases |s|
  {
    hide ShortEscape, HexDigit, HexByte;
    if s == [] {
      ps := [];
    } else {
      var n := 1;
      var p := Plain(s[0]);
      if s[0] == BACKSLASH {
        n := 1 + EscapeLen(s[1..]).value;
        p := EscapeThere(s);
      }
      var rest := RawThere(s[n..]);
      ps := [p] + rest;
      assert s == s[..n] + s[n..] && PartText(p) == s[..n] && ps[1..] == rest;
    }
  }

  lemma EscapeThere(s: bytes) returns (p: Part)
    requires s != [] && s[0] == BACKSLASH && EscapeLen(s[1..]).Ok?
    ensures Legal(p) && PartText(p) == s[..1 + EscapeLen(s[1..]).value]
  {
    hide ShortEscape, HexDigit, HexByte;
    ShortLegal(s[1]);
    if ShortEscape(s[1]) {
      p := Short(s[1]);
      assert s[..2] == [s[0], s[1]];
    } else {
      p := Hex(s[2..6]);
      forall k | 0 <= k < 4 ensures HexByte(s[2..6][k]) {
        HexLegal(s[2 + k]);
        assert s[1..][1 + k] == s[2 + k];
      }
      assert s[1..][0] == s[1];
      assert s[..6] == [s[0], s[1]] + s[2..6];
    }
  }

  lemma {:induction false} RawBack(ps: seq<Part>)
    requires AllLegal(ps)
    ensures Raw(PartsText(ps))
  {
    hide ShortEscape, HexDigit, HexByte, Legal;
    if ps != [] {
      RawBack(ps[1..]);
      PartBack(ps[0], PartsText(ps[1..]));
    }
  }

  lemma PartBack(p: Part, t: bytes)
    requires Legal(p) && Raw(t)
    ensures Raw(PartText(p) + t)
  {
    hide ShortEscape, HexDigit, HexByte;
    var s := PartText(p) + t;
    match p {
      case Plain(x) => assert s[1..] == t;
      case Short(x) =>
        ShortLegal(x);
        assert s[1..][0] == x && s[2..] == t;
      case Hex(digits) =>
        NoShort();
        forall k | 1 <= k < 5 ensures HexDigit(s[1..][k]) {
          HexLegal(digits[k - 1]);
        }
        assert s[6..] == t;
    }
  }

  lemma NoShort()
    ensures !ShortEscape(0x75)
  {
  }

  /** A string's raw content is exactly such parts, one after the other. */
  lemma RawExact(s: bytes)
    ensures Raw(s) <==> exists ps :: AllLegal(ps) && PartsText(ps) == s
  {
    hide Raw, AllLegal, PartsText;
    if Raw(s) {
      var ps := RawThere(s);
    }
    if ps :| AllLegal(ps) && PartsText(ps) == s {
      RawBack(ps);
    }
  }
}
