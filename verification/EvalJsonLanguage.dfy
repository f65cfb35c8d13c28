/** The language of fixture JSON: the texts of values, written out with their
    spaces, and that parsing accepts exactly them. */
module EvalJsonLanguage {
  import opened Words
  import opened Json
  import opened EvalJson
  import opened EvalJsonText
  import opened EvalJsonNumbers
  import P = EvalJsonProofs
  import V = ValidationProofs
  import Validation

  /** A value as it is written. A string carries what it says; a list or object
      with nothing in it, the spaces inside. */
  datatype Form =
    | Word(v: Data)
    | Figure(number: Numeral, v: Data)
    | Str(pieces: seq<Piece>, says: bytes)
    | Arr(items: seq<Item>, gap: bytes)
    | Obj(members: seq<Member>, gap: bytes)

  datatype Item = Item(before: bytes, form: Form, after: bytes)

  /** A key, the spaces round it, and the value after its colon. */
  datatype Member = Member(before: bytes, pieces: seq<Piece>, says: bytes, gap: bytes, value: Item)

  // What is written.

  function WordText(v: Data): bytes {
    if v == Nil then ['n' as int, 'u' as int, 'l' as int, 'l' as int]
    else if v == Truth(true) then ['t' as int, 'r' as int, 'u' as int, 'e' as int]
    else ['f' as int, 'a' as int, 'l' as int, 's' as int, 'e' as int]
  }

  function StringText(pieces: seq<Piece>): bytes {
    ['"' as int] + (Spelling(pieces) + ['"' as int])
  }

  function FormText(f: Form): bytes
    decreases f
  {
    match f
    case Word(v) => WordText(v)
    case Figure(n, _) => NumberText(n)
    case Str(pieces, _) => StringText(pieces)
    case Arr(items, gap) =>
      if items == [] then ['[' as int] + (gap + [']' as int])
      else
        ['[' as int]
        + (Commas(seq(|items|, i requires 0 <= i < |items| => items[i].before + (FormText(items[i].form) + items[i].after))) + [']' as int])
    case Obj(members, gap) =>
      if members == [] then ['{' as int] + (gap + ['}' as int])
      else
        ['{' as int]
        + (Commas(seq(|members|, i requires 0 <= i < |members| =>
             KeyText(members[i]) + (members[i].value.before + (FormText(members[i].value.form) + members[i].value.after)))) + ['}' as int])
  }

  /** A member up to its colon. */
  function KeyText(m: Member): bytes {
    m.before + (StringText(m.pieces) + (m.gap + [':' as int]))
  }

  // What may be written.

  ghost predicate Gap(b: bytes) {
    forall k :: 0 <= k < |b| ==> b[k] == ' ' as int || b[k] == '\t' as int || b[k] == '\n' as int || b[k] == '\r' as int
  }

  /** Sound pieces that say valid text. */
  ghost predicate Legible(pieces: seq<Piece>, says: bytes) {
    AllSound(pieces) && Says(pieces, says) && exists cs :: Sequences(says, cs)
  }

  /** Written as JSON is, no key twice in an object, and under at most `depth`
      lists and objects. */
  ghost predicate Written(f: Form, depth: int)
    decreases f
  {
    && depth >= 0
    && match f
       case Word(v) => v == Nil || v.Truth?
       case Figure(n, v) => Proper(n) && Stands(n, v)
       case Str(pieces, says) => Legible(pieces, says)
       case Arr(items, gap) =>
         && Gap(gap)
         && forall i :: 0 <= i < |items| ==> Gap(items[i].before) && Gap(items[i].after) && Written(items[i].form, depth - 1)
       case Obj(members, gap) =>
         && Gap(gap)
         && (forall i, j :: 0 <= i < j < |members| ==> members[i].says != members[j].says)
         && forall i :: 0 <= i < |members| ==>
              var m := members[i];
              && Gap(m.before) && Legible(m.pieces, m.says) && Gap(m.gap)
              && Gap(m.value.before) && Gap(m.value.after) && Written(m.value.form, depth - 1)
  }

  /** The value written. */
  function Meant(f: Form): Data
    decreases f
  {
    match f
    case Word(v) => v
    case Figure(_, v) => v
    case Str(_, says) => Data.Text(says)
    case Arr(items, _) => List(seq(|items|, i requires 0 <= i < |items| => Meant(items[i].form)))
    case Obj(members, _) => Dict(seq(|members|, i requires 0 <= i < |members| => (members[i].says, Meant(members[i].value.form))))
  }

  // Lists of items.

  function ItemText(i: Item): bytes {
    i.before + (FormText(i.form) + i.after)
  }

  function ItemTexts(items: seq<Item>): (r: seq<bytes>)
    ensures |r| == |items|
  {
    seq(|items|, i requires 0 <= i < |items| => ItemText(items[i]))
  }

  function Values(items: seq<Item>): (r: seq<Data>)
    ensures |r| == |items|
  {
    seq(|items|, i requires 0 <= i < |items| => Meant(items[i].form))
  }

  ghost predicate ItemWritten(i: Item, depth: int) {
    Gap(i.before) && Gap(i.after) && Written(i.form, depth)
  }

  lemma ArrText(items: seq<Item>, gap: bytes)
    ensures items != [] ==> FormText(Arr(items, gap)) == ['[' as int] + (Commas(ItemTexts(items)) + [']' as int])
    ensures Meant(Arr(items, gap)) == List(Values(items))
  {
    hide Commas;
    assert seq(|items|, i requires 0 <= i < |items| => items[i].before + (FormText(items[i].form) + items[i].after)) == ItemTexts(items);
  }

  function MemberText(m: Member): bytes {
    KeyText(m) + ItemText(m.value)
  }

  function MemberTexts(members: seq<Member>): (r: seq<bytes>)
    ensures |r| == |members|
  {
    seq(|members|, i requires 0 <= i < |members| => MemberText(members[i]))
  }

  function Pairs(members: seq<Member>): (r: seq<(bytes, Data)>)
    ensures |r| == |members|
  {
    seq(|members|, i requires 0 <= i < |members| => (members[i].says, Meant(members[i].value.form)))
  }

  ghost predicate MemberWritten(m: Member, depth: int) {
    Gap(m.before) && Legible(m.pieces, m.says) && Gap(m.gap) && ItemWritten(m.value, depth)
  }

  ghost predicate Apart(members: seq<Member>) {
    forall i, j :: 0 <= i < j < |members| ==> members[i].says != members[j].says
  }

  lemma ObjText(members: seq<Member>, gap: bytes)
    ensures members != [] ==> FormText(Obj(members, gap)) == ['{' as int] + (Commas(MemberTexts(members)) + ['}' as int])
    ensures Meant(Obj(members, gap)) == Dict(Pairs(members))
  {
    hide Commas, KeyText;
    assert seq(|members|, i requires 0 <= i < |members| =>
        KeyText(members[i]) + (members[i].value.before + (FormText(members[i].value.form) + members[i].value.after))) == MemberTexts(members);
  }

  // Strings and spaces.

  lemma GapSame(b: bytes)
    ensures Gap(b) <==> Validation.Spaces(b)
  {
  }

  lemma SkipGap(gap: bytes, t: bytes)
    requires Gap(gap) && (t == [] || !Space(t[0]))
    ensures Skip(gap + t) == t
  {
    GapSame(gap);
    V.SkipGap(gap, t);
  }

  lemma SkipSplits(r: bytes) returns (gap: bytes)
    ensures Gap(gap) && r == gap + Skip(r)
  {
    V.SkipSplits(r);
    gap := V.GapOf(r);
    GapSame(gap);
  }

  lemma StringBack(pieces: seq<Piece>, says: bytes, t: bytes)
    requires Legible(pieces, says)
    ensures StringText(pieces) + t == [QUOTE] + (Spelling(pieces) + ([QUOTE] + t))
    ensures TakeText(Spelling(pieces) + ([QUOTE] + t)) == Ok((says, t))
  {
    hide Decode, Says, Spelling, AllSound, Sequences, Utf8;
    DecodedBack(pieces, says, t);
    var cs :| Sequences(says, cs);
    Utf8Back(says, cs);
    Regroup([QUOTE], Spelling(pieces) + [QUOTE], t);
    Regroup(Spelling(pieces), [QUOTE], t);
  }

  lemma StringThere(r: bytes) returns (pieces: seq<Piece>)
    requires TakeText(r).Ok?
    ensures var (says, t) := TakeText(r).value;
            Legible(pieces, says) && r == Spelling(pieces) + ([QUOTE] + t) && [QUOTE] + r == StringText(pieces) + t
  {
    hide Decode, Says, Spelling, AllSound, Sequences, Utf8;
    pieces := DecodedThere(r);
    var (says, t) := TakeText(r).value;
    TextExact(says);
    Regroup([QUOTE], Spelling(pieces) + [QUOTE], t);
    Regroup(Spelling(pieces), [QUOTE], t);
  }

  // Written values are read.

  /** What a value starts with. */
  lemma Starts(f: Form, depth: int, t: bytes)
    requires Written(f, depth)
    ensures var r := FormText(f) + t;
            && r != [] && !Space(r[0])
            && (match f
                case Word(v) => r[0] == WordText(v)[0]
                case Figure(_, _) => r[0] == 0x2D || Digit(r[0])
                case Str(_, _) => r[0] == QUOTE
                case Arr(_, _) => r[0] == 0x5B
                case Obj(_, _) => r[0] == OPEN)
  {
    hide Commas, Legible, Stands, FractionText, ExponentText;
    if f.Figure? {
      var n := f.number;
      assert NumberText(n) == Minus(n) + (n.whole + (FractionText(n) + ExponentText(n)));
      assert (FormText(f) + t)[0] == if n.minus then '-' as int else n.whole[0];
    }
  }

  lemma WordBack(v: Data, t: bytes)
    requires (v == Nil || v.Truth?) && Boundary(t)
    ensures TakeWord(WordText(v) + t, WordText(v), v) == Ok((v, t))
    ensures WordText(Nil) == NULL && WordText(Truth(true)) == TRUE && WordText(Truth(false)) == FALSE
  {
    assert (WordText(v) + t)[|WordText(v)|..] == t;
  }

  lemma ScalarBack(f: Form, t: bytes, depth: nat, limit: nat)
    requires Written(f, limit - depth) && Boundary(t) && !f.Arr? && !f.Obj?
    ensures ParseData(FormText(f) + t, depth, limit) == Ok((Meant(f), t))
  {
    hide Skip, TakeText, TakeNumeral, Boundary, Legible, Stands, Proper, NumberText, Spelling, TakeWord;
    var r := FormText(f) + t;
    Starts(f, limit - depth, t);
    SkipGap([], r);
    assert [] + r == r;
    match f {
      case Word(v) => WordBack(v, t);
      case Figure(n, v) => NumberBack(n, v, t);
      case Str(pieces, says) =>
        StringBack(pieces, says, t);
        assert r[1..] == Spelling(pieces) + ([QUOTE] + t);
    }
  }

  /** The spaces before a value make no difference. */
  lemma Spaced(gap: bytes, r: bytes, depth: nat, limit: nat)
    requires Gap(gap) && r != [] && !Space(r[0])
    ensures ParseData(gap + r, depth, limit) == ParseData(r, depth, limit)
  {
    hide TakeText, TakeNumeral, TakeWord, ParseItems, ParsePairs, Skip;
    SkipGap(gap, r);
    SkipGap([], r);
    assert [] + r == r;
  }

  lemma {:induction false} FormBack(f: Form, t: bytes, depth: nat, limit: nat)
    requires Written(f, limit - depth) && Boundary(t)
    ensures ParseData(FormText(f) + t, depth, limit) == Ok((Meant(f), t))
    decreases f, 1, 0
  {
    hide FormText, Meant, ParseData, ParseItems, ParsePairs, Boundary, Legible, Stands, Proper;
    match f {
      case Arr(items, gap) =>
        if items == [] {
          EmptyBack(f, t, depth, limit);
        } else {
          ItemsBack(f, 0, t, depth, limit);
          ArrBack(f, t, depth, limit);
        }
      case Obj(members, gap) =>
        if members == [] {
          EmptyBack(f, t, depth, limit);
        } else {
          MembersBack(f, 0, t, depth, limit);
          ObjBack(f, t, depth, limit);
        }
      case _ => ScalarBack(f, t, depth, limit);
    }
  }

  lemma EmptyBack(f: Form, t: bytes, depth: nat, limit: nat)
    requires Written(f, limit - depth) && ((f.Arr? && f.items == []) || (f.Obj? && f.members == []))
    ensures ParseData(FormText(f) + t, depth, limit) == Ok((Meant(f), t))
  {
    hide FormText, Meant, ParseItems, ParsePairs, Skip, TakeText, TakeNumeral, TakeWord;
    var r := FormText(f) + t;
    var close: u8 := if f.Arr? then 0x5D else SHUT;
    Starts(f, limit - depth, t);
    SkipGap([], r);
    assert [] + r == r;
    EmptyText(f, close, t);
    SkipGap(f.gap, [close] + t);
    assert ([close] + t)[1..] == t;
  }

  lemma EmptyText(f: Form, close: u8, t: bytes)
    requires (f.Arr? && f.items == [] && close == 0x5D) || (f.Obj? && f.members == [] && close == SHUT)
    ensures (FormText(f) + t)[1..] == f.gap + ([close] + t)
    ensures Meant(f) == if f.Arr? then List([]) else Dict([])
  {
    var open: u8 := if f.Arr? then 0x5B else OPEN;
    assert FormText(f) == [open] + (f.gap + [close]);
    Regroup([open], f.gap + [close], t);
    Regroup(f.gap, [close], t);
  }

  lemma ArrBack(f: Form, t: bytes, depth: nat, limit: nat)
    requires f.Arr? && f.items != [] && Written(f, limit - depth)
    requires ParseItems(Commas(ItemTexts(f.items)[0..]) + ([0x5D] + t), depth, limit, Values(f.items)[..0]) == Ok((Meant(f), t))
    ensures ParseData(FormText(f) + t, depth, limit) == Ok((Meant(f), t))
  {
    hide FormText, Meant, ParseItems, Skip, Commas, TakeText, TakeNumeral, TakeWord;
    var r := FormText(f) + t;
    var body := Commas(ItemTexts(f.items));
    ArrText(f.items, f.gap);
    Starts(f, limit - depth, t);
    SkipGap([], r);
    assert [] + r == r;
    Regroup([0x5B], body + [0x5D], t);
    Regroup(body, [0x5D], t);
    assert r[1..] == body + ([0x5D] + t);
    assert ItemTexts(f.items)[0..] == ItemTexts(f.items) && Values(f.items)[..0] == [];
    FirstItem(f, [0x5D] + t, limit - depth);
  }

  /** What a nonempty list goes on with is no closing bracket. */
  lemma FirstItem(f: Form, t: bytes, depth: int)
    requires f.Arr? && f.items != [] && Written(f, depth)
    ensures var s := Skip(Commas(ItemTexts(f.items)) + t); s != [] && s[0] != 0x5D
  {
    hide FormText, Skip;
    var i := f.items[0];
    var a := P.After(ItemTexts(f.items), 0, 0x5D, []);
    var rest := Commas(ItemTexts(f.items)) + t;
    FirstChunk(ItemTexts(f.items), t);
    var tail := FirstTail(ItemTexts(f.items), t);
    Starts(i.form, depth - 1, i.after + tail);
    Regroup(i.before, FormText(i.form) + i.after, tail);
    Regroup(FormText(i.form), i.after, tail);
    SkipGap(i.before, FormText(i.form) + (i.after + tail));
  }

  function FirstTail(chunks: seq<bytes>, t: bytes): bytes
    requires chunks != []
  {
    (Commas(chunks) + t)[|chunks[0]|..]
  }

  lemma FirstChunk(chunks: seq<bytes>, t: bytes)
    requires chunks != []
    ensures |chunks[0]| <= |Commas(chunks) + t| && Commas(chunks) + t == chunks[0] + (Commas(chunks) + t)[|chunks[0]|..]
  {
  }

  lemma {:induction false} ItemsBack(f: Form, k: nat, t: bytes, depth: nat, limit: nat)
    requires f.Arr? && Written(f, limit - depth) && k < |f.items|
    ensures ParseItems(Commas(ItemTexts(f.items)[k..]) + ([0x5D] + t), depth, limit, Values(f.items)[..k]) == Ok((Meant(f), t))
    decreases f, 0, |f.items| - k
  {
    hide FormText, Meant, ParseData, Skip, Commas, P.After, Boundary;
    var chunks, values, i := ItemTexts(f.items), Values(f.items), f.items[k];
    ArrText(f.items, f.gap);
    P.AfterChunk(chunks, k, 0x5D, t);
    P.AfterBounds(chunks, k, 0x5D, t);
    var a := P.After(chunks, k, 0x5D, t);
    ItemBack(f, k, a, depth, limit);
    SkipGap(i.after, a);
    assert values[..k] + [values[k]] == values[..k + 1];
    if k + 1 < |f.items| {
      ItemsBack(f, k + 1, t, depth, limit);
    } else {
      assert values[..k + 1] == values;
    }
  }

  lemma {:induction false} ItemBack(f: Form, k: nat, a: bytes, depth: nat, limit: nat)
    requires f.Arr? && Written(f, limit - depth) && k < |f.items| && Boundary(a)
    ensures ParseData(ItemText(f.items[k]) + a, depth + 1, limit) == Ok((Meant(f.items[k].form), f.items[k].after + a))
    decreases f, 0, 0
  {
    hide FormText, Meant, ParseData, Commas, Boundary, Proper, Stands, Legible;
    var i := f.items[k];
    GapBounds(i.after, a);
    FormBack(i.form, i.after + a, depth + 1, limit);
    SpacedItem(i, a, depth, limit);
  }

  lemma SpacedItem(i: Item, a: bytes, depth: nat, limit: nat)
    requires ItemWritten(i, limit - depth - 1)
    ensures ParseData(ItemText(i) + a, depth + 1, limit) == ParseData(FormText(i.form) + (i.after + a), depth + 1, limit)
  {
    hide FormText, ParseData, Written;
    Starts(i.form, limit - depth - 1, i.after + a);
    Regroup(i.before, FormText(i.form) + i.after, a);
    Regroup(FormText(i.form), i.after, a);
    Spaced(i.before, FormText(i.form) + (i.after + a), depth + 1, limit);
  }

  lemma GapBounds(gap: bytes, a: bytes)
    requires Gap(gap) && Boundary(a)
    ensures Boundary(gap + a)
  {
    if gap == [] {
      assert gap + a == a;
    }
  }

  lemma ObjBack(f: Form, t: bytes, depth: nat, limit: nat)
    requires f.Obj? && f.members != [] && Written(f, limit - depth)
    requires ParsePairs(Commas(MemberTexts(f.members)[0..]) + ([SHUT] + t), depth, limit, Pairs(f.members)[..0]) == Ok((Meant(f), t))
    ensures ParseData(FormText(f) + t, depth, limit) == Ok((Meant(f), t))
  {
    hide FormText, Meant, ParsePairs, Skip, Commas, TakeText, TakeNumeral, TakeWord, Legible;
    var r := FormText(f) + t;
    var body := Commas(MemberTexts(f.members));
    ObjText(f.members, f.gap);
    Starts(f, limit - depth, t);
    SkipGap([], r);
    assert [] + r == r;
    Regroup([OPEN], body + [SHUT], t);
    Regroup(body, [SHUT], t);
    assert r[1..] == body + ([SHUT] + t);
    assert MemberTexts(f.members)[0..] == MemberTexts(f.members) && Pairs(f.members)[..0] == [];
    FirstMember(f, [SHUT] + t, limit - depth);
  }

  lemma FirstMember(f: Form, t: bytes, depth: int)
    requires f.Obj? && f.members != [] && Written(f, depth)
    ensures var s := Skip(Commas(MemberTexts(f.members)) + t); s != [] && s[0] != SHUT
  {
    hide FormText, Skip, Spelling;
    var m := f.members[0];
    FirstChunk(MemberTexts(f.members), t);
    var tail := FirstTail(MemberTexts(f.members), t);
    var rest := (m.gap + [COLON]) + (ItemText(m.value) + tail);
    Regroup(KeyText(m), ItemText(m.value), tail);
    KeyThen(m, ItemText(m.value) + tail);
    SkipGap(m.before, StringText(m.pieces) + rest);
  }

  lemma KeyThen(m: Member, t: bytes)
    ensures KeyText(m) + t == m.before + (StringText(m.pieces) + ((m.gap + [COLON]) + t))
    ensures (StringText(m.pieces) + ((m.gap + [COLON]) + t))[0] == QUOTE
  {
    hide Spelling;
    Regroup(m.before, StringText(m.pieces) + (m.gap + [COLON]), t);
    Regroup(StringText(m.pieces), m.gap + [COLON], t);
  }

  lemma KeyBack(m: Member, t: bytes)
    requires Gap(m.before) && Legible(m.pieces, m.says) && Gap(m.gap)
    ensures TakeKey(KeyText(m) + t) == Ok((m.says, t))
  {
    hide Skip, TakeText, Legible, Spelling, KeyText;
    var rest := (m.gap + [COLON]) + t;
    KeyThen(m, t);
    SkipGap(m.before, StringText(m.pieces) + rest);
    StringBack(m.pieces, m.says, rest);
    var s := StringText(m.pieces) + rest;
    assert s[1..] == Spelling(m.pieces) + ([QUOTE] + rest);
    Regroup(m.gap, [COLON], t);
    SkipGap(m.gap, [COLON] + t);
    assert ([COLON] + t)[1..] == t;
  }

  lemma {:induction false} MembersBack(f: Form, k: nat, t: bytes, depth: nat, limit: nat)
    requires f.Obj? && Written(f, limit - depth) && k < |f.members|
    ensures ParsePairs(Commas(MemberTexts(f.members)[k..]) + ([SHUT] + t), depth, limit, Pairs(f.members)[..k]) == Ok((Meant(f), t))
    decreases f, 0, |f.members| - k
  {
    hide FormText, Meant, ParseData, Skip, Commas, P.After, Boundary, TakeKey, KeyText, Legible, ItemText;
    var chunks, pairs, m := MemberTexts(f.members), Pairs(f.members), f.members[k];
    ObjText(f.members, f.gap);
    P.AfterChunk(chunks, k, SHUT, t);
    P.AfterBounds(chunks, k, SHUT, t);
    var a := P.After(chunks, k, SHUT, t);
    Regroup(KeyText(m), ItemText(m.value), a);
    KeyBack(m, ItemText(m.value) + a);
    MemberBack(f, k, a, depth, limit);
    SkipGap(m.value.after, a);
    NewKey(f.members, k);
    assert pairs[..k] + [pairs[k]] == pairs[..k + 1];
    if k + 1 < |f.members| {
      MembersBack(f, k + 1, t, depth, limit);
    } else {
      assert pairs[..k + 1] == pairs;
    }
  }

  lemma NewKey(members: seq<Member>, k: nat)
    requires Apart(members) && k < |members|
    ensures members[k].says !in Keys(Pairs(members)[..k])
  {
    hide Meant;
    assert forall i :: 0 <= i < k ==> Keys(Pairs(members)[..k])[i] == members[i].says;
  }

  lemma {:induction false} MemberBack(f: Form, k: nat, a: bytes, depth: nat, limit: nat)
    requires f.Obj? && Written(f, limit - depth) && k < |f.members| && Boundary(a)
    ensures var i := f.members[k].value;
            ParseData(ItemText(i) + a, depth + 1, limit) == Ok((Meant(i.form), i.after + a))
    decreases f, 0, 0
  {
    hide FormText, Meant, ParseData, Commas, Legible, Boundary;
    var i := f.members[k].value;
    GapBounds(i.after, a);
    FormBack(i.form, i.after + a, depth + 1, limit);
    SpacedItem(i, a, depth, limit);
  }

  // Whatever is read was written.

  lemma {:induction false} FormThere(r: bytes, depth: nat, limit: nat) returns (gap: bytes, f: Form)
    requires ParseData(r, depth, limit).Ok?
    ensures var (v, t) := ParseData(r, depth, limit).value;
            Gap(gap) && Written(f, limit - depth) && Meant(f) == v && r == gap + (FormText(f) + t)
    decreases |r|, 1
  {
    hide FormText, Meant, Written, ParseData, Skip;
    gap := SkipSplits(r);
    SkipsFirst(r, depth, limit);
    SkipShrinks(r);
    f := FormAt(Skip(r), depth, limit);
  }

  lemma SkipsFirst(r: bytes, depth: nat, limit: nat)
    requires ParseData(r, depth, limit).Ok?
    ensures ParseData(Skip(r), depth, limit) == ParseData(r, depth, limit)
    ensures depth <= limit && Skip(r) != [] && Skip(Skip(r)) == Skip(r)
  {
    hide TakeText, TakeNumeral, TakeWord, ParseItems, ParsePairs, Skip;
    var s := Skip(r);
    if s != [] {
      SkipGap([], s);
      assert [] + s == s;
    }
  }

  /** What an opening bracket leads to. */
  lemma Opened(s: bytes, depth: nat, limit: nat)
    requires depth <= limit && s != [] && Skip(s) == s
    ensures s[0] == OPEN && StartsWith(Skip(s[1..]), SHUT) ==> ParseData(s, depth, limit) == Ok((Dict([]), Skip(s[1..])[1..]))
    ensures s[0] == OPEN && !StartsWith(Skip(s[1..]), SHUT) ==> ParseData(s, depth, limit) == ParsePairs(s[1..], depth, limit, [])
    ensures s[0] == 0x5B && StartsWith(Skip(s[1..]), 0x5D) ==> ParseData(s, depth, limit) == Ok((List([]), Skip(s[1..])[1..]))
    ensures s[0] == 0x5B && !StartsWith(Skip(s[1..]), 0x5D) ==> ParseData(s, depth, limit) == ParseItems(s[1..], depth, limit, [])
  {
    hide ParseItems, ParsePairs, Skip, TakeText, TakeNumeral, TakeWord;
  }

  lemma {:induction false} FormAt(s: bytes, depth: nat, limit: nat) returns (f: Form)
    requires depth <= limit && s != [] && Skip(s) == s && ParseData(s, depth, limit).Ok?
    ensures var (v, t) := ParseData(s, depth, limit).value;
            Written(f, limit - depth) && Meant(f) == v && s == FormText(f) + t
    decreases |s|, 0
  {
    hide FormText, Meant, Written, ParseData, ParseItems, ParsePairs, Skip, Commas, MemberWritten, ItemWritten, Apart;
    Opened(s, depth, limit);
    var (v, t) := ParseData(s, depth, limit).value;
    if s[0] == OPEN {
      if StartsWith(Skip(s[1..]), SHUT) {
        f := EmptyThere(s, OPEN, SHUT, limit - depth);
      } else {
        var members := MembersThere(s[1..], depth, limit, []);
        f := Obj(members, []);
        assert [] + Pairs(members) == Pairs(members);
        WrittenObj(s, members, t, limit - depth);
      }
    } else if s[0] == 0x5B {
      if StartsWith(Skip(s[1..]), 0x5D) {
        f := EmptyThere(s, 0x5B, 0x5D, limit - depth);
      } else {
        var items := ItemsThere(s[1..], depth, limit, []);
        f := Arr(items, []);
        assert [] + Values(items) == Values(items);
        WrittenArr(s, items, t, limit - depth);
      }
    } else {
      f := ScalarThere(s, depth, limit);
    }
  }

  lemma SkipShrinks(r: bytes)
    ensures |Skip(r)| <= |r|
  {
  }

  lemma ScalarThere(s: bytes, depth: nat, limit: nat) returns (f: Form)
    requires depth <= limit && s != [] && Skip(s) == s && s[0] != OPEN && s[0] != 0x5B && ParseData(s, depth, limit).Ok?
    ensures var (v, t) := ParseData(s, depth, limit).value;
            Written(f, limit - depth) && Meant(f) == v && s == FormText(f) + t
  {
    hide Skip, TakeText, TakeNumeral, Stands, Proper, NumberText, Legible, StringText;
    if s[0] == QUOTE {
      var pieces := StringThere(s[1..]);
      f := Form.Str(pieces, TakeText(s[1..]).value.0);
      assert s == [QUOTE] + s[1..];
    } else if s[0] == 0x74 {
      f := Word(Truth(true));
      WordThere(s, Truth(true));
    } else if s[0] == 0x66 {
      f := Word(Truth(false));
      WordThere(s, Truth(false));
    } else if s[0] == 0x6E {
      f := Word(Nil);
      WordThere(s, Nil);
    } else {
      var n := NumberThere(s);
      f := Figure(n, TakeNumeral(s).value.0);
    }
  }

  lemma WordThere(s: bytes, v: Data)
    requires (v == Nil || v.Truth?) && TakeWord(s, WordText(v), v).Ok?
    ensures WordText(Nil) == NULL && WordText(Truth(true)) == TRUE && WordText(Truth(false)) == FALSE
    ensures s == WordText(v) + s[|WordText(v)|..]
  {
  }

  lemma EmptyThere(s: bytes, open: u8, close: u8, depth: int) returns (f: Form)
    requires s != [] && s[0] == open && StartsWith(Skip(s[1..]), close) && depth >= 0
    requires (open == 0x5B && close == 0x5D) || (open == OPEN && close == SHUT)
    ensures Written(f, depth) && s == FormText(f) + Skip(s[1..])[1..]
    ensures Meant(f) == if open == 0x5B then List([]) else Dict([])
  {
    hide Skip, FormText, Meant;
    var gap := SkipSplits(s[1..]);
    var t := Skip(s[1..]);
    f := if open == 0x5B then Arr([], gap) else Obj([], gap);
    EmptyText(f, close, t[1..]);
    assert t == [close] + t[1..];
    FirstOf(f, open, t[1..]);
    assert s == [s[0]] + s[1..];
  }

  lemma FirstOf(f: Form, open: u8, t: bytes)
    requires (f.Arr? && f.items == [] && open == 0x5B) || (f.Obj? && f.members == [] && open == OPEN)
    ensures FormText(f) + t == [open] + (FormText(f) + t)[1..]
  {
  }

  lemma WrittenArr(s: bytes, items: seq<Item>, t: bytes, depth: int)
    requires s != [] && s[0] == 0x5B && depth >= 0 && items != [] && forall i :: 0 <= i < |items| ==> ItemWritten(items[i], depth - 1)
    requires s[1..] == Commas(ItemTexts(items)) + ([0x5D] + t)
    ensures Written(Arr(items, []), depth) && s == FormText(Arr(items, [])) + t && Meant(Arr(items, [])) == List(Values(items))
  {
    hide FormText, Meant, Commas;
    ArrText(items, []);
    var body := Commas(ItemTexts(items));
    Regroup([0x5B], body + [0x5D], t);
    Regroup(body, [0x5D], t);
    assert s == [s[0]] + s[1..];
  }

  lemma WrittenObj(s: bytes, members: seq<Member>, t: bytes, depth: int)
    requires s != [] && s[0] == OPEN && depth >= 0 && members != [] && Apart(members)
    requires forall i :: 0 <= i < |members| ==> MemberWritten(members[i], depth - 1)
    requires s[1..] == Commas(MemberTexts(members)) + ([SHUT] + t)
    ensures Written(Obj(members, []), depth) && s == FormText(Obj(members, [])) + t && Meant(Obj(members, [])) == Dict(Pairs(members))
  {
    hide FormText, Meant, Commas, Legible;
    ObjText(members, []);
    var body := Commas(MemberTexts(members));
    Regroup([OPEN], body + [SHUT], t);
    Regroup(body, [SHUT], t);
    assert s == [s[0]] + s[1..];
  }

  /** An item and the spaces after it, as read. */
  lemma {:induction false} ItemThere(r: bytes, depth: nat, limit: nat) returns (i: Item)
    requires ParseData(r, depth + 1, limit).Ok?
    ensures var (v, t) := ParseData(r, depth + 1, limit).value;
            ItemWritten(i, limit - depth - 1) && Meant(i.form) == v && r == ItemText(i) + Skip(t)
    decreases |r|, 2
  {
    hide FormText, Meant, Written, ParseData, Skip;
    var gap, f := FormThere(r, depth + 1, limit);
    var t := ParseData(r, depth + 1, limit).value.1;
    var after := SkipSplits(t);
    i := Item(gap, f, after);
    Regroup(gap, FormText(f) + after, Skip(t));
    Regroup(FormText(f), after, Skip(t));
  }

  lemma {:induction false} ItemsThere(r: bytes, depth: nat, limit: nat, before: seq<Data>) returns (items: seq<Item>)
    requires ParseItems(r, depth, limit, before).Ok?
    ensures var (v, t) := ParseItems(r, depth, limit, before).value;
            && items != [] && (forall i :: 0 <= i < |items| ==> ItemWritten(items[i], limit - depth - 1))
            && v == List(before + Values(items)) && r == Commas(ItemTexts(items)) + ([0x5D] + t)
    decreases |r|, 3
  {
    hide FormText, Meant, Written, ParseData, Skip, Commas, ItemText;
    var (v, t) := ParseItems(r, depth, limit, before).value;
    var (first, rest) := ParseData(r, depth + 1, limit).value;
    var i := ItemThere(r, depth, limit);
    var s := Skip(rest);
    SkipShrinks(rest);
    assert s == [s[0]] + s[1..];
    if s[0] == COMMA {
      var tail := ItemsThere(s[1..], depth, limit, before + [first]);
      items := [i] + tail;
      MoreItems(i, tail, t);
      Regroup(before, [first], Values(tail));
      assert Values(items) == [first] + Values(tail);
    } else {
      items := [i];
      OneItem(i, t);
      assert Values(items) == [first];
    }
  }

  lemma MoreItems(i: Item, tail: seq<Item>, t: bytes)
    requires tail != []
    ensures ItemText(i) + ([COMMA] + (Commas(ItemTexts(tail)) + ([0x5D] + t))) == Commas(ItemTexts([i] + tail)) + ([0x5D] + t)
  {
    hide ItemText;
    var all := ItemTexts([i] + tail);
    assert all == [ItemText(i)] + ItemTexts(tail) && all[1..] == ItemTexts(tail);
    Regroup(ItemText(i), [COMMA] + Commas(ItemTexts(tail)), [0x5D] + t);
    Regroup([COMMA], Commas(ItemTexts(tail)), [0x5D] + t);
  }

  lemma OneItem(i: Item, t: bytes)
    ensures Commas(ItemTexts([i])) == ItemText(i)
  {
    hide ItemText;
  }

  lemma KeyThere(r: bytes) returns (before: bytes, pieces: seq<Piece>, gap: bytes)
    requires TakeKey(r).Ok?
    ensures var (says, t) := TakeKey(r).value;
            && Gap(before) && Legible(pieces, says) && Gap(gap)
            && r == (before + (StringText(pieces) + (gap + [COLON]))) + t
  {
    hide Skip, TakeText, Legible, StringText;
    before := SkipSplits(r);
    var s := Skip(r);
    assert s == [s[0]] + s[1..];
    pieces := StringThere(s[1..]);
    var (says, rest) := TakeText(s[1..]).value;
    gap := SkipSplits(rest);
    var u := Skip(rest);
    assert u == [COLON] + u[1..];
    Regroup(gap, [COLON], u[1..]);
    Regroup(StringText(pieces), gap + [COLON], u[1..]);
    Regroup(before, StringText(pieces) + (gap + [COLON]), u[1..]);
  }

  lemma {:induction false} MembersThere(r: bytes, depth: nat, limit: nat, before: seq<(bytes, Data)>) returns (members: seq<Member>)
    requires ParsePairs(r, depth, limit, before).Ok?
    ensures var (v, t) := ParsePairs(r, depth, limit, before).value;
            && members != [] && (forall i :: 0 <= i < |members| ==> MemberWritten(members[i], limit - depth - 1))
            && Apart(members) && (forall i :: 0 <= i < |members| ==> members[i].says !in Keys(before))
            && v == Dict(before + Pairs(members)) && r == Commas(MemberTexts(members)) + ([SHUT] + t)
    decreases |r|, 3
  {
    hide FormText, Meant, Written, ParseData, Skip, Commas, ItemText, TakeKey, Legible, StringText;
    var (v, t) := ParsePairs(r, depth, limit, before).value;
    var start, pieces, gap := KeyThere(r);
    var (key, r1) := TakeKey(r).value;
    var (first, rest) := ParseData(r1, depth + 1, limit).value;
    var i := ItemThere(r1, depth, limit);
    var m := Member(start, pieces, key, gap, i);
    var s := Skip(rest);
    SkipShrinks(rest);
    Regroup(KeyText(m), ItemText(i), s);
    assert r == MemberText(m) + s;
    assert s == [s[0]] + s[1..];
    if s[0] == COMMA {
      var tail := MembersThere(s[1..], depth, limit, before + [(key, first)]);
      members := [m] + tail;
      MoreMembers(m, tail, t);
      Regroup(before, [(key, first)], Pairs(tail));
      assert Pairs(members) == [(key, first)] + Pairs(tail);
      KeysGrow(before, (key, first));
    } else {
      members := [m];
      OneMember(m, t);
      assert Pairs(members) == [(key, first)];
    }
  }

  lemma KeysGrow(pairs: seq<(bytes, Data)>, pair: (bytes, Data))
    ensures forall k :: k in Keys(pairs + [pair]) <==> k in Keys(pairs) || k == pair.0
  {
    assert Keys(pairs + [pair]) == Keys(pairs) + [pair.0];
  }

  lemma MoreMembers(m: Member, tail: seq<Member>, t: bytes)
    requires tail != []
    ensures MemberText(m) + ([COMMA] + (Commas(MemberTexts(tail)) + ([SHUT] + t))) == Commas(MemberTexts([m] + tail)) + ([SHUT] + t)
  {
    hide MemberText;
    var all := MemberTexts([m] + tail);
    assert all == [MemberText(m)] + MemberTexts(tail) && all[1..] == MemberTexts(tail);
    Regroup(MemberText(m), [COMMA] + Commas(MemberTexts(tail)), [SHUT] + t);
    Regroup([COMMA], Commas(MemberTexts(tail)), [SHUT] + t);
  }

  lemma OneMember(m: Member, t: bytes)
    ensures Commas(MemberTexts([m])) == MemberText(m)
  {
    hide MemberText;
  }

  // The whole document.

  /** A document is a written value with spaces round it. */
  ghost predicate Document(b: bytes, limit: nat, before: bytes, f: Form, after: bytes) {
    Gap(before) && Gap(after) && Written(f, limit) && b == before + (FormText(f) + after)
  }

  lemma GapOnly(gap: bytes)
    requires Gap(gap)
    ensures Skip(gap) == [] && Boundary(gap)
  {
    SkipGap(gap, []);
    assert gap + [] == gap;
  }

  lemma DocumentBack(b: bytes, limit: nat, before: bytes, f: Form, after: bytes)
    requires Document(b, limit, before, f, after)
    ensures ParseWithin(b, limit) == Ok(Meant(f))
  {
    hide ParseData, Skip, FormText, Meant, Written, Boundary;
    GapOnly(after);
    FormBack(f, after, 0, limit);
    Starts(f, limit, after);
    Spaced(before, FormText(f) + after, 0, limit);
  }

  lemma DocumentThere(b: bytes, limit: nat) returns (before: bytes, f: Form, after: bytes)
    requires ParseWithin(b, limit).Ok?
    ensures Document(b, limit, before, f, after) && ParseWithin(b, limit) == Ok(Meant(f))
  {
    hide ParseData, Skip, FormText, Meant, Written;
    before, f := FormThere(b, 0, limit);
    var t := ParseData(b, 0, limit).value.1;
    after := SkipSplits(t);
    assert after + [] == after;
  }

  /** Exactly the documents are accepted, each as the value it writes. */
  lemma ParseExact(b: bytes, limit: nat, v: Data)
    ensures ParseWithin(b, limit) == Ok(v) <==> exists before, f, after :: Document(b, limit, before, f, after) && Meant(f) == v
  {
    hide ParseWithin, Document, Meant;
    if ParseWithin(b, limit) == Ok(v) {
      var before, f, after := DocumentThere(b, limit);
    }
    if before, f, after :| Document(b, limit, before, f, after) && Meant(f) == v {
      DocumentBack(b, limit, before, f, after);
    }
  }
}
