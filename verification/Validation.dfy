/** Binding tool arguments: the JSON a contract accepts and what it binds. */
module Validation {
  import opened Words
  import opened Json

  const MAX_ARGS := 4

  datatype ArgKind = KindU8(lo8: u8, hi8: u8) | KindU16(lo16: u16, hi16: u16) | KindEnum(options: seq<bytes>)

  datatype ArgSpec = ArgSpec(name: bytes, kind: ArgKind, required: bool)

  type contract = seq<ArgSpec>

  datatype Scalar = U8(n8: u8) | U16(n16: u16) | EnumAt(index: u8)

  datatype Field = Field(name: bytes, value: Scalar)

  datatype ValidationError =
    | Syntax(error: JsonError)
    | NotObject
    | UnknownArgument
    | MissingArgument(name: bytes)
    | WrongType(name: bytes)
    | OutOfRange(name: bytes)
    | BadEnumValue(name: bytes)
    | TooManyArguments

  function Lift<T>(r: Result<T, JsonError>): Result<T, ValidationError> {
    match r
    case Ok(v) => Ok(v)
    case Err(e) => Err(Syntax(e))
  }

  /** The first position at which `name` stands. */
  function Position(names: seq<bytes>, name: bytes): (r: Option<nat>)
    ensures r.Some? ==> r.value < |names| && names[r.value] == name && forall k :: 0 <= k < r.value ==> names[k] != name
    ensures r.None? ==> forall k :: 0 <= k < |names| ==> names[k] != name
  {
    FirstIndex(names, (x: bytes) => x == name)
  }

  function Names(args: contract): (r: seq<bytes>)
    ensures |r| == |args| && forall k :: 0 <= k < |args| ==> r[k] == args[k].name
  {
    seq(|args|, k requires 0 <= k < |args| => args[k].name)
  }

  function CheckNumber(name: bytes, v: Value, width: nat, top: nat, lo: nat, hi: nat): (r: Result<nat, ValidationError>)
    ensures r.Ok? ==> lo <= r.value <= hi && r.value <= top
  {
    if !v.Number? then Err(WrongType(name))
    else
      var n :- Lift(ParseUint(v.digits, width, top));
      if n < lo || n > hi then Err(OutOfRange(name)) else Ok(n)
  }

  function CheckScalar(spec: ArgSpec, v: Value): Result<Scalar, ValidationError> {
    match spec.kind
    case KindU8(lo, hi) =>
      var n :- CheckNumber(spec.name, v, 3, 0xFF, lo, hi);
      Ok(U8(n))
    case KindU16(lo, hi) =>
      var n :- CheckNumber(spec.name, v, 5, 0xFFFF, lo, hi);
      Ok(U16(n))
    case KindEnum(options) =>
      if !v.Str? then Err(WrongType(spec.name))
      else
        match Position(options, v.content)
        case None => Err(BadEnumValue(spec.name))
        case Some(k) => if k > 0xFF then Err(BadEnumValue(spec.name)) else Ok(EnumAt(k))
  }

  /** The members' contract positions and values in JSON order, and what
      follows the object. */
  function Members(args: contract, r: bytes, keys: seq<bytes>, first: bool, seen: seq<(nat, Scalar)>): Result<(seq<(nat, Scalar)>, bytes), ValidationError>
    decreases |r|
  {
    var entry :- Lift(TakeEntry(r, 1, keys, first));
    match entry
    case Closed(rest) => Ok((seen, rest))
    case Found(key, value, rest) =>
      match Position(Names(args), key)
      case None => Err(UnknownArgument)
      case Some(k) =>
        var scalar :- CheckScalar(args[k], value);
        EntryShrinks(r, 1, keys, first);
        Members(args, rest, keys + [key], false, seen + [(k, scalar)])
  }

  lemma EntryShrinks(r: bytes, depth: nat, keys: seq<bytes>, first: bool)
    requires TakeEntry(r, depth, keys, first).Ok? && TakeEntry(r, depth, keys, first).value.Found?
    ensures |TakeEntry(r, depth, keys, first).value.rest| < |r|
  {
    hide StringLen, NewKey, TakeValue;
  }

  function ValueOf(seen: seq<(nat, Scalar)>, position: nat): (r: Option<Scalar>)
    ensures r.Some? ==> (position, r.value) in seen
    ensures r.None? ==> forall v :: (position, v) !in seen
  {
    if seen == [] then None
    else if seen[0].0 == position then Some(seen[0].1)
    else ValueOf(seen[1..], position)
  }

  /** The fields bound from position `k` on, in contract order. */
  function Bind(args: contract, seen: seq<(nat, Scalar)>, k: nat): Result<seq<Field>, ValidationError>
    requires k <= |args|
    decreases |args| - k
  {
    if k == |args| then Ok([])
    else
      match ValueOf(seen, k)
      case None => if args[k].required then Err(MissingArgument(args[k].name)) else Bind(args, seen, k + 1)
      case Some(v) =>
        var rest :- Bind(args, seen, k + 1);
        Ok([Field(args[k].name, v)] + rest)
  }

  function Validate(args: contract, b: bytes): Result<seq<Field>, ValidationError> {
    if |args| > MAX_ARGS then Err(TooManyArguments)
    else
      var top :- Lift(TakeValue(b, 0));
      if !top.0.Object? then Err(NotObject)
      else
        ValidateBody(args, top.1)
  }

  /** What follows the opening brace: the members, the end, the binding. */
  function ValidateBody(args: contract, r: bytes): Result<seq<Field>, ValidationError> {
    var members :- Members(args, r, [], true, []);
    if members.1 != [] then Err(Syntax(TrailingBytes)) else Bind(args, members.0, 0)
  }

  // The texts a contract accepts.

  predicate Spaces(s: bytes) {
    forall k :: 0 <= k < |s| ==> Space(s[k])
  }

  /** One member as written: which argument, its value, and the spaces before
      the key, before the colon, before the value and after it. */
  datatype Member = Member(position: nat, value: Scalar, gap: bytes, colon: bytes, before: bytes, after: bytes)

  predicate Fits(kind: ArgKind, v: Scalar) {
    match kind
    case KindU8(lo, hi) => v.U8? && lo <= v.n8 <= hi
    case KindU16(lo, hi) => v.U16? && lo <= v.n16 <= hi
    case KindEnum(options) =>
      && v.EnumAt? && v.index < |options| && Raw(options[v.index])
      && forall k :: 0 <= k < v.index ==> options[k] != options[v.index]
  }

  /** A value's one spelling: a plain decimal, or the option itself. */
  function ScalarText(kind: ArgKind, v: Scalar): bytes
    requires Fits(kind, v)
  {
    match kind
    case KindU8(_, _) => Decimal(v.n8)
    case KindU16(_, _) => Decimal(v.n16)
    case KindEnum(options) => [QUOTE] + (options[v.index] + [QUOTE])
  }

  predicate MemberOk(args: contract, m: Member) {
    && m.position < |args|
    && (forall k :: 0 <= k < m.position ==> args[k].name != args[m.position].name)
    && Raw(args[m.position].name)
    && Fits(args[m.position].kind, m.value)
    && Spaces(m.gap) && Spaces(m.colon) && Spaces(m.before) && Spaces(m.after)
  }

  /** A member's text, less its gaps' share after the value, then `rest`. */
  function MemberText(args: contract, m: Member, rest: bytes): bytes
    requires MemberOk(args, m)
  {
    m.gap + ([QUOTE] + (args[m.position].name + ([QUOTE] + (m.colon + ([COLON] + (m.before + (ScalarText(args[m.position].kind, m.value) + (m.after + rest))))))))
  }

  /** The members from the one after `first` on, each behind a comma, and the
      closing brace. */
  function TailText(args: contract, ms: seq<Member>): bytes
    requires forall k :: 0 <= k < |ms| ==> MemberOk(args, ms[k])
  {
    if ms == [] then [SHUT] else [COMMA] + MemberText(args, ms[0], TailText(args, ms[1..]))
  }

  /** A whole argument object: spaces, members in any order, and the spaces
      inside when there is none. */
  datatype Doc = Doc(lead: bytes, members: seq<Member>, inside: bytes)

  predicate Distinct(ms: seq<Member>) {
    forall i, j :: 0 <= i < j < |ms| ==> ms[i].position != ms[j].position
  }

  predicate DocOk(args: contract, d: Doc) {
    && Spaces(d.lead) && Spaces(d.inside)
    && (forall k :: 0 <= k < |d.members| ==> MemberOk(args, d.members[k]))
    && Distinct(d.members)
    && (forall p :: 0 <= p < |args| && args[p].required ==> exists k :: 0 <= k < |d.members| && d.members[k].position == p)
  }

  function DocText(args: contract, d: Doc): bytes
    requires DocOk(args, d)
  {
    d.lead + ([OPEN] +
      if d.members == [] then d.inside + [SHUT] else MemberText(args, d.members[0], TailText(args, d.members[1..])))
  }

  /** What a document says, member by member. */
  function Said(ms: seq<Member>): (r: seq<(nat, Scalar)>)
    ensures |r| == |ms|
  {
    seq(|ms|, k requires 0 <= k < |ms| => (ms[k].position, ms[k].value))
  }
}
