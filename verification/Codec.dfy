/** The little-endian field codec of checkpoints: what each field's bytes are,
    and how a reader takes them back off the front of what is left. */
module Codec {
  import opened Words
  import opened Core

  function TakeBytes(b: bytes, n: nat): Result<(bytes, bytes), Error> {
    if n > |b| then Err(SnapshotTruncated) else Ok((b[..n], b[n..]))
  }

  function TakeU8(b: bytes): Result<(u8, bytes), Error> {
    var p :- TakeBytes(b, 1);
    Ok((p.0[0], p.1))
  }

  function TakeU16(b: bytes): Result<(u16, bytes), Error> {
    var p :- TakeBytes(b, 2);
    Ok((Word16(p.0), p.1))
  }

  function TakeU32(b: bytes): Result<(u32, bytes), Error> {
    var p :- TakeBytes(b, 4);
    Ok((Word32(p.0), p.1))
  }

  function TakeU64(b: bytes): Result<(u64, bytes), Error> {
    var p :- TakeBytes(b, 8);
    Ok((Word64(p.0), p.1))
  }

  lemma BytesBack(v: bytes, rest: bytes)
    ensures TakeBytes(v + rest, |v|) == Ok((v, rest))
  {
    assert (v + rest)[..|v|] == v && (v + rest)[|v|..] == rest;
  }

  lemma BytesThere(b: bytes, n: nat)
    requires TakeBytes(b, n).Ok?
    ensures var p := TakeBytes(b, n).value; |p.0| == n && b == p.0 + p.1
  {
  }

  lemma U8Back(v: u8, rest: bytes)
    ensures TakeU8([v] + rest) == Ok((v, rest))
  {
    BytesBack([v], rest);
  }

  lemma U8There(b: bytes)
    requires TakeU8(b).Ok?
    ensures var p := TakeU8(b).value; b == [p.0] + p.1
  {
    BytesThere(b, 1);
  }

  lemma U16Back(v: u16, rest: bytes)
    ensures TakeU16(Le(v, 2) + rest) == Ok((v, rest))
  {
    hide Le, FromLe;
    BytesBack(Le(v, 2), rest);
    TwoByteWord(v);
  }

  lemma U16There(b: bytes)
    requires TakeU16(b).Ok?
    ensures var p := TakeU16(b).value; b == Le(p.0, 2) + p.1
  {
    hide Le, FromLe;
    BytesThere(b, 2);
    LeInvertsFromLe(b[..2]);
  }

  lemma U32Back(v: u32, rest: bytes)
    ensures TakeU32(Le(v, 4) + rest) == Ok((v, rest))
  {
    hide Le, FromLe;
    BytesBack(Le(v, 4), rest);
    FourByteWord(v);
  }

  lemma U32There(b: bytes)
    requires TakeU32(b).Ok?
    ensures var p := TakeU32(b).value; b == Le(p.0, 4) + p.1
  {
    hide Le, FromLe;
    BytesThere(b, 4);
    LeInvertsFromLe(b[..4]);
  }

  lemma U64Back(v: u64, rest: bytes)
    ensures TakeU64(Le(v, 8) + rest) == Ok((v, rest))
  {
    hide Le, FromLe;
    BytesBack(Le(v, 8), rest);
    EightByteWord(v);
  }

  lemma U64There(b: bytes)
    requires TakeU64(b).Ok?
    ensures var p := TakeU64(b).value; b == Le(p.0, 8) + p.1
  {
    hide Le, FromLe;
    BytesThere(b, 8);
    LeInvertsFromLe(b[..8]);
  }

  // Flags, notes and run ids.

  function FlagBytes(v: bool): bytes {
    [if v then 1 else 0]
  }

  function TakeFlag(b: bytes): Result<(bool, bytes), Error> {
    var p :- TakeU8(b);
    if p.0 > 1 then Err(SnapshotCorrupt) else Ok((p.0 == 1, p.1))
  }

  lemma FlagBack(v: bool, rest: bytes)
    ensures TakeFlag(FlagBytes(v) + rest) == Ok((v, rest))
  {
    U8Back(if v then 1 else 0, rest);
  }

  lemma FlagThere(b: bytes)
    requires TakeFlag(b).Ok?
    ensures var p := TakeFlag(b).value; b == FlagBytes(p.0) + p.1
  {
    U8There(b);
  }

  function NoteBytes(v: note): bytes {
    [|v|] + v
  }

  function TakeNote(b: bytes): Result<(note, bytes), Error> {
    var p :- TakeU8(b);
    if p.0 > NOTE_MAX then Err(SnapshotCorrupt)
    else
      var q :- TakeBytes(p.1, p.0);
      Ok((q.0, q.1))
  }

  lemma NoteBack(v: note, rest: bytes)
    ensures TakeNote(NoteBytes(v) + rest) == Ok((v, rest))
  {
    Regroup([|v|], v, rest);
    U8Back(|v|, v + rest);
    BytesBack(v, rest);
  }

  lemma NoteThere(b: bytes)
    requires TakeNote(b).Ok?
    ensures var p := TakeNote(b).value; b == NoteBytes(p.0) + p.1
  {
    U8There(b);
    var p := TakeU8(b).value;
    BytesThere(p.1, p.0);
    var q := TakeBytes(p.1, p.0).value;
    Regroup([p.0], q.0, q.1);
  }

  function RunBytes(run: Option<u64>): bytes {
    FlagBytes(run.Some?) + Le(if run.Some? then run.value else 0, 8)
  }

  function TakeRun(b: bytes): Result<(Option<u64>, bytes), Error> {
    var p :- TakeFlag(b);
    var q :- TakeU64(p.1);
    if p.0 then Ok((Some(q.0), q.1)) else if q.0 == 0 then Ok((None, q.1)) else Err(SnapshotCorrupt)
  }

  lemma RunBack(v: Option<u64>, rest: bytes)
    ensures TakeRun(RunBytes(v) + rest) == Ok((v, rest))
  {
    hide Le, FlagBytes;
    var n: u64 := if v.Some? then v.value else 0;
    Regroup(FlagBytes(v.Some?), Le(n, 8), rest);
    FlagBack(v.Some?, Le(n, 8) + rest);
    U64Back(n, rest);
  }

  lemma RunThere(b: bytes)
    requires TakeRun(b).Ok?
    ensures var p := TakeRun(b).value; b == RunBytes(p.0) + p.1
  {
    hide Le, FlagBytes, TakeFlag, TakeU64;
    FlagThere(b);
    var p := TakeFlag(b).value;
    U64There(p.1);
    var q := TakeU64(p.1).value;
    Regroup(FlagBytes(p.0), Le(q.0, 8), q.1);
  }

  // Chunks laid end to end.

  function Join(chunks: seq<bytes>): bytes {
    if chunks == [] then [] else Join(chunks[..|chunks| - 1]) + chunks[|chunks| - 1]
  }

  lemma JoinSnoc(chunks: seq<bytes>, chunk: bytes)
    ensures Join(chunks + [chunk]) == Join(chunks) + chunk
  {
    assert (chunks + [chunk])[..|chunks|] == chunks;
  }
}
