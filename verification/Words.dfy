/** Results, options, fixed-width words and their little-endian bytes. */
module Words {

  datatype Option<+T> = None | Some(value: T)

  datatype Result<+T, +E> = Ok(value: T) | Err(error: E) {
    predicate IsFailure() {
      Err?
    }

    function PropagateFailure<U>(): Result<U, E>
      requires Err?
    {
      Err(error)
    }

    function Extract(): T
      requires Ok?
    {
      value
    }
  }

  const U8_SPAN := 0x100
  const U16_SPAN := 0x1_0000
  const U32_SPAN := 0x1_0000_0000
  const U64_SPAN := 0x1_0000_0000_0000_0000

  type u8 = x: int | 0 <= x < U8_SPAN
  type u16 = x: int | 0 <= x < U16_SPAN
  type u32 = x: int | 0 <= x < U32_SPAN
  type u64 = x: int | 0 <= x < U64_SPAN

  type bytes = seq<u8>

  /** The hash of bytes the durable records carry: an arbitrary step. */
  type step64 = (u64, u8) -> u64

  const FNV64_OFFSET: u64 := 0xcbf2_9ce4_8422_2325

  predicate Digit(x: u8) {
    0x30 <= x <= 0x39
  }

  lemma Regroup<T>(a: seq<T>, b: seq<T>, c: seq<T>)
    ensures (a + b) + c == a + (b + c)
  {
  }

  /** Where the first entry that passes `test` is. */
  function FirstIndex<T>(list: seq<T>, test: T -> bool): (r: Option<nat>)
    ensures r.Some? ==> r.value < |list| && test(list[r.value]) && forall k :: 0 <= k < r.value ==> !test(list[k])
    ensures r.None? ==> forall k :: 0 <= k < |list| ==> !test(list[k])
  {
    if list == [] then None
    else if test(list[0]) then Some(0)
    else match FirstIndex(list[1..], test) case None => None case Some(k) => Some(k + 1)
  }

  function Min(a: int, b: int): int {
    if a <= b then a else b
  }

  /** `n` in decimal ASCII digits. */
  function Decimal(n: nat): (r: bytes)
    ensures |r| >= 1
  {
    if n < 10 then [0x30 + n] else Decimal(n / 10) + [0x30 + n % 10]
  }

  lemma {:induction false} DecimalDigits(n: nat, width: nat, top: nat)
    requires width >= 1 && top == Ten(width) && n < top
    ensures |Decimal(n)| <= width
    decreases width
  {
    if n >= 10 {
      DecimalDigits(n / 10, width - 1, top / 10);
    }
  }

  function Ten(k: nat): nat {
    if k == 0 then 1 else 10 * Ten(k - 1)
  }

  lemma TenDigits()
    ensures Ten(3) == 1000 && Ten(5) == 100_000 && Ten(10) == 10_000_000_000
  {
    assert Ten(5) == 100 * Ten(3);
    assert Ten(10) == 100_000 * Ten(5);
  }

  /** 256 to the `width`: one past the largest value `width` bytes hold. */
  function Span(width: nat): (r: nat)
    ensures r > 0
  {
    if width == 0 then 1 else 0x100 * Span(width - 1)
  }

  /** `n` in `width` little-endian bytes (the high bytes are dropped). */
  function Le(n: nat, width: nat): (b: bytes)
    ensures |b| == width
    decreases n, width
  {
    if width == 0 then [] else [n % 0x100] + Le(n / 0x100, width - 1)
  }

  /** The value little-endian bytes spell. */
  function FromLe(b: bytes): nat {
    if b == [] then 0 else b[0] + 0x100 * FromLe(b[1..])
  }

  lemma Spans()
    ensures Span(1) == U8_SPAN
    ensures Span(2) == U16_SPAN
    ensures Span(4) == U32_SPAN
    ensures Span(8) == U64_SPAN
  {
    assert Span(4) == 0x100 * (0x100 * Span(2));
    assert Span(6) == 0x100 * (0x100 * Span(4));
    assert Span(8) == 0x100 * (0x100 * Span(6));
  }

  lemma {:induction false} FromLeInvertsLe(n: nat, width: nat)
    requires n < Span(width)
    ensures FromLe(Le(n, width)) == n
  {
    if width > 0 {
      FromLeInvertsLe(n / 0x100, width - 1);
      assert Le(n, width)[1..] == Le(n / 0x100, width - 1);
    }
  }

  lemma LowByte(low: u8, high: nat)
    ensures (low + 0x100 * high) % 0x100 == low && (low + 0x100 * high) / 0x100 == high
  {
  }

  lemma {:induction false} LeInvertsFromLe(b: bytes)
    ensures FromLe(b) < Span(|b|)
    ensures Le(FromLe(b), |b|) == b
  {
    if b != [] {
      LeInvertsFromLe(b[1..]);
      LowByte(b[0], FromLe(b[1..]));
      assert b == [b[0]] + b[1..];
    }
  }

  /** The all-ones word is spelled only by all-ones bytes. */
  lemma {:induction false} AllOnes(b: bytes)
    ensures FromLe(b) == Span(|b|) - 1 <==> forall k :: 0 <= k < |b| ==> b[k] == 0xFF
  {
    if b != [] {
      LeInvertsFromLe(b[1..]);
      AllOnes(b[1..]);
      if FromLe(b[1..]) == Span(|b| - 1) - 1 && b[0] == 0xFF {
        forall k | 0 <= k < |b| ensures b[k] == 0xFF {
          if k > 0 {
            assert b[k] == b[1..][k - 1];
          }
        }
      }
      if forall k :: 0 <= k < |b| ==> b[k] == 0xFF {
        forall k | 0 <= k < |b[1..]| ensures b[1..][k] == 0xFF {
          assert b[1..][k] == b[k + 1];
        }
      }
    }
  }

  lemma TwoByteWord(n: nat)
    requires n < U16_SPAN
    ensures FromLe(Le(n, 2)) == n
  {
    Spans();
    FromLeInvertsLe(n, 2);
  }

  lemma FourByteWord(n: nat)
    requires n < U32_SPAN
    ensures FromLe(Le(n, 4)) == n
  {
    Spans();
    FromLeInvertsLe(n, 4);
  }

  lemma EightByteWord(n: nat)
    requires n < U64_SPAN
    ensures FromLe(Le(n, 8)) == n
  {
    Spans();
    FromLeInvertsLe(n, 8);
  }

  function Word16(b: bytes): u16
    requires |b| == 2
  {
    LeInvertsFromLe(b);
    Spans();
    FromLe(b)
  }

  function Word32(b: bytes): u32
    requires |b| == 4
  {
    LeInvertsFromLe(b);
    Spans();
    FromLe(b)
  }

  function Word64(b: bytes): u64
    requires |b| == 8
  {
    LeInvertsFromLe(b);
    Spans();
    FromLe(b)
  }

  /** A running hash: `step` folded over `b` from `hash`. FNV-1a is one such
      step; nothing here depends on which. */
  function Fold<W>(step: (W, u8) -> W, hash: W, b: bytes): W {
    if b == [] then hash else Fold(step, step(hash, b[0]), b[1..])
  }

  /** Hashing a concatenation is hashing the parts one after the other. */
  lemma {:induction false} FoldConcat<W>(step: (W, u8) -> W, hash: W, a: bytes, b: bytes)
    ensures Fold(step, hash, a + b) == Fold(step, Fold(step, hash, a), b)
  {
    if a == [] {
      assert a + b == b;
    } else {
      FoldConcat(step, step(hash, a[0]), a[1..], b);
      assert (a + b)[0] == a[0];
      assert (a + b)[1..] == a[1..] + b;
    }
  }

  lemma FoldSnoc<W>(step: (W, u8) -> W, hash: W, a: bytes, x: u8)
    ensures Fold(step, hash, a + [x]) == step(Fold(step, hash, a), x)
  {
    FoldConcat(step, hash, a, [x]);
    assert [x][1..] == [];
  }

  /** Hash `b` on from `start`, byte by byte. */
  method FoldBytes<W>(step: (W, u8) -> W, start: W, b: bytes) returns (hash: W)
    ensures hash == Fold(step, start, b)
  {
    hash := start;
    for k := 0 to |b|
      invariant hash == Fold(step, start, b[..k])
    {
      assert b[..k + 1] == b[..k] + [b[k]];
      FoldSnoc(step, start, b[..k], b[k]);
      hash := step(hash, b[k]);
    }
    assert b[..|b|] == b;
  }
}
