/** Go's fixed-width integers, written out over unbounded ones, and the results of fallible operations. */
module Machine {

  datatype Option<+T> = None | Some(value: T)

  datatype Result<+T, +E> = Ok(value: T) | Err(error: E)

  /** The error values of the generated decoders. */
  datatype Error =
    | IntOverflow
    | UnexpectedEOF
    | InvalidLength
    | UnexpectedEndOfGroup
    | EndGroup
    | IllegalTag(fieldNum: int, wire: uint64)
    | WrongWireType(fieldNum: int, wireType: int)
    | IllegalWireType(wireType: int)

  type byte = b: int | 0 <= b < 256
  type bytes = seq<byte>

  const TWO32: int := 0x1_0000_0000
  const TWO63: int := 0x8000_0000_0000_0000
  const TWO64: int := 0x1_0000_0000_0000_0000

  type uint64 = x: int | 0 <= x < TWO64
  /** Go's `int` and `int64`: both 64 bits wide on the platforms the node runs on. */
  type int64 = x: int | -TWO63 <= x < TWO63

  /** The conversion `int64(u)`: the same bits read as two's complement. */
  function AsInt64(u: uint64): int64 {
    if u < TWO63 then u else u - TWO64
  }

  /** The conversion `uint64(x)`. */
  function AsUint64(x: int64): uint64 {
    if x < 0 then x + TWO64 else x
  }

  /** The conversion `int32(u)`, which keeps the low 32 bits only. */
  function AsInt32(u: uint64): int {
    var low := u % TWO32;
    if low < TWO32 / 2 then low else low - TWO32
  }

  /** Go's `a + b` on `int`, with wrap-around. */
  function AddInt(a: int64, b: int64): int64 {
    AsInt64((a + b) % TWO64)
  }

  function Pow2(n: nat): (p: nat)
    ensures p > 0
  {
    if n == 0 then 1 else 2 * Pow2(n - 1)
  }

  /** Go's `x << s` on `uint64`: bits shifted past position 63 are lost. */
  function Shl(x: uint64, s: nat): uint64 {
    (x * Pow2(s)) % TWO64
  }

  /** Go's `a | b`, bit by bit. */
  function BitOr(a: nat, b: nat): nat
    decreases a + b
  {
    if a == 0 && b == 0 then 0
    else (if a % 2 == 1 || b % 2 == 1 then 1 else 0) + 2 * BitOr(a / 2, b / 2)
  }

  /** Bit `k`. */
  predicate Bit(x: nat, k: nat) {
    if k == 0 then x % 2 == 1 else Bit(x / 2, k - 1)
  }

  /** A bit of `a | b` is set exactly if it is set in one of the two. */
  lemma {:induction false} BitOrIsBitwise(a: nat, b: nat, k: nat)
    ensures Bit(BitOr(a, b), k) <==> Bit(a, k) || Bit(b, k)
    decreases k
  {
    if k == 0 {
    } else {
      BitOrIsBitwise(a / 2, b / 2, k - 1);
    }
  }

  /** Wherever the operands have no bit in common, `|` is addition. */
  lemma {:induction false} BitOrIsAddition(low: nat, high: nat, s: nat)
    requires low < Pow2(s)
    ensures BitOr(low, high * Pow2(s)) == low + high * Pow2(s)
  {
    if s == 0 {
      BitOrZero(high);
    } else {
      var p := Pow2(s - 1);
      assert high * Pow2(s) == 2 * (high * p);
      assert (high * Pow2(s)) / 2 == high * p && (high * Pow2(s)) % 2 == 0;
      BitOrIsAddition(low / 2, high, s - 1);
    }
  }

  lemma {:induction false} BitOrZero(b: nat)
    ensures BitOr(0, b) == b
  {
    if b == 0 {
    } else {
      BitOrZero(b / 2);
    }
  }

  lemma {:induction false} BitOrZeroRight(a: nat)
    ensures BitOr(a, 0) == a
  {
    if a == 0 {
    } else {
      BitOrZeroRight(a / 2);
    }
  }

  lemma {:induction false} Pow2Add(a: nat, b: nat)
    ensures Pow2(a + b) == Pow2(a) * Pow2(b)
  {
    if a == 0 {
    } else {
      Pow2Add(a - 1, b);
      assert Pow2(a + b) == 2 * Pow2(a - 1 + b);
      assert 2 * (Pow2(a - 1) * Pow2(b)) == (2 * Pow2(a - 1)) * Pow2(b);
    }
  }

  lemma {:induction false} Pow2Monotone(a: nat, b: nat)
    requires a <= b
    ensures Pow2(a) <= Pow2(b)
    decreases b
  {
    if a == b {
    } else {
      Pow2Monotone(a, b - 1);
    }
  }

  lemma Pow2Constants()
    ensures Pow2(7) == 128 && Pow2(56) == 0x100_0000_0000_0000 && Pow2(63) == TWO63 && Pow2(64) == TWO64
  {
    assert Pow2(4) == 16;
    assert Pow2(7) == 128;
    Pow2Add(7, 7);
    Pow2Add(14, 14);
    Pow2Add(28, 28);
    Pow2Add(56, 7);
  }

  /**
   * The guard Go code writes around an untrusted length, `int(u) < 0`, `i + int(u) < 0`, `i + int(u) > l`, all
   * in wrapping arithmetic, lets a length through exactly when the `u` bytes from `i` on are there.
   */
  lemma GuardIsExact(i: int64, l: int64, u: uint64)
    requires 0 <= i <= l
    ensures (AsInt64(u) >= 0 && AddInt(i, AsInt64(u)) >= 0 && AddInt(i, AsInt64(u)) <= l) <==> u <= l - i
    ensures AsInt64(u) < 0 <==> u >= TWO63
    ensures AsInt64(u) >= 0 ==> (AddInt(i, AsInt64(u)) < 0 <==> i + u >= TWO63)
    ensures AsInt64(u) >= 0 && AddInt(i, AsInt64(u)) >= 0 ==> AddInt(i, AsInt64(u)) == i + u
  {
  }

  lemma Int64RoundTrip(x: int64)
    ensures AsInt64(AsUint64(x)) == x
    ensures AsUint64(x) == 0 <==> x == 0
  {
  }

  /**
   * Conversions and additions keep the number up to multiples of 2^64, that to 32 bits up to multiples of 2^32; with
   * the range of the result this says which number they give.
   */
  lemma WrapsAround(u: uint64, x: int64, y: int64)
    ensures (AsInt64(u) - u) % TWO64 == 0 && (AsUint64(x) - x) % TWO64 == 0
    ensures -0x8000_0000 <= AsInt32(u) < 0x8000_0000 && (AsInt32(u) - u) % 0x1_0000_0000 == 0
    ensures (AddInt(x, y) - (x + y)) % TWO64 == 0
  {
  }
}
