/**
 * Base 128 varints (Protocol Buffers Encoding, section "Base 128 Varints"): the closed-form length, the in-place
 * writer, and the shift loop that every generated decoder inlines.
 */
module Varint {
  import opened Machine

  /** The shortest encoding of `v`: seven bits a byte, least significant first, top bit set on all but the last. */
  function Encode(v: nat): (bs: bytes)
    ensures |bs| >= 1
  {
    if v < 128 then [v] else [v % 128 + 128] + Encode(v / 128)
  }

  /** `math/bits.Len64`. */
  function Len64(x: nat): nat {
    if x == 0 then 0 else 1 + Len64(x / 2)
  }

  /** `sovIdentity`, `sovGenesis` and `sovParams`. */
  function Sov(x: nat): nat {
    (Len64(BitOr(x, 1)) + 6) / 7
  }

  /** What any varint byte string stands for, before it is cut to 64 bits. */
  function Value(bs: bytes): nat {
    if bs == [] then 0 else bs[0] % 128 + 128 * Value(bs[1..])
  }

  /** A varint, shortest or padded: one to ten bytes, of which the last one, and only it, has its top bit clear. */
  predicate IsVarint(bs: bytes) {
    && 1 <= |bs| <= 10
    && bs[|bs| - 1] < 128
    && forall k :: 0 <= k < |bs| - 1 ==> bs[k] >= 128
  }

  /** Reads groups of seven bits, `k` of them having been read already; gives the value and the byte count. */
  function ReadGroups(d: bytes, k: nat): (r: Result<(nat, nat), Error>)
    ensures r.Ok? ==> 1 <= r.value.1 <= |d| && k + r.value.1 <= 10
  {
    if k >= 10 then Err(IntOverflow)
    else if d == [] then Err(UnexpectedEOF)
    else if d[0] < 128 then Ok((d[0], 1))
    else match ReadGroups(d[1..], k + 1)
      case Err(e) => Err(e)
      case Ok((v, n)) => Ok((d[0] - 128 + 128 * v, n + 1))
  }

  /** The varint at the front of `d`: its 64-bit value and its length in bytes. */
  function Read(d: bytes): (r: Result<(uint64, nat), Error>)
    ensures r.Ok? ==> 1 <= r.value.1 <= |d| && r.value.1 <= 10
  {
    match ReadGroups(d, 0)
    case Err(e) => Err(e)
    case Ok((v, n)) => Ok((v % TWO64, n))
  }

  /** The groups that have been read by the time a varint turns out not to end. */
  function Partial(d: bytes): uint64 {
    Value(d[..if |d| < 10 then |d| else 10]) % TWO64
  }

  // ----- what the reader accepts

  lemma {:induction false} ReadGroupsExact(d: bytes, k: nat)
    requires k <= 10
    ensures ReadGroups(d, k).Ok? ==>
              var (v, n) := ReadGroups(d, k).value;
              d[n - 1] < 128 && (forall j :: 0 <= j < n - 1 ==> d[j] >= 128) && v == Value(d[..n])
    ensures ReadGroups(d, k).Err? ==>
              forall j :: 0 <= j < |d| && j < 10 - k ==> d[j] >= 128
    ensures ReadGroups(d, k).Err? ==>
              ReadGroups(d, k).error == if |d| >= 10 - k then IntOverflow else UnexpectedEOF
    decreases |d|
  {
    if k == 10 || d == [] {
    } else {
      if d[0] < 128 {
        assert d[..1] == [d[0]];
      } else {
        ReadGroupsExact(d[1..], k + 1);
        match ReadGroups(d[1..], k + 1)
        case Err(_) =>
          forall j | 0 <= j < |d| && j < 10 - k ensures d[j] >= 128 {
            assert j > 0 ==> d[j] == d[1..][j - 1];
          }
        case Ok((v, n)) =>
          assert d[..n + 1][1..] == d[1..][..n];
          forall j | 0 <= j < n ensures d[j] >= 128 {
            assert j > 0 ==> d[j] == d[1..][j - 1];
          }
      }
    }
  }

  /** A varint at the front of the input, shortest or padded, is read whole, whatever follows. */
  lemma ReadFront(d: bytes, n: nat)
    requires 1 <= n <= |d| && IsVarint(d[..n])
    ensures Read(d) == Ok((Value(d[..n]) % TWO64, n))
  {
    ReadGroupsExact(d, 0);
    assert d[n - 1] == d[..n][n - 1] < 128;
    if Read(d).Ok? {
      OneVarintOnly(d, n, Read(d).value.1);
    }
  }

  lemma OneVarintOnly(d: bytes, n: nat, n': nat)
    requires 1 <= n <= |d| && 1 <= n' <= |d|
    requires IsVarint(d[..n])
    requires d[n' - 1] < 128 && forall j :: 0 <= j < n' - 1 ==> d[j] >= 128
    ensures n == n'
  {
    assert d[..n][n - 1] == d[n - 1];
    assert forall j :: 0 <= j < n - 1 ==> d[..n][j] == d[j];
  }

  /** What has been read was a varint. */
  lemma ReadIsVarint(d: bytes)
    requires Read(d).Ok?
    ensures var (v, n) := Read(d).value; IsVarint(d[..n]) && v == Value(d[..n]) % TWO64
  {
    ReadGroupsExact(d, 0);
  }

  /** The reader fails in exactly two ways: ten bytes without an end, or fewer than ten and no more input. */
  lemma ReadFails(d: bytes)
    ensures Read(d).Err? <==> forall j :: 0 <= j < |d| && j < 10 ==> d[j] >= 128
    ensures Read(d).Err? ==> Read(d).error == if |d| >= 10 then IntOverflow else UnexpectedEOF
  {
    ReadGroupsExact(d, 0);
  }

  /** Bytes after a complete varint make no difference. */
  lemma ReadIgnoresSuffix(d: bytes, rest: bytes)
    requires Read(d).Ok?
    ensures Read(d + rest) == Read(d)
  {
    var n := Read(d).value.1;
    ReadIsVarint(d);
    assert (d + rest)[..n] == d[..n];
    ReadFront(d + rest, n);
  }

  // ----- the closed form

  lemma {:induction false} Len64Bound(x: nat, b: nat)
    ensures Len64(x) <= b <==> x < Pow2(b)
  {
    if x == 0 || b == 0 {
    } else {
      Len64Bound(x / 2, b - 1);
    }
  }

  lemma {:induction false} EncodeBound(v: nat, k: nat)
    requires k >= 1
    ensures |Encode(v)| <= k <==> v < Pow2(7 * k)
    decreases k
  {
    Pow2Constants();
    Pow2Monotone(7, 7 * k);
    if v < 128 || k == 1 {
    } else {
      Pow2Add(7, 7 * (k - 1));
      EncodeBound(v / 128, k - 1);
    }
  }

  /** The closed form `(Len64(x|1)+6)/7` counts the bytes of the shortest encoding. */
  lemma SovIsLength(v: nat)
    ensures Sov(v) == |Encode(v)|
  {
    var n := |Encode(v)|;
    BitLength(v, n);
    if n > 1 {
      BitLength(v, n - 1);
    } else {
      LenOrOne(v);
    }
  }

  /** `v` fits in `k` varint bytes exactly when `v|1` has at most `7k` bits. */
  lemma BitLength(v: nat, k: nat)
    requires k >= 1
    ensures |Encode(v)| <= k <==> Len64(BitOr(v, 1)) <= 7 * k
  {
    EncodeBound(v, k);
    LenOrOne(v);
    Len64Bound(v / 2, 7 * k - 1);
    assert Pow2(7 * k) == 2 * Pow2(7 * k - 1);
  }

  lemma LenOrOne(v: nat)
    ensures Len64(BitOr(v, 1)) == 1 + Len64(v / 2)
  {
    BitOrZeroRight(v / 2);
  }

  /** A 64-bit value takes between one and ten bytes. */
  lemma AtMostTen(v: uint64)
    ensures 1 <= |Encode(v)| <= 10
  {
    Pow2Constants();
    Pow2Monotone(64, 70);
    EncodeBound(v, 10);
  }

  lemma SovRange(v: uint64)
    ensures 1 <= Sov(v) <= 10
  {
    SovIsLength(v);
    AtMostTen(v);
  }

  lemma LengthMonotone(v: nat, w: nat)
    requires v <= w
    ensures |Encode(v)| <= |Encode(w)|
  {
    EncodeBound(w, |Encode(w)|);
    EncodeBound(v, |Encode(w)|);
  }

  // ----- round trip and minimality

  /** A run of bytes that stands for `v`, with the top bit clear on the last byte only. */
  ghost predicate Shape(bs: bytes, v: nat) {
    && bs != []
    && Value(bs) == v
    && bs[|bs| - 1] < 128
    && forall k :: 0 <= k < |bs| - 1 ==> bs[k] >= 128
  }

  lemma ShapeOfOne(v: nat)
    requires v < 128
    ensures Shape([v], v)
  {
    assert [v][1..] == [];
  }

  lemma ShapeOfMore(v: nat, rest: bytes)
    requires Shape(rest, v / 128)
    ensures Shape([v % 128 + 128] + rest, v)
  {
    var bs := [v % 128 + 128] + rest;
    assert bs[1..] == rest;
    assert forall k :: 1 <= k < |bs| ==> bs[k] == rest[k - 1];
  }

  lemma {:induction false} EncodeShape(v: nat)
    ensures Shape(Encode(v), v)
  {
    hide Shape;
    if v < 128 {
      ShapeOfOne(v);
    } else {
      EncodeShape(v / 128);
      ShapeOfMore(v, Encode(v / 128));
    }
  }

  /** Reading back an encoded value gives the value and stops right after it, whatever bytes follow. */
  lemma RoundTrip(v: uint64, rest: bytes)
    ensures Read(Encode(v) + rest) == Ok((v, |Encode(v)|))
  {
    hide Value;
    var bs := Encode(v);
    AtMostTen(v);
    EncodeShape(v);
    hide Encode;
    assert (bs + rest)[..|bs|] == bs;
    ReadFront(bs + rest, |bs|);
  }

  lemma {:induction false} ValueBound(bs: bytes)
    ensures Value(bs) < Pow2(7 * |bs|)
  {
    if bs == [] {
    } else {
      ValueBound(bs[1..]);
      Pow2Add(7, 7 * (|bs| - 1));
      Pow2Constants();
    }
  }

  /** No varint of a value, padded or not, is shorter than the one the writer produces. */
  lemma ShortestForm(bs: bytes)
    requires IsVarint(bs)
    ensures |Encode(Value(bs) % TWO64)| <= |bs|
  {
    ValueBound(bs);
    EncodeBound(Value(bs) % TWO64, |bs|);
  }

  /** The same for what the reader returns: it never reads a value out of fewer bytes than the writer needs. */
  lemma ReadCost(d: bytes)
    requires Read(d).Ok?
    ensures |Encode(Read(d).value.0)| <= Read(d).value.1
  {
    ReadIsVarint(d);
    ShortestForm(d[..Read(d).value.1]);
  }

  // ----- the two loops

  /**
   * `encodeVarintIdentity` and its two copies: the bytes of `v` end just before `offset`, nothing else in the
   * buffer changes, and the index of the first byte written is returned.
   */
  method EncodeVarint(dAtA: array<byte>, offset: nat, v: uint64) returns (base: nat)
    requires Sov(v) <= offset <= dAtA.Length
    modifies dAtA
    ensures base == offset - Sov(v) == offset - |Encode(v)|
    ensures dAtA[..] == old(dAtA[..base]) + Encode(v) + old(dAtA[offset..])
  {
    SovIsLength(v);
    base := offset - Sov(v);
    WriteGroups(dAtA, base, offset, v);
  }

  /** Its loop, from the index `base` that leaves room for exactly the bytes to come. */
  method WriteGroups(dAtA: array<byte>, base: nat, ghost end: nat, v: uint64)
    requires base + |Encode(v)| == end <= dAtA.Length
    modifies dAtA
    ensures dAtA[..] == old(dAtA[..base]) + Encode(v) + old(dAtA[end..])
  {
    hide Continuation, BitOr, Encode;
    var at, w := base, v;
    ghost var done: bytes := [];
    ghost var was := dAtA[..];
    while w >= 128
      invariant 0 <= w < TWO64
      invariant base + |done| == at && at + |Encode(w)| == end
      invariant done + Encode(w) == Encode(v)
      invariant dAtA[..] == was[..base] + done + was[at..]
      decreases w
    {
      EncodeUnfold(done, w);
      WriteOne(was, base, done, w % 128 + 128);
      dAtA[at] := Continuation(w);
      done := done + [w % 128 + 128];
      w := w / 128;
      at := at + 1;
    }
    EncodeUnfold(done, w);
    WriteOne(was, base, done, w);
    dAtA[at] := w;
  }

  lemma EncodeUnfold(done: bytes, w: nat)
    ensures w < 128 ==> Encode(w) == [w]
    ensures w >= 128 ==> |Encode(w)| == 1 + |Encode(w / 128)|
    ensures w >= 128 ==> done + [w % 128 + 128] + Encode(w / 128) == done + Encode(w)
  {
  }

  lemma WriteOne(was: bytes, base: nat, done: bytes, b: byte)
    requires base + |done| < |was|
    ensures (was[..base] + done + was[base + |done|..])[base + |done| := b]
         == was[..base] + (done + [b]) + was[base + |done| + 1..]
  {
  }

  /** `uint8(v&0x7f | 0x80)`: the low seven bits, marked as not the last group. */
  function Continuation(v: nat): (b: byte)
    ensures b == v % 128 + 128
  {
    OrHighBit(v % 128);
    BitOr(v % 128, 128)
  }

  lemma OrHighBit(g: nat)
    requires g < 128
    ensures BitOr(g, 128) == g + 128
  {
    Pow2Constants();
    BitOrIsAddition(g, 1, 7);
  }

  /** How far the shift loop has come: `wire` holds the first `k` groups of `d`, and the rest is still to be read. */
  ghost predicate Reading(d: bytes, k: nat, wire: uint64) {
    && k <= |d| && k <= 10
    && wire == Value(d[..k]) % TWO64
    && (k < 10 ==> wire < Pow2(7 * k))
    && ReadGroups(d, 0) ==
       match ReadGroups(d[k..], k)
       case Err(e) => Err(e)
       case Ok((v, n)) => Ok((wire + Pow2(7 * k) * v, k + n))
  }

  lemma {:induction false} ValueAppend(bs: bytes, b: byte)
    ensures Value(bs + [b]) == Value(bs) + Pow2(7 * |bs|) * (b % 128)
  {
    if bs == [] {
      assert [] + [b] == [b] && [b][1..] == [];
    } else {
      assert (bs + [b])[1..] == bs[1..] + [b];
      ValueAppend(bs[1..], b);
      PowerStep(|bs| - 1, b % 128);
    }
  }

  lemma PowerStep(n: nat, g: nat)
    ensures Pow2(7 * (n + 1)) * g == 128 * (Pow2(7 * n) * g)
  {
    Pow2Add(7, 7 * n);
    Pow2Constants();
    hide Pow2;
    var p := Pow2(7 * n);
    assert (128 * p) * g == 128 * (p * g);
  }

  lemma ValueGrows(d: bytes, k: nat, wire: uint64, w: uint64)
    requires k < 10 && k < |d| && wire == Value(d[..k]) % TWO64
    requires w == (wire + Pow2(7 * k) * (d[k] % 128)) % TWO64
    ensures w == Value(d[..k + 1]) % TWO64
  {
    hide Pow2, Value;
    assert d[..k + 1] == d[..k] + [d[k]];
    ValueAppend(d[..k], d[k]);
    ModAdd(Value(d[..k]), Pow2(7 * k) * (d[k] % 128));
  }

  lemma ModAdd(a: nat, b: nat)
    ensures (a % TWO64 + b) % TWO64 == (a + b) % TWO64
  {
  }

  /** One round of the shift loop. */
  lemma ReadingStep(d: bytes, k: nat, wire: uint64, w: uint64)
    requires Reading(d, k, wire) && k < 10 && k < |d|
    requires w == (wire + Pow2(7 * k) * (d[k] % 128)) % TWO64
    requires k < 9 ==> w == wire + Pow2(7 * k) * (d[k] % 128) < Pow2(7 * (k + 1))
    ensures d[k] < 128 ==> Read(d) == Ok((w, k + 1))
    ensures d[k] >= 128 ==> Reading(d, k + 1, w)
  {
    hide Pow2, Value, ReadGroups;
    GroupAhead(d, k);
    if d[k] >= 128 {
      hide Read;
      ValueGrows(d, k, wire, w);
      var rest := ReadGroups(d[k + 1..], k + 1);
      if rest.Ok? {
        Regroup(wire, d[k] % 128, k, rest.value.0);
      }
    }
  }

  lemma GroupAhead(d: bytes, k: nat)
    requires k < 10 && k < |d|
    ensures ReadGroups(d[k..], k) ==
            if d[k] < 128 then Ok((d[k], 1))
            else match ReadGroups(d[k + 1..], k + 1)
              case Err(e) => Err(e)
              case Ok((v, n)) => Ok((d[k] - 128 + 128 * v, n + 1))
  {
    assert d[k..][1..] == d[k + 1..];
  }

  /**
   * The loop `for shift := uint(0); ; shift += 7 { ... }` that the generated decoders repeat for every tag, length
   * and integer, with its 64-bit shifts and its `|=`.
   */
  method DecodeVarint(dAtA: bytes, start: nat) returns (err: Option<Error>, wire: uint64, iNdEx: nat)
    requires start <= |dAtA|
    ensures start <= iNdEx <= |dAtA|
    ensures match Read(dAtA[start..])
            case Err(e) => err == Some(e) && wire == Partial(dAtA[start..])
            case Ok((v, n)) => err == None && wire == v && iNdEx == start + n
  {
    ghost var d, k := dAtA[start..], 0;
    err, wire, iNdEx := None, 0, start;
    var shift := 0;
    assert d[0..] == d;
    while true
      invariant shift == 7 * k && iNdEx == start + k
      invariant Reading(d, k, wire)
      decreases 10 - k
    {
      if shift >= 64 {
        return Some(IntOverflow), wire, iNdEx;
      }
      if iNdEx >= |dAtA| {
        return Some(UnexpectedEOF), wire, iNdEx;
      }
      var b := dAtA[iNdEx];
      iNdEx := iNdEx + 1;
      ghost var before := wire;
      wire := OrGroup(wire, b % 128, shift, k);
      ReadingStep(d, k, before, wire);
      if b < 128 {
        break;
      }
      k := k + 1;
      shift := shift + 7;
    }
  }

  /** `wire |= uint64(b&0x7F) << shift`: the group overlaps nothing that is there, and is cut at bit 63. */
  method OrGroup(wire: uint64, g: nat, shift: nat, ghost k: nat) returns (w: uint64)
    requires shift == 7 * k && k < 10 && wire < Pow2(shift) && g < 128
    ensures w == (wire + Pow2(7 * k) * g) % TWO64
    ensures k < 9 ==> w == wire + Pow2(7 * k) * g < Pow2(7 * (k + 1))
  {
    hide Pow2, BitOr, Shl;
    if k < 9 {
      AddLowGroup(wire, g, k);
    } else {
      Pow2Constants();
      AddTopGroup(wire, g, shift);
    }
    w := BitOr(wire, Shl(g, shift));
  }

  lemma AddLowGroup(wire: uint64, g: nat, k: nat)
    requires k < 9 && wire < Pow2(7 * k) && g < 128
    ensures BitOr(wire, Shl(g, 7 * k)) == wire + Pow2(7 * k) * g < Pow2(7 * (k + 1)) <= TWO63
  {
    hide BitOr;
    var p := Pow2(7 * k);
    assert Pow2(7 * (k + 1)) == 128 * p <= TWO63 by {
      Pow2Constants();
      Pow2Add(7 * k, 7);
      Pow2Monotone(7 * (k + 1), 63);
    }
    GroupFits(wire, g, p);
    BitOrIsAddition(wire, g, 7 * k);
  }

  lemma GroupFits(wire: nat, g: nat, p: nat)
    requires wire < p && g < 128 && 128 * p <= TWO63
    ensures p * g == g * p && wire + g * p < 128 * p && (g * p) % TWO64 == g * p
  {
    MulBound(g, p);
    Below64(g * p);
  }

  lemma {:induction false} MulBound(g: nat, p: nat)
    requires g <= 127
    ensures g * p <= 127 * p
    decreases 127 - g
  {
    if g == 127 {
    } else {
      assert (g + 1) * p == g * p + p;
      MulBound(g + 1, p);
    }
  }

  lemma Below64(x: nat)
    requires x < TWO64
    ensures x % TWO64 == x
  {
  }

  lemma AddTopGroup(wire: uint64, g: nat, s: nat)
    requires Pow2(s) == TWO63 && wire < Pow2(s) && g < 128
    ensures BitOr(wire, Shl(g, s)) == (wire + Pow2(s) * g) % TWO64
  {
    hide BitOr, Pow2;
    CutAtTop(wire, g);
    BitOrIsAddition(wire, g % 2, s);
  }

  lemma CutAtTop(wire: nat, g: nat)
    requires wire < TWO63
    ensures (g * TWO63) % TWO64 == (g % 2) * TWO63
    ensures (wire + TWO63 * g) % TWO64 == wire + (g % 2) * TWO63
  {
    assert g == 2 * (g / 2) + g % 2;
  }

  lemma Regroup(wire: nat, g: nat, k: nat, v: nat)
    ensures wire + Pow2(7 * k) * (g + 128 * v) == (wire + Pow2(7 * k) * g) + Pow2(7 * (k + 1)) * v
  {
    hide Pow2;
    Pow2Add(7 * k, 7);
    Pow2Constants();
    var p := Pow2(7 * k);
    assert p * (g + 128 * v) == p * g + (p * 128) * v;
  }

  // ----- filling a buffer backwards

  /** `now` is the buffer `was` with everything from `i` on replaced by `tail`. */
  ghost predicate Filled(now: bytes, was: bytes, i: nat, tail: bytes) {
    i <= |was| && now == was[..i] + tail
  }

  lemma FilledLength(now: bytes, was: bytes, i: nat, tail: bytes)
    requires Filled(now, was, i, tail)
    ensures |now| == i + |tail| && i <= |was|
  {
  }

  lemma FilledPart(before: bytes, now: bytes, was: bytes, i: nat, part: bytes, tail: bytes)
    requires i + |part| <= |was| && Filled(before, was, i + |part|, tail)
    requires now == before[..i] + part + before[i + |part|..]
    ensures Filled(now, was, i, part + tail)
  {
    assert before[..i] == was[..i] && before[i + |part|..] == tail;
  }

  lemma FilledByte(before: bytes, was: bytes, i: nat, b: byte, tail: bytes)
    requires i < |was| && Filled(before, was, i + 1, tail)
    ensures Filled(before[i := b], was, i, [b] + tail)
  {
    assert before[..i] == was[..i] && before[i + 1..] == tail;
  }

  lemma FilledUpTo(now: bytes, was: bytes, l: nat, part: bytes)
    requires |part| <= l <= |was| && Filled(now, was, l - |part|, part + was[l..])
    ensures now == was[..l - |part|] + part + was[l..]
  {
  }

  /** `copy(dAtA[i:], p)`. */
  method CopyInto(dAtA: array<byte>, i: nat, p: bytes)
    requires i + |p| <= dAtA.Length
    modifies dAtA
    ensures dAtA[..] == old(dAtA[..i]) + p + old(dAtA[i + |p|..])
  {
    forall k | 0 <= k < |p| {
      dAtA[i + k] := p[k];
    }
  }

  /** `i = encodeVarint(dAtA, i, v); i--; dAtA[i] = tag`. */
  method PrependTagged(dAtA: array<byte>, offset: nat, tag: byte, v: uint64, ghost was: bytes, ghost tail: bytes)
    returns (i: nat)
    requires 1 + |Encode(v)| <= offset && Filled(dAtA[..], was, offset, tail)
    modifies dAtA
    ensures i == offset - 1 - |Encode(v)|
    ensures Filled(dAtA[..], was, i, [tag] + Encode(v) + tail)
  {
    SovIsLength(v);
    hide Encode, Sov;
    ghost var before := dAtA[..];
    i := EncodeVarint(dAtA, offset, v);
    FilledPart(before, dAtA[..], was, i, Encode(v), tail);
    before := dAtA[..];
    i := i - 1;
    dAtA[i] := tag;
    assert dAtA[..] == before[i := tag];
    FilledByte(before, was, i, tag, Encode(v) + tail);
    assert [tag] + (Encode(v) + tail) == [tag] + Encode(v) + tail;
  }
}
