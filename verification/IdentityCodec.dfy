/** The `Identity` record and its generated codec. */
module IdentityCodec {
  import opened Machine
  import Varint
  import opened Wire
  import opened FieldGrammar

  // ----- the wire form

  /** The tag and length of a string field. */
  function Prefix(num: nat, len: nat): bytes
    requires 1 <= num <= 15
  {
    [num * 8 + 2] + Varint.Encode(len)
  }

  function BytesField(num: nat, p: bytes): bytes
    requires 1 <= num <= 15
  {
    if p == [] then [] else Prefix(num, |p|) + p
  }

  function IntField(num: nat, x: int64): bytes
    requires 1 <= num <= 15
  {
    if x == 0 then [] else [num * 8] + Varint.Encode(AsUint64(x))
  }

  /** The canonical encoding: the fields in order, those at their zero value left out. */
  function Encode(m: Identity): bytes {
    BytesField(1, m.address) + BytesField(2, m.idHash) + IntField(3, m.createdAt)
  }

  /** The fields of the encoding, in the order they are written; what is at its zero value is not. */
  function WrittenFields(m: Identity): seq<Field> {
    (if m.address != [] then [Shortest(1, m.address)] else [])
    + (if m.idHash != [] then [Shortest(2, m.idHash)] else [])
    + (if m.createdAt != 0 then [ShortestInteger(3, AsUint64(m.createdAt))] else [])
  }

  /** The encoding, byte for byte, in terms of the grammar. */
  lemma EncodeIsRun(m: Identity)
    ensures Encode(m) == AllBytes(Run(WrittenFields(m)))
    ensures m.address != [] ==> Bytes(Shortest(1, m.address)) == [0x0a] + Varint.Encode(|m.address|) + m.address
    ensures m.idHash != [] ==> Bytes(Shortest(2, m.idHash)) == [0x12] + Varint.Encode(|m.idHash|) + m.idHash
    ensures Bytes(ShortestInteger(3, AsUint64(m.createdAt))) == [0x18] + Varint.Encode(AsUint64(m.createdAt))
  {
    hide Bytes, Run, AllBytes;
    var a := if m.address != [] then [Shortest(1, m.address)] else [];
    var b := if m.idHash != [] then [Shortest(2, m.idHash)] else [];
    var c := if m.createdAt != 0 then [ShortestInteger(3, AsUint64(m.createdAt))] else [];
    RunAppend(a + b, c);
    RunAppend(a, b);
    NoFields();
    WrittenBytes(1, m.address);
    WrittenBytes(2, m.idHash);
    WrittenInteger(3, AsUint64(m.createdAt));
  }

  lemma NoFields()
    ensures AllBytes(Run([])) == []
  {
  }

  lemma WrittenBytes(num: nat, p: bytes)
    requires 1 <= num <= 15
    ensures AllBytes(Run([Shortest(num, p)])) == Bytes(Shortest(num, p)) == [8 * num + 2] + Varint.Encode(|p|) + p
  {
    RunOfOne(Shortest(num, p));
    assert Varint.Encode(8 * num + 2) == [8 * num + 2];
  }

  lemma WrittenInteger(num: nat, v: uint64)
    requires 1 <= num <= 15
    ensures AllBytes(Run([ShortestInteger(num, v)])) == Bytes(ShortestInteger(num, v)) == [8 * num] + Varint.Encode(v)
  {
    RunOfOne(ShortestInteger(num, v));
    assert Varint.Encode(8 * num) == [8 * num];
  }

  const EMPTY := Identity([], [], 0)

  /** The record fits in a Go buffer. */
  predicate Fits(m: Identity) {
    |Encode(m)| < TWO63
  }

  datatype Identity = Identity(address: bytes, idHash: bytes, createdAt: int64) {

    /** `Size`, from the closed form of the varint length. */
    function Size(): (n: nat) {
      (if |address| > 0 then 1 + |address| + Varint.Sov(|address|) else 0)
      + (if |idHash| > 0 then 1 + |idHash| + Varint.Sov(|idHash|) else 0)
      + (if createdAt != 0 then 1 + Varint.Sov(AsUint64(createdAt)) else 0)
    }

    /** `Marshal`: a buffer of exactly `Size()` bytes, filled. */
    method Marshal() returns (dAtA: array<byte>)
      requires Fits(this)
      ensures fresh(dAtA) && dAtA[..] == Encode(this)
    {
      SizeIsLength(this);
      dAtA := new byte[Size()](_ => 0);
      var n := MarshalToSizedBuffer(dAtA, dAtA.Length);
    }

    /**
     * `MarshalToSizedBuffer(dAtA[:l])`: the encoding ends at `l`, and neither the bytes before it nor those from
     * `l` on are touched.
     */
    method MarshalToSizedBuffer(dAtA: array<byte>, l: nat) returns (n: nat)
      requires Size() <= l <= dAtA.Length && l < TWO63
      modifies dAtA
      ensures n == Size() == |Encode(this)|
      ensures dAtA[..] == old(dAtA[..l - n]) + Encode(this) + old(dAtA[l..])
    {
      SizeIsLength(this);
      hide BytesField, IntField, Varint.Filled, Identity.Size;
      ghost var was, rest := dAtA[..], dAtA[l..];
      FieldsInOrder(this, rest);
      StartFilling(was, l);
      var i := PrependInt(dAtA, l, 3, createdAt, was, rest);
      i := PrependBytes(dAtA, i, 2, idHash, was, IntField(3, createdAt) + rest);
      i := PrependBytes(dAtA, i, 1, address, was, BytesField(2, idHash) + (IntField(3, createdAt) + rest));
      n := l - i;
      Varint.FilledUpTo(dAtA[..], was, l, Encode(this));
    }
  }

  lemma FieldsInOrder(m: Identity, rest: bytes)
    ensures BytesField(1, m.address) + (BytesField(2, m.idHash) + (IntField(3, m.createdAt) + rest)) == Encode(m) + rest
    ensures |Encode(m)| == |BytesField(1, m.address)| + |BytesField(2, m.idHash)| + |IntField(3, m.createdAt)|
  {
  }

  lemma StartFilling(was: bytes, l: nat)
    requires l <= |was|
    ensures Varint.Filled(was, was, l, was[l..])
  {
  }

  /** The block for one integer field: skipped at zero, else the value with the tag in front of it. */
  method PrependInt(dAtA: array<byte>, offset: nat, num: nat, x: int64, ghost was: bytes, ghost tail: bytes)
    returns (i: nat)
    requires 1 <= num <= 15
    requires |IntField(num, x)| <= offset && Varint.Filled(dAtA[..], was, offset, tail)
    modifies dAtA
    ensures i == offset - |IntField(num, x)|
    ensures Varint.Filled(dAtA[..], was, i, IntField(num, x) + tail)
  {
    hide Varint.Encode, Varint.Filled;
    i := offset;
    if x != 0 {
      i := Varint.PrependTagged(dAtA, i, num * 8, AsUint64(x), was, tail);
    } else {
      assert [] + tail == tail;
    }
  }

  /** The block for one string field: skipped if empty, else bytes, then length, then tag, back to front. */
  method PrependBytes(dAtA: array<byte>, offset: nat, num: nat, p: bytes, ghost was: bytes, ghost tail: bytes)
    returns (i: nat)
    requires 1 <= num <= 15
    requires |BytesField(num, p)| <= offset <= |was| && offset < TWO63 && Varint.Filled(dAtA[..], was, offset, tail)
    modifies dAtA
    ensures i == offset - |BytesField(num, p)|
    ensures Varint.Filled(dAtA[..], was, i, BytesField(num, p) + tail)
  {
    hide Varint.Encode, Varint.Filled;
    i := offset;
    assert offset <= dAtA.Length by {
      Varint.FilledLength(dAtA[..], was, offset, tail);
    }
    if |p| > 0 {
      i := i - |p|;
      ghost var before := dAtA[..];
      Varint.CopyInto(dAtA, i, p);
      Varint.FilledPart(before, dAtA[..], was, i, p, tail);
      i := Varint.PrependTagged(dAtA, i, num * 8 + 2, |p|, was, p + tail);
      BytesFieldThen(num, p, tail);
    } else {
      assert [] + tail == tail;
    }
  }

  lemma BytesFieldThen(num: nat, p: bytes, tail: bytes)
    requires 1 <= num <= 15 && p != []
    ensures BytesField(num, p) + tail == [num * 8 + 2] + Varint.Encode(|p|) + (p + tail)
  {
    Associative(Prefix(num, |p|), p, tail);
  }

  lemma Associative(a: bytes, b: bytes, c: bytes)
    ensures a + b + c == a + (b + c)
  {
  }

  /** `Size` is the length of what is written. */
  lemma SizeIsLength(m: Identity)
    ensures m.Size() == |Encode(m)|
  {
    Varint.SovIsLength(|m.address|);
    Varint.SovIsLength(|m.idHash|);
    Varint.SovIsLength(AsUint64(m.createdAt));
  }

  // ----- decoding

  function KindOf(num: int): Kind {
    if num == 1 || num == 2 then Len else if num == 3 then Int else Unknown
  }

  function Assign(m: Identity, t: Token): Result<Identity, Error> {
    match t
    case Chunk(num, p) => Ok(if num == 1 then m.(address := p) else if num == 2 then m.(idHash := p) else m)
    case Scalar(num, v) => Ok(if num == 3 then m.(createdAt := AsInt64(v)) else m)
    case Skipped => Ok(m)
  }

  function MessageSchema(): Schema<Identity> {
    Schema(KindOf, Assign)
  }

  /** What unmarshalling into `m` computes. */
  function DecodeInto(d: bytes, m: Identity): Result<Identity, Error> {
    Decode(MessageSchema(), d, 0, m)
  }

  /** What a field that cannot be read leaves behind: field 3 is cleared first, and then holds the groups read. */
  function Half(d: bytes, i: nat, m: Identity): Identity
    requires i < |d|
  {
    match Header(d, i)
    case Err(_) => m
    case Ok((num, wireType, j)) =>
      if num == 3 && wireType == 0 then m.(createdAt := AsInt64(Varint.Partial(d[j..]))) else m
  }

  /** What is in the receiver after unmarshalling `d[i..]` into `m`, be it to the end or to the first error. */
  function Leftover(d: bytes, i: nat, m: Identity): Identity
    requires i <= |d|
    decreases |d| - i
  {
    if i == |d| then m
    else match ReadToken(KindOf, d, i)
      case Err(_) => Half(d, i, m)
      case Ok((t, j)) => Leftover(d, j, Assign(m, t).value)
  }

  /** A `*Identity` receiver. */
  class IdentityRef {
    var address: bytes
    var idHash: bytes
    var createdAt: int64

    constructor (m: Identity)
      ensures Value() == m
    {
      address, idHash, createdAt := m.address, m.idHash, m.createdAt;
    }

    function Value(): Identity
      reads this
    {
      Identity(address, idHash, createdAt)
    }

    /** `Unmarshal`. */
    method Unmarshal(dAtA: bytes) returns (err: Option<Error>)
      requires |dAtA| < TWO63
      modifies this
      ensures Value() == Leftover(dAtA, 0, old(Value()))
      ensures match DecodeInto(dAtA, old(Value()))
              case Err(e) => err == Some(e)
              case Ok(m) => err == None && Value() == m
    {
      hide ReadToken, Half;
      var l: int64 := |dAtA|;
      var iNdEx: int64 := 0;
      while iNdEx < l
        invariant 0 <= iNdEx <= l
        invariant DecodeInto(dAtA, old(Value())) == Decode(MessageSchema(), dAtA, iNdEx, Value())
        invariant Leftover(dAtA, 0, old(Value())) == Leftover(dAtA, iNdEx, Value())
        decreases l - iNdEx
      {
        iNdEx, err := UnmarshalField(dAtA, iNdEx);
        if err != None {
          return;
        }
      }
      err := if iNdEx > l then Some(UnexpectedEOF) else None;
    }

    /** The body of that loop: one field. */
    method UnmarshalField(dAtA: bytes, preIndex: int64) returns (iNdEx: int64, err: Option<Error>)
      requires 0 <= preIndex < |dAtA| < TWO63
      modifies this
      ensures match ReadToken(KindOf, dAtA, preIndex)
              case Err(e) => err == Some(e) && Value() == Half(dAtA, preIndex, old(Value()))
              case Ok((t, j)) => err == None && iNdEx == j && Assign(old(Value()), t) == Ok(Value())
    {
      hide Varint.Read, Skip, Header;
      var fieldNum: int, wireType: nat;
      err, fieldNum, wireType, iNdEx := ReadTag(dAtA, preIndex);
      if err != None {
        return;
      }
      if fieldNum == 1 {
        if wireType != 2 {
          return iNdEx, Some(WrongWireType(fieldNum, wireType));
        }
        var postIndex: int64;
        err, iNdEx, postIndex := ReadLength(dAtA, iNdEx);
        if err != None {
          return;
        }
        address := dAtA[iNdEx..postIndex];
        iNdEx := postIndex;
      } else if fieldNum == 2 {
        if wireType != 2 {
          return iNdEx, Some(WrongWireType(fieldNum, wireType));
        }
        var postIndex: int64;
        err, iNdEx, postIndex := ReadLength(dAtA, iNdEx);
        if err != None {
          return;
        }
        idHash := dAtA[iNdEx..postIndex];
        iNdEx := postIndex;
      } else if fieldNum == 3 {
        if wireType != 0 {
          return iNdEx, Some(WrongWireType(fieldNum, wireType));
        }
        var v: uint64;
        createdAt := 0;
        err, v, iNdEx := ReadVarint(dAtA, iNdEx);
        createdAt := AsInt64(v);
      } else {
        err, iNdEx := SkipUnknown(dAtA, preIndex);
      }
    }
  }

  /** Bytes `n` to `k` of `d` are a tag of field 3 with an integer. */
  ghost predicate IsTimeTag(d: bytes, n: nat, k: nat) {
    n < k <= |d| && IsTag(d[n..k], 0) && TagNumber(d[n..k]) == 3
  }

  /** The groups from `k` on that the shift loop gets to see, as a time. */
  function CutTime(d: bytes, k: nat): int64
    requires k <= |d|
  {
    AsInt64(Varint.Value(d[k..if k + 10 <= |d| then k + 10 else |d|]) % TWO64)
  }

  lemma HalfIsTime(d: bytes, n: nat, m: Identity)
    requires n < |d|
    ensures forall k :: IsTimeTag(d, n, k) ==> Half(d, n, m) == m.(createdAt := CutTime(d, k))
    ensures (forall k :: !IsTimeTag(d, n, k)) ==> Half(d, n, m) == m
  {
    hide Varint.Read, Varint.IsVarint, Varint.Value;
    forall k: nat | IsTimeTag(d, n, k) ensures Half(d, n, m) == m.(createdAt := CutTime(d, k)) {
      TagGivesHeader(d, n, d[n..k], 0);
      assert d[k..if k + 10 <= |d| then k + 10 else |d|] == d[k..][..if |d[k..]| < 10 then |d[k..]| else 10];
    }
    if Header(d, n).Ok? {
      HeaderIsTag(d, n);
      var (num, wireType, j) := Header(d, n).value;
      assert num == 3 && wireType == 0 ==> IsTimeTag(d, n, j);
    }
  }

  /**
   * What a failing call leaves in the receiver is what the fields before the failing one decode to, except that if
   * that one is field 3, an integer without an end, the groups of it that were read are there.
   */
  lemma {:induction false} LeftoverIsPrefix(d: bytes, i: nat, m: Identity) returns (n: nat)
    requires i <= |d| < TWO63 && Decode(MessageSchema(), d, i, m).Err?
    ensures i <= n < |d| && ReadToken(KindOf, d, n).Err?
    ensures Decode(MessageSchema(), d[..n], i, m).Ok?
    ensures var before := Decode(MessageSchema(), d[..n], i, m).value;
            && (forall k :: IsTimeTag(d, n, k) ==> Leftover(d, i, m) == before.(createdAt := CutTime(d, k)))
            && ((forall k :: !IsTimeTag(d, n, k)) ==> Leftover(d, i, m) == before)
    decreases |d| - i
  {
    hide IsTimeTag, CutTime, Half;
    if ReadToken(KindOf, d, i).Err? {
      n := i;
      HalfIsTime(d, n, m);
    } else {
      hide ReadToken;
      var (t, j) := ReadToken(KindOf, d, i).value;
      n := LeftoverIsPrefix(d, j, Assign(m, t).value);
      TokenTruncated(KindOf, d, i, n);
    }
  }

  // ----- what an input stands for

  /** The message takes these fields: no number below 1, and the three it knows have the wire type it expects. */
  ghost predicate Takes(fs: Fields) {
    fs.Cons? ==>
      var n := Number(fs.head);
      && n > 0
      && (n == 1 || n == 2 ==> fs.head.Delimited?)
      && (n == 3 ==> fs.head.Integer?)
      && Takes(fs.tail)
  }

  /** The last field with a number. */
  ghost function LastWith(fs: Fields, n: int): Option<Field> {
    match fs
    case Nil => None
    case Cons(f, rest) =>
      if LastWith(rest, n).Some? then LastWith(rest, n) else if Number(f) == n then Some(f) else None
  }

  /** For each field of the record the last one in the run decides, even if it is empty or zero. */
  ghost predicate LastDecides(fs: Fields, m: Identity, x: Identity) {
    && (match LastWith(fs, 1)
        case None => x.address == m.address
        case Some(f) => f.Delimited? && x.address == f.payload)
    && (match LastWith(fs, 2)
        case None => x.idHash == m.idHash
        case Some(f) => f.Delimited? && x.idHash == f.payload)
    && (match LastWith(fs, 3)
        case None => x.createdAt == m.createdAt
        case Some(f) => f.Integer? && x.createdAt == AsInt64(Varint.Value(f.payload) % TWO64))
  }

  lemma {:induction false} FoldTakesLast(fs: Fields, m: Identity)
    ensures Takes(fs) <==> Fold(MessageSchema(), fs, m).Some?
    ensures Takes(fs) ==> LastDecides(fs, m, Fold(MessageSchema(), fs, m).value)
    decreases fs
  {
    if fs.Nil? {
    } else {
      hide Number, Varint.Value;
      match TokenOf(KindOf, fs.head)
      case None =>
      case Some(t) =>
        FoldTakesLast(fs.tail, Assign(m, t).value);
    }
  }

  lemma LastDecidesOne(fs: Fields, m: Identity, x: Identity, y: Identity)
    requires LastDecides(fs, m, x) && LastDecides(fs, m, y)
    ensures x == y
  {
    hide LastWith;
  }

  /**
   * An input decodes to `x` exactly if it is a run of fields the message takes, of which the last with each number
   * decides; numbers other than 1, 2 and 3 decide nothing.
   */
  lemma DecodeTakesLast(d: bytes, m: Identity, x: Identity)
    requires |d| < TWO63
    ensures DecodeInto(d, m) == Ok(x) <==>
            exists fs :: AllWellFormed(fs) && AllBytes(fs) == d && Takes(fs) && LastDecides(fs, m, x)
  {
    hide Decode, AllWellFormed, AllBytes, Fold, Takes, LastDecides;
    DecodeIsExact(MessageSchema(), d, m, x);
    if DecodeInto(d, m) == Ok(x) {
      var fs :| AllWellFormed(fs) && AllBytes(fs) == d && Fold(MessageSchema(), fs, m) == Some(x);
      FoldTakesLast(fs, m);
    }
    forall fs | AllWellFormed(fs) && AllBytes(fs) == d && Takes(fs) && LastDecides(fs, m, x)
      ensures DecodeInto(d, m) == Ok(x)
    {
      FoldTakesLast(fs, m);
      LastDecidesOne(fs, m, x, Fold(MessageSchema(), fs, m).value);
    }
  }

  // ----- round trip

  /** Decoding `x` on top of `m`: the fields `x` sets replace those of `m`, its zero fields leave them alone. */
  function Merge(m: Identity, x: Identity): Identity {
    Identity(
      if x.address == [] then m.address else x.address,
      if x.idHash == [] then m.idHash else x.idHash,
      if x.createdAt == 0 then m.createdAt else x.createdAt)
  }

  lemma DecodeBytesField(num: nat, p: bytes, m: Identity)
    requires num == 1 || num == 2
    requires |BytesField(num, p)| < TWO63
    ensures DecodeInto(BytesField(num, p), m) == if p == [] then Ok(m) else Assign(m, Chunk(num, p))
  {
    if p != [] {
      DecodeChunk(MessageSchema(), num, p, m);
    }
  }

  lemma DecodeIntField(x: int64, m: Identity)
    ensures DecodeInto(IntField(3, x), m) == if x == 0 then Ok(m) else Ok(m.(createdAt := x))
  {
    if x != 0 {
      DecodeScalar(MessageSchema(), 3, AsUint64(x), m);
      Int64RoundTrip(x);
    }
  }

  /** Unmarshalling an encoded record into any receiver merges the two; the later value of a field wins. */
  lemma DecodeMerges(x: Identity, m: Identity)
    requires Fits(x)
    ensures DecodeInto(Encode(x), m) == Ok(Merge(m, x))
  {
    hide Decode;
    var a, b, c := BytesField(1, x.address), BytesField(2, x.idHash), IntField(3, x.createdAt);
    var m1 := m.(address := Merge(m, x).address);
    var m2 := m1.(idHash := Merge(m, x).idHash);
    DecodeBytesField(1, x.address, m);
    DecodeBytesField(2, x.idHash, m1);
    DecodeIntField(x.createdAt, m2);
    DecodeBoth(MessageSchema(), a, b, m, m1, m2);
    DecodeBoth(MessageSchema(), a + b, c, m, m2, Merge(m, x));
  }

  /** Every record comes back from its encoding. */
  lemma RoundTrip(x: Identity)
    requires Fits(x)
    ensures DecodeInto(Encode(x), EMPTY) == Ok(x)
  {
    DecodeMerges(x, EMPTY);
  }

  /** Two records in one input: last one wins, field by field. */
  lemma LastOneWins(x: Identity, y: Identity, m: Identity)
    requires |Encode(x)| + |Encode(y)| < TWO63
    ensures DecodeInto(Encode(x) + Encode(y), m) == Ok(Merge(Merge(m, x), y))
  {
    DecodeMerges(x, m);
    DecodeMerges(y, Merge(m, x));
    DecodeBoth(MessageSchema(), Encode(x), Encode(y), m, Merge(m, x), Merge(Merge(m, x), y));
  }

  /** A run of fields numbered above 3. */
  ghost predicate AllAbove3(fs: Fields) {
    fs.Cons? ==> Number(fs.head) > 3 && AllAbove3(fs.tail)
  }

  /** A run of whole fields that a record does not know. */
  ghost predicate Foreign(us: Fields) {
    AllWellFormed(us) && AllAbove3(us)
  }

  /** An encoded record with other fields before, between and after its own. */
  ghost function Interleaved(x: Identity, u0: Fields, u1: Fields, u2: Fields, u3: Fields): bytes {
    AllBytes(u0) + BytesField(1, x.address) + AllBytes(u1) + BytesField(2, x.idHash)
    + AllBytes(u2) + IntField(3, x.createdAt) + AllBytes(u3)
  }

  lemma {:induction false} AboveIsUnknown(fs: Fields)
    requires AllAbove3(fs)
    ensures AllUnknown(MessageSchema(), fs)
    decreases fs
  {
    if fs.Nil? {
    } else {
      hide Number;
      AboveIsUnknown(fs.tail);
    }
  }

  /** Unknown fields before, between and after the fields of an encoded record do not change what it decodes to. */
  lemma UnknownFieldsAnywhere(x: Identity, u0: Fields, u1: Fields, u2: Fields, u3: Fields)
    requires Foreign(u0) && Foreign(u1) && Foreign(u2) && Foreign(u3)
    requires |Interleaved(x, u0, u1, u2, u3)| < TWO63
    ensures DecodeInto(Interleaved(x, u0, u1, u2, u3), EMPTY) == Ok(x)
  {
    hide Decode, AllBytes, AllWellFormed, BytesField, IntField;
    var m1 := EMPTY.(address := x.address);
    var m2 := m1.(idHash := x.idHash);
    var d := AllBytes(u0);
    SkipsAbove3(u0, EMPTY);
    DecodeBytesField(1, x.address, EMPTY);
    DecodeBoth(MessageSchema(), d, BytesField(1, x.address), EMPTY, EMPTY, m1);
    d := d + BytesField(1, x.address);
    SkipsAbove3(u1, m1);
    DecodeBoth(MessageSchema(), d, AllBytes(u1), EMPTY, m1, m1);
    d := d + AllBytes(u1);
    DecodeBytesField(2, x.idHash, m1);
    DecodeBoth(MessageSchema(), d, BytesField(2, x.idHash), EMPTY, m1, m2);
    d := d + BytesField(2, x.idHash);
    SkipsAbove3(u2, m2);
    DecodeBoth(MessageSchema(), d, AllBytes(u2), EMPTY, m2, m2);
    d := d + AllBytes(u2);
    DecodeIntField(x.createdAt, m2);
    DecodeBoth(MessageSchema(), d, IntField(3, x.createdAt), EMPTY, m2, x);
    d := d + IntField(3, x.createdAt);
    SkipsAbove3(u3, x);
    DecodeBoth(MessageSchema(), d, AllBytes(u3), EMPTY, x, x);
  }

  lemma SkipsAbove3(us: Fields, m: Identity)
    requires Foreign(us) && |AllBytes(us)| < TWO63
    ensures DecodeInto(AllBytes(us), m) == Ok(m)
  {
    AboveIsUnknown(us);
    UnknownIsSkipped(MessageSchema(), us, m);
  }

  /** In bytes: a field whose tag stands for a number from 4 to 2^31 - 1, put anywhere between two fields. */
  lemma UnknownNumber(a: bytes, f: Field, n: nat, b: bytes, m: Identity)
    requires WellFormed(f) && Varint.Value(f.tag) % TWO64 == 8 * n + WireType(f) && 4 <= n < 0x8000_0000
    requires |a| + |Bytes(f)| + |b| < TWO63 && DecodeInto(a, m).Ok?
    ensures var without, with := DecodeInto(a + b, m), DecodeInto(a + Bytes(f) + b, m);
            (with.Ok? <==> without.Ok?) && (without.Ok? ==> with == without)
  {
    UnknownTagTransparency(MessageSchema(), a, f, n, b, m);
  }

  /** Distinct records have distinct encodings. */
  lemma EncodeInjective(x: Identity, y: Identity)
    requires Fits(x) && Encode(x) == Encode(y)
    ensures x == y
  {
    RoundTrip(x);
    RoundTrip(y);
  }

  // ----- minimality

  lemma EmptyEncoding()
    ensures Encode(EMPTY) == []
  {
  }

  lemma AssignGrowth(m: Identity, t: Token)
    ensures var m' := Assign(m, t).value;
            |Encode(m')| <= |Encode(m)| +
            match t
            case Scalar(_, v) => 1 + |Varint.Encode(v)|
            case Chunk(_, p) => 1 + |Varint.Encode(|p|)| + |p|
            case Skipped => 1
  {
    hide Varint.Encode;
  }

  lemma {:induction false} DecodeGrowth(d: bytes, i: nat, m: Identity)
    requires i <= |d| && Decode(MessageSchema(), d, i, m).Ok?
    ensures |Encode(Decode(MessageSchema(), d, i, m).value)| <= |Encode(m)| + |d| - i
    decreases |d| - i
  {
    if i == |d| {
    } else {
      hide ReadToken, Encode;
      var (t, j) := ReadToken(KindOf, d, i).value;
      TokenCost(KindOf, d, i);
      AssignGrowth(m, t);
      DecodeGrowth(d, j, Assign(m, t).value);
    }
  }

  /**
   * No input decodes to a record with fewer bytes than `Size` gives, although the decoder takes padded varints,
   * repeated fields and unknown fields.
   */
  lemma ShortestEncoding(d: bytes, x: Identity)
    requires DecodeInto(d, EMPTY) == Ok(x)
    ensures x.Size() <= |d|
  {
    DecodeGrowth(d, 0, EMPTY);
    SizeIsLength(x);
  }

  /**
   * The same input in two calls instead of one, with the exact exception: the error kind may differ. Here a length
   * of 2^63-11 runs past the end of the second part by itself, and wraps around once two more bytes precede it.
   */
  lemma ErrorKindDependsOnPosition()
    ensures var a, b := [0x18, 0x00], [0x0a, 0xf5, 0xff, 0xff, 0xff, 0xff, 0xff, 0xff, 0xff, 0x7f];
            && DecodeInto(a, EMPTY) == Ok(EMPTY)
            && DecodeInto(b, EMPTY) == Err(UnexpectedEOF)
            && DecodeInto(a + b, EMPTY) == Err(InvalidLength)
  {
    var a, b := [0x18, 0x00], [0x0a, 0xf5, 0xff, 0xff, 0xff, 0xff, 0xff, 0xff, 0xff, 0x7f];
    assert a == [3 * 8] + Varint.Encode(0);
    DecodeScalar(MessageSchema(), 3, 0, EMPTY);
    HugeLength(b);
    hide Decode, Overrun;
    Concatenation(MessageSchema(), a, b, EMPTY);
  }

  lemma HugeLength(b: bytes)
    requires b == [0x0a, 0xf5, 0xff, 0xff, 0xff, 0xff, 0xff, 0xff, 0xff, 0x7f]
    ensures DecodeInto(b, EMPTY) == Err(UnexpectedEOF) && Overrun(MessageSchema(), b, 0, EMPTY) == TWO63 - 1
  {
    hide Varint.Read, Header;
    SmallTag(b, 1, 2);
    ReadsLong(b[1..]);
    assert Locate(KindOf, b, 0) == Ok(Place(1, Len, 0, 10, TWO63 - 1));
  }

  lemma ReadsLong(len: bytes)
    requires len == [0xf5, 0xff, 0xff, 0xff, 0xff, 0xff, 0xff, 0xff, 0x7f]
    ensures Varint.Read(len) == Ok((TWO63 - 11, 9))
  {
    assert len[..9] == len;
    assert len[1..] == [0xff, 0xff, 0xff, 0xff, 0xff, 0xff, 0xff, 0x7f];
    assert len[2..] == [0xff, 0xff, 0xff, 0xff, 0xff, 0xff, 0x7f];
    assert len[3..] == [0xff, 0xff, 0xff, 0xff, 0xff, 0x7f];
    assert len[4..] == [0xff, 0xff, 0xff, 0xff, 0x7f];
    assert len[5..] == [0xff, 0xff, 0xff, 0x7f];
    assert len[6..] == [0xff, 0xff, 0x7f];
    assert len[7..] == [0xff, 0x7f];
    assert len[8..] == [0x7f];
    assert Varint.Value(len[8..]) == 0x7f;
    assert Varint.Value(len[7..]) == 0x3fff;
    assert Varint.Value(len[6..]) == 0x1fffff;
    assert Varint.Value(len[5..]) == 0xfffffff;
    assert Varint.Value(len[4..]) == 0x7ffffffff;
    assert Varint.Value(len[3..]) == 0x3ffffffffff;
    assert Varint.Value(len[2..]) == 0x1ffffffffffff;
    assert Varint.Value(len[1..]) == 0xffffffffffffff;
    assert Varint.Value(len) == TWO63 - 11;
    Varint.ReadFront(len, 9);
  }
}
