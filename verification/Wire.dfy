/**
 * The wire format shared by the three generated decoders (Protocol Buffers Encoding, sections "Message Structure",
 * "Length-Delimited Records" and "Groups"): the skipper for fields a message does not know, the reader of one
 * field, and decoding as a fold over fields. A message type is given by its `Schema`.
 */
module Wire {
  import opened Machine
  import Varint

  // ----- skipping one field

  /** `iNdEx += n` followed by the check `iNdEx < 0`: the sum wraps, or it does not. */
  function Jump(i: nat, n: nat): Result<nat, Error> {
    if i + n >= TWO63 then Err(InvalidLength) else Ok(i + n)
  }

  /** The payload at `j` under a tag of the given wire type: the index after it, and the new group depth. */
  function SkipPayload(d: bytes, j: nat, wireType: nat, depth: nat): (r: Result<(nat, nat), Error>)
    requires j <= |d|
    ensures r.Ok? ==> r.value.0 >= j && depth - 1 <= r.value.1 <= depth + 1
  {
    match wireType
    case 0 => (match Varint.Read(d[j..])
               case Err(e) => Err(e)
               case Ok((_, m)) => Ok((j + m, depth)))
    case 1 => At(Jump(j, 8), depth)
    case 2 => (match Varint.Read(d[j..])
               case Err(e) => Err(e)
               case Ok((len, m)) => At(Jump(j + m, len), depth))
    case 3 => Ok((j, depth + 1))
    case 4 => if depth == 0 then Err(UnexpectedEndOfGroup) else Ok((j, depth - 1))
    case 5 => At(Jump(j, 4), depth)
    case t => Err(IllegalWireType(t))
  }

  /** One round of the skipper's loop: the index after the tag and payload at `i`, and the new group depth. */
  function SkipElement(d: bytes, i: nat, depth: nat): (r: Result<(nat, nat), Error>)
    requires i < |d|
    ensures r.Ok? ==> r.value.0 > i && depth - 1 <= r.value.1 <= depth + 1
  {
    match Varint.Read(d[i..])
    case Err(e) => Err(e)
    case Ok((wire, n)) => SkipPayload(d, i + n, wire % 8, depth)
  }

  function At(r: Result<nat, Error>, depth: nat): Result<(nat, nat), Error> {
    match r
    case Err(e) => Err(e)
    case Ok(j) => Ok((j, depth))
  }

  /**
   * `skipIdentity`, `skipGenesis` and `skipParams`, from index `i` with `depth` groups open: the index at which the
   * last of them is closed. The index may lie beyond the input; the caller checks.
   */
  function Skip(d: bytes, i: nat, depth: nat): (r: Result<nat, Error>)
    ensures r.Ok? ==> r.value > i
    decreases |d| - i
  {
    if i >= |d| then Err(UnexpectedEOF)
    else match SkipElement(d, i, depth)
      case Err(e) => Err(e)
      case Ok((j, depth')) => if depth' == 0 then Ok(j) else Skip(d, j, depth')
  }

  lemma SkipElementIgnoresSuffix(d: bytes, rest: bytes, i: nat, depth: nat)
    requires i < |d| && SkipElement(d, i, depth).Ok?
    ensures SkipElement(d + rest, i, depth) == SkipElement(d, i, depth)
  {
    var e := d + rest;
    assert e[i..] == d[i..] + rest;
    Varint.ReadIgnoresSuffix(d[i..], rest);
    var (wire, n) := Varint.Read(d[i..]).value;
    var j := i + n;
    if wire % 8 == 0 || wire % 8 == 2 {
      assert e[j..] == d[j..] + rest;
      Varint.ReadIgnoresSuffix(d[j..], rest);
    }
  }

  /** The skipper's answer depends only on the bytes it has passed over. */
  lemma {:induction false} SkipIgnoresSuffix(d: bytes, rest: bytes, i: nat, depth: nat)
    requires Skip(d, i, depth).Ok?
    ensures Skip(d + rest, i, depth) == Skip(d, i, depth)
    decreases |d| - i
  {
    SkipElementIgnoresSuffix(d, rest, i, depth);
    var (j, depth') := SkipElement(d, i, depth).value;
    if depth' == 0 {
    } else {
      SkipIgnoresSuffix(d, rest, j, depth');
    }
  }

  /** The skipper as it is written: one loop over `iNdEx` and `depth`, with wrapping arithmetic. */
  method SkipField(dAtA: bytes) returns (err: Option<Error>, n: int64)
    requires |dAtA| < TWO63
    ensures match Skip(dAtA, 0, 0)
            case Err(e) => err == Some(e)
            case Ok(j) => err == None && n == j
  {
    var l: int64 := |dAtA|;
    var iNdEx: int64 := 0;
    var depth := 0;
    while iNdEx < l
      invariant 0 <= iNdEx && 0 <= depth
      invariant Skip(dAtA, 0, 0) == Skip(dAtA, iNdEx, depth)
      decreases l - iNdEx
    {
      err, iNdEx, depth := SkipRound(dAtA, iNdEx, depth);
      if err != None {
        return err, 0;
      }
      if depth == 0 {
        return None, iNdEx;
      }
    }
    return Some(UnexpectedEOF), 0;
  }

  /** The body of that loop. */
  method SkipRound(dAtA: bytes, start: int64, open: nat) returns (err: Option<Error>, iNdEx: int64, depth: nat)
    requires 0 <= start < |dAtA| < TWO63
    ensures match SkipElement(dAtA, start, open)
            case Err(e) => err == Some(e)
            case Ok((j, d)) => err == None && iNdEx == j && depth == d
  {
    var wire: uint64;
    depth := open;
    err, wire, iNdEx := ReadVarint(dAtA, start);
    if err != None {
      return;
    }
    var wireType := wire % 8;
    if wireType == 0 {
      err, wire, iNdEx := ReadVarint(dAtA, iNdEx);
      if err != None {
        return;
      }
    } else if wireType == 1 {
      GuardIsExact(iNdEx, |dAtA|, 8);
      iNdEx := AddInt(iNdEx, 8);
    } else if wireType == 2 {
      err, wire, iNdEx := ReadVarint(dAtA, iNdEx);
      if err != None {
        return;
      }
      GuardIsExact(iNdEx, |dAtA|, wire);
      var length := AsInt64(wire);
      if length < 0 {
        err := Some(InvalidLength);
        return;
      }
      iNdEx := AddInt(iNdEx, length);
    } else if wireType == 3 {
      depth := depth + 1;
    } else if wireType == 4 {
      if depth == 0 {
        err := Some(UnexpectedEndOfGroup);
        return;
      }
      depth := depth - 1;
    } else if wireType == 5 {
      GuardIsExact(iNdEx, |dAtA|, 4);
      iNdEx := AddInt(iNdEx, 4);
    } else {
      err := Some(IllegalWireType(wireType));
      return;
    }
    if iNdEx < 0 {
      err := Some(InvalidLength);
    }
  }

  /** The shift loop, on Go's `int` indices. */
  method ReadVarint(dAtA: bytes, start: int64) returns (err: Option<Error>, wire: uint64, iNdEx: int64)
    requires 0 <= start <= |dAtA| < TWO63
    ensures start <= iNdEx <= |dAtA|
    ensures match Varint.Read(dAtA[start..])
            case Err(e) => err == Some(e) && wire == Varint.Partial(dAtA[start..])
            case Ok((v, n)) => err == None && wire == v && iNdEx == start + n
  {
    err, wire, iNdEx := Varint.DecodeVarint(dAtA, start);
  }

  // ----- reading one field

  /** How a message treats a field number: as bytes or a nested message, as an integer, or not at all. */
  datatype Kind = Len | Int | Unknown

  /** What one field contributes. */
  datatype Token =
    | Scalar(num: int, value: uint64)
    | Chunk(num: int, payload: bytes)
    | Skipped

  /** Where the field at some index lies according to its own header, before any check against the input's end. */
  datatype Place = Place(num: int, kind: Kind, value: uint64, start: nat, end: nat)

  /** The tag at `i`: field number, wire type, and the index after it. */
  function Header(d: bytes, i: nat): (r: Result<(int, nat, nat), Error>)
    requires i < |d|
    ensures r.Ok? ==> r.value.0 > 0 && i < r.value.2 <= |d|
  {
    match Varint.Read(d[i..])
    case Err(e) => Err(e)
    case Ok((wire, n)) =>
      var num, wireType := AsInt32(wire / 8), wire % 8;
      if wireType == 4 then Err(EndGroup)
      else if num <= 0 then Err(IllegalTag(num, wire))
      else Ok((num, wireType, i + n))
  }

  function Locate(kind: int -> Kind, d: bytes, i: nat): (r: Result<Place, Error>)
    requires i < |d|
    ensures r.Ok? ==> i <= r.value.start <= r.value.end && i < r.value.end
  {
    match Header(d, i)
    case Err(e) => Err(e)
    case Ok((num, wireType, j)) =>
      match kind(num)
      case Len =>
        if wireType != 2 then Err(WrongWireType(num, wireType))
        else (match Varint.Read(d[j..])
              case Err(e) => Err(e)
              case Ok((len, m)) => Ok(Place(num, Len, 0, j + m, j + m + len)))
      case Int =>
        if wireType != 0 then Err(WrongWireType(num, wireType))
        else (match Varint.Read(d[j..])
              case Err(e) => Err(e)
              case Ok((v, m)) => Ok(Place(num, Int, v, j, j + m)))
      case Unknown =>
        (match Skip(d[i..], 0, 0)
         case Err(e) => Err(e)
         case Ok(n) => Ok(Place(num, Unknown, 0, i, i + n)))
  }

  /** The checks on a claimed end: has it wrapped around, is it in the input? */
  function CheckEnd(d: bytes, end: nat): Option<Error> {
    if end >= TWO63 then Some(InvalidLength)
    else if end > |d| then Some(UnexpectedEOF)
    else None
  }

  /** The field at `i` and the index after it. */
  function ReadToken(kind: int -> Kind, d: bytes, i: nat): (r: Result<(Token, nat), Error>)
    requires i < |d|
    ensures r.Ok? ==> i < r.value.1 <= |d|
  {
    match Locate(kind, d, i)
    case Err(e) => Err(e)
    case Ok(p) =>
      match CheckEnd(d, p.end)
      case Some(e) => Err(e)
      case None =>
        Ok((match p.kind
            case Len => Chunk(p.num, d[p.start..p.end])
            case Int => Scalar(p.num, p.value)
            case Unknown => Skipped, p.end))
  }

  lemma LocateIgnoresSuffix(kind: int -> Kind, d: bytes, rest: bytes, i: nat)
    requires i < |d| && Locate(kind, d, i).Ok?
    ensures Locate(kind, d + rest, i) == Locate(kind, d, i)
  {
    hide Varint.Read, Skip;
    var e := d + rest;
    assert e[i..] == d[i..] + rest;
    Varint.ReadIgnoresSuffix(d[i..], rest);
    var (num, _, j) := Header(d, i).value;
    if kind(num).Unknown? {
      SkipIgnoresSuffix(d[i..], rest, 0, 0);
    } else {
      assert e[j..] == d[j..] + rest;
      Varint.ReadIgnoresSuffix(d[j..], rest);
    }
  }

  lemma TokenIgnoresSuffix(kind: int -> Kind, d: bytes, rest: bytes, i: nat)
    requires i < |d| && ReadToken(kind, d, i).Ok?
    ensures ReadToken(kind, d + rest, i) == ReadToken(kind, d, i)
  {
    LocateIgnoresSuffix(kind, d, rest, i);
    var p := Locate(kind, d, i).value;
    assert (d + rest)[p.start..p.end] == d[p.start..p.end];
  }

  lemma LocateShifts(kind: int -> Kind, front: bytes, d: bytes, i: nat)
    requires i < |d|
    ensures Locate(kind, front + d, |front| + i) ==
            match Locate(kind, d, i)
            case Err(e) => Err(e)
            case Ok(p) => Ok(p.(start := |front| + p.start, end := |front| + p.end))
  {
    hide Varint.Read, Skip;
    var e := front + d;
    assert e[|front| + i..] == d[i..];
    if Header(d, i).Ok? {
      var j := Header(d, i).value.2;
      assert e[|front| + j..] == d[j..];
    }
  }

  /** The end a field's header claims, 0 where there is no readable header. */
  function ClaimedEnd(kind: int -> Kind, d: bytes, i: nat): nat
    requires i < |d|
  {
    match Locate(kind, d, i)
    case Err(_) => 0
    case Ok(p) => p.end
  }

  /**
   * A field read further into a longer input is the same field, with one exception: a claimed end that is out of
   * the input either way may wrap around 2^63 in the one and not in the other.
   */
  lemma TokenShifts(kind: int -> Kind, front: bytes, d: bytes, i: nat)
    requires i < |d| && |front| + |d| < TWO63
    ensures ReadToken(kind, front + d, |front| + i) ==
            match ReadToken(kind, d, i)
            case Ok((t, j)) => Ok((t, |front| + j))
            case Err(e) =>
              if ClaimedEnd(kind, d, i) < TWO63 <= |front| + ClaimedEnd(kind, d, i) then Err(InvalidLength) else Err(e)
  {
    hide Locate;
    LocateShifts(kind, front, d, i);
    if Locate(kind, d, i).Ok? {
      var p := Locate(kind, d, i).value;
      if p.end <= |d| {
        assert (front + d)[|front| + p.start..|front| + p.end] == d[p.start..p.end];
      }
    }
  }

  /** A field costs at least its tag, the shortest form of its length or value, and its payload. */
  lemma TokenCost(kind: int -> Kind, d: bytes, i: nat)
    requires i < |d| && ReadToken(kind, d, i).Ok?
    ensures var (t, j) := ReadToken(kind, d, i).value;
            match t
            case Scalar(_, v) => j - i >= 1 + |Varint.Encode(v)|
            case Chunk(_, p) => j - i >= 1 + |Varint.Encode(|p|)| + |p|
            case Skipped => j - i >= 1
  {
    hide Varint.Read, Skip;
    var (num, _, j) := Header(d, i).value;
    if !kind(num).Unknown? {
      Varint.ReadCost(d[j..]);
    }
  }

  // ----- the pieces of the generated loops

  /** The tag and the two checks on it. */
  method ReadTag(dAtA: bytes, start: int64)
    returns (err: Option<Error>, fieldNum: int, wireType: nat, iNdEx: int64)
    requires 0 <= start < |dAtA| < TWO63
    ensures match Header(dAtA, start)
            case Err(e) => err == Some(e)
            case Ok((num, t, j)) => err == None && fieldNum == num && wireType == t && iNdEx == j
  {
    var wire: uint64;
    err, wire, iNdEx := ReadVarint(dAtA, start);
    fieldNum, wireType := AsInt32(wire / 8), wire % 8;
    if err == None {
      if wireType == 4 {
        err := Some(EndGroup);
      } else if fieldNum <= 0 {
        err := Some(IllegalTag(fieldNum, wire));
      }
    }
  }

  /**
   * A length and the checks `int(len) < 0`, `iNdEx + len < 0`, `iNdEx + len > l`; the payload is `start..postIndex`.
   */
  method ReadLength(dAtA: bytes, j: int64) returns (err: Option<Error>, start: int64, postIndex: int64)
    requires 0 <= j <= |dAtA| < TWO63
    ensures match Varint.Read(dAtA[j..])
            case Err(e) => err == Some(e)
            case Ok((len, m)) =>
              && err == CheckEnd(dAtA, j + m + len)
              && (err == None ==> start == j + m && postIndex == j + m + len)
  {
    var len: uint64;
    postIndex := 0;
    err, len, start := ReadVarint(dAtA, j);
    if err == None {
      GuardIsExact(start, |dAtA|, len);
      if AsInt64(len) < 0 {
        return Some(InvalidLength), start, 0;
      }
      postIndex := AddInt(start, AsInt64(len));
      if postIndex < 0 {
        return Some(InvalidLength), start, 0;
      }
      if postIndex > |dAtA| {
        return Some(UnexpectedEOF), start, 0;
      }
    }
  }

  /** The `default:` branch: rewind, skip, and check where that led. */
  method SkipUnknown(dAtA: bytes, preIndex: int64) returns (err: Option<Error>, iNdEx: int64)
    requires 0 <= preIndex < |dAtA| < TWO63
    ensures match Skip(dAtA[preIndex..], 0, 0)
            case Err(e) => err == Some(e)
            case Ok(n) => err == CheckEnd(dAtA, preIndex + n) && (err == None ==> iNdEx == preIndex + n)
  {
    hide Skip;
    var skippy: int64;
    iNdEx := preIndex;
    err, skippy := SkipField(dAtA[iNdEx..]);
    if err == None {
      GuardIsExact(iNdEx, |dAtA|, AsUint64(skippy));
      if skippy < 0 || AddInt(iNdEx, skippy) < 0 {
        return Some(InvalidLength), iNdEx;
      }
      if AddInt(iNdEx, skippy) > |dAtA| {
        return Some(UnexpectedEOF), iNdEx;
      }
      iNdEx := AddInt(iNdEx, skippy);
    }
  }

  // ----- decoding a message

  /** A message type: how it treats each field number, and what a known field does to it. */
  datatype Schema<!M> = Schema(kind: int -> Kind, apply: (M, Token) -> Result<M, Error>)

  function Apply<M>(s: Schema<M>, m: M, t: Token): Result<M, Error> {
    if t.Skipped? then Ok(m) else s.apply(m, t)
  }

  /** `Unmarshal` of `d[i..]` into `m`: field after field until the input is used up. */
  function Decode<M>(s: Schema<M>, d: bytes, i: nat, m: M): Result<M, Error>
    requires i <= |d|
    decreases |d| - i
  {
    if i == |d| then Ok(m)
    else match ReadToken(s.kind, d, i)
      case Err(e) => Err(e)
      case Ok((t, j)) =>
        match Apply(s, m, t)
        case Err(e) => Err(e)
        case Ok(m') => Decode(s, d, j, m')
  }

  /** The end claimed by the field header that decoding stops at, 0 where it stops for another reason. */
  function Overrun<M>(s: Schema<M>, d: bytes, i: nat, m: M): nat
    requires i <= |d|
    decreases |d| - i
  {
    if i == |d| then 0
    else match ReadToken(s.kind, d, i)
      case Err(_) => ClaimedEnd(s.kind, d, i)
      case Ok((t, j)) =>
        match Apply(s, m, t)
        case Err(_) => 0
        case Ok(m') => Overrun(s, d, j, m')
  }

  lemma {:induction false} DecodeThrough<M>(s: Schema<M>, a: bytes, b: bytes, i: nat, m: M)
    requires i <= |a| && Decode(s, a, i, m).Ok?
    ensures Decode(s, a + b, i, m) == Decode(s, a + b, |a|, Decode(s, a, i, m).value)
    decreases |a| - i
  {
    hide ReadToken;
    if i == |a| {
    } else {
      TokenIgnoresSuffix(s.kind, a, b, i);
      var (t, j) := ReadToken(s.kind, a, i).value;
      DecodeThrough(s, a, b, j, Apply(s, m, t).value);
    }
  }

  lemma {:induction false} DecodeShifts<M>(s: Schema<M>, a: bytes, b: bytes, i: nat, m: M)
    requires i <= |b| && |a| + |b| < TWO63
    ensures Decode(s, a + b, |a| + i, m) ==
            if Overrun(s, b, i, m) < TWO63 <= |a| + Overrun(s, b, i, m) then Err(InvalidLength)
            else Decode(s, b, i, m)
    decreases |b| - i
  {
    hide ReadToken, ClaimedEnd;
    if i == |b| {
    } else {
      TokenShifts(s.kind, a, b, i);
      if ReadToken(s.kind, b, i).Ok? {
        var (t, j) := ReadToken(s.kind, b, i).value;
        if Apply(s, m, t).Ok? {
          DecodeShifts(s, a, b, j, Apply(s, m, t).value);
        }
      }
    }
  }

  lemma {:induction false} OverrunIsEOF<M>(s: Schema<M>, d: bytes, i: nat, m: M)
    requires i <= |d| < TWO63
    ensures 0 < Overrun(s, d, i, m) < TWO63 ==> Decode(s, d, i, m) == Err(UnexpectedEOF)
    decreases |d| - i
  {
    if i == |d| || ReadToken(s.kind, d, i).Err? {
    } else {
      var (t, j) := ReadToken(s.kind, d, i).value;
      if Apply(s, m, t).Ok? {
        OverrunIsEOF(s, d, j, Apply(s, m, t).value);
      }
    }
  }

  /**
   * Decoding `a ++ b` is decoding `b` into what `a` decoded to. Success, value and every error agree, except that a
   * length running past the end of `b` is reported as an overflow rather than as missing input exactly when the
   * end it claims wraps around 2^63 only after the bytes of `a` are counted in.
   */
  lemma Concatenation<M>(s: Schema<M>, a: bytes, b: bytes, m: M)
    requires |a| + |b| < TWO63
    requires Decode(s, a, 0, m).Ok?
    ensures var whole, tail := Decode(s, a + b, 0, m), Decode(s, b, 0, Decode(s, a, 0, m).value);
            var claimed := Overrun(s, b, 0, Decode(s, a, 0, m).value);
            && (whole.Ok? <==> tail.Ok?)
            && (whole == tail <==> !(claimed < TWO63 <= |a| + claimed))
            && (whole != tail ==> whole == Err(InvalidLength) && tail == Err(UnexpectedEOF))
  {
    hide Decode, Overrun;
    var m1 := Decode(s, a, 0, m).value;
    var claimed := Overrun(s, b, 0, m1);
    DecodeThrough(s, a, b, 0, m);
    DecodeShifts(s, a, b, 0, m1);
    if claimed < TWO63 <= |a| + claimed {
      OverrunIsEOF(s, b, 0, m1);
    }
  }

  /** The case where both parts decode. */
  lemma DecodeBoth<M>(s: Schema<M>, a: bytes, b: bytes, m: M, m1: M, m2: M)
    requires |a| + |b| < TWO63
    requires Decode(s, a, 0, m) == Ok(m1) && Decode(s, b, 0, m1) == Ok(m2)
    ensures Decode(s, a + b, 0, m) == Ok(m2)
  {
    hide Decode, Overrun;
    Concatenation(s, a, b, m);
    OverrunIsEOF(s, b, 0, m1);
  }

  // ----- decoding what the writers produce

  /** A one-byte tag, as the writers emit it. */
  lemma SmallTag(d: bytes, num: nat, wireType: nat)
    requires 1 <= num <= 15 && wireType < 8 && wireType != 4
    requires d != [] && d[0] == num * 8 + wireType
    ensures Header(d, 0) == Ok((num, wireType, 1))
  {
    assert d[0..] == d;
    assert Varint.Read(d) == Ok((num * 8 + wireType, 1));
    hide Varint.Read;
    assert (num * 8 + wireType) / 8 == num && (num * 8 + wireType) % 8 == wireType;
  }

  lemma DecodeChunk<M>(s: Schema<M>, num: nat, p: bytes, m: M)
    requires 1 <= num <= 15 && s.kind(num).Len?
    requires 1 + |Varint.Encode(|p|)| + |p| < TWO63
    ensures Decode(s, [num * 8 + 2] + Varint.Encode(|p|) + p, 0, m) == Apply(s, m, Chunk(num, p))
  {
    hide Varint.Read, Varint.Encode, Header;
    var d, at := [num * 8 + 2] + Varint.Encode(|p|) + p, 1 + |Varint.Encode(|p|)|;
    SmallTag(d, num, 2);
    assert d[1..] == Varint.Encode(|p|) + p;
    Varint.RoundTrip(|p|, p);
    assert d[at..|d|] == p;
    assert Locate(s.kind, d, 0) == Ok(Place(num, Len, 0, at, |d|));
  }

  lemma DecodeScalar<M>(s: Schema<M>, num: nat, v: uint64, m: M)
    requires 1 <= num <= 15 && s.kind(num).Int?
    ensures Decode(s, [num * 8] + Varint.Encode(v), 0, m) == Apply(s, m, Scalar(num, v))
  {
    hide Varint.Read, Varint.Encode, Header;
    var d := [num * 8] + Varint.Encode(v);
    SmallTag(d, num, 0);
    assert d[1..] == Varint.Encode(v) + [];
    Varint.RoundTrip(v, []);
    Varint.AtMostTen(v);
    assert Locate(s.kind, d, 0) == Ok(Place(num, Int, v, 1, |d|));
  }
}
