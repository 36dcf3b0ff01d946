/** `Params` and `GenesisState`, with records nested in an outer message. */
module GenesisCodec {
  import opened Machine
  import Varint
  import opened Wire
  import IdentityCodec
  import opened FieldGrammar

  type Identity = IdentityCodec.Identity

  // ----- Params, a message without fields

  datatype Params = Params {

    function Size(): nat {
      0
    }

    /** `MarshalToSizedBuffer` writes nothing. */
    method MarshalToSizedBuffer(dAtA: array<byte>, l: nat) returns (n: nat)
      requires l <= dAtA.Length
      ensures n == Size() == |EncodeParams(this)|
    {
      var i := l;
      n := l - i;
    }
  }

  function EncodeParams(p: Params): bytes {
    []
  }

  function ParamsSchema(): Schema<Params> {
    Schema((_: int) => Unknown, (p: Params, _: Token) => Ok(p))
  }

  function DecodeParamsInto(d: bytes, p: Params): Result<Params, Error> {
    Decode(ParamsSchema(), d, 0, p)
  }

  /** `Params.Unmarshal`: the skipper in a loop. */
  method UnmarshalParams(dAtA: bytes, m: Params) returns (err: Option<Error>)
    requires |dAtA| < TWO63
    ensures match DecodeParamsInto(dAtA, m)
            case Err(e) => err == Some(e)
            case Ok(p) => err == None && p == m
  {
    hide Varint.Read, Skip, Header;
    var l: int64 := |dAtA|;
    var iNdEx: int64 := 0;
    while iNdEx < l
      invariant 0 <= iNdEx <= l
      invariant DecodeParamsInto(dAtA, m) == Decode(ParamsSchema(), dAtA, iNdEx, m)
      decreases l - iNdEx
    {
      var preIndex := iNdEx;
      var fieldNum: int, wireType: nat;
      err, fieldNum, wireType, iNdEx := ReadTag(dAtA, preIndex);
      if err != None {
        return;
      }
      err, iNdEx := SkipUnknown(dAtA, preIndex);
      if err != None {
        return;
      }
    }
    err := if iNdEx > l then Some(UnexpectedEOF) else None;
  }

  /** `Params` decodes from exactly the runs of well-formed fields with positive numbers, and never changes. */
  lemma ParamsAcceptance(d: bytes, p: Params)
    requires |d| < TWO63
    ensures DecodeParamsInto(d, p).Ok? <==>
            exists fs :: AllWellFormed(fs) && AllBytes(fs) == d && AllUnknown(ParamsSchema(), fs)
  {
    hide Decode, AllWellFormed, AllBytes;
    if DecodeParamsInto(d, p).Ok? {
      var x := DecodeParamsInto(d, p).value;
      DecodeIsExact(ParamsSchema(), d, p, x);
      var fs :| AllWellFormed(fs) && AllBytes(fs) == d && Fold(ParamsSchema(), fs, p) == Some(x);
      FoldedAreUnknown(fs, p);
    } else {
      forall fs | AllWellFormed(fs) && AllBytes(fs) == d && AllUnknown(ParamsSchema(), fs) ensures false {
        UnknownIsSkipped(ParamsSchema(), fs, p);
      }
    }
  }

  lemma {:induction false} FoldedAreUnknown(fs: Fields, p: Params)
    requires Fold(ParamsSchema(), fs, p).Some?
    ensures AllUnknown(ParamsSchema(), fs)
    decreases fs
  {
    if fs.Nil? {
    } else {
      hide Number;
      FoldedAreUnknown(fs.tail, p);
    }
  }

  // ----- the wire form of GenesisState

  /** A nested message: its length, then its bytes. */
  function Nested(p: bytes): bytes {
    Varint.Encode(|p|) + p
  }

  function Record(x: Identity): bytes {
    [0x12] + Nested(IdentityCodec.Encode(x))
  }

  function EncodeList(list: seq<Identity>): bytes {
    if list == [] then [] else Record(list[0]) + EncodeList(list[1..])
  }

  /** The canonical encoding: the parameters, always, and the records in order. */
  function Encode(g: GenesisState): bytes {
    [0x0a] + Nested(EncodeParams(g.params)) + EncodeList(g.identityList)
  }

  /** The records' fields, all numbered 2, in the order of the list. */
  function RecordFields(list: seq<Identity>): seq<Field> {
    seq(|list|, k requires 0 <= k < |list| => Shortest(2, IdentityCodec.Encode(list[k])))
  }

  /**
   * The encoding, byte for byte, in terms of the grammar: field 1, empty, comes first and always, and then the
   * records, each encoded in a field 2 of its own.
   */
  lemma EncodeIsRun(g: GenesisState)
    ensures Encode(g) == AllBytes(Run([Shortest(1, [])] + RecordFields(g.identityList)))
    ensures [0x0a, 0x00] <= Encode(g) && Encode(g)[2..] == EncodeList(g.identityList)
  {
    hide Bytes, Run, AllBytes;
    RunAppend([Shortest(1, [])], RecordFields(g.identityList));
    IdentityCodec.WrittenBytes(1, []);
    ListIsRun(g.identityList);
    assert Nested(EncodeParams(g.params)) == [0];
    assert [0x0a] + [0] == [0x0a, 0x00] && [0x0a] + [0] + [] == [0x0a, 0x00];
  }

  lemma {:induction false} ListIsRun(list: seq<Identity>)
    ensures EncodeList(list) == AllBytes(Run(RecordFields(list)))
  {
    hide Bytes, Run, AllBytes, IdentityCodec.Encode;
    if list == [] {
      IdentityCodec.NoFields();
    } else {
      ListIsRun(list[1..]);
      var e := IdentityCodec.Encode(list[0]);
      IdentityCodec.WrittenBytes(2, e);
      RunAppend([Shortest(2, e)], RecordFields(list[1..]));
      assert RecordFields(list) == [Shortest(2, e)] + RecordFields(list[1..]);
      assert [0x12] + Varint.Encode(|e|) + e == Record(list[0]);
    }
  }

  predicate Fits(g: GenesisState) {
    |Encode(g)| < TWO63
  }

  const DEFAULT := GenesisState(Params, [])

  datatype GenesisState = GenesisState(params: Params, identityList: seq<Identity>) {

    /** `Marshal`. */
    method Marshal() returns (dAtA: array<byte>)
      requires Fits(this)
      ensures fresh(dAtA) && dAtA[..] == Encode(this)
    {
      var size := this.Size();
      dAtA := new byte[size](_ => 0);
      var n := MarshalToSizedBuffer(dAtA, dAtA.Length);
    }

    /** `Size`. */
    method Size() returns (n: nat)
      ensures n == |Encode(this)|
    {
      hide Varint.Encode, Varint.Sov, IdentityCodec.Encode, IdentityCodec.Identity.Size;
      var l: nat := params.Size();
      Varint.SovIsLength(l);
      n := 1 + l + Varint.Sov(l);
      assert identityList[..0] == [];
      if |identityList| > 0 {
        for k := 0 to |identityList|
          invariant n == 1 + |Nested(EncodeParams(params))| + |EncodeList(identityList[..k])|
        {
          var e := identityList[k];
          IdentityCodec.SizeIsLength(e);
          l := e.Size();
          Varint.SovIsLength(l);
          n := n + 1 + l + Varint.Sov(l);
          EncodeListAppend(identityList[..k], [e]);
          assert identityList[..k + 1] == identityList[..k] + [e];
        }
        assert identityList[..|identityList|] == identityList;
      }
    }

    /** `MarshalToSizedBuffer(dAtA[:l])`: the list from its last record to its first, each into `dAtA[:i]`. */
    method MarshalToSizedBuffer(dAtA: array<byte>, l: nat) returns (n: nat)
      requires |Encode(this)| <= l <= dAtA.Length && l < TWO63
      modifies dAtA
      ensures n == |Encode(this)|
      ensures dAtA[..] == old(dAtA[..l - n]) + Encode(this) + old(dAtA[l..])
    {
      hide Varint.Encode, Varint.Filled, EncodeList;
      ghost var was, rest := dAtA[..], dAtA[l..];
      IdentityCodec.StartFilling(was, l);
      var i := PrependList(dAtA, l, identityList, was, rest);
      var size := params.MarshalToSizedBuffer(dAtA, i);
      i := i - size;
      i := Varint.PrependTagged(dAtA, i, 0x0a, size, was, EncodeList(identityList) + rest);
      assert [0x0a] + Varint.Encode(0) + (EncodeList(identityList) + rest) == Encode(this) + rest;
      n := l - i;
      Varint.FilledUpTo(dAtA[..], was, l, Encode(this));
    }
  }

  /** The loop over the list, from its last record to its first. */
  method PrependList(dAtA: array<byte>, l: nat, list: seq<Identity>, ghost was: bytes, ghost rest: bytes)
    returns (i: nat)
    requires |EncodeList(list)| <= l <= |was| && l < TWO63 && Varint.Filled(dAtA[..], was, l, rest)
    modifies dAtA
    ensures i == l - |EncodeList(list)| && Varint.Filled(dAtA[..], was, i, EncodeList(list) + rest)
  {
    hide Varint.Filled, Record, EncodeList, From;
    i := l;
    FromEnds(list, rest);
    if |list| > 0 {
      var iNdEx := |list| - 1;
      while iNdEx >= 0
        invariant -1 <= iNdEx < |list|
        invariant i == l + |rest| - |From(list, iNdEx + 1, rest)|
        invariant Varint.Filled(dAtA[..], was, i, From(list, iNdEx + 1, rest))
        decreases iNdEx
      {
        FromStep(list, iNdEx, rest);
        i := PrependRecord(dAtA, i, list[iNdEx], was, From(list, iNdEx + 1, rest));
        iNdEx := iNdEx - 1;
      }
    }
  }

  /** The records from index `k` on, and what follows them. */
  ghost function From(list: seq<Identity>, k: nat, rest: bytes): bytes
    requires k <= |list|
  {
    EncodeList(list[k..]) + rest
  }

  lemma FromEnds(list: seq<Identity>, rest: bytes)
    ensures From(list, 0, rest) == EncodeList(list) + rest && From(list, |list|, rest) == rest
  {
    assert list[0..] == list && list[|list|..] == [];
    assert [] + rest == rest;
  }

  /** Record `k` comes right before the later ones, and there is room for it. */
  lemma FromStep(list: seq<Identity>, k: nat, rest: bytes)
    requires k < |list|
    ensures From(list, k, rest) == Record(list[k]) + From(list, k + 1, rest)
    ensures |rest| <= |From(list, k + 1, rest)| && |From(list, k, rest)| <= |EncodeList(list)| + |rest|
  {
    hide Record;
    assert list == list[..k] + list[k..];
    EncodeListAppend(list[..k], list[k..]);
    assert list[k..][1..] == list[k + 1..];
    assert Record(list[k]) + EncodeList(list[k + 1..]) + rest == Record(list[k]) + (EncodeList(list[k + 1..]) + rest);
  }

  /** One round: the record in `dAtA[:i]`, its length in front, and the tag in front of that. */
  method PrependRecord(dAtA: array<byte>, offset: nat, x: Identity, ghost was: bytes, ghost tail: bytes)
    returns (i: nat)
    requires |Record(x)| <= offset <= |was| && offset < TWO63 && Varint.Filled(dAtA[..], was, offset, tail)
    modifies dAtA
    ensures i == offset - |Record(x)| && Varint.Filled(dAtA[..], was, i, Record(x) + tail)
  {
    hide Varint.Encode, Varint.Filled, IdentityCodec.Encode, IdentityCodec.Identity.Size;
    Varint.FilledLength(dAtA[..], was, offset, tail);
    IdentityCodec.SizeIsLength(x);
    ghost var e, before := IdentityCodec.Encode(x), dAtA[..];
    var size := x.MarshalToSizedBuffer(dAtA, offset);
    i := offset - size;
    Varint.FilledPart(before, dAtA[..], was, i, e, tail);
    i := Varint.PrependTagged(dAtA, i, 0x12, size, was, e + tail);
    assert [0x12] + Varint.Encode(|e|) + (e + tail) == Record(x) + tail;
  }

  lemma {:induction false} EncodeListAppend(a: seq<Identity>, b: seq<Identity>)
    ensures EncodeList(a + b) == EncodeList(a) + EncodeList(b)
  {
    hide Record;
    if a == [] {
      assert a + b == b;
    } else {
      assert (a + b)[1..] == a[1..] + b;
      EncodeListAppend(a[1..], b);
    }
  }

  // ----- decoding

  function KindOf(num: int): Kind {
    if num == 1 || num == 2 then Len else Unknown
  }

  function Assign(g: GenesisState, t: Token): Result<GenesisState, Error> {
    if t.Chunk? && t.num == 1 then
      match DecodeParamsInto(t.payload, g.params)
      case Err(e) => Err(e)
      case Ok(p) => Ok(g.(params := p))
    else if t.Chunk? && t.num == 2 then
      match IdentityCodec.DecodeInto(t.payload, IdentityCodec.EMPTY)
      case Err(e) => Err(e)
      case Ok(x) => Ok(g.(identityList := g.identityList + [x]))
    else Ok(g)
  }

  function MessageSchema(): Schema<GenesisState> {
    Schema(KindOf, Assign)
  }

  function DecodeInto(d: bytes, g: GenesisState): Result<GenesisState, Error> {
    Decode(MessageSchema(), d, 0, g)
  }

  /** What a field whose nested message fails to decode leaves behind. */
  function Half(g: GenesisState, t: Token): GenesisState {
    if t.Chunk? && t.num == 2 then
      g.(identityList := g.identityList + [IdentityCodec.Leftover(t.payload, 0, IdentityCodec.EMPTY)])
    else g
  }

  /** What is in the receiver after unmarshalling `d[i..]` into `g`, be it to the end or to the first error. */
  function Leftover(d: bytes, i: nat, g: GenesisState): GenesisState
    requires i <= |d|
    decreases |d| - i
  {
    if i == |d| then g
    else match ReadToken(KindOf, d, i)
      case Err(_) => g
      case Ok((t, j)) =>
        match Apply(MessageSchema(), g, t)
        case Err(_) => Half(g, t)
        case Ok(g') => Leftover(d, j, g')
  }

  /** A `*GenesisState` receiver. */
  class GenesisRef {
    var params: Params
    var identityList: seq<Identity>

    constructor (g: GenesisState)
      ensures Value() == g
    {
      params, identityList := g.params, g.identityList;
    }

    function Value(): GenesisState
      reads this
    {
      GenesisState(params, identityList)
    }

    /** `Unmarshal`. A record that fails to decode stays in the list as far as it got. */
    method Unmarshal(dAtA: bytes) returns (err: Option<Error>)
      requires |dAtA| < TWO63
      modifies this
      ensures Value() == Leftover(dAtA, 0, old(Value()))
      ensures match DecodeInto(dAtA, old(Value()))
              case Err(e) => err == Some(e)
              case Ok(g) => err == None && Value() == g
    {
      hide ReadToken, Assign, Half;
      var l: int64 := |dAtA|;
      var iNdEx: int64 := 0;
      while iNdEx < l
        invariant 0 <= iNdEx <= l
        invariant DecodeInto(dAtA, old(Value())) == Decode(MessageSchema(), dAtA, iNdEx, Value())
        invariant Leftover(dAtA, 0, old(Value())) == Leftover(dAtA, iNdEx, Value())
        decreases l - iNdEx
      {
        iNdEx, err := UnmarshalField(dAtA, iNdEx);
        if err != None {
          return;
        }
      }
      err := if iNdEx > l then Some(UnexpectedEOF) else None;
    }

    /** The body of that loop: one field, with the nested message decoded from its own slice. */
    method UnmarshalField(dAtA: bytes, preIndex: int64) returns (iNdEx: int64, err: Option<Error>)
      requires 0 <= preIndex < |dAtA| < TWO63
      modifies this
      ensures match ReadToken(KindOf, dAtA, preIndex)
              case Err(e) => err == Some(e) && Value() == old(Value())
              case Ok((t, j)) =>
                match Apply(MessageSchema(), old(Value()), t)
                case Err(e) => err == Some(e) && Value() == Half(old(Value()), t)
                case Ok(g) => err == None && iNdEx == j && Value() == g
    {
      hide Varint.Read, Skip, Header, DecodeParamsInto, IdentityCodec.DecodeInto, IdentityCodec.Leftover;
      var fieldNum: int, wireType: nat;
      err, fieldNum, wireType, iNdEx := ReadTag(dAtA, preIndex);
      if err != None {
        return;
      }
      if fieldNum == 1 {
        if wireType != 2 {
          return iNdEx, Some(WrongWireType(fieldNum, wireType));
        }
        var postIndex: int64;
        err, iNdEx, postIndex := ReadLength(dAtA, iNdEx);
        if err != None {
          return;
        }
        err := UnmarshalParams(dAtA[iNdEx..postIndex], params);
        if err != None {
          return;
        }
        iNdEx := postIndex;
      } else if fieldNum == 2 {
        if wireType != 2 {
          return iNdEx, Some(WrongWireType(fieldNum, wireType));
        }
        var postIndex: int64;
        err, iNdEx, postIndex := ReadLength(dAtA, iNdEx);
        if err != None {
          return;
        }
        var elem := new IdentityCodec.IdentityRef(IdentityCodec.EMPTY);
        err := elem.Unmarshal(dAtA[iNdEx..postIndex]);
        identityList := identityList + [elem.Value()];
        if err != None {
          return;
        }
        iNdEx := postIndex;
      } else {
        err, iNdEx := SkipUnknown(dAtA, preIndex);
      }
    }
  }

  /**
   * What a failing call leaves in the receiver is what the fields before the failing one decode to, and, if that one
   * holds a record, one more record: as much of it as was decoded.
   */
  lemma {:induction false} LeftoverIsPrefix(d: bytes, i: nat, g: GenesisState) returns (n: nat)
    requires i <= |d| < TWO63 && Decode(MessageSchema(), d, i, g).Err?
    ensures i <= n < |d| && Decode(MessageSchema(), d[..n], i, g).Ok?
    ensures var before := Decode(MessageSchema(), d[..n], i, g).value;
            match ReadToken(KindOf, d, n)
            case Err(_) => Leftover(d, i, g) == before
            case Ok((t, _)) =>
              && t.Chunk?
              && (t.num == 1 || t.num == 2)
              && (t.num == 1 ==> Leftover(d, i, g) == before)
              && (t.num == 2 ==>
                    Leftover(d, i, g) == before.(identityList := before.identityList
                                                  + [IdentityCodec.Leftover(t.payload, 0, IdentityCodec.EMPTY)]))
    decreases |d| - i
  {
    if ReadToken(KindOf, d, i).Err? || Apply(MessageSchema(), g, ReadToken(KindOf, d, i).value.0).Err? {
      n := i;
      hide ReadToken, DecodeParamsInto, IdentityCodec.DecodeInto, IdentityCodec.Leftover;
    } else {
      hide ReadToken, Apply, Half, IdentityCodec.Leftover;
      var (t, j) := ReadToken(KindOf, d, i).value;
      n := LeftoverIsPrefix(d, j, Apply(MessageSchema(), g, t).value);
      TokenTruncated(KindOf, d, i, n);
    }
  }

  // ----- what an input stands for

  /** The message takes these fields: numbers are positive, and what is nested in fields 1 and 2 decodes. */
  ghost predicate Takes(fs: Fields) {
    fs.Cons? ==>
      var n := Number(fs.head);
      && n > 0
      && (n == 1 ==> fs.head.Delimited? && DecodeParamsInto(fs.head.payload, Params).Ok?)
      && (n == 2 ==> fs.head.Delimited? && IdentityCodec.DecodeInto(fs.head.payload, IdentityCodec.EMPTY).Ok?)
      && Takes(fs.tail)
  }

  /** The records nested in the fields numbered 2, in order. */
  ghost function NestedRecords(fs: Fields): seq<Identity>
    requires Takes(fs)
  {
    match fs
    case Nil => []
    case Cons(f, rest) =>
      if Number(f) == 2 then
        [IdentityCodec.DecodeInto(f.payload, IdentityCodec.EMPTY).value] + NestedRecords(rest)
      else NestedRecords(rest)
  }

  lemma {:induction false} FoldTakesRecords(fs: Fields, g: GenesisState)
    ensures Takes(fs) <==> Fold(MessageSchema(), fs, g).Some?
    ensures Takes(fs) ==> Fold(MessageSchema(), fs, g) == Some(Appended(g, NestedRecords(fs)))
    decreases fs
  {
    if fs.Nil? {
      AppendedTwice(g, [], []);
    } else {
      hide Number, IdentityCodec.DecodeInto, DecodeParamsInto, Appended;
      match TokenOf(KindOf, fs.head)
      case None =>
      case Some(t) =>
        NestedDecides(fs.head, g, t);
        if Apply(MessageSchema(), g, t).Ok? {
          FoldTakesRecords(fs.tail, Apply(MessageSchema(), g, t).value);
          if Takes(fs) && Number(fs.head) == 2 {
            AppendedTwice(g, [IdentityCodec.DecodeInto(fs.head.payload, IdentityCodec.EMPTY).value],
                          NestedRecords(fs.tail));
          }
        }
    }
  }

  lemma NestedDecides(f: Field, g: GenesisState, t: Token)
    requires TokenOf(KindOf, f) == Some(t)
    ensures Number(f) == 1 || Number(f) == 2 ==> f.Delimited?
    ensures Number(f) == 1 ==>
              match DecodeParamsInto(f.payload, Params)
              case Err(e) => Apply(MessageSchema(), g, t) == Err(e)
              case Ok(_) => Apply(MessageSchema(), g, t).Ok?
    ensures Number(f) == 2 ==>
              match IdentityCodec.DecodeInto(f.payload, IdentityCodec.EMPTY)
              case Err(e) => Apply(MessageSchema(), g, t) == Err(e)
              case Ok(x) => Apply(MessageSchema(), g, t) == Ok(Appended(g, [x]))
    ensures Number(f) != 2 && Apply(MessageSchema(), g, t).Ok? ==> Apply(MessageSchema(), g, t) == Ok(g)
    ensures Number(f) > 2 ==> Apply(MessageSchema(), g, t) == Ok(g)
  {
    hide Number, IdentityCodec.DecodeInto, DecodeParamsInto;
    OneParams(g.params);
    if Number(f) == 1 && DecodeParamsInto(f.payload, Params).Ok? {
      OneParams(DecodeParamsInto(f.payload, Params).value);
    }
  }

  lemma OneParams(p: Params)
    ensures p == Params
  {
    assert p.Params?;
  }

  /**
   * An input decodes into `g` with result `x` exactly if it is a run of fields the message takes, whatever is nested
   * in fields 1 and 2 decoding in its turn, and `x` is `g` with the nested records appended in order. One nested
   * message that does not decode makes the whole input fail.
   */
  lemma DecodeTakesRecords(d: bytes, g: GenesisState, x: GenesisState)
    requires |d| < TWO63
    ensures DecodeInto(d, g) == Ok(x) <==>
            exists fs :: AllWellFormed(fs) && AllBytes(fs) == d && Takes(fs) && x == Appended(g, NestedRecords(fs))
  {
    hide Decode, AllWellFormed, AllBytes, Fold, Takes, NestedRecords, Appended;
    DecodeIsExact(MessageSchema(), d, g, x);
    if DecodeInto(d, g) == Ok(x) {
      var fs :| AllWellFormed(fs) && AllBytes(fs) == d && Fold(MessageSchema(), fs, g) == Some(x);
      FoldTakesRecords(fs, g);
      assert Takes(fs) && x == Appended(g, NestedRecords(fs));
    }
    forall fs | AllWellFormed(fs) && AllBytes(fs) == d && Takes(fs) && x == Appended(g, NestedRecords(fs))
      ensures DecodeInto(d, g) == Ok(x)
    {
      FoldTakesRecords(fs, g);
    }
  }

  // ----- round trip

  lemma DecodeRecord(x: Identity, g: GenesisState)
    requires |Record(x)| < TWO63
    ensures DecodeInto(Record(x), g) == Ok(Appended(g, [x]))
  {
    hide Decode, Varint.Encode, IdentityCodec.Encode, IdentityCodec.DecodeInto;
    var e := IdentityCodec.Encode(x);
    IdentityCodec.RoundTrip(x);
    assert [2 * 8 + 2] + Varint.Encode(|e|) + e == Record(x);
    DecodeChunk(MessageSchema(), 2, e, g);
  }

  lemma DecodeAnd(a: bytes, b: bytes, g: GenesisState, g1: GenesisState, g2: GenesisState)
    requires |a + b| < TWO63
    requires DecodeInto(a, g) == Ok(g1) && DecodeInto(b, g1) == Ok(g2)
    ensures DecodeInto(a + b, g) == Ok(g2)
  {
    hide Decode;
    DecodeBoth(MessageSchema(), a, b, g, g1, g2);
  }

  function Appended(g: GenesisState, list: seq<Identity>): GenesisState {
    g.(identityList := g.identityList + list)
  }

  lemma AppendedTwice(g: GenesisState, a: seq<Identity>, b: seq<Identity>)
    ensures Appended(g, []) == g && Appended(Appended(g, a), b) == Appended(g, a + b)
  {
    assert g.identityList + a + b == g.identityList + (a + b);
  }

  lemma {:induction false} DecodeList(list: seq<Identity>, g: GenesisState)
    requires |EncodeList(list)| < TWO63
    ensures DecodeInto(EncodeList(list), g) == Ok(Appended(g, list))
  {
    if list == [] {
      AppendedTwice(g, [], []);
    } else {
      hide Record, DecodeInto, Appended;
      var x, rest := list[0], list[1..];
      assert list == [x] + rest;
      DecodeRecord(x, g);
      DecodeList(rest, Appended(g, [x]));
      AppendedTwice(g, [x], rest);
      DecodeAnd(Record(x), EncodeList(rest), g, Appended(g, [x]), Appended(g, list));
    }
  }

  lemma DecodeParamsField(p: Params, m: GenesisState)
    ensures DecodeInto([0x0a] + Nested(EncodeParams(p)), m) == Ok(m.(params := p))
  {
    var e: bytes := EncodeParams(p);
    assert [0x0a] + Nested(e) == [1 * 8 + 2] + Varint.Encode(|e|) + e;
    DecodeChunk(MessageSchema(), 1, e, m);
    assert DecodeParamsInto(e, m.params) == Ok(m.params);
    assert m.params.Params? && p.Params?;
  }

  /** Unmarshalling an encoded genesis into any receiver sets the parameters and appends the records. */
  lemma DecodeAppends(g: GenesisState, m: GenesisState)
    requires Fits(g)
    ensures DecodeInto(Encode(g), m) == Ok(GenesisState(g.params, m.identityList + g.identityList))
  {
    hide DecodeInto, Nested, EncodeParams;
    var m1 := m.(params := g.params);
    var m2 := GenesisState(g.params, m.identityList + g.identityList);
    DecodeParamsField(g.params, m);
    DecodeList(g.identityList, m1);
    DecodeAnd([0x0a] + Nested(EncodeParams(g.params)), EncodeList(g.identityList), m, m1, m2);
  }

  /** Every genesis state comes back from its encoding, its records in the same order. */
  lemma RoundTrip(g: GenesisState)
    requires Fits(g)
    ensures DecodeInto(Encode(g), DEFAULT) == Ok(g)
  {
    DecodeAppends(g, DEFAULT);
    assert [] + g.identityList == g.identityList;
  }

  // ----- minimality

  /** The parameters occur among the fields of `d[i..]`. */
  predicate HasParams(d: bytes, i: nat)
    requires i <= |d|
    decreases |d| - i
  {
    i < |d| && ReadToken(KindOf, d, i).Ok? &&
    var (t, j) := ReadToken(KindOf, d, i).value;
    (t.Chunk? && t.num == 1) || HasParams(d, j)
  }

  /** What a field takes beyond the record it stands for, as the encoder would write it. */
  function Waste(t: Token, taken: nat): int {
    if t.Chunk? && t.num == 2 && IdentityCodec.DecodeInto(t.payload, IdentityCodec.EMPTY).Ok? then
      taken - |Record(IdentityCodec.DecodeInto(t.payload, IdentityCodec.EMPTY).value)|
    else taken
  }

  /** The bytes of `d[i..]` beyond its records as the encoder would write them: padding, parameters, unknown fields. */
  function Surplus(d: bytes, i: nat): int
    requires i <= |d|
    decreases |d| - i
  {
    if i == |d| || ReadToken(KindOf, d, i).Err? then 0
    else
      var (t, j) := ReadToken(KindOf, d, i).value;
      Waste(t, j - i) + Surplus(d, j)
  }

  /** No field is shorter than what the encoder needs for it, and one with the parameters is two bytes longer. */
  lemma WasteBound(d: bytes, i: nat)
    requires i < |d| && ReadToken(KindOf, d, i).Ok?
    ensures var (t, j) := ReadToken(KindOf, d, i).value;
            Waste(t, j - i) >= if t.Chunk? && t.num == 1 then 2 else 0
  {
    hide Varint.Encode, IdentityCodec.Encode, Decode, ReadToken;
    var (t, j) := ReadToken(KindOf, d, i).value;
    TokenCost(KindOf, d, i);
    if t.Chunk? && t.num == 2 && IdentityCodec.DecodeInto(t.payload, IdentityCodec.EMPTY).Ok? {
      var x := IdentityCodec.DecodeInto(t.payload, IdentityCodec.EMPTY).value;
      IdentityCodec.DecodeGrowth(t.payload, 0, IdentityCodec.EMPTY);
      IdentityCodec.EmptyEncoding();
      Varint.LengthMonotone(|IdentityCodec.Encode(x)|, |t.payload|);
    }
  }

  lemma {:induction false} SurplusBound(d: bytes, i: nat)
    requires i <= |d|
    ensures Surplus(d, i) >= if HasParams(d, i) then 2 else 0
    decreases |d| - i
  {
    if i == |d| || ReadToken(KindOf, d, i).Err? {
    } else {
      hide ReadToken, Waste;
      WasteBound(d, i);
      SurplusBound(d, ReadToken(KindOf, d, i).value.1);
    }
  }

  /** One field: its waste is what it takes minus what it adds to the encoded list. */
  lemma WasteAccounts(g: GenesisState, t: Token, taken: nat)
    requires Apply(MessageSchema(), g, t).Ok?
    ensures var g' := Apply(MessageSchema(), g, t).value;
            |EncodeList(g'.identityList)| + Waste(t, taken) == |EncodeList(g.identityList)| + taken
  {
    hide Record, DecodeParamsInto, IdentityCodec.DecodeInto;
    if t.Chunk? && t.num == 2 {
      var x := IdentityCodec.DecodeInto(t.payload, IdentityCodec.EMPTY).value;
      EncodeListAppend(g.identityList, [x]);
    }
  }

  lemma {:induction false} SurplusAccounts(d: bytes, i: nat, g: GenesisState)
    requires i <= |d| && Decode(MessageSchema(), d, i, g).Ok?
    ensures |EncodeList(Decode(MessageSchema(), d, i, g).value.identityList)| + Surplus(d, i)
         == |EncodeList(g.identityList)| + |d| - i
    decreases |d| - i
  {
    if i == |d| {
    } else {
      hide ReadToken, EncodeList, Waste, Assign;
      var (t, j) := ReadToken(KindOf, d, i).value;
      WasteAccounts(g, t, j - i);
      SurplusAccounts(d, j, Apply(MessageSchema(), g, t).value);
    }
  }

  lemma EncodeLength(g: GenesisState)
    ensures |Encode(g)| == 2 + |EncodeList(g.identityList)|
  {
    assert Nested(EncodeParams(g.params)) == [0];
  }

  /**
   * For the outer message the encoder always spends two bytes on the parameters that the decoder does not need. An
   * input is no shorter than the encoding of what it decodes to exactly if it spends two bytes or more on something
   * other than its records as the encoder would write them, which it does if it carries the parameters. It is never
   * shorter than the encoded records alone.
   */
  lemma ShortestEncoding(d: bytes, g: GenesisState)
    requires DecodeInto(d, DEFAULT) == Ok(g)
    ensures |Encode(g)| <= |d| <==> Surplus(d, 0) >= 2
    ensures HasParams(d, 0) ==> |Encode(g)| <= |d|
    ensures |Encode(g)| <= |d| + 2
  {
    hide Decode, Encode;
    SurplusAccounts(d, 0, DEFAULT);
    SurplusBound(d, 0);
    EncodeLength(g);
    EncodeLength(DEFAULT);
  }

  /** For every genesis there is an input two bytes shorter than its encoding: its records alone. */
  lemma EncoderSpendsTwo(g: GenesisState)
    requires Fits(g)
    ensures DecodeInto(EncodeList(g.identityList), DEFAULT) == Ok(g)
    ensures |EncodeList(g.identityList)| + 2 == |Encode(g)|
  {
    hide DecodeInto, EncodeList;
    EncodeLength(g);
    DecodeList(g.identityList, DEFAULT);
    assert [] + g.identityList == g.identityList;
    assert g.params.Params? && DEFAULT.params.Params?;
  }

  /** The smallest case: the empty input is a genesis state, and encodes to two bytes. */
  lemma EmptyInputIsShorter()
    ensures DecodeInto([], DEFAULT) == Ok(DEFAULT) && Encode(DEFAULT) == [0x0a, 0x00]
  {
  }

  predicate AllFit(list: seq<Identity>) {
    forall k :: 0 <= k < |list| ==> IdentityCodec.Fits(list[k])
  }

  /** Whatever was decoded can be encoded again, record by record. */
  lemma {:induction false} DecodedRecordsFit(d: bytes, i: nat, g: GenesisState)
    requires i <= |d| < TWO63 && AllFit(g.identityList)
    requires Decode(MessageSchema(), d, i, g).Ok?
    ensures AllFit(Decode(MessageSchema(), d, i, g).value.identityList)
    decreases |d| - i
  {
    if i == |d| {
    } else {
      hide IdentityCodec.Encode, Varint.Encode;
      var (t, j) := ReadToken(KindOf, d, i).value;
      TokenCost(KindOf, d, i);
      if t.Chunk? && t.num == 2 {
        IdentityCodec.DecodeGrowth(t.payload, 0, IdentityCodec.EMPTY);
        IdentityCodec.EmptyEncoding();
      }
      DecodedRecordsFit(d, j, Apply(MessageSchema(), g, t).value);
    }
  }
}
