/**
 * The grammar of fields (Protocol Buffers Encoding, sections "Message Structure" and "Groups"), independent of any
 * parser. The skipper consumes exactly one field of it, and a message decodes exactly if it is a run of fields the
 * schema accepts, to the value that run stands for. Tags, integers and lengths may be padded varints; an end-group
 * tag need not carry the number of the group it closes, because the code does not look.
 */
module FieldGrammar {
  import opened Machine
  import Varint
  import opened Wire

  datatype Field =
    | Integer(tag: bytes, payload: bytes)
    | Fixed64(tag: bytes, payload: bytes)
    | Delimited(tag: bytes, length: bytes, payload: bytes)
    | Group(tag: bytes, fields: Fields, end: bytes)
    | Fixed32(tag: bytes, payload: bytes)

  datatype Fields = Nil | Cons(head: Field, tail: Fields)

  /** A varint whose low three bits name the wire type. */
  predicate IsTag(tag: bytes, wireType: nat) {
    Varint.IsVarint(tag) && Varint.Value(tag) % TWO64 % 8 == wireType
  }

  predicate WellFormed(f: Field) {
    match f
    case Integer(tag, payload) => IsTag(tag, 0) && Varint.IsVarint(payload)
    case Fixed64(tag, payload) => IsTag(tag, 1) && |payload| == 8
    case Delimited(tag, length, payload) =>
      IsTag(tag, 2) && Varint.IsVarint(length) && Varint.Value(length) % TWO64 == |payload|
    case Group(tag, fields, end) => IsTag(tag, 3) && AllWellFormed(fields) && IsTag(end, 4)
    case Fixed32(tag, payload) => IsTag(tag, 5) && |payload| == 4
  }

  predicate AllWellFormed(fs: Fields) {
    fs.Cons? ==> WellFormed(fs.head) && AllWellFormed(fs.tail)
  }

  function Bytes(f: Field): bytes {
    match f
    case Integer(tag, payload) => tag + payload
    case Fixed64(tag, payload) => tag + payload
    case Delimited(tag, length, payload) => tag + length + payload
    case Group(tag, fields, end) => tag + AllBytes(fields) + end
    case Fixed32(tag, payload) => tag + payload
  }

  function AllBytes(fs: Fields): bytes {
    match fs
    case Nil => []
    case Cons(f, rest) => Bytes(f) + AllBytes(rest)
  }

  /** The number that a tag carries. */
  function TagNumber(tag: bytes): int {
    AsInt32(Varint.Value(tag) % TWO64 / 8)
  }

  function Number(f: Field): int {
    TagNumber(f.tag)
  }

  /** A tag that stands for `8n + w` has number `n`, up to multiples of 2^32. */
  lemma NumberInTag(f: Field, n: nat, w: nat)
    requires w < 8 && Varint.Value(f.tag) % TWO64 == 8 * n + w
    ensures (Number(f) - n) % TWO32 == 0 && -0x8000_0000 <= Number(f) < 0x8000_0000
    ensures n < 0x8000_0000 ==> Number(f) == n
  {
    hide Varint.Value;
    assert (8 * n + w) / 8 == n;
    WrapsAround(n, 0, 0);
  }

  /** `part` stands in `d` at index `i`. */
  predicate Stands(d: bytes, i: nat, part: bytes) {
    i + |part| <= |d| && d[i..i + |part|] == part
  }

  lemma StandsApart(d: bytes, i: nat, a: bytes, b: bytes)
    requires Stands(d, i, a + b)
    ensures Stands(d, i, a) && Stands(d, i + |a|, b)
  {
    assert a == (a + b)[..|a|] == d[i..i + |a|];
    assert b == (a + b)[|a|..] == d[i + |a|..i + |a| + |b|];
  }

  lemma StandsJoined(d: bytes, i: nat, a: bytes, b: bytes)
    requires Stands(d, i, a) && Stands(d, i + |a|, b)
    ensures Stands(d, i, a + b)
  {
    assert d[i..i + |a| + |b|] == d[i..i + |a|] + d[i + |a|..i + |a| + |b|];
  }

  lemma ReadStanding(d: bytes, i: nat, v: bytes)
    requires Varint.IsVarint(v) && Stands(d, i, v)
    ensures Varint.Read(d[i..]) == Ok((Varint.Value(v) % TWO64, |v|))
  {
    assert d[i..][..|v|] == v;
    Varint.ReadFront(d[i..], |v|);
  }

  // ----- every field is skipped whole

  /** The wire type of a field, and what follows its tag. */
  function WireType(f: Field): nat {
    match f
    case Integer(_, _) => 0
    case Fixed64(_, _) => 1
    case Delimited(_, _, _) => 2
    case Group(_, _, _) => 3
    case Fixed32(_, _) => 5
  }

  function AfterTag(f: Field): bytes {
    match f
    case Delimited(_, length, payload) => length + payload
    case Group(_, fields, end) => AllBytes(fields) + end
    case _ => f.payload
  }

  lemma BytesAreTagAndRest(f: Field)
    ensures Bytes(f) == f.tag + AfterTag(f)
    ensures WellFormed(f) ==> |f.tag| > 0 && IsTag(f.tag, WireType(f))
  {
  }

  lemma SkipsPayload(d: bytes, j: nat, depth: nat, f: Field)
    requires WellFormed(f) && !f.Group? && Stands(d, j, AfterTag(f)) && |d| < TWO63
    ensures SkipPayload(d, j, WireType(f), depth) == Ok((j + |AfterTag(f)|, depth))
  {
    match f
    case Delimited(_, length, payload) =>
      StandsApart(d, j, length, payload);
      ReadStanding(d, j, length);
    case Integer(_, payload) =>
      ReadStanding(d, j, payload);
    case _ =>
  }

  lemma SkipsScalar(d: bytes, i: nat, depth: nat, f: Field)
    requires WellFormed(f) && !f.Group? && Stands(d, i, Bytes(f)) && |d| < TWO63
    ensures SkipElement(d, i, depth) == Ok((i + |Bytes(f)|, depth))
  {
    hide SkipPayload, Varint.Read, Varint.IsVarint, Varint.Value, WellFormed, Bytes, AfterTag, WireType;
    BytesAreTagAndRest(f);
    StandsApart(d, i, f.tag, AfterTag(f));
    ReadStanding(d, i, f.tag);
    SkipsPayload(d, i + |f.tag|, depth, f);
  }

  lemma SkipsScalarField(d: bytes, i: nat, depth: nat, f: Field)
    requires WellFormed(f) && !f.Group? && Stands(d, i, Bytes(f)) && |d| < TWO63
    ensures Skip(d, i, depth) ==
            if depth == 0 then Ok(i + |Bytes(f)|) else Skip(d, i + |Bytes(f)|, depth)
  {
    hide SkipElement, WellFormed, AllBytes;
    SkipsScalar(d, i, depth, f);
    BytesAreTagAndRest(f);
  }

  lemma SkipsStart(d: bytes, i: nat, depth: nat, tag: bytes)
    requires Stands(d, i, tag) && IsTag(tag, 3)
    ensures Skip(d, i, depth) == Skip(d, i + |tag|, depth + 1)
  {
    hide Varint.Read, Varint.IsVarint, Varint.Value, Stands;
    ReadStanding(d, i, tag);
  }

  lemma SkipsEnd(d: bytes, i: nat, depth: nat, tag: bytes)
    requires Stands(d, i, tag) && IsTag(tag, 4)
    ensures Skip(d, i, depth + 1) == if depth == 0 then Ok(i + |tag|) else Skip(d, i + |tag|, depth)
  {
    hide Varint.Read, Varint.Value;
    ReadStanding(d, i, tag);
  }

  lemma GroupApart(d: bytes, i: nat, g: Field)
    requires g.Group? && Stands(d, i, Bytes(g))
    ensures Stands(d, i, g.tag) && Stands(d, i + |g.tag|, AllBytes(g.fields))
    ensures Stands(d, i + |g.tag| + |AllBytes(g.fields)|, g.end)
    ensures |Bytes(g)| == |g.tag| + |AllBytes(g.fields)| + |g.end|
  {
    StandsApart(d, i, g.tag + AllBytes(g.fields), g.end);
    StandsApart(d, i, g.tag, AllBytes(g.fields));
  }

  /** With `depth` groups open, skipping passes over a whole field, nested groups included. */
  lemma {:induction false} SkipsField(d: bytes, i: nat, depth: nat, f: Field)
    requires WellFormed(f) && Stands(d, i, Bytes(f)) && |d| < TWO63
    ensures Skip(d, i, depth) ==
            if depth == 0 then Ok(i + |Bytes(f)|) else Skip(d, i + |Bytes(f)|, depth)
    decreases f, 1
  {
    hide WellFormed, Stands, Bytes, Skip;
    if f.Group? {
      SkipsGroup(d, i, depth, f);
    } else {
      SkipsScalarField(d, i, depth, f);
    }
  }

  lemma {:induction false} SkipsGroup(d: bytes, i: nat, depth: nat, g: Field)
    requires WellFormed(g) && g.Group? && Stands(d, i, Bytes(g)) && |d| < TWO63
    ensures Skip(d, i, depth) ==
            if depth == 0 then Ok(i + |Bytes(g)|) else Skip(d, i + |Bytes(g)|, depth)
    decreases g, 0
  {
    hide Skip;
    var j := i + |g.tag|;
    GroupApart(d, i, g);
    SkipsStart(d, i, depth, g.tag);
    SkipsFields(d, j, depth + 1, g.fields);
    SkipsEnd(d, j + |AllBytes(g.fields)|, depth, g.end);
  }

  lemma {:induction false} SkipsFields(d: bytes, i: nat, depth: nat, fs: Fields)
    requires AllWellFormed(fs) && Stands(d, i, AllBytes(fs)) && |d| < TWO63 && depth > 0
    ensures Skip(d, i, depth) == Skip(d, i + |AllBytes(fs)|, depth)
    decreases fs
  {
    hide Skip;
    if fs.Nil? {
    } else {
      StandsApart(d, i, Bytes(fs.head), AllBytes(fs.tail));
      SkipsField(d, i, depth, fs.head);
      SkipsFields(d, i + |Bytes(fs.head)|, depth, fs.tail);
    }
  }

  // ----- nothing but a field is skipped

  /** What is left of a group whose start has been passed: some fields, and the tag that ends it. */
  datatype Body = Body(fields: Fields, end: bytes)

  predicate WellFormedBodies(bs: seq<Body>) {
    forall k :: 0 <= k < |bs| ==> AllWellFormed(bs[k].fields) && IsTag(bs[k].end, 4)
  }

  function BodyBytes(bs: seq<Body>): bytes {
    if bs == [] then [] else AllBytes(bs[0].fields) + bs[0].end + BodyBytes(bs[1..])
  }

  /** A successful step over anything but a group tag went over a field. */
  lemma ScalarAt(d: bytes, i: nat, depth: nat) returns (f: Field)
    requires i < |d| && SkipElement(d, i, depth).Ok?
    requires var (j, depth') := SkipElement(d, i, depth).value; depth' == depth && j <= |d|
    ensures WellFormed(f) && Stands(d, i, Bytes(f))
    ensures i + |Bytes(f)| == SkipElement(d, i, depth).value.0
  {
    hide SkipPayload, Varint.Read;
    Varint.ReadIsVarint(d[i..]);
    var (wire, n) := Varint.Read(d[i..]).value;
    assert d[i..][..n] == d[i..i + n];
    f := PayloadAt(d, i + n, wire % 8, depth, d[i..i + n]);
    BytesAreTagAndRest(f);
    StandsJoined(d, i, f.tag, AfterTag(f));
  }

  lemma PayloadAt(d: bytes, j: nat, wireType: nat, depth: nat, tag: bytes) returns (f: Field)
    requires j <= |d| && IsTag(tag, wireType)
    requires SkipPayload(d, j, wireType, depth).Ok?
    requires var (k, depth') := SkipPayload(d, j, wireType, depth).value; depth' == depth && k <= |d|
    ensures WellFormed(f) && f.tag == tag && Stands(d, j, AfterTag(f))
    ensures j + |AfterTag(f)| == SkipPayload(d, j, wireType, depth).value.0
  {
    hide Varint.Read, Varint.IsVarint, Varint.Value;
    var k := SkipPayload(d, j, wireType, depth).value.0;
    if wireType == 0 {
      Varint.ReadIsVarint(d[j..]);
      assert d[j..][..k - j] == d[j..k];
      f := Integer(tag, d[j..k]);
    } else if wireType == 2 {
      Varint.ReadIsVarint(d[j..]);
      var m := j + Varint.Read(d[j..]).value.1;
      assert d[j..][..m - j] == d[j..m];
      f := Delimited(tag, d[j..m], d[m..k]);
      StandsJoined(d, j, d[j..m], d[m..k]);
    } else if wireType == 1 {
      f := Fixed64(tag, d[j..k]);
    } else {
      f := Fixed32(tag, d[j..k]);
    }
  }

  lemma TagAt(d: bytes, i: nat, depth: nat) returns (tag: bytes)
    requires i < |d| && SkipElement(d, i, depth).Ok?
    requires SkipElement(d, i, depth).value.1 != depth
    ensures Stands(d, i, tag) && i + |tag| == SkipElement(d, i, depth).value.0
    ensures IsTag(tag, if SkipElement(d, i, depth).value.1 > depth then 3 else 4)
  {
    Varint.ReadIsVarint(d[i..]);
    tag := d[i..][..Varint.Read(d[i..]).value.1];
  }

  /** What the skipper passed over with `depth` groups open: the remainders of those groups, innermost first. */
  lemma {:induction false} OpenGroups(d: bytes, i: nat, depth: nat) returns (bs: seq<Body>)
    requires depth > 0 && Skip(d, i, depth).Ok? && Skip(d, i, depth).value <= |d|
    ensures |bs| == depth && WellFormedBodies(bs)
    ensures Stands(d, i, BodyBytes(bs)) && i + |BodyBytes(bs)| == Skip(d, i, depth).value
    decreases |d| - i
  {
    hide Varint.Read, SkipPayload, IsTag;
    var (j, depth') := SkipElement(d, i, depth).value;
    if depth' == depth {
      var f := ScalarAt(d, i, depth);
      var rest := OpenGroups(d, j, depth);
      bs := Prepend(d, i, f, rest);
    } else if depth' > depth {
      var tag := TagAt(d, i, depth);
      var rest := OpenGroups(d, j, depth');
      bs := CloseGroup(d, i, tag, rest);
    } else {
      var tag := TagAt(d, i, depth);
      var rest := [];
      if depth' > 0 {
        rest := OpenGroups(d, j, depth');
      }
      bs := [Body(Nil, tag)] + rest;
      assert bs[1..] == rest;
      assert AllBytes(Nil) + tag == tag;
      StandsJoined(d, i, tag, BodyBytes(rest));
    }
  }

  lemma Prepend(d: bytes, i: nat, f: Field, rest: seq<Body>) returns (bs: seq<Body>)
    requires rest != [] && WellFormedBodies(rest) && WellFormed(f)
    requires Stands(d, i, Bytes(f)) && Stands(d, i + |Bytes(f)|, BodyBytes(rest))
    ensures |bs| == |rest| && WellFormedBodies(bs)
    ensures Stands(d, i, BodyBytes(bs)) && |BodyBytes(bs)| == |Bytes(f)| + |BodyBytes(rest)|
  {
    hide WellFormed, IsTag, Bytes, Stands;
    var first := rest[0];
    bs := [Body(Cons(f, first.fields), first.end)] + rest[1..];
    assert bs[1..] == rest[1..];
    var tail := BodyBytes(rest[1..]);
    assert BodyBytes(bs) == Bytes(f) + BodyBytes(rest) by {
      assert Bytes(f) + AllBytes(first.fields) + first.end + tail
          == Bytes(f) + (AllBytes(first.fields) + first.end + tail);
    }
    StandsJoined(d, i, Bytes(f), BodyBytes(rest));
  }

  lemma CloseGroup(d: bytes, i: nat, tag: bytes, rest: seq<Body>) returns (bs: seq<Body>)
    requires |rest| >= 2 && WellFormedBodies(rest) && IsTag(tag, 3)
    requires Stands(d, i, tag) && Stands(d, i + |tag|, BodyBytes(rest))
    ensures |bs| == |rest| - 1 && WellFormedBodies(bs)
    ensures Stands(d, i, BodyBytes(bs)) && |BodyBytes(bs)| == |tag| + |BodyBytes(rest)|
  {
    hide Stands, IsTag, AllWellFormed;
    var g := Group(tag, rest[0].fields, rest[0].end);
    var inner := AllBytes(rest[0].fields) + rest[0].end;
    StandsApart(d, i + |tag|, inner, BodyBytes(rest[1..]));
    assert Bytes(g) == tag + inner;
    StandsJoined(d, i, tag, inner);
    bs := Prepend(d, i, g, rest[1..]);
  }

  lemma FieldAtFront(d: bytes) returns (f: Field)
    requires Skip(d, 0, 0).Ok? && Skip(d, 0, 0).value <= |d|
    ensures WellFormed(f) && Stands(d, 0, Bytes(f)) && |Bytes(f)| == Skip(d, 0, 0).value
  {
    hide Varint.Read, SkipPayload, IsTag;
    var (j, depth) := SkipElement(d, 0, 0).value;
    if depth == 0 {
      f := ScalarAt(d, 0, 0);
    } else {
      var tag := TagAt(d, 0, 0);
      var bs := OpenGroups(d, j, 1);
      assert BodyBytes(bs[1..]) == [];
      f := Group(tag, bs[0].fields, bs[0].end);
      StandsJoined(d, 0, tag, BodyBytes(bs));
      assert Bytes(f) == tag + BodyBytes(bs);
    }
  }

  /**
   * The skipper stops after `n` bytes that are all there exactly when those bytes are one field, be it a nest of
   * groups, whatever follows them.
   */
  lemma SkipIsExact(d: bytes, n: nat)
    requires n <= |d| < TWO63
    ensures Skip(d, 0, 0) == Ok(n) <==> exists f :: WellFormed(f) && Bytes(f) == d[..n]
  {
    hide Skip, WellFormed, Bytes;
    if Skip(d, 0, 0) == Ok(n) {
      var f := FieldAtFront(d);
      assert Bytes(f) == d[..n];
    } else {
      forall f | WellFormed(f) && Bytes(f) == d[..n] ensures false {
        assert Stands(d, 0, Bytes(f));
        SkipsField(d, 0, 0, f);
      }
    }
  }

  // ----- a message is a run of fields

  /** What a field contributes to a message that treats field numbers as `kind` says, None if it is rejected. */
  function TokenOf(kind: int -> Kind, f: Field): Option<Token> {
    var num := Number(f);
    if num <= 0 then None
    else match kind(num)
      case Len => if f.Delimited? then Some(Chunk(num, f.payload)) else None
      case Int => if f.Integer? then Some(Scalar(num, Varint.Value(f.payload) % TWO64)) else None
      case Unknown => Some(Skipped)
  }

  /** The value a run of fields turns `m` into, None if one of them is rejected. */
  function Fold<M>(s: Schema<M>, fs: Fields, m: M): Option<M> {
    match fs
    case Nil => Some(m)
    case Cons(f, rest) =>
      match TokenOf(s.kind, f)
      case None => None
      case Some(t) =>
        match Apply(s, m, t)
        case Err(_) => None
        case Ok(m') => Fold(s, rest, m')
  }

  /** A field is read whole, and for what it is. */
  lemma FieldIsRead(kind: int -> Kind, d: bytes, i: nat, f: Field)
    requires WellFormed(f) && TokenOf(kind, f).Some? && Stands(d, i, Bytes(f)) && |d| < TWO63
    ensures Bytes(f) != [] && ReadToken(kind, d, i) == Ok((TokenOf(kind, f).value, i + |Bytes(f)|))
  {
    hide Varint.Read, Varint.Value, Header, Skip, AfterTag, Bytes, Number;
    BytesAreTagAndRest(f);
    StandsApart(d, i, f.tag, AfterTag(f));
    TagIsRead(d, i, f);
    match kind(Number(f))
    case Len =>
      LengthIsRead(d, i + |f.tag|, f);
    case Int =>
      PayloadIsRead(d, i + |f.tag|, f);
    case Unknown =>
      assert Stands(d[i..], 0, Bytes(f)) by {
        assert d[i..][..|Bytes(f)|] == d[i..i + |Bytes(f)|];
      }
      SkipsField(d[i..], 0, 0, f);
  }

  lemma LengthIsRead(d: bytes, j: nat, f: Field)
    requires WellFormed(f) && f.Delimited? && Stands(d, j, AfterTag(f))
    ensures Varint.Read(d[j..]) == Ok((|f.payload|, |f.length|))
    ensures |AfterTag(f)| == |f.length| + |f.payload|
    ensures d[j + |f.length|..j + |AfterTag(f)|] == f.payload
  {
    StandsApart(d, j, f.length, f.payload);
    ReadStanding(d, j, f.length);
  }

  lemma PayloadIsRead(d: bytes, j: nat, f: Field)
    requires WellFormed(f) && f.Integer? && Stands(d, j, AfterTag(f))
    ensures Varint.Read(d[j..]) == Ok((Varint.Value(f.payload) % TWO64, |AfterTag(f)|))
  {
    ReadStanding(d, j, f.payload);
  }

  lemma TagIsRead(d: bytes, i: nat, f: Field)
    requires WellFormed(f) && Number(f) > 0 && Stands(d, i, f.tag)
    ensures |f.tag| > 0 && Header(d, i) == Ok((Number(f), WireType(f), i + |f.tag|))
  {
    hide Varint.Read, Varint.Value;
    BytesAreTagAndRest(f);
    ReadStanding(d, i, f.tag);
  }

  /** What is read is a field. */
  lemma ReadIsField(kind: int -> Kind, d: bytes, i: nat) returns (f: Field)
    requires i < |d| < TWO63 && ReadToken(kind, d, i).Ok?
    ensures var (t, j) := ReadToken(kind, d, i).value;
            WellFormed(f) && TokenOf(kind, f) == Some(t) && Stands(d, i, Bytes(f)) && j == i + |Bytes(f)|
  {
    hide Varint.Read, Skip, WellFormed, Bytes, Number, Header;
    var (num, wireType, j) := Header(d, i).value;
    var end := ReadToken(kind, d, i).value.1;
    match kind(num)
    case Len =>
      f := DelimitedAt(d, i, end);
    case Int =>
      f := IntegerAt(d, i, end);
    case Unknown =>
      f := FieldAtFront(d[i..]);
      StandsInside(d, i, f);
      NumberAt(d, i, f);
  }

  lemma DelimitedAt(d: bytes, i: nat, end: nat) returns (f: Field)
    requires i < |d| && Header(d, i).Ok? && Header(d, i).value.1 == 2
    requires Varint.Read(d[Header(d, i).value.2..]).Ok?
    requires var j := Header(d, i).value.2; var (len, m) := Varint.Read(d[j..]).value; end == j + m + len <= |d|
    ensures WellFormed(f) && f.Delimited? && Stands(d, i, Bytes(f)) && end == i + |Bytes(f)|
    ensures Number(f) == Header(d, i).value.0
    ensures var j := Header(d, i).value.2; f.payload == d[j + Varint.Read(d[j..]).value.1..end]
  {
    hide Varint.Read, Varint.Value, Varint.IsVarint, Header;
    var j := Header(d, i).value.2;
    HeaderIsTag(d, i);
    Varint.ReadIsVarint(d[j..]);
    var m := j + Varint.Read(d[j..]).value.1;
    assert d[j..][..m - j] == d[j..m];
    f := Delimited(d[i..j], d[j..m], d[m..end]);
    StandsJoined(d, i, d[i..j], d[j..m]);
    StandsJoined(d, i, d[i..j] + d[j..m], d[m..end]);
  }

  lemma IntegerAt(d: bytes, i: nat, end: nat) returns (f: Field)
    requires i < |d| && Header(d, i).Ok? && Header(d, i).value.1 == 0
    requires Varint.Read(d[Header(d, i).value.2..]).Ok?
    requires var j := Header(d, i).value.2; end == j + Varint.Read(d[j..]).value.1
    ensures WellFormed(f) && f.Integer? && Stands(d, i, Bytes(f)) && end == i + |Bytes(f)|
    ensures Number(f) == Header(d, i).value.0
    ensures Varint.Value(f.payload) % TWO64 == Varint.Read(d[Header(d, i).value.2..]).value.0
  {
    hide Varint.Read, Varint.Value, Varint.IsVarint, Header;
    var j := Header(d, i).value.2;
    HeaderIsTag(d, i);
    Varint.ReadIsVarint(d[j..]);
    assert d[j..][..end - j] == d[j..end];
    f := Integer(d[i..j], d[j..end]);
    StandsJoined(d, i, d[i..j], d[j..end]);
  }

  lemma StandsInside(d: bytes, i: nat, f: Field)
    requires i <= |d| && Stands(d[i..], 0, Bytes(f))
    ensures Stands(d, i, Bytes(f))
  {
    assert d[i..][..|Bytes(f)|] == d[i..i + |Bytes(f)|];
  }

  lemma NumberAt(d: bytes, i: nat, f: Field)
    requires i < |d| && Header(d, i).Ok? && WellFormed(f) && Stands(d, i, Bytes(f))
    ensures Number(f) == Header(d, i).value.0
  {
    hide Varint.Read, Varint.Value;
    BytesAreTagAndRest(f);
    StandsApart(d, i, f.tag, AfterTag(f));
    ReadStanding(d, i, f.tag);
  }

  lemma HeaderIsTag(d: bytes, i: nat)
    requires i < |d| && Header(d, i).Ok?
    ensures var (num, wireType, j) := Header(d, i).value;
            IsTag(d[i..j], wireType) && num == AsInt32(Varint.Value(d[i..j]) % TWO64 / 8)
  {
    hide Varint.Read, Varint.Value, Varint.IsVarint;
    var n := Varint.Read(d[i..]).value.1;
    Varint.ReadIsVarint(d[i..]);
    assert d[i..][..n] == d[i..i + n];
  }

  lemma RunApart(d: bytes, i: nat, f: Field, rest: Fields)
    requires i <= |d| && AllBytes(Cons(f, rest)) == d[i..]
    ensures Stands(d, i, Bytes(f)) && AllBytes(rest) == d[i + |Bytes(f)|..]
  {
    assert d[i..i + |Bytes(f)|] == d[i..][..|Bytes(f)|];
    assert d[i + |Bytes(f)|..] == d[i..][|Bytes(f)|..];
  }

  lemma RunJoined(d: bytes, i: nat, f: Field, rest: Fields)
    requires i <= |d| && Stands(d, i, Bytes(f)) && AllBytes(rest) == d[i + |Bytes(f)|..]
    ensures AllBytes(Cons(f, rest)) == d[i..]
  {
    hide Bytes;
    assert d[i..] == d[i..i + |Bytes(f)|] + d[i + |Bytes(f)|..];
  }

  lemma WellFormedApart(fs: Fields)
    requires fs.Cons? && AllWellFormed(fs)
    ensures WellFormed(fs.head) && AllWellFormed(fs.tail)
  {
  }

  /** One step of a fold that does not fail. */
  lemma FoldStep<M>(s: Schema<M>, fs: Fields, m: M) returns (t: Token, m': M)
    requires fs.Cons? && Fold(s, fs, m).Some?
    ensures TokenOf(s.kind, fs.head) == Some(t) && Apply(s, m, t) == Ok(m') && Fold(s, fs, m) == Fold(s, fs.tail, m')
  {
    hide TokenOf, Apply;
    t := TokenOf(s.kind, fs.head).value;
    m' := Apply(s, m, t).value;
  }

  /** The same step of the decoder. */
  lemma DecodeStep<M>(s: Schema<M>, d: bytes, i: nat, m: M, t: Token, j: nat, m': M)
    requires i < |d| && ReadToken(s.kind, d, i) == Ok((t, j)) && Apply(s, m, t) == Ok(m')
    ensures Decode(s, d, i, m) == Decode(s, d, j, m')
  {
    hide ReadToken, Apply;
  }

  /** The first field of a run is what is read next. */
  lemma NextField(kind: int -> Kind, d: bytes, i: nat, fs: Fields) returns (j: nat)
    requires i <= |d| < TWO63 && fs.Cons? && WellFormed(fs.head) && AllBytes(fs) == d[i..]
    requires TokenOf(kind, fs.head).Some?
    ensures i < j <= |d| && AllBytes(fs.tail) == d[j..]
    ensures ReadToken(kind, d, i) == Ok((TokenOf(kind, fs.head).value, j))
  {
    hide WellFormed, Bytes, TokenOf, ReadToken, AllBytes;
    RunApart(d, i, fs.head, fs.tail);
    FieldIsRead(kind, d, i, fs.head);
    j := i + |Bytes(fs.head)|;
  }

  lemma {:induction false} RunIsDecoded<M>(s: Schema<M>, d: bytes, i: nat, fs: Fields, m: M)
    requires i <= |d| < TWO63 && AllWellFormed(fs) && AllBytes(fs) == d[i..] && Fold(s, fs, m).Some?
    ensures Decode(s, d, i, m) == Ok(Fold(s, fs, m).value)
    decreases fs
  {
    if fs.Nil? {
    } else {
      hide WellFormed, AllWellFormed, Bytes, AllBytes, TokenOf, ReadToken, Decode, Fold, Apply;
      WellFormedApart(fs);
      var t, m' := FoldStep(s, fs, m);
      var j := NextField(s.kind, d, i, fs);
      DecodeStep(s, d, i, m, t, j, m');
      RunIsDecoded(s, d, j, fs.tail, m');
    }
  }

  /** A field that ends within the first `n` bytes is read the same from those bytes alone. */
  lemma TokenTruncated(kind: int -> Kind, d: bytes, i: nat, n: nat)
    requires i < n <= |d| < TWO63 && ReadToken(kind, d, i).Ok? && ReadToken(kind, d, i).value.1 <= n
    ensures ReadToken(kind, d[..n], i) == ReadToken(kind, d, i)
  {
    hide ReadToken, WellFormed, Bytes, TokenOf;
    var f := ReadIsField(kind, d, i);
    assert d[..n][i..i + |Bytes(f)|] == d[i..i + |Bytes(f)|];
    FieldIsRead(kind, d[..n], i, f);
  }

  lemma {:induction false} DecodedIsRun<M>(s: Schema<M>, d: bytes, i: nat, m: M) returns (fs: Fields)
    requires i <= |d| < TWO63 && Decode(s, d, i, m).Ok?
    ensures AllWellFormed(fs) && AllBytes(fs) == d[i..] && Fold(s, fs, m) == Some(Decode(s, d, i, m).value)
    decreases |d| - i
  {
    if i == |d| {
      fs := Nil;
      assert d[i..] == [];
    } else {
      hide WellFormed, Bytes, TokenOf, ReadToken, Stands, AllBytes;
      var (t, j) := ReadToken(s.kind, d, i).value;
      var f := ReadIsField(s.kind, d, i);
      var rest := DecodedIsRun(s, d, j, Apply(s, m, t).value);
      fs := Cons(f, rest);
      RunJoined(d, i, f, rest);
    }
  }

  /**
   * Decoding against the grammar: an input decodes into `m` with result `x` exactly if it is a run of well-formed
   * fields, none of them rejected, that turns `m` into `x`.
   */
  lemma DecodeIsExact<M>(s: Schema<M>, d: bytes, m: M, x: M)
    requires |d| < TWO63
    ensures Decode(s, d, 0, m) == Ok(x) <==>
            exists fs :: AllWellFormed(fs) && AllBytes(fs) == d && Fold(s, fs, m) == Some(x)
  {
    hide Decode, AllWellFormed, AllBytes, Fold;
    assert d[0..] == d;
    if Decode(s, d, 0, m) == Ok(x) {
      var fs := DecodedIsRun(s, d, 0, m);
      assert AllBytes(fs) == d;
    } else {
      forall fs | AllWellFormed(fs) && AllBytes(fs) == d && Fold(s, fs, m) == Some(x) ensures false {
        RunIsDecoded(s, d, 0, fs, m);
      }
    }
  }

  // ----- fields a message does not know

  /** A run of fields of which the message knows none. */
  ghost predicate AllUnknown<M>(s: Schema<M>, fs: Fields) {
    fs.Cons? ==> Number(fs.head) > 0 && s.kind(Number(fs.head)).Unknown? && AllUnknown(s, fs.tail)
  }

  lemma {:induction false} UnknownChangesNothing<M>(s: Schema<M>, fs: Fields, m: M)
    requires AllUnknown(s, fs)
    ensures Fold(s, fs, m) == Some(m)
    decreases fs
  {
    if fs.Nil? {
    } else {
      hide Number;
      UnknownChangesNothing(s, fs.tail, m);
    }
  }

  lemma UnknownIsSkipped<M>(s: Schema<M>, us: Fields, m: M)
    requires AllWellFormed(us) && AllUnknown(s, us) && |AllBytes(us)| < TWO63
    ensures Decode(s, AllBytes(us), 0, m) == Ok(m)
  {
    UnknownChangesNothing(s, us, m);
    DecodeIsExact(s, AllBytes(us), m, m);
  }

  /**
   * Fields the message does not know, put between two fields, change neither whether the rest decodes nor what it
   * decodes to.
   */
  lemma UnknownFieldTransparency<M>(s: Schema<M>, a: bytes, us: Fields, b: bytes, m: M)
    requires AllWellFormed(us) && AllUnknown(s, us)
    requires |a| + |AllBytes(us)| + |b| < TWO63
    requires Decode(s, a, 0, m).Ok?
    ensures var without, with := Decode(s, a + b, 0, m), Decode(s, a + AllBytes(us) + b, 0, m);
            (with.Ok? <==> without.Ok?) && (without.Ok? ==> with == without)
  {
    hide Decode, Overrun;
    var m1 := Decode(s, a, 0, m).value;
    UnknownIsSkipped(s, us, m1);
    Concatenation(s, a, b, m);
    Concatenation(s, a, AllBytes(us), m);
    Concatenation(s, a + AllBytes(us), b, m);
  }

  /**
   * The same for one field, by what its tag says: any number from 1 to 2^31 - 1 that the message does not know, in
   * any varint form, with any wire type.
   */
  lemma UnknownTagTransparency<M>(s: Schema<M>, a: bytes, f: Field, n: nat, b: bytes, m: M)
    requires WellFormed(f) && Varint.Value(f.tag) % TWO64 == 8 * n + WireType(f)
    requires 0 < n < 0x8000_0000 && s.kind(n).Unknown?
    requires |a| + |Bytes(f)| + |b| < TWO63
    requires Decode(s, a, 0, m).Ok?
    ensures var without, with := Decode(s, a + b, 0, m), Decode(s, a + Bytes(f) + b, 0, m);
            (with.Ok? <==> without.Ok?) && (without.Ok? ==> with == without)
  {
    hide Decode, WellFormed, Bytes, Number, Varint.Value;
    NumberInTag(f, n, WireType(f));
    var us := Cons(f, Nil);
    assert AllUnknown(s, us) by {
      assert AllUnknown(s, Nil);
    }
    assert AllWellFormed(us);
    assert AllBytes(us) == Bytes(f) + [] == Bytes(f);
    UnknownFieldTransparency(s, a, us, b, m);
  }

  // ----- where decoding stops

  /** The field at `n` cannot be read, or the message rejects it, for the reason `e`. */
  ghost predicate Rejected<M>(s: Schema<M>, d: bytes, n: nat, m: M, e: Error)
    requires n < |d|
  {
    match ReadToken(s.kind, d, n)
    case Err(e') => e' == e
    case Ok((t, _)) => Apply(s, m, t) == Err(e)
  }

  /** The fields `fs` at the front of `d` are accepted, and what comes after them is rejected for the reason `e`. */
  ghost predicate StopsAfter<M>(s: Schema<M>, d: bytes, m: M, fs: Fields, e: Error) {
    && AllWellFormed(fs) && |AllBytes(fs)| < |d| && d[..|AllBytes(fs)|] == AllBytes(fs)
    && Fold(s, fs, m).Some?
    && Rejected(s, d, |AllBytes(fs)|, Fold(s, fs, m).value, e)
  }

  /** The fields before the one that decoding stops at. */
  lemma {:induction false} FieldsBefore<M>(s: Schema<M>, d: bytes, i: nat, m: M) returns (fs: Fields, n: nat, x: M)
    requires i <= |d| < TWO63 && Decode(s, d, i, m).Err?
    ensures i <= n < |d| && AllWellFormed(fs) && AllBytes(fs) == d[i..n] && Fold(s, fs, m) == Some(x)
    ensures Rejected(s, d, n, x, Decode(s, d, i, m).error)
    decreases |d| - i
  {
    hide WellFormed, Bytes, TokenOf, ReadToken, Stands;
    if ReadToken(s.kind, d, i).Err? || Apply(s, m, ReadToken(s.kind, d, i).value.0).Err? {
      fs, n, x := Nil, i, m;
      assert d[i..i] == [];
    } else {
      var (t, j) := ReadToken(s.kind, d, i).value;
      var f := ReadIsField(s.kind, d, i);
      var rest;
      rest, n, x := FieldsBefore(s, d, j, Apply(s, m, t).value);
      fs := Cons(f, rest);
      BytesBefore(d, i, n, f, rest);
    }
  }

  lemma BytesBefore(d: bytes, i: nat, n: nat, f: Field, rest: Fields)
    requires i + |Bytes(f)| <= n <= |d| && Stands(d, i, Bytes(f)) && AllBytes(rest) == d[i + |Bytes(f)|..n]
    ensures AllBytes(Cons(f, rest)) == d[i..n]
  {
    hide Bytes;
    assert d[i..n] == d[i..i + |Bytes(f)|] + d[i + |Bytes(f)|..n];
  }

  /** Decoding fails with `e` exactly if `e` is what is wrong with the first field that is not accepted. */
  lemma FailureIsExact<M>(s: Schema<M>, d: bytes, m: M, e: Error)
    requires |d| < TWO63
    ensures Decode(s, d, 0, m) == Err(e) <==> exists fs :: StopsAfter(s, d, m, fs, e)
  {
    hide Decode, AllWellFormed, AllBytes, Fold, Rejected;
    if Decode(s, d, 0, m) == Err(e) {
      var fs, n, x := FieldsBefore(s, d, 0, m);
      assert d[0..n] == d[..n];
      assert StopsAfter(s, d, m, fs, e);
    }
    forall fs | StopsAfter(s, d, m, fs, e) ensures Decode(s, d, 0, m) == Err(e) {
      FailsAfterRun(s, d, m, fs, e);
    }
  }

  lemma FailsAfterRun<M>(s: Schema<M>, d: bytes, m: M, fs: Fields, e: Error)
    requires |d| < TWO63 && StopsAfter(s, d, m, fs, e)
    ensures Decode(s, d, 0, m) == Err(e)
  {
    hide Decode, AllWellFormed, AllBytes, Fold, Rejected;
    var n := |AllBytes(fs)|;
    var front := d[..n];
    assert front[0..] == front && d == front + d[n..];
    RunIsDecoded(s, front, 0, fs, m);
    DecodeThrough(s, front, d[n..], 0, m);
    RejectedFails(s, d, n, Fold(s, fs, m).value, e);
  }

  lemma RejectedFails<M>(s: Schema<M>, d: bytes, n: nat, m: M, e: Error)
    requires n < |d| && Rejected(s, d, n, m, e)
    ensures Decode(s, d, n, m) == Err(e)
  {
    hide ReadToken, Apply;
  }

  // ----- what is not a field

  /** No varint starts at `j`: ten bytes that continue, or fewer and then the end. */
  predicate Unfinished(d: bytes, j: nat) {
    j <= |d| && forall k :: j <= k < |d| && k < j + 10 ==> d[k] >= 128
  }

  function UnfinishedError(d: bytes, j: nat): Error {
    if |d| >= j + 10 then IntOverflow else UnexpectedEOF
  }

  lemma UnfinishedFails(d: bytes, j: nat)
    requires Unfinished(d, j)
    ensures Varint.Read(d[j..]) == Err(UnfinishedError(d, j))
  {
    Varint.ReadFails(d[j..]);
  }

  /** What is wrong with a tag: it does not end, it ends a group that is not open, or its number is not positive. */
  lemma TagErrors(kind: int -> Kind, d: bytes, i: nat, tag: bytes)
    requires i < |d|
    ensures Unfinished(d, i) ==> ReadToken(kind, d, i) == Err(UnfinishedError(d, i))
    ensures Stands(d, i, tag) && IsTag(tag, 4) ==> ReadToken(kind, d, i) == Err(EndGroup)
    ensures forall w: nat :: w != 4 && Stands(d, i, tag) && IsTag(tag, w) ==>
              var wire := Varint.Value(tag) % TWO64;
              var num := TagNumber(tag);
              && (num <= 0 ==> ReadToken(kind, d, i) == Err(IllegalTag(num, wire)))
              && (num > 0 && kind(num).Len? && w != 2 ==> ReadToken(kind, d, i) == Err(WrongWireType(num, w)))
              && (num > 0 && kind(num).Int? && w != 0 ==> ReadToken(kind, d, i) == Err(WrongWireType(num, w)))
  {
    hide Varint.Read, Varint.IsVarint, Varint.Value, Stands, Skip, Unfinished;
    if Unfinished(d, i) {
      UnfinishedFails(d, i);
    }
    if Varint.IsVarint(tag) && Stands(d, i, tag) {
      ReadStanding(d, i, tag);
    }
  }

  lemma TagGivesHeader(d: bytes, i: nat, tag: bytes, w: nat)
    requires i < |d| && Stands(d, i, tag) && IsTag(tag, w) && w != 4 && TagNumber(tag) > 0
    ensures Header(d, i) == Ok((TagNumber(tag), w, i + |tag|))
  {
    hide Varint.Read, Varint.IsVarint, Varint.Value, Stands;
    ReadStanding(d, i, tag);
  }

  /** What is wrong with an integer that the message knows: it does not end. */
  lemma IntegerErrors(kind: int -> Kind, d: bytes, i: nat, tag: bytes)
    requires i < |d| && Stands(d, i, tag) && IsTag(tag, 0) && TagNumber(tag) > 0 && kind(TagNumber(tag)).Int?
    requires Unfinished(d, i + |tag|)
    ensures ReadToken(kind, d, i) == Err(UnfinishedError(d, i + |tag|))
  {
    hide Varint.Read, Header, Unfinished, IsTag, Stands, TagNumber, UnfinishedError;
    TagGivesHeader(d, i, tag, 0);
    UnfinishedFails(d, i + |tag|);
  }

  /** What is wrong with a string or nested message: its length does not end, or leads out of the input. */
  lemma LengthErrors(kind: int -> Kind, d: bytes, i: nat, tag: bytes, length: bytes)
    requires i < |d| && Stands(d, i, tag) && IsTag(tag, 2) && TagNumber(tag) > 0 && kind(TagNumber(tag)).Len?
    ensures Unfinished(d, i + |tag|) ==> ReadToken(kind, d, i) == Err(UnfinishedError(d, i + |tag|))
    ensures Stands(d, i + |tag|, length) && Varint.IsVarint(length) ==>
              var end := i + |tag| + |length| + Varint.Value(length) % TWO64;
              && (end >= TWO63 ==> ReadToken(kind, d, i) == Err(InvalidLength))
              && (|d| < end < TWO63 ==> ReadToken(kind, d, i) == Err(UnexpectedEOF))
  {
    hide Varint.Read, Varint.IsVarint, Varint.Value, Header, Unfinished, IsTag, TagNumber, UnfinishedError;
    TagGivesHeader(d, i, tag, 2);
    var j := i + |tag|;
    if Unfinished(d, j) {
      UnfinishedFails(d, j);
    }
    if Stands(d, j, length) && Varint.IsVarint(length) {
      ReadStanding(d, j, length);
    }
  }

  /** What is wrong with a field that the message does not know: what the skipper says, or where it leads. */
  lemma UnknownFieldErrors(kind: int -> Kind, d: bytes, i: nat, tag: bytes)
    requires i < |d| && Stands(d, i, tag) && Varint.IsVarint(tag) && !IsTag(tag, 4)
    requires TagNumber(tag) > 0 && kind(TagNumber(tag)).Unknown?
    ensures match Skip(d[i..], 0, 0)
            case Err(e) => ReadToken(kind, d, i) == Err(e)
            case Ok(n) =>
              && (i + n >= TWO63 ==> ReadToken(kind, d, i) == Err(InvalidLength))
              && (|d| < i + n < TWO63 ==> ReadToken(kind, d, i) == Err(UnexpectedEOF))
              && (i + n <= |d| < TWO63 ==> ReadToken(kind, d, i) == Ok((Skipped, i + n)))
  {
    hide Varint.Read, Varint.IsVarint, Varint.Value, Skip;
    ReadStanding(d, i, tag);
  }

  /**
   * How the skipper gets from `i`, with `depth` groups open, past one tag and what belongs to it: by a varint, eight
   * bytes, a length and as many bytes, nothing at either end of a group, or four bytes.
   */
  lemma SkipsOne(d: bytes, i: nat, depth: nat, tag: bytes, w: nat, v: bytes)
    requires i < |d| && Stands(d, i, tag) && IsTag(tag, w)
    ensures var j := i + |tag|;
            && (w == 0 && Stands(d, j, v) && Varint.IsVarint(v) ==>
                  Skip(d, i, depth) == Onwards(d, j + |v|, depth))
            && (w == 1 && j + 8 < TWO63 ==> Skip(d, i, depth) == Onwards(d, j + 8, depth))
            && (w == 2 && Stands(d, j, v) && Varint.IsVarint(v)
                && j + |v| + Varint.Value(v) % TWO64 < TWO63 ==>
                  Skip(d, i, depth) == Onwards(d, j + |v| + Varint.Value(v) % TWO64, depth))
            && (w == 3 ==> Skip(d, i, depth) == Skip(d, j, depth + 1))
            && (w == 4 && depth > 0 ==> Skip(d, i, depth) == Onwards(d, j, depth - 1))
            && (w == 5 && j + 4 < TWO63 ==> Skip(d, i, depth) == Onwards(d, j + 4, depth))
  {
    hide Varint.Read, Varint.IsVarint, Varint.Value;
    ReadStanding(d, i, tag);
    if Stands(d, i + |tag|, v) && Varint.IsVarint(v) {
      ReadStanding(d, i + |tag|, v);
    }
  }

  /** Done where no group is open, else on with the skipping. */
  function Onwards(d: bytes, j: nat, depth: nat): Result<nat, Error> {
    if depth == 0 then Ok(j) else Skip(d, j, depth)
  }

  /** How the skipper fails at `i`, with `depth` groups open. */
  lemma SkipErrors(d: bytes, i: nat, depth: nat, tag: bytes, length: bytes)
    ensures i >= |d| ==> Skip(d, i, depth) == Err(UnexpectedEOF)
    ensures i < |d| && Unfinished(d, i) ==> Skip(d, i, depth) == Err(UnfinishedError(d, i))
    ensures forall w: nat :: Stands(d, i, tag) && IsTag(tag, w) ==>
              var j := i + |tag|;
              && (w >= 6 ==> Skip(d, i, depth) == Err(IllegalWireType(w)))
              && (w == 4 && depth == 0 ==> Skip(d, i, depth) == Err(UnexpectedEndOfGroup))
              && ((w == 0 || w == 2) && Unfinished(d, j) ==> Skip(d, i, depth) == Err(UnfinishedError(d, j)))
              && (w == 2 && Stands(d, j, length) && Varint.IsVarint(length)
                  && j + |length| + Varint.Value(length) % TWO64 >= TWO63 ==>
                    Skip(d, i, depth) == Err(InvalidLength))
              && ((w == 1 && j + 8 >= TWO63) || (w == 5 && j + 4 >= TWO63) ==>
                    Skip(d, i, depth) == Err(InvalidLength))
  {
    hide Varint.Read, Varint.IsVarint, Varint.Value, Unfinished;
    if i < |d| && Unfinished(d, i) {
      UnfinishedFails(d, i);
    }
    if Varint.IsVarint(tag) && Stands(d, i, tag) {
      assert |tag| > 0 by {
        assert Varint.IsVarint(tag);
        SomeBytes(tag);
      }
      ReadStanding(d, i, tag);
      var j := i + |tag|;
      if Unfinished(d, j) {
        UnfinishedFails(d, j);
      }
      if Stands(d, j, length) && Varint.IsVarint(length) {
        ReadStanding(d, j, length);
      }
    }
  }

  lemma SomeBytes(v: bytes)
    requires Varint.IsVarint(v)
    ensures v != []
  {
  }

  // ----- the fields that the encoders write

  /** A string or nested message, its tag and length in the shortest form. */
  function Shortest(num: nat, p: bytes): Field {
    Delimited(Varint.Encode(8 * num + 2), Varint.Encode(|p|), p)
  }

  /** An integer, likewise. */
  function ShortestInteger(num: nat, v: uint64): Field {
    Integer(Varint.Encode(8 * num), Varint.Encode(v))
  }

  function Run(fs: seq<Field>): Fields {
    if fs == [] then Nil else Cons(fs[0], Run(fs[1..]))
  }

  lemma {:induction false} RunAppend(a: seq<Field>, b: seq<Field>)
    ensures AllBytes(Run(a + b)) == AllBytes(Run(a)) + AllBytes(Run(b))
  {
    hide Bytes;
    if a == [] {
      assert a + b == b;
    } else {
      assert (a + b)[1..] == a[1..] + b;
      RunAppend(a[1..], b);
    }
  }

  lemma RunOfOne(f: Field)
    ensures AllBytes(Run([f])) == Bytes(f)
  {
    assert [f][1..] == [];
    assert AllBytes(Run([])) == [];
  }
}
