/**
 * The keeper over its byte store. One flat store holds the records, each under `Identity/value/` + address + `/`
 * as codec bytes, and the parameters under `p_identity`. A `Registry` is what that store stands for.
 */
module IdentityKeeper {
  import opened Machine
  import opened ByteOrder
  import IdentityCodec
  import GenesisCodec
  import opened FieldGrammar

  type Identity = IdentityCodec.Identity
  type Params = GenesisCodec.Params
  type Store = map<bytes, bytes>

  // ----- keys

  function Ascii(s: string): bytes {
    seq(|s|, i requires 0 <= i < |s| => s[i] as int % 256)
  }

  const IDENTITY_KEY_PREFIX: bytes := Ascii("Identity/value/")
  const PARAMS_KEY: bytes := Ascii("p_identity")

  /** The key of an address in the prefixed store. */
  function IdentityKey(address: bytes): bytes {
    address + Ascii("/")
  }

  function RecordKey(address: bytes): bytes {
    IDENTITY_KEY_PREFIX + IdentityKey(address)
  }

  /** The bytes of the keys: `Identity/value/`, the address, `/`; and `p_identity`. */
  lemma KeyBytes(address: bytes)
    ensures IDENTITY_KEY_PREFIX ==
            [0x49, 0x64, 0x65, 0x6e, 0x74, 0x69, 0x74, 0x79, 0x2f, 0x76, 0x61, 0x6c, 0x75, 0x65, 0x2f]
    ensures IdentityKey(address) == address + [0x2f]
    ensures RecordKey(address) == IDENTITY_KEY_PREFIX + (address + [0x2f])
    ensures PARAMS_KEY == [0x70, 0x5f, 0x69, 0x64, 0x65, 0x6e, 0x74, 0x69, 0x74, 0x79]
  {
    assert Ascii("/") == [0x2f];
  }

  /** The address a record's key was made from. */
  function AddressOf(key: bytes): bytes
    requires |key| > |IDENTITY_KEY_PREFIX|
  {
    key[|IDENTITY_KEY_PREFIX|..|key| - 1]
  }

  /** The address can be read back from a key, be there slashes in it or not. */
  lemma KeyGivesAddress(a: bytes)
    ensures |RecordKey(a)| > |IDENTITY_KEY_PREFIX| && AddressOf(RecordKey(a)) == a
    ensures IDENTITY_KEY_PREFIX <= RecordKey(a)
  {
  }

  /** Two addresses never share a key, and none has the key of the parameters. */
  lemma KeysApart(a: bytes, b: bytes)
    ensures IdentityKey(a) == IdentityKey(b) ==> a == b
    ensures RecordKey(a) == RecordKey(b) ==> a == b
    ensures RecordKey(a) != PARAMS_KEY && !(IDENTITY_KEY_PREFIX <= PARAMS_KEY)
  {
    KeyGivesAddress(a);
    KeyGivesAddress(b);
    if IdentityKey(a) == IdentityKey(b) {
      assert a == IdentityKey(a)[..|a|] && b == IdentityKey(b)[..|b|];
    }
    assert RecordKey(a)[0] == 'I' as int != 'p' as int == PARAMS_KEY[0];
  }

  // ----- what the operations compute on the byte store

  /** Go buffers are shorter than 2^63 bytes. */
  ghost predicate Bounded(store: Store) {
    forall k :: k in store ==> |store[k]| < TWO63
  }

  datatype Fetched = Absent | Found(x: Identity) | Panics

  function Fetch(store: Store, address: bytes): Fetched {
    if RecordKey(address) !in store then Absent
    else match IdentityCodec.DecodeInto(store[RecordKey(address)], IdentityCodec.EMPTY)
      case Err(_) => Panics
      case Ok(x) => Found(x)
  }

  function Put(store: Store, x: Identity): Store {
    store[RecordKey(x.address) := IdentityCodec.Encode(x)]
  }

  function FetchParams(store: Store): Option<Params> {
    if PARAMS_KEY !in store then Some(GenesisCodec.Params)
    else match GenesisCodec.DecodeParamsInto(store[PARAMS_KEY], GenesisCodec.Params)
      case Err(_) => None
      case Ok(p) => Some(p)
  }

  function PutParams(store: Store, p: Params): Store {
    store[PARAMS_KEY := GenesisCodec.EncodeParams(p)]
  }

  /** The keys the prefixed iterator visits. */
  function Prefixed(store: Store): set<bytes> {
    set k | k in store && IDENTITY_KEY_PREFIX <= k
  }

  /** The records under the given keys, None where one of them does not decode. */
  function DecodeEach(store: Store, keys: seq<bytes>): Option<seq<Identity>>
    requires forall k :: k in keys ==> k in store
  {
    if keys == [] then Some([])
    else match IdentityCodec.DecodeInto(store[keys[0]], IdentityCodec.EMPTY)
      case Err(_) => None
      case Ok(x) => match DecodeEach(store, keys[1..])
        case None => None
        case Some(rest) => Some([x] + rest)
  }

  lemma DecodeNone(store: Store)
    ensures DecodeEach(store, []) == Some([])
  {
  }

  lemma {:induction false} DecodeEachAppend(store: Store, keys: seq<bytes>, key: bytes)
    requires key in store && forall k :: k in keys ==> k in store
    ensures DecodeEach(store, keys + [key]) ==
            match DecodeEach(store, keys)
            case None => None
            case Some(list) =>
              match IdentityCodec.DecodeInto(store[key], IdentityCodec.EMPTY)
              case Err(_) => None
              case Ok(x) => Some(list + [x])
  {
    hide IdentityCodec.DecodeInto;
    if keys == [] {
      assert keys + [key] == [key] && [key][1..] == [];
      var last := IdentityCodec.DecodeInto(store[key], IdentityCodec.EMPTY);
      assert last.Ok? ==> [last.value] + [] == [] + [last.value];
    } else {
      assert (keys + [key])[1..] == keys[1..] + [key];
      DecodeEachAppend(store, keys[1..], key);
      var first := IdentityCodec.DecodeInto(store[keys[0]], IdentityCodec.EMPTY);
      var last := IdentityCodec.DecodeInto(store[key], IdentityCodec.EMPTY);
      var rest := DecodeEach(store, keys[1..]);
      if first.Ok? && last.Ok? && rest.Some? {
        assert [first.value] + (rest.value + [last.value]) == ([first.value] + rest.value) + [last.value];
      }
    }
  }

  lemma {:induction false} DecodeEachSplit(store: Store, keys: seq<bytes>, n: nat)
    requires n <= |keys| && forall k :: k in keys ==> k in store
    ensures DecodeEach(store, keys[..n]).None? ==> DecodeEach(store, keys).None?
  {
    hide IdentityCodec.DecodeInto;
    if n == 0 {
    } else {
      assert keys[..n][1..] == keys[1..][..n - 1];
      DecodeEachSplit(store, keys[1..], n - 1);
    }
  }

  ghost function FetchAll(store: Store): Option<seq<Identity>> {
    SortedContents(Prefixed(store));
    DecodeEach(store, Sorted(Prefixed(store)))
  }

  // ----- what they find in any store, be it an image or not

  /**
   * A lookup finds `x` exactly if the bytes under the key are a run of fields that stands for it; it panics exactly
   * if there are bytes that stand for no record.
   */
  lemma FetchIsExact(store: Store, address: bytes, x: Identity)
    requires Bounded(store)
    ensures Fetch(store, address).Absent? <==> RecordKey(address) !in store
    ensures Fetch(store, address) == Found(x) <==>
            RecordKey(address) in store &&
            exists fs :: AllWellFormed(fs) && AllBytes(fs) == store[RecordKey(address)] &&
                         IdentityCodec.Takes(fs) && IdentityCodec.LastDecides(fs, IdentityCodec.EMPTY, x)
  {
    hide RecordKey, IdentityCodec.DecodeInto, AllWellFormed, AllBytes, IdentityCodec.Takes, IdentityCodec.LastDecides;
    if RecordKey(address) in store {
      IdentityCodec.DecodeTakesLast(store[RecordKey(address)], IdentityCodec.EMPTY, x);
    }
  }

  /** Reading the parameters panics exactly if there are bytes that are no run of fields with positive numbers. */
  lemma FetchParamsIsExact(store: Store)
    requires Bounded(store)
    ensures FetchParams(store).None? <==>
            PARAMS_KEY in store &&
            !exists fs :: AllWellFormed(fs) && AllBytes(fs) == store[PARAMS_KEY] &&
                          AllUnknown(GenesisCodec.ParamsSchema(), fs)
  {
    hide GenesisCodec.DecodeParamsInto, AllWellFormed, AllBytes, AllUnknown;
    if PARAMS_KEY in store {
      GenesisCodec.ParamsAcceptance(store[PARAMS_KEY], GenesisCodec.Params);
    }
  }

  /**
   * The list is there exactly if every value under the prefix decodes, and then it is those values decoded, in the
   * byte order of their keys.
   */
  lemma ListIsExact(store: Store) returns (keys: seq<bytes>)
    ensures Ascending(keys) && forall k :: k in keys <==> k in store && IDENTITY_KEY_PREFIX <= k
    ensures FetchAll(store).Some? <==>
            forall k :: k in store && IDENTITY_KEY_PREFIX <= k ==>
              IdentityCodec.DecodeInto(store[k], IdentityCodec.EMPTY).Ok?
    ensures FetchAll(store).Some? ==>
              var list := FetchAll(store).value;
              && |list| == |keys|
              && forall i :: 0 <= i < |list| ==>
                   IdentityCodec.DecodeInto(store[keys[i]], IdentityCodec.EMPTY) == Ok(list[i])
  {
    hide IdentityCodec.DecodeInto, DecodeEach;
    keys := Sorted(Prefixed(store));
    SortedContents(Prefixed(store));
    DecodeEachIsExact(store, keys);
  }

  lemma {:induction false} DecodeEachIsExact(store: Store, keys: seq<bytes>)
    requires forall k :: k in keys ==> k in store
    ensures DecodeEach(store, keys).Some? <==>
            forall k :: k in keys ==> IdentityCodec.DecodeInto(store[k], IdentityCodec.EMPTY).Ok?
    ensures DecodeEach(store, keys).Some? ==>
              var list := DecodeEach(store, keys).value;
              && |list| == |keys|
              && forall i :: 0 <= i < |list| ==>
                   IdentityCodec.DecodeInto(store[keys[i]], IdentityCodec.EMPTY) == Ok(list[i])
  {
    hide IdentityCodec.DecodeInto;
    if keys == [] {
    } else {
      DecodeEachIsExact(store, keys[1..]);
      assert keys == [keys[0]] + keys[1..];
    }
  }

  class Keeper {
    const authority: bytes
    var store: Store

    constructor (authority: bytes)
      ensures this.authority == authority && store == map[]
    {
      this.authority := authority;
      store := map[];
    }

    method SetIdentity(identity: Identity)
      requires IdentityCodec.Fits(identity)
      modifies this
      ensures store == Put(old(store), identity)
    {
      var b := identity.Marshal();
      store := store[RecordKey(identity.address) := b[..]];
    }

    method GetIdentity(address: bytes) returns (r: Fetched)
      requires Bounded(store)
      ensures r == Fetch(store, address)
    {
      if RecordKey(address) !in store {
        return Absent;
      }
      var val := new IdentityCodec.IdentityRef(IdentityCodec.EMPTY);
      var err := val.Unmarshal(store[RecordKey(address)]);
      r := if err != None then Panics else Found(val.Value());
    }

    method RemoveIdentity(address: bytes)
      modifies this
      ensures store == old(store) - {RecordKey(address)}
    {
      store := store - {RecordKey(address)};
    }

    /** None stands for the panic of `MustUnmarshal`. */
    method GetAllIdentity() returns (r: Option<seq<Identity>>)
      requires Bounded(store)
      ensures r == FetchAll(store)
    {
      hide IdentityCodec.DecodeInto, DecodeEach;
      var keys := Iterate(Prefixed(store));
      SortedContents(Prefixed(store));
      var list := [];
      DecodeNone(store);
      assert keys[..0] == [];
      for k := 0 to |keys|
        invariant forall key :: key in keys ==> key in store
        invariant DecodeEach(store, keys[..k]) == Some(list)
      {
        DecodeEachSplit(store, keys, k + 1);
        DecodeEachAppend(store, keys[..k], keys[k]);
        assert keys[..k + 1] == keys[..k] + [keys[k]];
        var val := new IdentityCodec.IdentityRef(IdentityCodec.EMPTY);
        var err := val.Unmarshal(store[keys[k]]);
        if err != None {
          return None;
        }
        list := list + [val.Value()];
      }
      assert keys[..|keys|] == keys;
      r := Some(list);
    }

    method GetParams() returns (r: Option<Params>)
      requires Bounded(store)
      ensures r == FetchParams(store)
    {
      if PARAMS_KEY !in store {
        return Some(GenesisCodec.Params);
      }
      var err := GenesisCodec.UnmarshalParams(store[PARAMS_KEY], GenesisCodec.Params);
      r := if err != None then None else Some(GenesisCodec.Params);
    }

    method SetParams(params: Params)
      modifies this
      ensures store == PutParams(old(store), params)
    {
      var bz := new byte[params.Size()](_ => 0);
      var n := params.MarshalToSizedBuffer(bz, bz.Length);
      store := store[PARAMS_KEY := bz[..n]];
    }
  }

  // ----- what the byte store stands for

  /** A map from address to record, and a cell for the parameters that may not have been written yet. */
  datatype Registry = Registry(records: map<bytes, Identity>, params: Option<Params>)

  /** Every record sits under its own address. */
  ghost predicate Keyed(records: map<bytes, Identity>) {
    forall a :: a in records ==> records[a].address == a
  }

  ghost predicate Sound(reg: Registry) {
    Keyed(reg.records) && forall a :: a in reg.records ==> IdentityCodec.Fits(reg.records[a])
  }

  function RecordKeys(addresses: set<bytes>): set<bytes> {
    set a | a in addresses :: RecordKey(a)
  }

  function RecordImage(records: map<bytes, Identity>): Store
    ensures RecordImage(records).Keys == RecordKeys(records.Keys)
    ensures forall a :: a in records ==>
              RecordKey(a) in RecordImage(records) &&
              RecordImage(records)[RecordKey(a)] == IdentityCodec.Encode(records[a])
  {
    KeysGiveAddresses(records.Keys);
    map k | k in RecordKeys(records.Keys) :: IdentityCodec.Encode(records[AddressOf(k)])
  }

  lemma KeysGiveAddresses(addresses: set<bytes>)
    ensures forall a :: a in addresses ==> |RecordKey(a)| > |IDENTITY_KEY_PREFIX| && AddressOf(RecordKey(a)) == a
  {
    forall a | a in addresses
      ensures |RecordKey(a)| > |IDENTITY_KEY_PREFIX| && AddressOf(RecordKey(a)) == a
    {
      KeyGivesAddress(a);
    }
  }

  /** The byte store of a registry, key by key and byte by byte. */
  function Image(reg: Registry): Store {
    RecordImage(reg.records) +
    match reg.params
    case None => map[]
    case Some(p) => map[PARAMS_KEY := GenesisCodec.EncodeParams(p)]
  }

  /** The keys of an image, and what is under them. */
  lemma ImageContents(reg: Registry)
    ensures forall a :: RecordKey(a) in Image(reg) <==> a in reg.records
    ensures forall a :: a in reg.records ==> Image(reg)[RecordKey(a)] == IdentityCodec.Encode(reg.records[a])
    ensures PARAMS_KEY in Image(reg) <==> reg.params.Some?
    ensures reg.params.Some? ==> Image(reg)[PARAMS_KEY] == GenesisCodec.EncodeParams(reg.params.value)
    ensures Prefixed(Image(reg)) == RecordKeys(reg.records.Keys)
    ensures forall k :: k in Image(reg) ==> k == PARAMS_KEY || k in RecordKeys(reg.records.Keys)
  {
    hide RecordKey, IdentityCodec.Encode, GenesisCodec.EncodeParams;
    forall a
      ensures RecordKey(a) in Image(reg) <==> a in reg.records
      ensures RecordKey(a) != PARAMS_KEY && IDENTITY_KEY_PREFIX <= RecordKey(a) && !(IDENTITY_KEY_PREFIX <= PARAMS_KEY)
    {
      KeyGivesAddress(a);
      KeysApart(a, a);
      if RecordKey(a) in RecordKeys(reg.records.Keys) {
        var b :| b in reg.records && RecordKey(b) == RecordKey(a);
        KeysApart(a, b);
      }
    }
  }

  lemma ImageBounded(reg: Registry)
    requires Sound(reg)
    ensures Bounded(Image(reg))
  {
    hide RecordKey, IdentityCodec.Encode;
    ImageContents(reg);
  }

  // ----- the operations on the two levels agree

  lemma FetchSimulates(reg: Registry, address: bytes)
    requires Sound(reg)
    ensures Fetch(Image(reg), address) == if address in reg.records then Found(reg.records[address]) else Absent
  {
    hide RecordKey, IdentityCodec.Encode, IdentityCodec.DecodeInto;
    ImageContents(reg);
    if address in reg.records {
      IdentityCodec.RoundTrip(reg.records[address]);
    }
  }

  lemma PutSimulates(reg: Registry, x: Identity)
    ensures Put(Image(reg), x) == Image(reg.(records := reg.records[x.address := x]))
  {
    hide RecordKey, IdentityCodec.Encode, GenesisCodec.EncodeParams, Image, RecordImage;
    var reg' := reg.(records := reg.records[x.address := x]);
    ImageContents(reg);
    forall a ensures a != x.address ==> RecordKey(a) != RecordKey(x.address) {
      KeysApart(a, x.address);
    }
    KeysApart(x.address, x.address);
    SameStore(Put(Image(reg), x), reg');
  }

  lemma RemoveSimulates(reg: Registry, address: bytes)
    ensures Image(reg) - {RecordKey(address)} == Image(reg.(records := reg.records - {address}))
  {
    hide RecordKey, IdentityCodec.Encode, GenesisCodec.EncodeParams, Image, RecordImage;
    var reg' := reg.(records := reg.records - {address});
    ImageContents(reg);
    forall a ensures a != address ==> RecordKey(a) != RecordKey(address) {
      KeysApart(a, address);
    }
    KeysApart(address, address);
    SameStore(Image(reg) - {RecordKey(address)}, reg');
  }

  lemma FetchParamsSimulates(reg: Registry)
    ensures FetchParams(Image(reg)) == Some(GenesisCodec.Params)
  {
    hide RecordKey, IdentityCodec.Encode;
    ImageContents(reg);
  }

  lemma PutParamsSimulates(reg: Registry, p: Params)
    ensures PutParams(Image(reg), p) == Image(reg.(params := Some(p)))
  {
    hide RecordKey, IdentityCodec.Encode, GenesisCodec.EncodeParams, Image, RecordImage;
    var reg' := reg.(params := Some(p));
    ImageContents(reg);
    forall a ensures RecordKey(a) != PARAMS_KEY {
      KeysApart(a, a);
    }
    SameStore(PutParams(Image(reg), p), reg');
  }

  /** A store is an image if it agrees with the registry on records and parameters, and has nothing else. */
  lemma SameStore(store: Store, reg: Registry)
    requires forall a :: RecordKey(a) in store <==> a in reg.records
    requires forall a :: a in reg.records ==> store[RecordKey(a)] == IdentityCodec.Encode(reg.records[a])
    requires PARAMS_KEY in store <==> reg.params.Some?
    requires reg.params.Some? ==> store[PARAMS_KEY] == GenesisCodec.EncodeParams(reg.params.value)
    requires forall k :: k in store ==> k == PARAMS_KEY || exists a :: k == RecordKey(a)
    ensures store == Image(reg)
  {
    hide RecordKey, IdentityCodec.Encode, GenesisCodec.EncodeParams, Image, RecordImage;
    ImageContents(reg);
  }

  /** A store stands for at most one registry. */
  lemma ImageInjective(r1: Registry, r2: Registry)
    requires Sound(r1) && Sound(r2) && Image(r1) == Image(r2)
    ensures r1 == r2
  {
    hide RecordKey, IdentityCodec.Encode, Image;
    ImageContents(r1);
    ImageContents(r2);
    forall a ensures a in r1.records <==> a in r2.records {
      assert RecordKey(a) in Image(r1) <==> RecordKey(a) in Image(r2);
    }
    forall a | a in r1.records ensures r1.records[a] == r2.records[a] {
      assert Image(r1)[RecordKey(a)] == Image(r2)[RecordKey(a)];
      IdentityCodec.EncodeInjective(r1.records[a], r2.records[a]);
    }
    assert r1.params.Some? <==> r2.params.Some?;
    if r1.params.Some? {
      assert r1.params.value.Params? && r2.params.value.Params?;
    }
  }

  // ----- the listing

  /** The records of a map, each once, in the order of their keys. */
  ghost predicate IsListing(list: seq<Identity>, records: map<bytes, Identity>) {
    && (forall i, j :: 0 <= i < j < |list| ==>
          Less(IdentityKey(list[i].address), IdentityKey(list[j].address)))
    && (forall i :: 0 <= i < |list| ==>
          list[i].address in records && records[list[i].address] == list[i])
    && (forall a :: a in records ==> records[a] in list)
  }

  lemma {:induction false} DecodeEachSimulates(reg: Registry, keys: seq<bytes>) returns (list: seq<Identity>)
    requires Sound(reg)
    requires forall k :: k in keys ==> k in Image(reg) && k in RecordKeys(reg.records.Keys)
    ensures DecodeEach(Image(reg), keys) == Some(list)
    ensures |list| == |keys|
    ensures forall i :: 0 <= i < |list| ==> list[i].address in reg.records &&
                                            reg.records[list[i].address] == list[i] &&
                                            keys[i] == RecordKey(list[i].address)
  {
    hide RecordKey, IdentityCodec.Encode, IdentityCodec.DecodeInto, Image;
    list := [];
    if keys == [] {
    } else {
      ImageContents(reg);
      assert keys[0] in keys;
      var a :| a in reg.records && keys[0] == RecordKey(a);
      IdentityCodec.RoundTrip(reg.records[a]);
      var rest := DecodeEachSimulates(reg, keys[1..]);
      list := [reg.records[a]] + rest;
    }
  }

  /** `GetAllIdentity` on an image lists the map. */
  lemma ListingSimulates(reg: Registry) returns (list: seq<Identity>)
    requires Sound(reg)
    ensures FetchAll(Image(reg)) == Some(list) && IsListing(list, reg.records)
  {
    hide RecordKey, Image, DecodeEach;
    ImageContents(reg);
    var keys := Sorted(Prefixed(Image(reg)));
    SortedContents(Prefixed(Image(reg)));
    list := DecodeEachSimulates(reg, keys);
    KeyOrderIsListing(reg.records, keys, list);
  }

  lemma KeyOrderIsListing(records: map<bytes, Identity>, keys: seq<bytes>, list: seq<Identity>)
    requires Ascending(keys) && |keys| == |list|
    requires forall k :: k in keys <==> k in RecordKeys(records.Keys)
    requires forall i :: 0 <= i < |list| ==> list[i].address in records &&
                                             records[list[i].address] == list[i] &&
                                             keys[i] == RecordKey(list[i].address)
    ensures IsListing(list, records)
  {
    hide RecordKey, IdentityKey;
    forall i, j | 0 <= i < j < |list|
      ensures Less(IdentityKey(list[i].address), IdentityKey(list[j].address))
    {
      assert Less(keys[i], keys[j]);
      RecordOrder(list[i].address, list[j].address);
    }
    forall a | a in records ensures records[a] in list {
      assert RecordKey(a) in keys;
      var i :| 0 <= i < |keys| && keys[i] == RecordKey(a);
      KeysApart(list[i].address, a);
      assert list[i] == records[a];
    }
  }

  lemma RecordOrder(a: bytes, b: bytes)
    ensures Less(RecordKey(a), RecordKey(b)) == Less(IdentityKey(a), IdentityKey(b))
  {
    LessUnderPrefix(IDENTITY_KEY_PREFIX, IdentityKey(a), IdentityKey(b));
  }

  /** A map has only one listing. */
  lemma {:induction false} ListingUnique(xs: seq<Identity>, ys: seq<Identity>, records: map<bytes, Identity>)
    requires IsListing(xs, records) && IsListing(ys, records) && Keyed(records)
    ensures xs == ys
    decreases |xs|
  {
    hide IsListing, Keyed;
    EmptyTogether(xs, ys, records);
    if xs == [] {
    } else {
      FirstOfListing(xs, ys, records);
      TailOfListing(xs, records);
      TailOfListing(ys, records);
      ListingUnique(xs[1..], ys[1..], records - {xs[0].address});
      assert xs == [xs[0]] + xs[1..] && ys == [ys[0]] + ys[1..];
    }
  }

  lemma EmptyTogether(xs: seq<Identity>, ys: seq<Identity>, records: map<bytes, Identity>)
    requires IsListing(xs, records) && IsListing(ys, records)
    ensures xs == [] <==> ys == []
  {
    assert xs != [] ==> xs[0].address in records && records[xs[0].address] in ys;
    assert ys != [] ==> ys[0].address in records && records[ys[0].address] in xs;
  }

  lemma FirstOfListing(xs: seq<Identity>, ys: seq<Identity>, records: map<bytes, Identity>)
    requires IsListing(xs, records) && IsListing(ys, records) && xs != [] && ys != []
    ensures xs[0] == ys[0]
  {
    assert records[xs[0].address] in ys && records[ys[0].address] in xs;
    var i :| 0 <= i < |ys| && ys[i] == xs[0];
    var j :| 0 <= j < |xs| && xs[j] == ys[0];
    if i > 0 && j > 0 {
      var x, y := IdentityKey(xs[0].address), IdentityKey(ys[0].address);
      assert Less(x, y) && Less(y, x);
      LessTransitive(x, y, x);
      LessIrreflexive(x);
    }
  }

  lemma TailOfListing(xs: seq<Identity>, records: map<bytes, Identity>)
    requires IsListing(xs, records) && xs != [] && Keyed(records)
    ensures IsListing(xs[1..], records - {xs[0].address}) && Keyed(records - {xs[0].address})
  {
    hide IdentityKey;
    var rest, fewer := xs[1..], records - {xs[0].address};
    forall i | 0 <= i < |rest| ensures rest[i].address in fewer {
      assert Less(IdentityKey(xs[0].address), IdentityKey(xs[i + 1].address));
      LessIrreflexive(IdentityKey(xs[0].address));
    }
    forall a | a in fewer ensures fewer[a] in rest {
      assert records[a] in xs;
      var i :| 0 <= i < |xs| && xs[i] == records[a];
      assert i > 0 && rest[i - 1] == records[a];
    }
  }
}
