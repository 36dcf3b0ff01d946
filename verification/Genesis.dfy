/** Importing, exporting and validating the module's genesis state. */
module Genesis {
  import opened Machine
  import opened ByteOrder
  import IdentityCodec
  import opened GenesisCodec
  import opened IdentityKeeper

  type Identity = IdentityCodec.Identity

  // ----- the three operations

  /** The byte store after the records of `list` have been set, one after the other. */
  function PutAll(store: Store, list: seq<Identity>): Store
    decreases |list|
  {
    if list == [] then store else PutAll(Put(store, list[0]), list[1..])
  }

  /** What `InitGenesis` leaves in the store. */
  function Import(store: Store, g: GenesisState): Store {
    PutParams(PutAll(store, g.identityList), g.params)
  }

  /** What `ExportGenesis` reads from it, None where a stored value does not decode. */
  ghost function Export(store: Store): Option<GenesisState> {
    match (FetchParams(store), FetchAll(store))
    case (Some(p), Some(list)) => Some(GenesisState(p, list))
    case _ => None
  }

  method InitGenesis(k: Keeper, genState: GenesisState)
    requires AllFit(genState.identityList)
    modifies k
    ensures k.store == Import(old(k.store), genState)
  {
    var list := genState.identityList;
    assert list[0..] == list;
    for i := 0 to |list|
      invariant PutAll(old(k.store), list) == PutAll(k.store, list[i..])
    {
      assert list[i..][1..] == list[i + 1..];
      k.SetIdentity(list[i]);
    }
    k.SetParams(genState.params);
  }

  method ExportGenesis(k: Keeper) returns (r: Option<GenesisState>)
    requires Bounded(k.store)
    ensures r == Export(k.store)
  {
    var genesis := DEFAULT;
    var params := k.GetParams();
    if params == None {
      return None;
    }
    genesis := genesis.(params := params.value);
    var list := k.GetAllIdentity();
    if list == None {
      return None;
    }
    genesis := genesis.(identityList := list.value);
    return Some(genesis);
  }

  ghost predicate Distinct(list: seq<Identity>) {
    forall i, j :: 0 <= i < j < |list| ==> list[i].address != list[j].address
  }

  /** `Validate`, with its map of keys seen: it accepts exactly the lists without a repeated address. */
  method Validate(gs: GenesisState) returns (ok: bool)
    ensures ok <==> Distinct(gs.identityList)
  {
    var identityIndexMap: set<bytes> := {};
    for i := 0 to |gs.identityList|
      invariant Distinct(gs.identityList[..i])
      invariant forall j :: 0 <= j < i ==> IdentityKey(gs.identityList[j].address) in identityIndexMap
      invariant forall key :: key in identityIndexMap ==>
                  exists j :: 0 <= j < i && key == IdentityKey(gs.identityList[j].address)
    {
      var index := IdentityKey(gs.identityList[i].address);
      if index in identityIndexMap {
        var j :| 0 <= j < i && index == IdentityKey(gs.identityList[j].address);
        KeysApart(gs.identityList[i].address, gs.identityList[j].address);
        return false;
      }
      identityIndexMap := identityIndexMap + {index};
    }
    assert gs.identityList[..|gs.identityList|] == gs.identityList;
    return true;
  }

  // ----- on any store

  /**
   * On whatever store, importing leaves under each address the encoding of the last record of the list for it, the
   * empty string under the key of the parameters, and everything else as it was.
   */
  lemma ImportIsLast(store: Store, g: GenesisState, a: bytes, key: bytes)
    ensures PARAMS_KEY in Import(store, g) && Import(store, g)[PARAMS_KEY] == []
    ensures LastFor(g.identityList, a).Some? ==>
              && RecordKey(a) in Import(store, g)
              && Import(store, g)[RecordKey(a)] == IdentityCodec.Encode(LastFor(g.identityList, a).value)
    ensures key != PARAMS_KEY && (forall x :: x in g.identityList ==> key != RecordKey(x.address)) ==>
              (key in Import(store, g) <==> key in store) &&
              (key in store ==> Import(store, g)[key] == store[key])
  {
    hide RecordKey, IdentityCodec.Encode, PutAll;
    KeysApart(a, a);
    PutAllIsLast(store, g.identityList, a);
    if forall x :: x in g.identityList ==> key != RecordKey(x.address) {
      PutAllKeeps(store, g.identityList, key);
    }
  }

  lemma {:induction false} PutAllIsLast(store: Store, list: seq<Identity>, a: bytes)
    ensures match LastFor(list, a)
            case None => true
            case Some(x) =>
              RecordKey(a) in PutAll(store, list) && PutAll(store, list)[RecordKey(a)] == IdentityCodec.Encode(x)
    decreases |list|
  {
    if list == [] {
    } else {
      hide RecordKey, IdentityCodec.Encode;
      var n := |list| - 1;
      assert list == list[..n] + [list[n]];
      PutAllAppend(store, list[..n], list[n]);
      PutAllIsLast(store, list[..n], a);
      KeysApart(a, list[n].address);
    }
  }

  lemma {:induction false} PutAllAppend(store: Store, list: seq<Identity>, x: Identity)
    ensures PutAll(store, list + [x]) == Put(PutAll(store, list), x)
    decreases |list|
  {
    hide Put;
    if list == [] {
      assert list + [x] == [x] && [x][1..] == [];
    } else {
      assert (list + [x])[1..] == list[1..] + [x];
      PutAllAppend(Put(store, list[0]), list[1..], x);
    }
  }

  lemma {:induction false} PutAllKeeps(store: Store, list: seq<Identity>, key: bytes)
    requires forall x :: x in list ==> key != RecordKey(x.address)
    ensures key in PutAll(store, list) <==> key in store
    ensures key in store ==> PutAll(store, list)[key] == store[key]
    decreases |list|
  {
    if list == [] {
    } else {
      hide RecordKey, IdentityCodec.Encode;
      PutAllKeeps(Put(store, list[0]), list[1..], key);
    }
  }

  /** There is an export exactly if the parameters and every value under the prefix decode. */
  lemma ExportIsExact(store: Store)
    ensures Export(store).Some? <==>
            && (PARAMS_KEY in store ==> DecodeParamsInto(store[PARAMS_KEY], Params).Ok?)
            && forall k :: k in store && IDENTITY_KEY_PREFIX <= k ==>
                 IdentityCodec.DecodeInto(store[k], IdentityCodec.EMPTY).Ok?
    ensures Export(store).Some? ==> Some(Export(store).value.identityList) == FetchAll(store)
  {
    hide IdentityCodec.DecodeInto, DecodeParamsInto, FetchAll;
    var keys := ListIsExact(store);
  }

  // ----- import on the map

  /** The map after importing a list: later records replace earlier ones under the same address. */
  function Collect(records: map<bytes, Identity>, list: seq<Identity>): map<bytes, Identity>
    decreases |list|
  {
    if list == [] then records else Collect(records[list[0].address := list[0]], list[1..])
  }

  /** The last record of a list for an address. */
  function LastFor(list: seq<Identity>, a: bytes): Option<Identity> {
    if list == [] then None
    else if list[|list| - 1].address == a then Some(list[|list| - 1])
    else LastFor(list[..|list| - 1], a)
  }

  lemma {:induction false} CollectAppend(records: map<bytes, Identity>, list: seq<Identity>, x: Identity)
    ensures Collect(records, list + [x]) == Collect(records, list)[x.address := x]
    decreases |list|
  {
    if list == [] {
      assert list + [x] == [x] && [x][1..] == [];
    } else {
      assert (list + [x])[1..] == list[1..] + [x];
      CollectAppend(records[list[0].address := list[0]], list[1..], x);
    }
  }

  /** Without validation the last duplicate wins; what the list does not mention is kept. */
  lemma {:induction false} CollectIsLast(records: map<bytes, Identity>, list: seq<Identity>, a: bytes)
    ensures a in Collect(records, list) <==> a in records || LastFor(list, a).Some?
    ensures LastFor(list, a).Some? ==> Collect(records, list)[a] == LastFor(list, a).value
    ensures LastFor(list, a).None? && a in records ==> Collect(records, list)[a] == records[a]
    decreases |list|
  {
    if list == [] {
    } else {
      var n := |list| - 1;
      assert list == list[..n] + [list[n]];
      CollectAppend(records, list[..n], list[n]);
      CollectIsLast(records, list[..n], a);
    }
  }

  lemma {:induction false} LastForIn(list: seq<Identity>, a: bytes)
    ensures LastFor(list, a).Some? ==> LastFor(list, a).value in list && LastFor(list, a).value.address == a
    ensures (exists i :: 0 <= i < |list| && list[i].address == a) ==> LastFor(list, a).Some?
    ensures Distinct(list) ==>
              forall i :: 0 <= i < |list| && list[i].address == a ==> LastFor(list, a) == Some(list[i])
    decreases |list|
  {
    if list == [] {
    } else {
      var n := |list| - 1;
      LastForIn(list[..n], a);
      forall i | 0 <= i < |list| && list[i].address == a
        ensures LastFor(list, a).Some?
        ensures Distinct(list) ==> LastFor(list, a) == Some(list[i])
      {
        assert i < n ==> list[..n][i] == list[i];
      }
    }
  }

  lemma {:induction false} PutAllSimulates(reg: Registry, list: seq<Identity>)
    ensures PutAll(Image(reg), list) == Image(reg.(records := Collect(reg.records, list)))
    decreases |list|
  {
    if list != [] {
      hide Image, Put;
      var records := reg.records[list[0].address := list[0]];
      PutSimulates(reg, list[0]);
      PutAllSimulates(reg.(records := records), list[1..]);
      assert reg.(records := records).(records := Collect(records, list[1..]))
          == reg.(records := Collect(reg.records, list));
    } else {
      assert reg.(records := reg.records) == reg;
    }
  }

  /** Importing on the byte store is collecting on the map. */
  lemma ImportSimulates(reg: Registry, g: GenesisState)
    ensures Import(Image(reg), g) == Image(Registry(Collect(reg.records, g.identityList), Some(g.params)))
  {
    hide Image, PutAll, Collect, PutParams;
    PutAllSimulates(reg, g.identityList);
    PutParamsSimulates(reg.(records := Collect(reg.records, g.identityList)), g.params);
  }

  lemma CollectSound(records: map<bytes, Identity>, params: Option<Params>, list: seq<Identity>)
    requires Sound(Registry(records, params)) && AllFit(list)
    ensures Sound(Registry(Collect(records, list), params))
  {
    hide IdentityCodec.Fits, Collect;
    forall a | a in Collect(records, list)
      ensures Collect(records, list)[a].address == a && IdentityCodec.Fits(Collect(records, list)[a])
    {
      CollectIsLast(records, list, a);
      LastForIn(list, a);
    }
  }

  const EMPTY_REGISTRY := Registry(map[], None)

  lemma EmptyImage()
    ensures Image(EMPTY_REGISTRY) == map[] && Sound(EMPTY_REGISTRY)
  {
  }

  // ----- export, then import

  /** Exporting the image of a registry lists its records in key order. */
  lemma ExportSimulates(reg: Registry) returns (list: seq<Identity>)
    requires Sound(reg)
    ensures Export(Image(reg)) == Some(GenesisState(Params, list))
    ensures IsListing(list, reg.records)
  {
    hide Image, FetchAll, FetchParams;
    FetchParamsSimulates(reg);
    list := ListingSimulates(reg);
  }

  /** A listing holds the whole map. */
  lemma CollectListing(list: seq<Identity>, records: map<bytes, Identity>)
    requires IsListing(list, records) && Keyed(records)
    ensures Collect(map[], list) == records
  {
    hide Collect, IdentityKey;
    ListingDistinct(list, records);
    forall a
      ensures a in Collect(map[], list) <==> a in records
      ensures a in records ==> Collect(map[], list)[a] == records[a]
    {
      CollectIsLast(map[], list, a);
      LastForIn(list, a);
      if a in records {
        var i :| 0 <= i < |list| && list[i] == records[a];
        assert list[i].address == a;
      }
    }
  }

  lemma ListingDistinct(list: seq<Identity>, records: map<bytes, Identity>)
    requires IsListing(list, records)
    ensures Distinct(list)
  {
    forall i, j | 0 <= i < j < |list| ensures list[i].address != list[j].address {
      LessIrreflexive(IdentityKey(list[i].address));
    }
  }

  /** Export followed by import into an empty store, on the image of a registry: its records, and the parameters set. */
  lemma ReimportSimulates(reg: Registry)
    requires Sound(reg)
    ensures Export(Image(reg)).Some?
    ensures Import(map[], Export(Image(reg)).value) == Image(reg.(params := Some(Params)))
  {
    hide Image, Export, Import, Collect;
    var list := ExportSimulates(reg);
    CollectListing(list, reg.records);
    EmptyImage();
    ImportSimulates(EMPTY_REGISTRY, GenesisState(Params, list));
  }

  /** The value decodes, is the canonical encoding of what it decodes to, and sits under the key of its address. */
  predicate CanonicalEntry(key: bytes, value: bytes) {
    match IdentityCodec.DecodeInto(value, IdentityCodec.EMPTY)
    case Err(_) => false
    case Ok(x) => key == RecordKey(x.address) && value == IdentityCodec.Encode(x)
  }

  /** The parameters are there, as the empty string they encode to, and every other entry is a canonical record. */
  predicate Complete(store: Store) {
    && PARAMS_KEY in store && store[PARAMS_KEY] == []
    && forall key :: key in store && key != PARAMS_KEY ==> CanonicalEntry(key, store[key])
  }

  /** The records of such a store. */
  function RecordsOf(store: Store): map<bytes, Identity> {
    map a | a in (set key | key in store && |key| > |IDENTITY_KEY_PREFIX| :: AddressOf(key))
            && Fetch(store, a).Found? :: Fetch(store, a).x
  }

  lemma CompleteIsImage(store: Store)
    requires Bounded(store) && Complete(store)
    ensures Sound(Registry(RecordsOf(store), Some(Params))) && store == Image(Registry(RecordsOf(store), Some(Params)))
  {
    hide RecordKey, IdentityCodec.Encode, IdentityCodec.DecodeInto, Image, AddressOf;
    var reg := Registry(RecordsOf(store), Some(Params));
    forall a
      ensures RecordKey(a) in store <==> a in reg.records
      ensures a in reg.records ==> store[RecordKey(a)] == IdentityCodec.Encode(reg.records[a])
      ensures a in reg.records ==> reg.records[a].address == a
    {
      KeyGivesAddress(a);
      KeysApart(a, a);
      if RecordKey(a) in store {
        assert CanonicalEntry(RecordKey(a), store[RecordKey(a)]);
        KeysApart(a, Fetch(store, a).x.address);
      }
    }
    SameStore(store, reg);
  }

  lemma ImageIsComplete(reg: Registry)
    requires Sound(reg) && reg.params.Some?
    ensures Complete(Image(reg))
  {
    hide RecordKey, IdentityCodec.Encode, IdentityCodec.DecodeInto, Image;
    ImageContents(reg);
    forall key | key in Image(reg) && key != PARAMS_KEY ensures CanonicalEntry(key, Image(reg)[key]) {
      var a :| a in reg.records && key == RecordKey(a);
      IdentityCodec.RoundTrip(reg.records[a]);
    }
  }

  lemma {:induction false} DecodedFit(store: Store, keys: seq<bytes>)
    requires Bounded(store) && forall k :: k in keys ==> k in store
    requires DecodeEach(store, keys).Some?
    ensures AllFit(DecodeEach(store, keys).value)
  {
    hide IdentityCodec.DecodeInto, IdentityCodec.Encode;
    if keys == [] {
    } else {
      var x := IdentityCodec.DecodeInto(store[keys[0]], IdentityCodec.EMPTY).value;
      IdentityCodec.ShortestEncoding(store[keys[0]], x);
      IdentityCodec.SizeIsLength(x);
      DecodedFit(store, keys[1..]);
    }
  }

  /**
   * Exporting and importing into an empty store gives back the same bytes exactly for the stores that hold only
   * canonical records, each under its own address, and the parameters. A store the parameters have never been
   * written to comes back with one more key.
   */
  lemma StateRoundTrip(store: Store)
    requires Bounded(store) && Export(store).Some?
    ensures Import(map[], Export(store).value) == store <==> Complete(store)
  {
    var g := Export(store).value;
    ExportFits(store);
    hide Image, Export, Import, Collect, AllFit, Complete;
    if Complete(store) {
      CompleteIsImage(store);
      ReimportSimulates(Registry(RecordsOf(store), Some(Params)));
    }
    EmptyImage();
    ImportSimulates(EMPTY_REGISTRY, g);
    CollectSound(map[], Some(g.params), g.identityList);
    ImageIsComplete(Registry(Collect(map[], g.identityList), Some(g.params)));
  }

  lemma ExportFits(store: Store)
    requires Bounded(store) && Export(store).Some?
    ensures AllFit(Export(store).value.identityList)
  {
    SortedContents(Prefixed(store));
    DecodedFit(store, Sorted(Prefixed(store)));
  }

  /** The exception is real: the empty store. */
  lemma EmptyStoreGrows()
    ensures Export(map[]) == Some(DEFAULT) && Import(map[], DEFAULT) == map[PARAMS_KEY := []]
  {
    assert Prefixed(map[]) == {};
  }

  // ----- import, then export

  /**
   * Importing any list into an empty store and exporting gives, in the byte order of address + `/`, the last record
   * of the list for each address, and nothing else.
   */
  lemma ListRoundTrip(g: GenesisState) returns (list: seq<Identity>)
    requires AllFit(g.identityList)
    ensures Export(Import(map[], g)) == Some(GenesisState(g.params, list))
    ensures forall i, j :: 0 <= i < j < |list| ==>
              Less(IdentityKey(list[i].address), IdentityKey(list[j].address))
    ensures forall x :: x in list <==> LastFor(g.identityList, x.address) == Some(x)
  {
    hide Image, Export, Import, Collect, AllFit;
    EmptyImage();
    var records := Collect(map[], g.identityList);
    ImportSimulates(EMPTY_REGISTRY, g);
    CollectSound(map[], Some(g.params), g.identityList);
    list := ExportSimulates(Registry(records, Some(g.params)));
    assert g.params.Params?;
    forall x ensures x in list <==> LastFor(g.identityList, x.address) == Some(x) {
      CollectIsLast(map[], g.identityList, x.address);
      LastForIn(g.identityList, x.address);
      if x in list {
        var i :| 0 <= i < |list| && list[i] == x;
      }
    }
  }

  lemma {:induction false} CountDistinct(list: seq<Identity>, x: Identity)
    requires Distinct(list)
    ensures multiset(list)[x] == if x in list then 1 else 0
  {
    if list == [] {
    } else {
      var rest := list[1..];
      assert list == [list[0]] + rest;
      CountDistinct(rest, x);
      forall i | 0 <= i < |rest| ensures rest[i] != list[0] {
        assert list[i + 1] == rest[i];
      }
    }
  }

  /** For a list that validates, that is the list itself, reordered, with the same parameters. */
  lemma ValidListRoundTrip(g: GenesisState) returns (list: seq<Identity>)
    requires AllFit(g.identityList) && Distinct(g.identityList)
    ensures Export(Import(map[], g)) == Some(GenesisState(g.params, list))
    ensures multiset(list) == multiset(g.identityList)
    ensures forall i, j :: 0 <= i < j < |list| ==>
              Less(IdentityKey(list[i].address), IdentityKey(list[j].address))
  {
    hide Export, Import, AllFit, IdentityKey;
    list := ListRoundTrip(g);
    OrderedDistinct(list);
    forall x ensures multiset(list)[x] == multiset(g.identityList)[x] {
      CountDistinct(list, x);
      CountDistinct(g.identityList, x);
      LastForIn(g.identityList, x.address);
      if x in g.identityList {
        var i :| 0 <= i < |g.identityList| && g.identityList[i] == x;
        assert LastFor(g.identityList, x.address) == Some(x);
      }
    }
  }

  lemma OrderedDistinct(list: seq<Identity>)
    requires forall i, j :: 0 <= i < j < |list| ==>
               Less(IdentityKey(list[i].address), IdentityKey(list[j].address))
    ensures Distinct(list)
  {
    forall i, j | 0 <= i < j < |list| ensures list[i].address != list[j].address {
      LessIrreflexive(IdentityKey(list[i].address));
    }
  }

  // ----- the order of the exported list

  /** `a` continues with a byte before `/` where `b` ends: the one case where the slash turns the order round. */
  predicate Overtakes(a: bytes, b: bytes) {
    b < a && a[|b|] < '/' as int
  }

  /** The order of the keys is that of the addresses except where one overtakes the other. */
  lemma {:induction false} KeyOrder(a: bytes, b: bytes)
    ensures Less(IdentityKey(a), IdentityKey(b)) <==> (Less(a, b) && !Overtakes(b, a)) || Overtakes(a, b)
  {
    var ka, kb := IdentityKey(a), IdentityKey(b);
    if a == [] || b == [] {
      KeyOrderAtEnd(a, b);
    } else {
      assert ka[1..] == IdentityKey(a[1..]) && kb[1..] == IdentityKey(b[1..]);
      KeyOrder(a[1..], b[1..]);
      if a[0] == b[0] {
        OvertakesTail(a, b);
        OvertakesTail(b, a);
      }
    }
  }

  lemma OvertakesTail(a: bytes, b: bytes)
    requires a != [] && b != [] && a[0] == b[0]
    ensures Overtakes(a, b) <==> Overtakes(a[1..], b[1..])
  {
    if b[1..] <= a[1..] {
      assert b == [b[0]] + b[1..] && a == [a[0]] + a[1..];
    }
  }

  lemma KeyOrderAtEnd(a: bytes, b: bytes)
    requires a == [] || b == []
    ensures Less(IdentityKey(a), IdentityKey(b)) <==> (Less(a, b) && !Overtakes(b, a)) || Overtakes(a, b)
  {
    var slash := Ascii("/");
    assert slash == ['/' as int];
    if a == [] && b == [] {
      LessIrreflexive(slash);
    } else if a == [] {
      assert IdentityKey(b)[0] == b[0] && IdentityKey(a) == slash;
      assert IdentityKey(b)[1..] == IdentityKey(b[1..]) && slash[1..] == [];
    } else {
      assert IdentityKey(a)[0] == a[0] && IdentityKey(b) == slash;
      assert !Less(IdentityKey(a)[1..], slash[1..]);
    }
  }

  /** Addresses `a` and `a!` are listed the other way round, because `!` comes before `/`. */
  lemma KeyOrderDiffers()
    ensures Less(Ascii("a"), Ascii("a!")) && Less(IdentityKey(Ascii("a!")), IdentityKey(Ascii("a")))
  {
    var a, b := Ascii("a"), Ascii("a!");
    assert a == ['a' as int] && b == ['a' as int, '!' as int];
    assert b[1..] == ['!' as int] && a[1..] == [];
    assert b[|a|] < '/' as int;
    assert a < b;
    KeyOrder(b, a);
  }
}
