/**
 * The module over whole runs: a genesis, then transactions, each gated, executed message by message, and rolled back
 * if a message fails. Roll-back, and that a simulated transaction leaves nothing behind, are what baseapp, not part
 * of this model, is assumed to do.
 */
module Chain {
  import opened Machine
  import opened IdentityKeeper
  import opened Gate
  import IdentityCodec
  import GenesisCodec
  import Genesis

  /**
   * What a node is configured with: the Bech32 codec, the hex-printed SHA-256 of a CCCD number, and the address that
   * may update the parameters. The first two are not part of this model.
   */
  datatype Env = Env(bech32: Bech32, digest: bytes -> bytes, authority: bytes)

  /**
   * A transaction as it is delivered. `clock(i)` is what the wall clock shows when message `i` is executed, and
   * `handled(i)` whether the handler of another module, which sees nothing of this store, succeeds on it.
   */
  datatype Tx = Tx(msgs: seq<Msg>, height: int, simulate: bool, clock: int -> int64, handled: int -> bool)

  // ----- one message

  function NewRecord(env: Env, creator: bytes, cccdId: bytes, now: int64): Identity {
    IdentityCodec.Identity(creator, env.digest(cccdId), now)
  }

  /** The registry after a message, None if its handler fails. A record too large for a buffer cannot be marshalled. */
  function Execute(env: Env, reg: Registry, body: Body, now: int64, handled: bool): Option<Registry> {
    match body
    case CreateIdentity(creator, cccdId) =>
      var x := NewRecord(env, creator, cccdId, now);
      if creator in reg.records || x.Size() >= TWO63 then None
      else Some(reg.(records := reg.records[creator := x]))
    case UpdateParams(authority, params) =>
      if authority != env.authority then None else Some(reg.(params := Some(params)))
    case _ => if handled then Some(reg) else None
  }

  datatype MsgError = AlreadyRegistered | TooLarge | InvalidSigner | HandlerFailed

  /** The message server's `CreateIdentity`. */
  method CreateIdentity(k: Keeper, env: Env, creator: bytes, cccdId: bytes, now: int64, ghost reg: Registry)
    returns (err: Option<MsgError>)
    requires Sound(reg) && k.store == Image(reg)
    modifies k
    ensures err == Some(AlreadyRegistered) <==> creator in reg.records
    ensures err != None ==> k.store == old(k.store)
    ensures err == None ==>
              k.store == Put(old(k.store), IdentityCodec.Identity(creator, env.digest(cccdId), now))
                      == Image(reg.(records := reg.records[creator := NewRecord(env, creator, cccdId, now)]))
    ensures err == None <==> Execute(env, reg, Body.CreateIdentity(creator, cccdId), now, true).Some?
  {
    hide Image, Sound, IdentityCodec.Identity.Size;
    var found := Lookup(k, reg, creator);
    if found {
      return Some(AlreadyRegistered);
    }
    var identity := NewRecord(env, creator, cccdId, now);
    if identity.Size() >= TWO63 {
      return Some(TooLarge);
    }
    IdentityCodec.SizeIsLength(identity);
    k.SetIdentity(identity);
    PutSimulates(reg, identity);
    return None;
  }

  /** The message server's `UpdateParams`. */
  method UpdateParams(k: Keeper, authority: bytes, params: GenesisCodec.Params, ghost reg: Registry)
    returns (err: Option<MsgError>)
    requires k.store == Image(reg)
    modifies k
    ensures err == None <==> k.authority == authority
    ensures k.store == if err == None then Image(reg.(params := Some(params))) else old(k.store)
  {
    if k.authority != authority {
      return Some(InvalidSigner);
    }
    k.SetParams(params);
    PutParamsSimulates(reg, params);
    return None;
  }

  // ----- one transaction

  /** The registry after the first `n` messages. */
  function ExecuteFirst(env: Env, reg: Registry, tx: Tx, n: nat): Option<Registry>
    requires n <= |tx.msgs|
  {
    if n == 0 then Some(reg)
    else match ExecuteFirst(env, reg, tx, n - 1)
      case None => None
      case Some(r) => Execute(env, r, tx.msgs[n - 1].body, tx.clock(n - 1), tx.handled(n - 1))
  }

  function Admits(env: Env, reg: Registry, tx: Tx): Verdict {
    Handle(env.bech32, reg.records.Keys, tx.height, tx.simulate, tx.msgs)
  }

  /** The transaction takes effect. */
  predicate Commits(env: Env, reg: Registry, tx: Tx) {
    Admits(env, reg, tx).Admitted? && ExecuteFirst(env, reg, tx, |tx.msgs|).Some? && !tx.simulate
  }

  function Deliver(env: Env, reg: Registry, tx: Tx): Registry {
    if Commits(env, reg, tx) then ExecuteFirst(env, reg, tx, |tx.msgs|).value else reg
  }

  lemma ExecuteSound(env: Env, reg: Registry, body: Body, now: int64, handled: bool)
    requires Sound(reg) && Execute(env, reg, body, now, handled).Some?
    ensures Sound(Execute(env, reg, body, now, handled).value)
  {
    hide IdentityCodec.Encode, IdentityCodec.Identity.Size;
    if body.CreateIdentity? {
      IdentityCodec.SizeIsLength(NewRecord(env, body.creator, body.cccdId, now));
    }
  }

  lemma {:induction false} ExecuteFirstSound(env: Env, reg: Registry, tx: Tx, n: nat)
    requires n <= |tx.msgs| && Sound(reg) && ExecuteFirst(env, reg, tx, n).Some?
    ensures Sound(ExecuteFirst(env, reg, tx, n).value)
  {
    if n == 0 {
    } else {
      hide Sound, Execute;
      ExecuteFirstSound(env, reg, tx, n - 1);
      var r := ExecuteFirst(env, reg, tx, n - 1).value;
      ExecuteSound(env, r, tx.msgs[n - 1].body, tx.clock(n - 1), tx.handled(n - 1));
    }
  }

  /** The registry the last of `n` messages is executed on. */
  lemma BeforeLast(env: Env, reg: Registry, tx: Tx, n: nat) returns (r: Registry)
    requires 0 < n <= |tx.msgs| && ExecuteFirst(env, reg, tx, n).Some?
    ensures ExecuteFirst(env, reg, tx, n - 1) == Some(r)
    ensures ExecuteFirst(env, reg, tx, n) ==
            Execute(env, r, tx.msgs[n - 1].body, tx.clock(n - 1), tx.handled(n - 1))
  {
    hide Execute;
    r := ExecuteFirst(env, reg, tx, n - 1).value;
  }

  /** A failing prefix makes the whole transaction fail. */
  lemma {:induction false} PrefixSucceeds(env: Env, reg: Registry, tx: Tx, m: nat, n: nat)
    requires m <= n <= |tx.msgs| && ExecuteFirst(env, reg, tx, n).Some?
    ensures ExecuteFirst(env, reg, tx, m).Some?
    decreases n
  {
    if m == n {
    } else {
      PrefixSucceeds(env, reg, tx, m, n - 1);
    }
  }

  /** Dispatch to the message server or to another module. */
  method RunMessage(k: Keeper, env: Env, body: Body, now: int64, handled: bool, ghost reg: Registry)
    returns (err: Option<MsgError>)
    requires Sound(reg) && k.store == Image(reg) && k.authority == env.authority
    modifies k
    ensures match Execute(env, reg, body, now, handled)
            case None => err != None && k.store == old(k.store)
            case Some(r) => err == None && k.store == Image(r)
  {
    hide Image, Sound, IdentityCodec.Identity.Size;
    match body
    case CreateIdentity(creator, cccdId) =>
      err := CreateIdentity(k, env, creator, cccdId, now, reg);
    case UpdateParams(authority, params) =>
      err := UpdateParams(k, authority, params, reg);
    case _ =>
      err := if handled then None else Some(HandlerFailed);
  }

  /** One transaction on the byte store: the gate, the messages, and the old store back if one of them fails. */
  method DeliverTx(k: Keeper, env: Env, tx: Tx, ghost reg: Registry) returns (committed: bool)
    requires Sound(reg) && k.store == Image(reg) && k.authority == env.authority
    modifies k
    ensures k.store == Image(Deliver(env, reg, tx)) && Sound(Deliver(env, reg, tx))
    ensures committed <==> Commits(env, reg, tx)
    ensures !committed ==> k.store == old(k.store)
  {
    hide Image, Sound, Execute, Handle;
    var snapshot := k.store;
    var v := AnteHandle(k, reg, env.bech32, tx.height, tx.simulate, tx.msgs);
    if v != Admitted {
      return false;
    }
    ghost var r := reg;
    for i := 0 to |tx.msgs|
      invariant ExecuteFirst(env, reg, tx, i) == Some(r) && Sound(r) && k.store == Image(r)
    {
      ghost var next := Execute(env, r, tx.msgs[i].body, tx.clock(i), tx.handled(i));
      var err := RunMessage(k, env, tx.msgs[i].body, tx.clock(i), tx.handled(i), r);
      assert ExecuteFirst(env, reg, tx, i + 1) == next;
      if err != None {
        if ExecuteFirst(env, reg, tx, |tx.msgs|).Some? {
          PrefixSucceeds(env, reg, tx, i + 1, |tx.msgs|);
        }
        k.store := snapshot;
        return false;
      }
      ExecuteSound(env, r, tx.msgs[i].body, tx.clock(i), tx.handled(i));
      r := next.value;
    }
    if tx.simulate {
      k.store := snapshot;
    }
    return !tx.simulate;
  }

  // ----- runs

  /** The registry after the first `k` transactions of a run. */
  function After(env: Env, start: Registry, txs: seq<Tx>, k: nat): Registry
    requires k <= |txs|
  {
    if k == 0 then start else Deliver(env, After(env, start, txs, k - 1), txs[k - 1])
  }

  /** The registry a genesis state starts a run from. */
  function Start(g: GenesisCodec.GenesisState): Registry {
    Registry(Genesis.Collect(map[], g.identityList), Some(g.params))
  }

  /**
   * A run on the byte store is, state for state, the image of the run on the registry. The stores after genesis and
   * after each transaction are returned.
   */
  method RunChain(k: Keeper, env: Env, g: GenesisCodec.GenesisState, txs: seq<Tx>) returns (stores: seq<Store>)
    requires k.store == map[] && k.authority == env.authority && GenesisCodec.AllFit(g.identityList)
    modifies k
    ensures |stores| == |txs| + 1 && k.store == stores[|txs|]
    ensures stores[0] == Genesis.Import(map[], g)
    ensures forall i :: 0 <= i <= |txs| ==>
              Sound(After(env, Start(g), txs, i)) && stores[i] == Image(After(env, Start(g), txs, i))
  {
    hide Image, Sound, Deliver, Genesis.Import;
    Genesis.InitGenesis(k, g);
    Genesis.EmptyImage();
    Genesis.ImportSimulates(Genesis.EMPTY_REGISTRY, g);
    StartSound(g);
    stores := [k.store];
    for i := 0 to |txs|
      invariant |stores| == i + 1 && k.store == stores[i] && stores[0] == Genesis.Import(map[], g)
      invariant forall j :: 0 <= j <= i ==>
                  Sound(After(env, Start(g), txs, j)) && stores[j] == Image(After(env, Start(g), txs, j))
    {
      var committed := DeliverTx(k, env, txs[i], After(env, Start(g), txs, i));
      stores := stores + [k.store];
    }
  }

  lemma StartSound(g: GenesisCodec.GenesisState)
    requires GenesisCodec.AllFit(g.identityList)
    ensures Sound(Start(g))
  {
    Genesis.CollectSound(map[], Some(g.params), g.identityList);
  }

  // ----- written once

  /** Nothing that was registered is lost or altered. */
  ghost predicate Keeps(before: Registry, after: Registry) {
    && (forall a :: a in before.records ==> a in after.records && after.records[a] == before.records[a])
    && (before.params.Some? ==> after.params.Some?)
  }

  lemma ExecuteKeeps(env: Env, reg: Registry, body: Body, now: int64, handled: bool)
    requires Execute(env, reg, body, now, handled).Some?
    ensures Keeps(reg, Execute(env, reg, body, now, handled).value)
  {
  }

  lemma {:induction false} ExecuteFirstKeeps(env: Env, reg: Registry, tx: Tx, m: nat, n: nat)
    requires m <= n <= |tx.msgs| && ExecuteFirst(env, reg, tx, n).Some?
    ensures ExecuteFirst(env, reg, tx, m).Some?
    ensures Keeps(ExecuteFirst(env, reg, tx, m).value, ExecuteFirst(env, reg, tx, n).value)
    decreases n
  {
    if m == n {
    } else {
      hide Execute;
      ExecuteFirstKeeps(env, reg, tx, m, n - 1);
      var r := ExecuteFirst(env, reg, tx, n - 1).value;
      ExecuteKeeps(env, r, tx.msgs[n - 1].body, tx.clock(n - 1), tx.handled(n - 1));
    }
  }

  lemma DeliverKeeps(env: Env, reg: Registry, tx: Tx)
    ensures Keeps(reg, Deliver(env, reg, tx))
  {
    hide Admits;
    if Commits(env, reg, tx) {
      ExecuteFirstKeeps(env, reg, tx, 0, |tx.msgs|);
      assert ExecuteFirst(env, reg, tx, 0) == Some(reg);
    }
  }

  // ----- what a transaction needs, and what it does

  /** Message `i` creates a record for `a`. */
  ghost predicate Creates(tx: Tx, i: int, a: bytes) {
    0 <= i < |tx.msgs| && tx.msgs[i].body.CreateIdentity? && tx.msgs[i].body.creator == a
  }

  /** Message `i` sets the parameters. */
  ghost predicate SetsParams(tx: Tx, i: int) {
    0 <= i < |tx.msgs| && tx.msgs[i].body.UpdateParams?
  }

  /** The handler of message `i` succeeds, whatever the other messages have done. */
  ghost predicate Runs(env: Env, reg: Registry, tx: Tx, i: int)
    requires 0 <= i < |tx.msgs|
  {
    match tx.msgs[i].body
    case CreateIdentity(creator, cccdId) =>
      && creator !in reg.records
      && (forall j :: 0 <= j < i ==> !Creates(tx, j, creator))
      && IdentityCodec.Fits(IdentityCodec.Identity(creator, env.digest(cccdId), tx.clock(i)))
    case UpdateParams(authority, _) => authority == env.authority
    case _ => tx.handled(i)
  }

  /** The records are those of `reg` and the ones that the first `n` messages create. */
  ghost predicate HoldsRecords(env: Env, reg: Registry, tx: Tx, n: nat, records: map<bytes, Identity>)
    requires n <= |tx.msgs|
  {
    && (forall a :: a in records ==> a in reg.records || exists i :: 0 <= i < n && Creates(tx, i, a))
    && (forall a :: a in reg.records ==> a in records && records[a] == reg.records[a])
    && (forall i, a :: 0 <= i < n && Creates(tx, i, a) ==>
          && a in records
          && records[a] == IdentityCodec.Identity(a, env.digest(tx.msgs[i].body.cccdId), tx.clock(i)))
  }

  /** Of the first `n` messages, `i` is the last to set the parameters. */
  ghost predicate LastToSet(tx: Tx, n: nat, i: int) {
    0 <= i < n && SetsParams(tx, i) && forall j :: i < j < n ==> !SetsParams(tx, j)
  }

  /** The parameters are what the last of the first `n` messages to set them sets, else those of `reg`. */
  ghost predicate HoldsParams(reg: Registry, tx: Tx, n: nat, params: Option<Params>)
    requires n <= |tx.msgs|
  {
    && ((forall i :: 0 <= i < n ==> !SetsParams(tx, i)) ==> params == reg.params)
    && (forall i :: LastToSet(tx, n, i) ==> params == Some(tx.msgs[i].body.params))
  }

  ghost predicate Holds(env: Env, reg: Registry, tx: Tx, n: nat, r: Registry)
    requires n <= |tx.msgs|
  {
    HoldsRecords(env, reg, tx, n, r.records) && HoldsParams(reg, tx, n, r.params)
  }

  lemma CreationSucceeds(env: Env, reg: Registry, tx: Tx, n: nat, r: Registry)
    requires n < |tx.msgs| && tx.msgs[n].body.CreateIdentity? && HoldsRecords(env, reg, tx, n, r.records)
    ensures Execute(env, r, tx.msgs[n].body, tx.clock(n), tx.handled(n)).Some? <==> Runs(env, reg, tx, n)
  {
    hide IdentityCodec.Encode, IdentityCodec.Identity.Size;
    var body := tx.msgs[n].body;
    IdentityCodec.SizeIsLength(NewRecord(env, body.creator, body.cccdId, tx.clock(n)));
  }

  lemma CreationHolds(env: Env, reg: Registry, tx: Tx, n: nat, records: map<bytes, Identity>)
    requires n < |tx.msgs| && tx.msgs[n].body.CreateIdentity? && HoldsRecords(env, reg, tx, n, records)
    requires tx.msgs[n].body.creator !in records
    ensures var body := tx.msgs[n].body;
            HoldsRecords(env, reg, tx, n + 1,
                         records[body.creator := NewRecord(env, body.creator, body.cccdId, tx.clock(n))])
  {
    assert Creates(tx, n, tx.msgs[n].body.creator);
  }

  lemma NothingCreated(env: Env, reg: Registry, tx: Tx, n: nat, records: map<bytes, Identity>)
    requires n < |tx.msgs| && !tx.msgs[n].body.CreateIdentity? && HoldsRecords(env, reg, tx, n, records)
    ensures HoldsRecords(env, reg, tx, n + 1, records)
  {
  }

  lemma ParamsHold(reg: Registry, tx: Tx, n: nat, params: Option<Params>)
    requires n < |tx.msgs| && HoldsParams(reg, tx, n, params)
    ensures HoldsParams(reg, tx, n + 1, if SetsParams(tx, n) then Some(tx.msgs[n].body.params) else params)
  {
    hide LastToSet, SetsParams;
    LastToSetStep(tx, n);
  }

  lemma LastToSetStep(tx: Tx, n: nat)
    ensures forall i :: LastToSet(tx, n, i) ==> 0 <= i < n && SetsParams(tx, i)
    ensures forall i :: LastToSet(tx, n + 1, i) <==> if SetsParams(tx, n) then i == n else LastToSet(tx, n, i)
    ensures forall i :: SetsParams(tx, i) ==> 0 <= i < |tx.msgs| && tx.msgs[i].body.UpdateParams?
  {
    forall i ensures LastToSet(tx, n + 1, i) <==> if SetsParams(tx, n) then i == n else LastToSet(tx, n, i) {
      if LastToSet(tx, n + 1, i) && i < n {
        assert !SetsParams(tx, n);
      }
    }
  }

  /** One more message. */
  lemma HoldsStep(env: Env, reg: Registry, tx: Tx, n: nat, r: Registry)
    requires n < |tx.msgs| && Holds(env, reg, tx, n, r)
    ensures var next := Execute(env, r, tx.msgs[n].body, tx.clock(n), tx.handled(n));
            && (next.Some? <==> Runs(env, reg, tx, n))
            && (next.Some? ==> Holds(env, reg, tx, n + 1, next.value))
  {
    hide HoldsRecords, HoldsParams, NewRecord, IdentityCodec.Identity.Size, IdentityCodec.Encode, IdentityCodec.Fits;
    ParamsHold(reg, tx, n, r.params);
    if tx.msgs[n].body.CreateIdentity? {
      CreationSucceeds(env, reg, tx, n, r);
      if tx.msgs[n].body.creator !in r.records {
        CreationHolds(env, reg, tx, n, r.records);
      }
    } else {
      NothingCreated(env, reg, tx, n, r.records);
    }
  }

  lemma NoneExecuted(env: Env, reg: Registry, tx: Tx)
    ensures ExecuteFirst(env, reg, tx, 0) == Some(reg) && Holds(env, reg, tx, 0, reg)
  {
  }

  lemma LastExecuted(env: Env, reg: Registry, tx: Tx, n: nat)
    requires 0 < n <= |tx.msgs|
    ensures ExecuteFirst(env, reg, tx, n) ==
            match ExecuteFirst(env, reg, tx, n - 1)
            case None => None
            case Some(r) => Execute(env, r, tx.msgs[n - 1].body, tx.clock(n - 1), tx.handled(n - 1))
  {
    hide Execute;
  }

  lemma {:induction false} ExecutionIsExact(env: Env, reg: Registry, tx: Tx, n: nat)
    requires n <= |tx.msgs|
    ensures ExecuteFirst(env, reg, tx, n).Some? <==> forall i :: 0 <= i < n ==> Runs(env, reg, tx, i)
    ensures ExecuteFirst(env, reg, tx, n).Some? ==> Holds(env, reg, tx, n, ExecuteFirst(env, reg, tx, n).value)
  {
    hide ExecuteFirst, Holds, Runs, Execute;
    if n == 0 {
      NoneExecuted(env, reg, tx);
    } else {
      LastExecuted(env, reg, tx, n);
      ExecutionIsExact(env, reg, tx, n - 1);
      if ExecuteFirst(env, reg, tx, n - 1).Some? {
        HoldsStep(env, reg, tx, n - 1, ExecuteFirst(env, reg, tx, n - 1).value);
      }
    }
  }

  /**
   * A transaction takes effect exactly if it is not simulated, the gate lets it through, and every handler succeeds:
   * creators neither registered nor created by an earlier message, with records that fit in a buffer, parameters
   * set by the authority only, and no failure in another module.
   */
  lemma CommitIsExact(env: Env, reg: Registry, tx: Tx)
    ensures Commits(env, reg, tx) <==>
            && !tx.simulate
            && (tx.height == 0 || forall i :: 0 <= i < |tx.msgs| ==> Passes(env.bech32, reg.records.Keys, tx.msgs[i]))
            && forall i :: 0 <= i < |tx.msgs| ==> Runs(env, reg, tx, i)
  {
    hide Passes, Runs, Handle, Holds, ExecuteFirst;
    GateIsExact(env.bech32, reg.records.Keys, tx.height, tx.simulate, tx.msgs);
    ExecutionIsExact(env, reg, tx, |tx.msgs|);
  }

  /**
   * All or nothing: a transaction that takes effect adds exactly the records it creates and leaves the parameters
   * that its last update set, those from before if it has none; any other leaves the registry alone.
   */
  lemma DeliverIsExact(env: Env, reg: Registry, tx: Tx)
    ensures if Commits(env, reg, tx) then Holds(env, reg, tx, |tx.msgs|, Deliver(env, reg, tx))
            else Deliver(env, reg, tx) == reg
  {
    hide Admits, Holds, Runs, ExecuteFirst;
    ExecutionIsExact(env, reg, tx, |tx.msgs|);
  }

  /** Nobody but the authority ever sets the parameters. */
  lemma OnlyTheAuthority(env: Env, reg: Registry, tx: Tx, i: nat)
    requires Commits(env, reg, tx) && i < |tx.msgs| && tx.msgs[i].body.UpdateParams?
    ensures tx.msgs[i].body.authority == env.authority
  {
    hide Commits;
    CommitIsExact(env, reg, tx);
    assert Runs(env, reg, tx, i);
  }

  /** Along a run the registry only grows: no record is ever removed, replaced or changed. */
  lemma {:induction false} WriteOnce(env: Env, start: Registry, txs: seq<Tx>, j: nat, k: nat)
    requires j <= k <= |txs|
    ensures Keeps(After(env, start, txs, j), After(env, start, txs, k))
    decreases k
  {
    if j == k {
    } else {
      hide Deliver, Commits;
      WriteOnce(env, start, txs, j, k - 1);
      DeliverKeeps(env, After(env, start, txs, k - 1), txs[k - 1]);
    }
  }

  lemma {:induction false} AfterSound(env: Env, start: Registry, txs: seq<Tx>, k: nat)
    requires k <= |txs| && Sound(start)
    ensures Sound(After(env, start, txs, k))
  {
    if k == 0 {
    } else {
      hide Sound;
      AfterSound(env, start, txs, k - 1);
      var reg, tx := After(env, start, txs, k - 1), txs[k - 1];
      if Commits(env, reg, tx) {
        ExecuteFirstSound(env, reg, tx, |tx.msgs|);
      }
    }
  }

  /** Transaction `k` of a run takes effect, and its message `i` registers `creator`. */
  ghost predicate Registers(env: Env, start: Registry, txs: seq<Tx>, k: nat, i: nat, creator: bytes) {
    && k < |txs| && i < |txs[k].msgs|
    && Commits(env, After(env, start, txs, k), txs[k])
    && txs[k].msgs[i].body.CreateIdentity?
    && txs[k].msgs[i].body.creator == creator
  }

  /** Before such a message the creator is absent; after the transaction, and for good, the record is there. */
  lemma RegisteredForGood(env: Env, start: Registry, txs: seq<Tx>, k: nat, i: nat, creator: bytes, later: nat)
    requires Registers(env, start, txs, k, i, creator) && k < later <= |txs|
    ensures creator !in After(env, start, txs, k).records
    ensures var records := After(env, start, txs, later).records;
            && creator in records
            && records[creator] ==
               IdentityCodec.Identity(creator, env.digest(txs[k].msgs[i].body.cccdId), txs[k].clock(i))
  {
    hide Registers, Commits, Deliver, After, Keeps;
    WhatRegisters(env, start, txs, k, i, creator);
    RegisteredInTx(env, After(env, start, txs, k), txs[k], i);
    WriteOnce(env, start, txs, k + 1, later);
    KeptRecord(After(env, start, txs, k + 1), After(env, start, txs, later), creator);
  }

  lemma WhatRegisters(env: Env, start: Registry, txs: seq<Tx>, k: nat, i: nat, creator: bytes)
    requires Registers(env, start, txs, k, i, creator)
    ensures k < |txs| && i < |txs[k].msgs| && Commits(env, After(env, start, txs, k), txs[k])
    ensures txs[k].msgs[i].body.CreateIdentity? && txs[k].msgs[i].body.creator == creator
    ensures After(env, start, txs, k + 1) == Deliver(env, After(env, start, txs, k), txs[k])
  {
    hide Commits, Deliver;
  }

  lemma KeptRecord(before: Registry, after: Registry, a: bytes)
    requires Keeps(before, after) && a in before.records
    ensures a in after.records && after.records[a] == before.records[a]
  {
  }

  lemma RegisteredInTx(env: Env, reg: Registry, tx: Tx, i: nat)
    requires i < |tx.msgs| && tx.msgs[i].body.CreateIdentity? && Commits(env, reg, tx)
    ensures var creator := tx.msgs[i].body.creator;
            && creator !in reg.records
            && creator in Deliver(env, reg, tx).records
            && Deliver(env, reg, tx).records[creator] ==
               IdentityCodec.Identity(creator, env.digest(tx.msgs[i].body.cccdId), tx.clock(i))
  {
    hide Admits, IdentityCodec.Identity.Size;
    ExecuteFirstKeeps(env, reg, tx, i + 1, |tx.msgs|);
    PrefixSucceeds(env, reg, tx, i, |tx.msgs|);
    ExecuteFirstKeeps(env, reg, tx, 0, i);
  }

  /** In a whole run at most one message ever registers a given address. */
  lemma RegisteredOnce(env: Env, start: Registry, txs: seq<Tx>, k: nat, i: nat, l: nat, j: nat, creator: bytes)
    requires Registers(env, start, txs, k, i, creator) && Registers(env, start, txs, l, j, creator)
    ensures k == l && i == j
  {
    if k < l {
      RegisteredForGood(env, start, txs, k, i, creator, l);
      RegisteredForGood(env, start, txs, l, j, creator, l + 1);
    } else if l < k {
      RegisteredForGood(env, start, txs, l, j, creator, k);
      RegisteredForGood(env, start, txs, k, i, creator, k + 1);
    } else if i < j {
      RegisteredInOrder(env, After(env, start, txs, k), txs[k], i, j);
    } else if j < i {
      RegisteredInOrder(env, After(env, start, txs, k), txs[k], j, i);
    }
  }

  lemma RegisteredInOrder(env: Env, reg: Registry, tx: Tx, i: nat, j: nat)
    requires i < j < |tx.msgs| && ExecuteFirst(env, reg, tx, |tx.msgs|).Some?
    requires tx.msgs[i].body.CreateIdentity? && tx.msgs[j].body.CreateIdentity?
    ensures tx.msgs[i].body.creator != tx.msgs[j].body.creator
  {
    PrefixSucceeds(env, reg, tx, j, |tx.msgs|);
    PrefixSucceeds(env, reg, tx, j + 1, |tx.msgs|);
    ExecuteFirstKeeps(env, reg, tx, i + 1, j);
  }

  // ----- gate safety

  /**
   * In every run, when a transaction away from height 0 takes effect, every message of it that is not on the
   * exemption list names a signer, and all its signers and recipients were registered when it was admitted and still
   * are, with the same records, in every later state.
   */
  lemma GateSafety(env: Env, start: Registry, txs: seq<Tx>, k: nat, i: nat, later: nat)
    requires k < later <= |txs| && i < |txs[k].msgs|
    requires Commits(env, After(env, start, txs, k), txs[k]) && txs[k].height != 0
    requires !IsIdentityModuleMsg(txs[k].msgs[i].typeURL)
    ensures var msg, now, afterwards := txs[k].msgs[i], After(env, start, txs, k), After(env, start, txs, later);
            && Signers(env.bech32, msg).Ok? && Signers(env.bech32, msg).value != []
            && (forall a :: a in Encoded(env.bech32, Signers(env.bech32, msg).value) + Recipients(msg.body) ==>
                  a in now.records && a in afterwards.records && afterwards.records[a] == now.records[a])
  {
    var reg := After(env, start, txs, k);
    GateIsExact(env.bech32, reg.records.Keys, txs[k].height, txs[k].simulate, txs[k].msgs);
    assert Passes(env.bech32, reg.records.Keys, txs[k].msgs[i]);
    WriteOnce(env, start, txs, k, later);
  }

  // ----- reachable states and genesis

  /** Every state a run reaches from a genesis comes back byte for byte from its own export. */
  lemma ReachableRoundTrip(env: Env, g: GenesisCodec.GenesisState, txs: seq<Tx>, k: nat)
    requires k <= |txs| && GenesisCodec.AllFit(g.identityList)
    ensures var store := Image(After(env, Start(g), txs, k));
            Genesis.Export(store).Some? && Genesis.Import(map[], Genesis.Export(store).value) == store
  {
    hide Image, Sound, Genesis.Export, Genesis.Import, Deliver, Genesis.Collect;
    var reg := After(env, Start(g), txs, k);
    StartSound(g);
    AfterSound(env, Start(g), txs, k);
    WriteOnce(env, Start(g), txs, 0, k);
    Genesis.ReimportSimulates(reg);
    assert reg.params.value.Params?;
    assert reg.(params := Some(GenesisCodec.Params)) == reg;
  }

  // ----- what the spelling of the exemption list does

  /** The module's own messages as they are registered: lower-case package name, and no `GetSigners` method. */
  ghost predicate ProperlyNamed(msg: Msg) {
    match msg.body
    case CreateIdentity(_, _) => msg.typeURL == "/nexelra.identity.MsgCreateIdentity" && msg.getSigners.None?
    case UpdateParams(_, _) => msg.typeURL == "/nexelra.identity.MsgUpdateParams" && msg.getSigners.None?
    case _ => true
  }

  /** The address is its own re-encoding. */
  ghost predicate Canonical(b: Bech32, a: bytes) {
    match b.decode(a)
    case None => false
    case Some(acc) => b.encode(acc) == a
  }

  lemma NamesNotExempt(msg: Msg)
    requires ProperlyNamed(msg) && (msg.body.CreateIdentity? || msg.body.UpdateParams?)
    ensures !IsIdentityModuleMsg(msg.typeURL)
  {
    assert "/nexelra.identity.MsgCreateIdentity"[1] == 'n' && "/nexelra.identity.MsgUpdateParams"[1] == 'n';
    assert "/Nexelra.identity.MsgCreateIdentity"[1] == 'N' && "/Nexelra.identity.MsgUpdateParams"[1] == 'N';
  }

  /** Under its registered name `MsgUpdateParams` has no signer the gate can find: it never passes. */
  lemma UpdateParamsNeverPasses(b: Bech32, registered: set<bytes>, msg: Msg)
    requires ProperlyNamed(msg) && msg.body.UpdateParams?
    ensures !Passes(b, registered, msg)
  {
    NamesNotExempt(msg);
    assert Fields(msg.body).Keys == {"Authority", "Params"};
    assert |"Authority"| == 9 && |"Params"| == 6 && |"Creator"| == 7 && |"FromAddress"| == 11;
    assert "Signer"[0] == 'S' && "Params"[0] == 'P';
    assert RawSigners(msg.body) == [];
  }

  /** Under its registered name `MsgCreateIdentity` passes only if its creator, re-encoded, is registered already. */
  lemma CreateIdentityNeedsIdentity(b: Bech32, registered: set<bytes>, msg: Msg)
    requires ProperlyNamed(msg) && msg.body.CreateIdentity?
    ensures Passes(b, registered, msg) <==>
            && msg.body.creator != []
            && b.decode(msg.body.creator).Some?
            && b.encode(b.decode(msg.body.creator).value) in registered
  {
    NamesNotExempt(msg);
    var c := msg.body.creator;
    assert ExtractCreator(msg.body) == c;
    if c != [] {
      var raws := RawSigners(msg.body);
      assert raws == [c] && raws[1..] == [];
      if b.decode(c).Some? {
        assert DecodeAll(b, raws[1..]) == Ok([]);
        assert [b.decode(c).value] + [] == [b.decode(c).value];
        assert Signers(b, msg) == Ok([b.decode(c).value]);
        var address := b.encode(b.decode(c).value);
        assert Encoded(b, [b.decode(c).value]) == [address];
        assert AllIn(registered, [address]) <==> [address][0] in registered;
      } else {
        assert Signers(b, msg) == Err(c);
      }
    }
  }

  /** The parameters are the same, and so are the canonical addresses registered. */
  ghost predicate Locked(b: Bech32, before: Registry, after: Registry) {
    && after.params == before.params
    && forall a :: Canonical(b, a) ==> (a in after.records <==> a in before.records)
  }

  lemma {:induction false} ExecutionLocked(env: Env, reg: Registry, tx: Tx, n: nat)
    requires n <= |tx.msgs| && ExecuteFirst(env, reg, tx, n).Some?
    requires forall i :: 0 <= i < |tx.msgs| ==>
               ProperlyNamed(tx.msgs[i]) && Passes(env.bech32, reg.records.Keys, tx.msgs[i])
    ensures Locked(env.bech32, reg, ExecuteFirst(env, reg, tx, n).value)
  {
    hide Execute, ExecuteFirst, Locked, Passes, ProperlyNamed;
    if n == 0 {
      NothingExecuted(env, reg, tx);
    } else {
      var r := BeforeLast(env, reg, tx, n);
      ExecutionLocked(env, reg, tx, n - 1);
      MessageLocked(env, reg, r, tx.msgs[n - 1], tx.clock(n - 1), tx.handled(n - 1));
    }
  }

  lemma NothingExecuted(env: Env, reg: Registry, tx: Tx)
    ensures ExecuteFirst(env, reg, tx, 0) == Some(reg) && Locked(env.bech32, reg, reg)
  {
  }

  /** One message of a transaction admitted on `reg`, executed after some others. */
  lemma MessageLocked(env: Env, reg: Registry, r: Registry, msg: Msg, now: int64, handled: bool)
    requires ProperlyNamed(msg) && Passes(env.bech32, reg.records.Keys, msg) && Locked(env.bech32, reg, r)
    requires Execute(env, r, msg.body, now, handled).Some?
    ensures Locked(env.bech32, reg, Execute(env, r, msg.body, now, handled).value)
  {
    hide Passes, ProperlyNamed, NewRecord, IdentityCodec.Identity.Size;
    if msg.body.UpdateParams? {
      UpdateParamsNeverPasses(env.bech32, reg.records.Keys, msg);
    } else if msg.body.CreateIdentity? {
      CreateIdentityNeedsIdentity(env.bech32, reg.records.Keys, msg);
    }
  }

  /**
   * The exemption list names the module's messages in a spelling they do not have. So once height 0 is past, no run
   * of properly named messages changes the parameters, and none registers a canonical address: whoever is not in the
   * registry by then can only ever enter it under another spelling of an address that is.
   */
  lemma {:induction false} RegistryLocked(env: Env, start: Registry, txs: seq<Tx>, k: nat)
    requires k <= |txs|
    requires forall j :: 0 <= j < |txs| ==>
               txs[j].height != 0 && forall i :: 0 <= i < |txs[j].msgs| ==> ProperlyNamed(txs[j].msgs[i])
    ensures Locked(env.bech32, start, After(env, start, txs, k))
  {
    if k == 0 {
    } else {
      hide Passes, ProperlyNamed, ExecuteFirst, Handle, Cleared;
      RegistryLocked(env, start, txs, k - 1);
      var reg, tx := After(env, start, txs, k - 1), txs[k - 1];
      if Commits(env, reg, tx) {
        TxPasses(env, reg, tx);
        ExecutionLocked(env, reg, tx, |tx.msgs|);
      }
    }
  }

  /**
   * Started from a registry without records, as the default genesis gives it, and away from height 0, a run without
   * literally exempt messages goes nowhere: no transaction with a message takes effect, and nobody ever enters.
   */
  lemma {:induction false} NobodyEnters(env: Env, start: Registry, txs: seq<Tx>, k: nat)
    requires k <= |txs| && start.records == map[]
    requires forall j :: 0 <= j < |txs| ==>
               txs[j].height != 0 &&
               forall i :: 0 <= i < |txs[j].msgs| ==> !IsIdentityModuleMsg(txs[j].msgs[i].typeURL)
    ensures After(env, start, txs, k) == start
    ensures k < |txs| && txs[k].msgs != [] ==> !Commits(env, start, txs[k])
  {
    hide Deliver, Commits, IsIdentityModuleMsg;
    if k < |txs| {
      GoesNowhere(env, start, txs[k]);
    }
    if k == 0 {
    } else {
      NobodyEnters(env, start, txs, k - 1);
      GoesNowhere(env, start, txs[k - 1]);
    }
  }

  lemma GoesNowhere(env: Env, reg: Registry, tx: Tx)
    requires reg.records == map[] && tx.height != 0
    requires forall i :: 0 <= i < |tx.msgs| ==> !IsIdentityModuleMsg(tx.msgs[i].typeURL)
    ensures Deliver(env, reg, tx) == reg
    ensures tx.msgs != [] ==> !Commits(env, reg, tx)
  {
    if tx.msgs != [] {
      NobodyPasses(env.bech32, reg.records.Keys, tx.msgs[0]);
      GateIsExact(env.bech32, reg.records.Keys, tx.height, tx.simulate, tx.msgs);
    }
  }

  lemma NobodyPasses(b: Bech32, registered: set<bytes>, msg: Msg)
    requires registered == {} && !IsIdentityModuleMsg(msg.typeURL)
    ensures !Passes(b, registered, msg)
  {
    if Signers(b, msg).Ok? && Signers(b, msg).value != [] {
      var addresses := Encoded(b, Signers(b, msg).value);
      assert addresses[0] !in registered;
    }
  }

  lemma TxPasses(env: Env, reg: Registry, tx: Tx)
    requires Commits(env, reg, tx) && tx.height != 0
    ensures forall i :: 0 <= i < |tx.msgs| ==> Passes(env.bech32, reg.records.Keys, tx.msgs[i])
  {
    GateIsExact(env.bech32, reg.records.Keys, tx.height, tx.simulate, tx.msgs);
  }
}
