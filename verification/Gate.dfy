/** The ante decorator that admits a transaction only if everyone it names is registered. */
module Gate {
  import opened Machine
  import opened IdentityKeeper
  import GenesisCodec

  /** Bech32 is not part of this model: decoding an address string may fail, and encoding need not give it back. */
  datatype Bech32 = Bech32(decode: bytes -> Option<bytes>, encode: bytes -> bytes)

  /** What reflection finds under a field name. */
  datatype FieldValue = StringValue(s: bytes) | OtherValue

  datatype Body =
    | Send(fromAddress: bytes, toAddress: bytes)
    | MultiSend(inputs: seq<bytes>, outputs: seq<bytes>)
    | CreateIdentity(creator: bytes, cccdId: bytes)
    | UpdateParams(authority: bytes, params: GenesisCodec.Params)
    | Other(fields: map<string, FieldValue>)

  /** A message: its type URL, the result of `GetSigners` if it has that method, and its contents. */
  datatype Msg = Msg(typeURL: string, getSigners: Option<seq<bytes>>, body: Body)

  // ----- the lookups

  /** The list of exempt names, spelt as it is in the code. */
  predicate IsIdentityModuleMsg(msgType: string) {
    msgType == "/Nexelra.identity.MsgCreateIdentity" || msgType == "/Nexelra.identity.MsgUpdateParams"
  }

  /** The struct fields of a message. */
  function Fields(body: Body): map<string, FieldValue> {
    match body
    case Send(f, t) => map["FromAddress" := StringValue(f), "ToAddress" := StringValue(t), "Amount" := OtherValue]
    case MultiSend(_, _) => map["Inputs" := OtherValue, "Outputs" := OtherValue]
    case CreateIdentity(c, i) => map["Creator" := StringValue(c), "CccdId" := StringValue(i)]
    case UpdateParams(a, _) => map["Authority" := StringValue(a), "Params" := OtherValue]
    case Other(fields) => fields
  }

  predicate HasString(fields: map<string, FieldValue>, name: string) {
    name in fields && fields[name].StringValue?
  }

  /** `extractCreatorFromMessage`: the first of the three names that is a string field, empty or not. */
  function ExtractCreator(body: Body): bytes {
    var fields := Fields(body);
    if HasString(fields, "Creator") then fields["Creator"].s
    else if HasString(fields, "Signer") then fields["Signer"].s
    else if HasString(fields, "FromAddress") then fields["FromAddress"].s
    else []
  }

  const CREATOR_NAMES: seq<string> := ["Creator", "Signer", "FromAddress"]

  /** The order of preference, whatever the values: a later name matters only if no earlier one is a string field. */
  lemma CreatorIsFirst(body: Body, k: nat)
    requires k < 3 && HasString(Fields(body), CREATOR_NAMES[k])
    requires forall j :: 0 <= j < k ==> !HasString(Fields(body), CREATOR_NAMES[j])
    ensures ExtractCreator(body) == Fields(body)[CREATOR_NAMES[k]].s
  {
    assert k > 0 ==> !HasString(Fields(body), CREATOR_NAMES[0]);
    assert k > 1 ==> !HasString(Fields(body), CREATOR_NAMES[1]);
  }

  /** `MustAccAddressFromBech32` on each string in turn; Err is the first one that panics. */
  function DecodeAll(b: Bech32, raws: seq<bytes>): Result<seq<bytes>, bytes> {
    if raws == [] then Ok([])
    else match b.decode(raws[0])
      case None => Err(raws[0])
      case Some(acc) =>
        match DecodeAll(b, raws[1..])
        case Err(raw) => Err(raw)
        case Ok(rest) => Ok([acc] + rest)
  }

  /** The strings a message without `GetSigners` is taken to be signed by. */
  function RawSigners(body: Body): seq<bytes> {
    match body
    case Send(f, _) => [f]
    case MultiSend(inputs, _) => inputs
    case _ => if ExtractCreator(body) != [] then [ExtractCreator(body)] else []
  }

  function Signers(b: Bech32, msg: Msg): Result<seq<bytes>, bytes> {
    match msg.getSigners
    case Some(accs) => Ok(accs)
    case None => DecodeAll(b, RawSigners(msg.body))
  }

  /** `extractRecipients`. */
  function Recipients(body: Body): seq<bytes> {
    match body
    case Send(_, t) => [t]
    case MultiSend(_, outputs) => outputs
    case _ => []
  }

  // ----- what the gate asks of a transaction

  /** One thing asked, in the order asked. The first two can never be met; `Undecodable` is a panic. */
  datatype Duty =
    | Undecodable(raw: bytes)
    | NoSender
    | Sender(address: bytes)
    | Recipient(address: bytes)

  datatype Verdict = Admitted | Refused(duty: Duty)

  predicate Met(registered: set<bytes>, d: Duty) {
    (d.Sender? || d.Recipient?) && d.address in registered
  }

  /** `signer.String()` for each signer. */
  function Encoded(b: Bech32, accs: seq<bytes>): seq<bytes> {
    seq(|accs|, i requires 0 <= i < |accs| => b.encode(accs[i]))
  }

  /** What is asked of one address: that it may send, or that it may receive. */
  function DutyOf(sending: bool, address: bytes): Duty {
    if sending then Sender(address) else Recipient(address)
  }

  function DutiesOf(sending: bool, addresses: seq<bytes>): seq<Duty> {
    seq(|addresses|, i requires 0 <= i < |addresses| => DutyOf(sending, addresses[i]))
  }

  function Duties(b: Bech32, msg: Msg): seq<Duty> {
    if IsIdentityModuleMsg(msg.typeURL) then []
    else match Signers(b, msg)
      case Err(raw) => [Undecodable(raw)]
      case Ok(accs) =>
        if accs == [] then [NoSender] else DutiesOf(true, Encoded(b, accs)) + DutiesOf(false, Recipients(msg.body))
  }

  /** A string field `Creator` decides even when it is empty: no other field is then looked at, and no one signs. */
  lemma EmptyCreatorDecides(b: Bech32, msg: Msg)
    requires msg.getSigners.None? && msg.body.Other?
    requires HasString(msg.body.fields, "Creator") && msg.body.fields["Creator"].s == []
    ensures IsIdentityModuleMsg(msg.typeURL) || Duties(b, msg) == [NoSender]
  {
  }

  function AllDuties(b: Bech32, msgs: seq<Msg>): seq<Duty> {
    if msgs == [] then [] else Duties(b, msgs[0]) + AllDuties(b, msgs[1..])
  }

  /** The verdict on a list of duties: the first one not met. */
  function Judge(registered: set<bytes>, ds: seq<Duty>): Verdict {
    if ds == [] then Admitted
    else if Met(registered, ds[0]) then Judge(registered, ds[1..])
    else Refused(ds[0])
  }

  /** What `AnteHandle` decides; `Admitted` means that it calls `next`. */
  function Handle(b: Bech32, registered: set<bytes>, height: int, simulate: bool, msgs: seq<Msg>): Verdict {
    if height == 0 || simulate then Admitted else Judge(registered, AllDuties(b, msgs))
  }

  lemma {:induction false} JudgeSplit(registered: set<bytes>, a: seq<Duty>, b: seq<Duty>)
    ensures Judge(registered, a + b) ==
            if Judge(registered, a).Admitted? then Judge(registered, b) else Judge(registered, a)
  {
    if a == [] {
      assert a + b == b;
    } else {
      assert (a + b)[1..] == a[1..] + b;
      JudgeSplit(registered, a[1..], b);
    }
  }

  /** The first duty in order that is not met stands at `k`. */
  ghost predicate FailsAt(registered: set<bytes>, ds: seq<Duty>, k: int) {
    0 <= k < |ds| && !Met(registered, ds[k]) && forall j :: 0 <= j < k ==> Met(registered, ds[j])
  }

  lemma {:induction false} JudgeAdmits(registered: set<bytes>, ds: seq<Duty>)
    ensures Judge(registered, ds).Admitted? <==> forall k :: 0 <= k < |ds| ==> Met(registered, ds[k])
  {
    if ds == [] {
    } else {
      JudgeAdmits(registered, ds[1..]);
      assert forall k :: 1 <= k < |ds| ==> ds[k] == ds[1..][k - 1];
    }
  }

  lemma {:induction false} JudgeRefuses(registered: set<bytes>, ds: seq<Duty>, d: Duty)
    ensures Judge(registered, ds) == Refused(d) <==> exists k :: FailsAt(registered, ds, k) && ds[k] == d
  {
    if ds == [] {
    } else {
      JudgeRefuses(registered, ds[1..], d);
      if Met(registered, ds[0]) {
        if k :| FailsAt(registered, ds[1..], k) && ds[1..][k] == d {
          assert forall j :: 1 <= j < k + 1 ==> ds[j] == ds[1..][j - 1];
          assert FailsAt(registered, ds, k + 1);
        }
        if k :| FailsAt(registered, ds, k) && ds[k] == d {
          assert forall j :: 0 <= j < k - 1 ==> ds[1..][j] == ds[j + 1];
          assert FailsAt(registered, ds[1..], k - 1);
        }
      } else {
        assert FailsAt(registered, ds, 0);
        assert forall k :: FailsAt(registered, ds, k) ==> k == 0;
      }
    }
  }

  // ----- the decorator

  /** The nested loops, with their early exits, over a keeper whose store is the image of `reg`. */
  method AnteHandle(k: Keeper, ghost reg: Registry, b: Bech32, height: int, simulate: bool, msgs: seq<Msg>)
    returns (v: Verdict)
    requires Sound(reg) && k.store == Image(reg)
    ensures v == Handle(b, reg.records.Keys, height, simulate, msgs)
  {
    if height == 0 || simulate || |msgs| == 0 {
      return Admitted;
    }
    ghost var registered := reg.records.Keys;
    assert msgs[0..] == msgs;
    for i := 0 to |msgs|
      invariant Judge(registered, AllDuties(b, msgs)) == Judge(registered, AllDuties(b, msgs[i..]))
    {
      assert msgs[i..][1..] == msgs[i + 1..];
      v := CheckMessage(k, reg, b, msgs[i]);
      JudgeSplit(registered, Duties(b, msgs[i]), AllDuties(b, msgs[i + 1..]));
      if v != Admitted {
        return;
      }
    }
    v := Admitted;
  }

  /** The body of the outer loop. */
  method CheckMessage(k: Keeper, ghost reg: Registry, b: Bech32, msg: Msg) returns (v: Verdict)
    requires Sound(reg) && k.store == Image(reg)
    ensures v == Judge(reg.records.Keys, Duties(b, msg))
  {
    if IsIdentityModuleMsg(msg.typeURL) {
      return Admitted;
    }
    var raw, signers := CollectSigners(b, msg);
    if raw != None {
      return Refused(Undecodable(raw.value));
    }
    if |signers| == 0 {
      return Refused(NoSender);
    }
    hide Image, Sound, Recipients;
    var recipients := ExtractRecipients(msg.body);
    JudgeSplit(reg.records.Keys, DutiesOf(true, Encoded(b, signers)), DutiesOf(false, recipients));
    v := CheckSigners(k, reg, b, signers);
    if v == Admitted {
      v := CheckRecipients(k, reg, recipients);
    }
  }

  /** The loop over the signers. */
  method CheckSigners(k: Keeper, ghost reg: Registry, b: Bech32, signers: seq<bytes>) returns (v: Verdict)
    requires Sound(reg) && k.store == Image(reg)
    ensures v == Judge(reg.records.Keys, DutiesOf(true, Encoded(b, signers)))
  {
    hide Image, Sound;
    ghost var ds := DutiesOf(true, Encoded(b, signers));
    assert ds[0..] == ds;
    for j := 0 to |signers|
      invariant Judge(reg.records.Keys, ds) == Judge(reg.records.Keys, ds[j..])
    {
      assert ds[j..][1..] == ds[j + 1..];
      var found := Lookup(k, reg, b.encode(signers[j]));
      if !found {
        return Refused(Sender(b.encode(signers[j])));
      }
    }
    v := Admitted;
  }

  /** The loop over the recipients. */
  method CheckRecipients(k: Keeper, ghost reg: Registry, recipients: seq<bytes>) returns (v: Verdict)
    requires Sound(reg) && k.store == Image(reg)
    ensures v == Judge(reg.records.Keys, DutiesOf(false, recipients))
  {
    hide Image, Sound;
    ghost var ds := DutiesOf(false, recipients);
    assert ds[0..] == ds;
    for r := 0 to |recipients|
      invariant Judge(reg.records.Keys, ds) == Judge(reg.records.Keys, ds[r..])
    {
      assert ds[r..][1..] == ds[r + 1..];
      var found := Lookup(k, reg, recipients[r]);
      if !found {
        return Refused(Recipient(recipients[r]));
      }
    }
    v := Admitted;
  }

  method Lookup(k: Keeper, ghost reg: Registry, address: bytes) returns (found: bool)
    requires Sound(reg) && k.store == Image(reg)
    ensures found <==> address in reg.records
  {
    ImageBounded(reg);
    FetchSimulates(reg, address);
    var f := k.GetIdentity(address);
    found := f.Found?;
  }

  /** The signers appended one after the other; `raw` is the string that panics, if one does. */
  method CollectSigners(b: Bech32, msg: Msg) returns (raw: Option<bytes>, signers: seq<bytes>)
    ensures match Signers(b, msg)
            case Err(s) => raw == Some(s)
            case Ok(accs) => raw == None && signers == accs
  {
    if msg.getSigners.Some? {
      return None, msg.getSigners.value;
    }
    raw, signers := None, [];
    var raws := RawSigners(msg.body);
    ghost var all := DecodeAll(b, raws);
    assert raws[0..] == raws && (all.Ok? ==> [] + all.value == all.value);
    for i := 0 to |raws|
      invariant DecodeAll(b, raws) ==
                match DecodeAll(b, raws[i..])
                case Err(s) => Err(s)
                case Ok(accs) => Ok(signers + accs)
    {
      assert raws[i..][1..] == raws[i + 1..];
      var acc := b.decode(raws[i]);
      if acc == None {
        return Some(raws[i]), signers;
      }
      ghost var rest := DecodeAll(b, raws[i + 1..]);
      assert rest.Ok? ==> signers + ([acc.value] + rest.value) == signers + [acc.value] + rest.value;
      signers := signers + [acc.value];
    }
    assert signers + [] == signers;
  }

  /** The recipients appended one after the other. */
  method ExtractRecipients(body: Body) returns (recipients: seq<bytes>)
    ensures recipients == Recipients(body)
  {
    recipients := [];
    match body
    case Send(_, t) =>
      recipients := recipients + [t];
    case MultiSend(_, outputs) =>
      for i := 0 to |outputs|
        invariant recipients == outputs[..i]
      {
        recipients := recipients + [outputs[i]];
      }
    case _ =>
  }

  // ----- exactness

  ghost predicate AllIn(registered: set<bytes>, addresses: seq<bytes>) {
    forall i :: 0 <= i < |addresses| ==> addresses[i] in registered
  }

  /** `a` is the first of the addresses that is not registered. */
  ghost predicate FirstAbsent(registered: set<bytes>, addresses: seq<bytes>, a: bytes) {
    exists k :: 0 <= k < |addresses| && addresses[k] == a && a !in registered && AllIn(registered, addresses[..k])
  }

  /** Everyone a message names is registered, and it names a signer. */
  ghost predicate Cleared(b: Bech32, registered: set<bytes>, msg: Msg) {
    match Signers(b, msg)
    case Err(_) => false
    case Ok(accs) => accs != [] && AllIn(registered, Encoded(b, accs)) && AllIn(registered, Recipients(msg.body))
  }

  /** The message is on the exemption list, or everyone it names is registered. */
  ghost predicate Passes(b: Bech32, registered: set<bytes>, msg: Msg) {
    IsIdentityModuleMsg(msg.typeURL) || Cleared(b, registered, msg)
  }

  /** What is wrong first with a message. */
  ghost predicate Fault(b: Bech32, registered: set<bytes>, msg: Msg, d: Duty) {
    match (Signers(b, msg), d)
    case (Err(raw), Undecodable(r)) => r == raw
    case (Ok(accs), NoSender) => accs == []
    case (Ok(accs), Sender(a)) => FirstAbsent(registered, Encoded(b, accs), a)
    case (Ok(accs), Recipient(a)) =>
      accs != [] && AllIn(registered, Encoded(b, accs)) && FirstAbsent(registered, Recipients(msg.body), a)
    case _ => false
  }

  /** On addresses alone, the gate stops at the first that is not registered. */
  lemma AddressesJudged(registered: set<bytes>, sending: bool, addresses: seq<bytes>)
    ensures var v := Judge(registered, DutiesOf(sending, addresses));
            && (v.Admitted? <==> AllIn(registered, addresses))
            && (forall d :: v == Refused(d) <==>
                            (d.Sender? || d.Recipient?) && d == DutyOf(sending, d.address)
                            && FirstAbsent(registered, addresses, d.address))
  {
    var ds := DutiesOf(sending, addresses);
    JudgeAdmits(registered, ds);
    assert forall i :: 0 <= i < |ds| ==> (Met(registered, ds[i]) <==> addresses[i] in registered);
    FailuresMatch(registered, addresses, ds);
    forall d
      ensures Judge(registered, ds) == Refused(d) <==>
              (d.Sender? || d.Recipient?) && d == DutyOf(sending, d.address)
              && FirstAbsent(registered, addresses, d.address)
    {
      JudgeRefuses(registered, ds, d);
      if k :| FailsAt(registered, ds, k) && ds[k] == d {
        assert addresses[k] == d.address;
      }
      if (d.Sender? || d.Recipient?) && d == DutyOf(sending, d.address) {
        if k :| 0 <= k < |addresses| && addresses[k] == d.address && d.address !in registered
              && AllIn(registered, addresses[..k]) {
          assert FailsAt(registered, ds, k) && ds[k] == d;
        }
      }
    }
  }

  lemma FailuresMatch(registered: set<bytes>, addresses: seq<bytes>, ds: seq<Duty>)
    requires |ds| == |addresses|
    requires forall i :: 0 <= i < |ds| ==> (Met(registered, ds[i]) <==> addresses[i] in registered)
    ensures forall k :: 0 <= k < |ds| ==>
              (FailsAt(registered, ds, k) <==> addresses[k] !in registered && AllIn(registered, addresses[..k]))
  {
  }

  lemma MessageJudged(b: Bech32, registered: set<bytes>, msg: Msg)
    ensures var v := Judge(registered, Duties(b, msg));
            && (v.Admitted? <==> Passes(b, registered, msg))
            && (forall d :: v == Refused(d) <==> !IsIdentityModuleMsg(msg.typeURL) && Fault(b, registered, msg, d))
  {
    if !IsIdentityModuleMsg(msg.typeURL) && Signers(b, msg).Ok? && Signers(b, msg).value != [] {
      hide Judge, Met, FirstAbsent, AllIn, DutiesOf, Recipients;
      var senders := Encoded(b, Signers(b, msg).value);
      JudgeSplit(registered, DutiesOf(true, senders), DutiesOf(false, Recipients(msg.body)));
      AddressesJudged(registered, true, senders);
      AddressesJudged(registered, false, Recipients(msg.body));
    }
  }

  lemma {:induction false} MessagesAdmitted(b: Bech32, registered: set<bytes>, msgs: seq<Msg>)
    ensures Judge(registered, AllDuties(b, msgs)).Admitted? <==>
            forall i :: 0 <= i < |msgs| ==> Passes(b, registered, msgs[i])
  {
    if msgs == [] {
    } else {
      hide Passes, Duties;
      JudgeSplit(registered, Duties(b, msgs[0]), AllDuties(b, msgs[1..]));
      MessageJudged(b, registered, msgs[0]);
      MessagesAdmitted(b, registered, msgs[1..]);
      forall i | 1 <= i < |msgs| ensures msgs[i] == msgs[1..][i - 1] {
      }
    }
  }

  /**
   * The gate opens exactly at height 0, in simulation, or if every message is on the exemption list or has a signer,
   * with all its signers, as re-encoded, and all its recipients, as written, registered.
   */
  lemma GateIsExact(b: Bech32, registered: set<bytes>, height: int, simulate: bool, msgs: seq<Msg>)
    ensures Handle(b, registered, height, simulate, msgs).Admitted? <==>
            || height == 0
            || simulate
            || forall i :: 0 <= i < |msgs| ==> Passes(b, registered, msgs[i])
  {
    MessagesAdmitted(b, registered, msgs);
  }

  // ----- who has to be registered, by kind of message

  /** The first address string that cannot be decoded stands at `k`. */
  ghost predicate FirstUndecodable(b: Bech32, raws: seq<bytes>, k: int) {
    0 <= k < |raws| && b.decode(raws[k]).None? && forall j :: 0 <= j < k ==> b.decode(raws[j]).Some?
  }

  lemma {:induction false} DecodeAllIsExact(b: Bech32, raws: seq<bytes>)
    ensures DecodeAll(b, raws).Ok? <==> forall i :: 0 <= i < |raws| ==> b.decode(raws[i]).Some?
    ensures DecodeAll(b, raws).Ok? ==>
              var accs := DecodeAll(b, raws).value;
              |accs| == |raws| && forall i :: 0 <= i < |raws| ==> b.decode(raws[i]) == Some(accs[i])
    ensures forall k :: FirstUndecodable(b, raws, k) ==> DecodeAll(b, raws) == Err(raws[k])
  {
    if raws == [] {
    } else {
      var rest := raws[1..];
      DecodeAllIsExact(b, rest);
      assert raws == [raws[0]] + rest;
      forall k | FirstUndecodable(b, raws, k) ensures DecodeAll(b, raws) == Err(raws[k]) {
        if k > 0 {
          assert FirstUndecodable(b, rest, k - 1);
        }
      }
    }
  }

  /** The address string, decoded and printed again, is registered. */
  ghost predicate RegisteredAs(b: Bech32, registered: set<bytes>, raw: bytes) {
    b.decode(raw).Some? && b.encode(b.decode(raw).value) in registered
  }

  /** The first of the address strings that is not registered when decoded and printed again stands at `k`. */
  ghost predicate FirstUnregistered(b: Bech32, registered: set<bytes>, raws: seq<bytes>, k: int) {
    && 0 <= k < |raws|
    && !RegisteredAs(b, registered, raws[k])
    && forall j :: 0 <= j < k ==> RegisteredAs(b, registered, raws[j])
  }

  /** A message without `GetSigners`, in terms of the address strings that it is taken to be signed by. */
  lemma SignedBy(b: Bech32, registered: set<bytes>, msg: Msg, raws: seq<bytes>)
    requires msg.getSigners.None? && raws == RawSigners(msg.body)
    ensures Cleared(b, registered, msg) <==>
            && raws != []
            && (forall i :: 0 <= i < |raws| ==> RegisteredAs(b, registered, raws[i]))
            && AllIn(registered, Recipients(msg.body))
    ensures forall k :: FirstUndecodable(b, raws, k) ==> Signers(b, msg) == Err(raws[k])
    ensures (forall i :: 0 <= i < |raws| ==> b.decode(raws[i]).Some?) ==>
              && Signers(b, msg).Ok?
              && |Signers(b, msg).value| == |raws|
              && forall i :: 0 <= i < |raws| ==>
                   Encoded(b, Signers(b, msg).value)[i] == b.encode(b.decode(raws[i]).value)
  {
    hide RawSigners, Recipients, Encoded;
    DecodeAllIsExact(b, raws);
    if DecodeAll(b, raws).Ok? {
      var accs := DecodeAll(b, raws).value;
      EncodedIs(b, accs);
      assert forall i :: 0 <= i < |raws| ==>
          (RegisteredAs(b, registered, raws[i]) <==> Encoded(b, accs)[i] in registered);
    }
  }

  lemma EncodedIs(b: Bech32, accs: seq<bytes>)
    ensures |Encoded(b, accs)| == |accs|
    ensures forall i :: 0 <= i < |accs| ==> Encoded(b, accs)[i] == b.encode(accs[i])
  {
  }

  lemma FirstIsAbsent(registered: set<bytes>, addresses: seq<bytes>, k: nat, a: bytes)
    requires k < |addresses| && addresses[k] !in registered && AllIn(registered, addresses[..k])
    ensures FirstAbsent(registered, addresses, a) <==> a == addresses[k]
    ensures !AllIn(registered, addresses)
  {
    forall j | 0 <= j < |addresses| && addresses[j] !in registered && AllIn(registered, addresses[..j])
      ensures j == k
    {
    }
  }

  /** Nobody is absent where everyone is registered. */
  lemma NoneAbsent(registered: set<bytes>, addresses: seq<bytes>, a: bytes)
    requires AllIn(registered, addresses)
    ensures !FirstAbsent(registered, addresses, a)
  {
  }

  /**
   * Such a message, refused: for the first string that cannot be decoded, wherever it stands; else for having none,
   * else for the first that is not registered, and only then for the first recipient that is not.
   */
  lemma SignedByFault(b: Bech32, registered: set<bytes>, msg: Msg, raws: seq<bytes>, k: nat, d: Duty)
    requires msg.getSigners.None? && raws == RawSigners(msg.body)
    ensures FirstUndecodable(b, raws, k) ==> (Fault(b, registered, msg, d) <==> d == Undecodable(raws[k]))
    ensures raws == [] ==> (Fault(b, registered, msg, d) <==> d == NoSender)
    ensures (forall i :: 0 <= i < |raws| ==> b.decode(raws[i]).Some?)
            && FirstUnregistered(b, registered, raws, k) ==>
              (Fault(b, registered, msg, d) <==> d == Sender(b.encode(b.decode(raws[k]).value)))
    ensures raws != [] && (forall i :: 0 <= i < |raws| ==> RegisteredAs(b, registered, raws[i]))
            && k < |Recipients(msg.body)| && Recipients(msg.body)[k] !in registered
            && AllIn(registered, Recipients(msg.body)[..k]) ==>
              (Fault(b, registered, msg, d) <==> d == Recipient(Recipients(msg.body)[k]))
  {
    hide RawSigners, Recipients, FirstAbsent, Signers, Encoded;
    SignedBy(b, registered, msg, raws);
    var recipients := Recipients(msg.body);
    if forall i :: 0 <= i < |raws| ==> b.decode(raws[i]).Some? {
      var senders := Encoded(b, Signers(b, msg).value);
      EncodedIs(b, Signers(b, msg).value);
      if FirstUnregistered(b, registered, raws, k) {
        FirstIsAbsent(registered, senders, k, if d.Sender? then d.address else []);
      }
      if raws == [] || forall i :: 0 <= i < |raws| ==> RegisteredAs(b, registered, raws[i]) {
        NoneAbsent(registered, senders, if d.Sender? then d.address else []);
      }
    }
    if k < |recipients| && recipients[k] !in registered && AllIn(registered, recipients[..k]) {
      FirstIsAbsent(registered, recipients, k, if d.Recipient? then d.address else []);
    }
  }

  /** A bank send: the sender, decoded and printed again, and the recipient as written. */
  lemma SendPasses(b: Bech32, registered: set<bytes>, msg: Msg, d: Duty)
    requires msg.getSigners.None? && msg.body.Send? && !IsIdentityModuleMsg(msg.typeURL)
    ensures var from, to := msg.body.fromAddress, msg.body.toAddress;
            && (Passes(b, registered, msg) <==>
                  b.decode(from).Some? && b.encode(b.decode(from).value) in registered && to in registered)
            && (b.decode(from).None? ==> (Fault(b, registered, msg, d) <==> d == Undecodable(from)))
            && (b.decode(from).Some? && b.encode(b.decode(from).value) !in registered ==>
                  (Fault(b, registered, msg, d) <==> d == Sender(b.encode(b.decode(from).value))))
            && (b.decode(from).Some? && b.encode(b.decode(from).value) in registered && to !in registered ==>
                  (Fault(b, registered, msg, d) <==> d == Recipient(to)))
  {
    hide Cleared, Fault, FirstAbsent;
    var from := msg.body.fromAddress;
    assert RawSigners(msg.body) == [from] && Recipients(msg.body) == [msg.body.toAddress];
    SignedBy(b, registered, msg, [from]);
    SignedByFault(b, registered, msg, [from], 0, d);
    assert [from][0] == from && [msg.body.toAddress][..0] == [];
  }

  /**
   * A bank multi-send: at least one input, every input decoded and printed again, every output as written. The first
   * input that cannot be decoded panics before anything is looked up.
   */
  lemma MultiSendPasses(b: Bech32, registered: set<bytes>, msg: Msg, k: nat, d: Duty)
    requires msg.getSigners.None? && msg.body.MultiSend? && !IsIdentityModuleMsg(msg.typeURL)
    ensures var ins, outs := msg.body.inputs, msg.body.outputs;
            && (Passes(b, registered, msg) <==>
                  && ins != []
                  && (forall i :: 0 <= i < |ins| ==> RegisteredAs(b, registered, ins[i]))
                  && (forall j :: 0 <= j < |outs| ==> outs[j] in registered))
            && (FirstUndecodable(b, ins, k) ==> (Fault(b, registered, msg, d) <==> d == Undecodable(ins[k])))
            && (ins == [] ==> (Fault(b, registered, msg, d) <==> d == NoSender))
            && ((forall i :: 0 <= i < |ins| ==> b.decode(ins[i]).Some?) && FirstUnregistered(b, registered, ins, k) ==>
                  (Fault(b, registered, msg, d) <==> d == Sender(b.encode(b.decode(ins[k]).value))))
            && (ins != [] && (forall i :: 0 <= i < |ins| ==> RegisteredAs(b, registered, ins[i]))
                && k < |outs| && outs[k] !in registered && AllIn(registered, outs[..k]) ==>
                  (Fault(b, registered, msg, d) <==> d == Recipient(outs[k])))
  {
    hide Cleared, Fault, FirstAbsent, RegisteredAs, FirstUnregistered, FirstUndecodable;
    assert RawSigners(msg.body) == msg.body.inputs && Recipients(msg.body) == msg.body.outputs;
    SignedBy(b, registered, msg, msg.body.inputs);
    SignedByFault(b, registered, msg, msg.body.inputs, k, d);
  }

  /** The field `name` is a string and, of the three names looked for, in this order, the first that is. */
  ghost predicate NamesCreator(fields: map<string, FieldValue>, name: string) {
    && HasString(fields, name)
    && (name == "Creator" || name == "Signer" || name == "FromAddress")
    && (name != "Creator" ==> !HasString(fields, "Creator"))
    && (name == "FromAddress" ==> !HasString(fields, "Signer"))
  }

  /**
   * Any other message: the first of the three string fields, decoded and printed again. If that field is empty nobody
   * signs, whatever is in the other two.
   */
  lemma OtherPasses(b: Bech32, registered: set<bytes>, msg: Msg, name: string, d: Duty)
    requires msg.getSigners.None? && msg.body.Other? && !IsIdentityModuleMsg(msg.typeURL)
    requires NamesCreator(msg.body.fields, name)
    ensures var s := msg.body.fields[name].s;
            && (Passes(b, registered, msg) <==> s != [] && RegisteredAs(b, registered, s))
            && (s == [] ==> (Fault(b, registered, msg, d) <==> d == NoSender))
            && (s != [] && b.decode(s).None? ==> (Fault(b, registered, msg, d) <==> d == Undecodable(s)))
            && (s != [] && b.decode(s).Some? && !RegisteredAs(b, registered, s) ==>
                  (Fault(b, registered, msg, d) <==> d == Sender(b.encode(b.decode(s).value))))
  {
    hide Cleared, Fault, FirstAbsent;
    var s := msg.body.fields[name].s;
    assert ExtractCreator(msg.body) == s;
    var raws := if s == [] then [] else [s];
    assert RawSigners(msg.body) == raws && Recipients(msg.body) == [];
    SignedBy(b, registered, msg, raws);
    SignedByFault(b, registered, msg, raws, 0, d);
  }

  /** A message with none of the three passes under the two exempt names, and under no other. */
  lemma NamelessPasses(b: Bech32, registered: set<bytes>, msg: Msg)
    requires msg.getSigners.None? && msg.body.Other?
    requires forall name :: !NamesCreator(msg.body.fields, name)
    ensures Passes(b, registered, msg) <==>
            || msg.typeURL == "/Nexelra.identity.MsgCreateIdentity"
            || msg.typeURL == "/Nexelra.identity.MsgUpdateParams"
  {
    var fields := msg.body.fields;
    assert !NamesCreator(fields, "Creator") && !NamesCreator(fields, "Signer") && !NamesCreator(fields, "FromAddress");
    assert RawSigners(msg.body) == [];
    SignedBy(b, registered, msg, []);
  }

  /** A message with a `GetSigners` method: every signer it returns, printed, and the recipients as written. */
  lemma GivenSignersPass(b: Bech32, registered: set<bytes>, msg: Msg)
    requires msg.getSigners.Some? && !IsIdentityModuleMsg(msg.typeURL)
    ensures var accs := msg.getSigners.value;
            Passes(b, registered, msg) <==>
            && accs != []
            && (forall i :: 0 <= i < |accs| ==> b.encode(accs[i]) in registered)
            && (msg.body.Send? ==> msg.body.toAddress in registered)
            && (msg.body.MultiSend? ==> forall j :: 0 <= j < |msg.body.outputs| ==> msg.body.outputs[j] in registered)
  {
    hide Encoded;
    EncodedIs(b, msg.getSigners.value);
    if msg.body.Send? {
      assert Recipients(msg.body) == [msg.body.toAddress];
      assert [msg.body.toAddress][0] == msg.body.toAddress;
    }
  }

  /** Message `n` is the first one that does not pass, and `d` is what is wrong first with it. */
  ghost predicate FirstFault(b: Bech32, registered: set<bytes>, msgs: seq<Msg>, n: int, d: Duty) {
    && 0 <= n < |msgs|
    && (forall i :: 0 <= i < n ==> Passes(b, registered, msgs[i]))
    && !IsIdentityModuleMsg(msgs[n].typeURL)
    && Fault(b, registered, msgs[n], d)
  }

  lemma FirstFaultLater(b: Bech32, registered: set<bytes>, msgs: seq<Msg>, n: int, d: Duty)
    requires msgs != [] && n > 0
    ensures FirstFault(b, registered, msgs, n, d) <==>
            Passes(b, registered, msgs[0]) && FirstFault(b, registered, msgs[1..], n - 1, d)
  {
    hide Passes, Fault;
    var rest := msgs[1..];
    assert forall i :: 1 <= i < |msgs| ==> msgs[i] == rest[i - 1];
    assert forall i :: 0 <= i < |rest| ==> rest[i] == msgs[i + 1];
  }

  lemma {:induction false} MessagesRefused(b: Bech32, registered: set<bytes>, msgs: seq<Msg>, d: Duty)
    ensures Judge(registered, AllDuties(b, msgs)) == Refused(d) <==>
            exists n :: FirstFault(b, registered, msgs, n, d)
  {
    if msgs == [] {
    } else {
      hide Cleared, Fault, Duties, Judge, FirstFault;
      var rest := msgs[1..];
      JudgeSplit(registered, Duties(b, msgs[0]), AllDuties(b, rest));
      MessageJudged(b, registered, msgs[0]);
      MessagesRefused(b, registered, rest, d);
      FaultAtFront(b, registered, msgs, d);
      if Passes(b, registered, msgs[0]) {
        if n :| FirstFault(b, registered, rest, n, d) {
          NotBeforeFront(b, registered, rest, n, d);
          FirstFaultLater(b, registered, msgs, n + 1, d);
        }
      }
      if n :| FirstFault(b, registered, msgs, n, d) {
        NotBeforeFront(b, registered, msgs, n, d);
        if n > 0 {
          FirstFaultLater(b, registered, msgs, n, d);
        }
      }
    }
  }

  lemma NotBeforeFront(b: Bech32, registered: set<bytes>, msgs: seq<Msg>, n: int, d: Duty)
    requires FirstFault(b, registered, msgs, n, d)
    ensures n >= 0
  {
  }

  lemma FaultAtFront(b: Bech32, registered: set<bytes>, msgs: seq<Msg>, d: Duty)
    requires msgs != []
    ensures FirstFault(b, registered, msgs, 0, d) <==>
            !IsIdentityModuleMsg(msgs[0].typeURL) && Fault(b, registered, msgs[0], d)
  {
  }

  /**
   * The gate refuses with `d` exactly if, away from height 0 and simulation, `d` is what is wrong first with the
   * first message that does not pass: messages left to right, in each one its signers before its recipients.
   */
  lemma RefusalIsExact(b: Bech32, registered: set<bytes>, height: int, simulate: bool, msgs: seq<Msg>, d: Duty)
    ensures Handle(b, registered, height, simulate, msgs) == Refused(d) <==>
            height != 0 && !simulate && exists n :: FirstFault(b, registered, msgs, n, d)
  {
    MessagesRefused(b, registered, msgs, d);
  }
}
