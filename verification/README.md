# The identity module: wire codec, byte store, and registry gate

Nexelra's `x/identity` module keeps one record per address (address, hash of a national ID number, creation time) and
an ante decorator that lets a transaction through only if everyone it names has such a record. This project models
three layers of it and proves what holds across them.

1. **The wire codec** of `Identity`, `Params` and `GenesisState` (generated Go code). `Varint.dfy` has the 7-bit shift
   loop with its 64-bit `<<` and `|=`, the in-place writer and the closed-form length. `Wire.dfy` has the skipper for
   unknown fields and nested groups, the reader of one field with its wrapping `< 0` and `> l` guards, and decoding as
   a fold over fields for any message schema, so that a property of decoding is proved once for the three messages.
   `FieldGrammar.dfy` defines what a field is without reference to any parser, and proves that the decoder accepts
   exactly that grammar, and which error it gives for what is not in it. `IdentityCodec.dfy` and `GenesisCodec.dfy`
   hold the three messages: buffers filled from the back, nested messages, `Unmarshal` on a receiver.
2. **The keeper over its byte store** (`ByteOrder.dfy`, `IdentityKeeper.dfy`, `Genesis.dfy`). The store is one map from
   bytes to bytes. A `Registry`, a map from address to record and a cell for the parameters, has an `Image` in it, and
   every keeper operation on the image is the obvious operation on the map. Genesis import, export and validation are
   proved against that.
3. **The gate and whole runs** (`Gate.dfy`, `Chain.dfy`). `AnteHandle` is compared with a list of duties in order; a run
   is a genesis and any sequence of transactions, gated, executed message by message and rolled back on failure, on the
   byte store and on the registry alike.

`Machine.dfy` holds Go's integers. Unsigned and signed 64-bit values are ranges of unbounded integers; shifts,
conversions and additions that can wrap are written out. Go slices are shorter than 2^63 bytes, so inputs are required
to be (`Bounded`, `|dAtA| < TWO63`), and a record or genesis that is written has to fit in such a slice (`Fits`,
`AllFit`); `GenesisCodec.DecodedRecordsFit` shows that whatever was decoded does. Strings are byte strings; the code
checks no UTF-8. The decoding loops the generator repeats inline, and the three identical skippers, are modelled once.

Bech32, the printed SHA-256, the wall clock and the success of other modules' handlers are arbitrary functions and
inputs, so every theorem holds for all of them. `canon` of a signer is decoding followed by encoding.

## Where the code does less than it seems to

- **Decoding in two parts.** Decoding `a ++ b` and decoding `b` on top of `a` give the same value and fail together, but
  not always with the same error: the guard `iNdEx + len < 0` uses the index in the whole input.
  `Wire.Concatenation` states exactly when; `IdentityCodec.ErrorKindDependsOnPosition` is a concrete case.
- **Shortest encoding.** It holds for `Identity`. For `GenesisState` the encoder always writes the parameters, two bytes
  that the decoder does not need, so for every genesis there is an input two bytes shorter
  (`GenesisCodec.EncoderSpendsTwo`). `GenesisCodec.ShortestEncoding` states exactly which inputs are no shorter than
  the encoding: those with two bytes or more besides their records as the encoder would write them.
- **Export, then import.** Importing writes the parameters, so a store without them does not come back byte for byte.
  `Genesis.StateRoundTrip` states exactly which stores do, entry by entry; every state a run reaches from a genesis is one of them
  (`Chain.ReachableRoundTrip`).
- **Order of the export.** Keys end in `/`, so records are ordered by address + `/`, which differs from the order of the
  addresses exactly where `Genesis.Overtakes` says (`Genesis.KeyOrder`, `Genesis.KeyOrderDiffers`).
- **The exemption list.** The comments and log lines of the decorator say that the module's own messages are let
  through. The list spells them `/Nexelra.identity...` (app/ante/ante.go:211-212); they are registered as
  `nexelra.identity...` (x/identity/types/tx.pb.go:211-213). `Chain.RegistryLocked` proves what follows: after height 0
  no run of properly named messages changes the parameters or registers a canonical address. A chain that starts with
  an empty registry then takes no transaction with a message, unless one is literally on the list
  (`Chain.NobodyEnters`).

## Model

| member | source | states |
|---|---|---|
| Machine.BitOrIsAddition | x/identity/types/identity.pb.go:200 | `\|` adds where the shifted group lies above the bits already there |
| Machine.BitOrIsBitwise | x/identity/types/identity.pb.go:200 | a bit of `a \| b` is set exactly if it is set in one of the two, for all operands |
| Machine.WrapsAround | x/identity/types/identity.pb.go:205 | conversions and additions keep the number modulo 2^64, that to the field number modulo 2^32, in the signed range |
| Machine.GuardIsExact | x/identity/types/identity.pb.go:233-243 | the checks on a length, all in wrapping 64-bit arithmetic, let it through exactly if that many bytes are left |
| Varint.SovIsLength | x/identity/types/identity.pb.go:179-181 | for every value, `(Len64(x\|1)+6)/7` is the number of bytes the write loop emits |
| Varint.SovRange | x/identity/types/identity.pb.go:179-181 | that is between 1 and 10 for every 64-bit value |
| Varint.EncodeVarint | x/identity/types/identity.pb.go:148-158 | the shortest encoding ends right before `offset`, its first index is returned, every other byte of the buffer is unchanged |
| Varint.RoundTrip | x/identity/types/identity.pb.go:283-296 | reading an encoded value gives the value and stops right after it, whatever follows |
| Varint.ReadFront | x/identity/types/identity.pb.go:190-204 | a padded varint at the front of the input is read whole, for its value modulo 2^64 |
| Varint.ReadIsVarint | x/identity/types/identity.pb.go:190-204 | nothing but a varint of one to ten bytes is ever read |
| Varint.ReadFails | x/identity/types/identity.pb.go:192-197 | reading fails exactly if the first ten bytes, or all there are, continue; which of the two decides the error |
| Varint.ShortestForm | x/identity/types/identity.pb.go:148-158 | no varint of a value, padded or not, is shorter than the one written |
| Varint.DecodeVarint | x/identity/types/identity.pb.go:190-204 | the loop with shifts, cut at bit 63, and `\|=` computes the value, the next index, or the error, of the arithmetic reading |
| Wire.SkipField | x/identity/types/identity.pb.go:318-395 | the skipper's loop terminates on every input without an index out of range, and its wrapping arithmetic yields the index or error of the mathematical one |
| Wire.SkipIgnoresSuffix | x/identity/types/identity.pb.go:318-395 | what is skipped does not depend on the bytes after it |
| Wire.TokenShifts | x/identity/types/identity.pb.go:188-310 | a field deeper in a longer input is the same field; a claimed end outside the input may wrap in one and not in the other |
| Wire.TokenCost | x/identity/types/identity.pb.go:188-310 | no field takes fewer bytes than tag, shortest length or value, and payload |
| Wire.ReadLength | x/identity/types/identity.pb.go:218-243 | the guarded length read: the payload bounds if it is all there, else the right one of the two errors |
| Wire.SkipUnknown | x/identity/types/identity.pb.go:297-310 | the default branch moves to the end of the skipped field, or fails as the mathematical bounds say |
| Wire.Concatenation | x/identity/types/identity.pb.go:185-317 | for every message type, decoding `a ++ b` is decoding `b` into what `a` gave: same success, same value, and same error if and only if the claimed end does not wrap only by the length of `a` |
| Wire.DecodeBoth | x/identity/types/genesis.pb.go:187-303 | two inputs that decode one after the other decode concatenated |
| FieldGrammar.SkipIsExact | x/identity/types/identity.pb.go:318-395 | the skipper consumes exactly `n` bytes of the input if and only if they are one well-formed field, arbitrarily nested groups included |
| FieldGrammar.SkipsField | x/identity/types/genesis.pb.go:304-381 | with any number of groups open, a whole field is passed over and the depth is as before |
| FieldGrammar.DecodeIsExact | x/identity/types/genesis.pb.go:187-303 | for every message type, an input decodes to `x` if and only if it is a run of well-formed fields, none rejected, that stands for `x` |
| FieldGrammar.UnknownFieldTransparency | x/identity/types/identity.pb.go:297-310 | a run of unknown fields between two fields changes neither success nor value |
| FieldGrammar.NumberInTag | x/identity/types/identity.pb.go:205 | a tag that stands for `8n + w`, padded or not, has number `n` if `n` is below 2^31, and `n` modulo 2^32, signed, otherwise |
| FieldGrammar.UnknownTagTransparency | x/identity/types/identity.pb.go:297-310 | the same for one field given by what its tag stands for: every unknown number from 1 to 2^31 - 1, every wire type |
| FieldGrammar.FailureIsExact | x/identity/types/identity.pb.go:185-317 | for every message type, decoding fails with `e` if and only if `e` is what is wrong with the first field that is not accepted |
| FieldGrammar.TagErrors | x/identity/types/identity.pb.go:188-217 | which error a tag gives: no end, end of a group, number not positive, wire type other than the field's |
| FieldGrammar.LengthErrors | x/identity/types/identity.pb.go:218-243 | which error the length of a string or nested message gives: no end, past 2^63, past the input |
| FieldGrammar.UnknownFieldErrors | x/identity/types/identity.pb.go:297-310 | an unknown field gives the skipper's error, or the one for where it ends |
| FieldGrammar.SkipsOne | x/identity/types/identity.pb.go:340-389 | at any depth, what belongs to a tag of each wire type: a varint, eight bytes, a length and as many bytes, a group opened or closed, four bytes |
| FieldGrammar.SkipErrors | x/identity/types/identity.pb.go:318-395 | which error the skipper gives, at any depth: wire types 6 and 7, a group end too many, a missing end, a length past 2^63 |
| IdentityCodec.Identity.Marshal | x/identity/types/identity.pb.go:106-114 | the new buffer holds the encoding, no more and no less |
| IdentityCodec.Identity.MarshalToSizedBuffer | x/identity/types/identity.pb.go:121-146 | the encoding ends at the end of the slice, `Size()` is returned, all other bytes are unchanged |
| IdentityCodec.SizeIsLength | x/identity/types/identity.pb.go:159-178 | `Size` is the length of the encoding |
| IdentityCodec.EncodeIsRun | x/identity/types/identity.pb.go:121-146 | the bytes written are the fields 1, 2, 3 in this order, those at zero left out, each with its shortest tag and length |
| IdentityCodec.IdentityRef.Unmarshal | x/identity/types/identity.pb.go:185-317 | on every input and receiver the loop ends with the decoded value, using up the whole input, or with the first error, and what is in the receiver then is stated too |
| IdentityCodec.LeftoverIsPrefix | x/identity/types/identity.pb.go:278-296 | after an error the receiver holds what the fields before the failing one decode to, and, exactly if that one is an integer of field 3, the groups of it that were read as the time |
| IdentityCodec.DecodeTakesLast | x/identity/types/identity.pb.go:213-310 | an input decodes to `x` if and only if it is a run of fields with positive numbers, 1 and 2 strings and 3 an integer, and for each of the three the last one gives the value of `x`, even if empty or zero |
| IdentityCodec.DecodeMerges | x/identity/types/identity.pb.go:185-317 | an encoded record decoded into any receiver replaces the fields it sets and leaves the others |
| IdentityCodec.RoundTrip | x/identity/types/identity.pb.go:106-146 | every record comes back from its encoding, negative times included |
| IdentityCodec.LastOneWins | x/identity/types/identity.pb.go:213-296 | of two records in one input the later one wins, field by field |
| IdentityCodec.UnknownFieldsAnywhere | x/identity/types/identity.pb.go:297-310 | runs of fields numbered above 3 before, between and after the encoded fields leave the decoded record unchanged |
| IdentityCodec.UnknownNumber | x/identity/types/identity.pb.go:205 | a field whose tag stands for a number from 4 to 2^31 - 1, put between any two fields, changes neither success nor value |
| IdentityCodec.EncodeInjective | x/identity/types/identity.pb.go:121-146 | distinct records have distinct encodings |
| IdentityCodec.ShortestEncoding | x/identity/types/identity.pb.go:159-178 | no input that decodes to a record is shorter than its `Size()` |
| IdentityCodec.ErrorKindDependsOnPosition | x/identity/types/identity.pb.go:237-243 | a concrete input whose error kind changes when two bytes are put before it |
| GenesisCodec.UnmarshalParams | x/identity/types/params.pb.go:154-203 | the loop computes the decoding of the empty message, for every input |
| GenesisCodec.ParamsAcceptance | x/identity/types/params.pb.go:154-281 | `Params` accepts exactly the runs of well-formed fields with positive numbers |
| GenesisCodec.GenesisState.Size | x/identity/types/genesis.pb.go:164-179 | the sum over the list is the length of the encoding |
| GenesisCodec.EncodeIsRun | x/identity/types/genesis.pb.go:121-151 | the bytes written are field 1, empty, always and first, then one field 2 for each record in list order, each with its shortest tag and length |
| GenesisCodec.GenesisState.Marshal | x/identity/types/genesis.pb.go:106-114 | the new buffer holds the encoding |
| GenesisCodec.GenesisState.MarshalToSizedBuffer | x/identity/types/genesis.pb.go:121-151 | the encoding ends at the end of the slice; all other bytes are unchanged |
| GenesisCodec.PrependList | x/identity/types/genesis.pb.go:126-138 | from the last record to the first, each into the part of the buffer still free, the list comes out in order |
| GenesisCodec.GenesisRef.Unmarshal | x/identity/types/genesis.pb.go:187-303 | on every input and receiver the decoded value or the first error, nested ones included; a record that fails to decode stays in the list as far as it got |
| GenesisCodec.LeftoverIsPrefix | x/identity/types/genesis.pb.go:278-282 | after an error the receiver holds what the fields before the failing one decode to, plus, if that one holds a record, as much of the record as was decoded |
| GenesisCodec.NestedDecides | x/identity/types/genesis.pb.go:244-282 | the error of a nested message is the error of the whole; a nested record that decodes is appended |
| GenesisCodec.DecodeTakesRecords | x/identity/types/genesis.pb.go:215-303 | an input decodes if and only if it is a run of fields with positive numbers in which everything nested in fields 1 and 2 decodes, and then the records of the fields 2 are appended in order |
| GenesisCodec.DecodeAppends | x/identity/types/genesis.pb.go:215-282 | an encoded genesis decoded into any receiver sets the parameters and appends the records |
| GenesisCodec.RoundTrip | x/identity/types/genesis.pb.go:106-151 | every genesis state comes back from its encoding, records in the same order |
| GenesisCodec.ShortestEncoding | x/identity/types/genesis.pb.go:164-179 | an input is no shorter than the encoding of what it decodes to if and only if it spends two bytes or more beyond its records as the encoder would write them, as it does if it carries the parameters; it is never more than two bytes shorter |
| GenesisCodec.SurplusAccounts | x/identity/types/genesis.pb.go:187-303 | those surplus bytes and the encoded records add up to the input, whatever was in the receiver |
| GenesisCodec.EncoderSpendsTwo | x/identity/types/genesis.pb.go:139-150 | for every genesis its records alone decode to it from an input two bytes shorter than the encoding |
| GenesisCodec.EmptyInputIsShorter | x/identity/types/genesis.pb.go:139-150 | the empty input is two bytes shorter than the encoding of what it decodes to |
| GenesisCodec.DecodedRecordsFit | x/identity/types/genesis.pb.go:249-282 | every record of a decoded genesis can be encoded again |
| ByteOrder.LessIsLexicographic | x/identity/keeper/identity.go:60-61 | the order is that of unsigned bytes: a proper prefix first, else the smaller byte where the two first differ |
| ByteOrder.Iterate | x/identity/keeper/identity.go:57-68 | the iterator visits the keys of the prefixed store in ascending byte order, each once |
| IdentityKeeper.KeyBytes | x/identity/types/key_identity.go:9-23 | the bytes of the keys, written out |
| IdentityKeeper.KeysApart | x/identity/types/key_identity.go:10-23 | addresses never share a key, slashes or not, and none has the key of the parameters |
| IdentityKeeper.Keeper.SetIdentity | x/identity/keeper/identity.go:14-21 | exactly the key of the record's address gets the record's encoding |
| IdentityKeeper.Keeper.GetIdentity | x/identity/keeper/identity.go:24-41 | absent, found, or the panic on bytes that do not decode |
| IdentityKeeper.Keeper.RemoveIdentity | x/identity/keeper/identity.go:44-54 | exactly that key is gone |
| IdentityKeeper.Keeper.GetAllIdentity | x/identity/keeper/identity.go:57-71 | the decoded values under the prefix, in key order, or the panic on the first that does not decode |
| IdentityKeeper.Keeper.SetParams | x/identity/keeper/params.go:24-33 | exactly the key of the parameters is written |
| IdentityKeeper.Keeper.GetParams | x/identity/keeper/params.go:12-21 | the default if the key is missing, else the decoded value or the panic |
| IdentityKeeper.FetchIsExact | x/identity/keeper/identity.go:24-41 | on any store, a record is found if and only if the bytes under the key are a run of fields standing for it; absent if and only if the key is; else the panic |
| IdentityKeeper.FetchParamsIsExact | x/identity/keeper/params.go:12-21 | on any store, the panic if and only if the key is there and its bytes are no run of fields with positive numbers |
| IdentityKeeper.ListIsExact | x/identity/keeper/identity.go:57-71 | on any store, a list if and only if every value under the prefix decodes, and then these values in byte order of their keys |
| IdentityKeeper.FetchSimulates | x/identity/keeper/identity.go:24-41 | on the image of a map the lookup is the lookup in the map |
| IdentityKeeper.PutSimulates | x/identity/keeper/identity.go:14-21 | on the image of a map setting a record is the map update, and touches nothing else |
| IdentityKeeper.RemoveSimulates | x/identity/keeper/identity.go:44-54 | on the image of a map removing is removing from the map |
| IdentityKeeper.PutParamsSimulates | x/identity/keeper/params.go:24-33 | writing the parameters leaves all records as they are |
| IdentityKeeper.FetchParamsSimulates | x/identity/keeper/params.go:12-21 | on an image the parameters are always readable |
| IdentityKeeper.ImageInjective | x/identity/keeper/identity.go:14-21 | a byte store stands for at most one registry |
| IdentityKeeper.ListingSimulates | x/identity/keeper/identity.go:57-71 | on the image of a map the list holds every record once, by key order |
| IdentityKeeper.ListingUnique | x/identity/keeper/identity.go:57-71 | there is only one such list |
| Genesis.Validate | x/identity/types/genesis.go:21-35 | accepts exactly the lists whose addresses are pairwise distinct |
| Genesis.InitGenesis | x/identity/module/genesis.go:11-20 | the store after setting every record in order and then the parameters |
| Genesis.ExportGenesis | x/identity/module/genesis.go:23-31 | parameters and listing of the store, or a panic |
| Genesis.ImportIsLast | x/identity/module/genesis.go:11-20 | on any store, the last record for each address under its key, the empty string under the key of the parameters, the rest as it was |
| Genesis.ExportIsExact | x/identity/module/genesis.go:23-31 | on any store, no panic if and only if the parameters and every value under the prefix decode |
| Genesis.CollectIsLast | x/identity/module/genesis.go:13-15 | without validation the last record for an address wins, and addresses not in the list keep theirs |
| Genesis.ImportSimulates | x/identity/module/genesis.go:11-20 | import on the byte store is collecting the list into the map |
| Genesis.StateRoundTrip | x/identity/module/genesis.go:11-31 | export and import into an empty store restore the same bytes if and only if the key of the parameters holds the empty string and every other entry is a canonical record under the key of its address |
| Genesis.CompleteIsImage | x/identity/keeper/identity.go:14-21 | such a store is the image of the registry read off from it |
| Genesis.EmptyStoreGrows | x/identity/module/genesis.go:17 | the empty store comes back with the key of the parameters |
| Genesis.ListRoundTrip | x/identity/module/genesis.go:11-31 | import and export give the last record for each address and nothing else, ordered by address + `/` |
| Genesis.ValidListRoundTrip | x/identity/module/genesis.go:11-31 | for a list that validates, a permutation of it in that order, with the same parameters |
| Genesis.KeyOrder | x/identity/types/key_identity.go:13-23 | key order is address order except exactly where one address continues the other with a byte below `/` |
| Genesis.KeyOrderDiffers | x/identity/types/key_identity.go:13-23 | a pair of addresses listed the other way round |
| Gate.ExtractRecipients | app/ante/ante.go:189-206 | the recipient of a send, all outputs of a multi-send in order, nobody else |
| Gate.AnteHandle | app/ante/ante.go:69-186 | the nested loops over the byte store decide as the first unmet duty does |
| Gate.GateIsExact | app/ante/ante.go:69-186 | `next` is reached if and only if height is 0, or it is a simulation, or every message is on the list or has signers, all of them and all recipients registered |
| Gate.RefusalIsExact | app/ante/ante.go:95-182 | a refusal or panic names `d` if and only if `d` is what is wrong first, messages in order, signers before recipients |
| Gate.DecodeAllIsExact | app/ante/ante.go:114-121 | the strings are decoded in order, and the first that cannot be is the one that panics |
| Gate.SendPasses | app/ante/ante.go:114-116 | a bank send passes if and only if its sender, decoded and printed again, and its recipient as written are registered; what is wrong first otherwise |
| Gate.MultiSendPasses | app/ante/ante.go:118-121 | a multi-send passes if and only if it has an input and all inputs, decoded and printed again, and all outputs as written are registered; what is wrong first otherwise |
| Gate.OtherPasses | app/ante/ante.go:123-130 | any other message: the first of `Creator`, `Signer`, `FromAddress` that is a string field has to be non-empty and registered; what is wrong first otherwise |
| Gate.NamelessPasses | app/ante/ante.go:208-215 | a message with none of the three passes under the two exempt names and no other |
| Gate.GivenSignersPass | app/ante/ante.go:108-111 | with a `GetSigners` method, every signer it returns and the recipients have to be registered |
| Chain.CreateIdentity | x/identity/keeper/msg_server_identity.go:16-38 | fails with the store untouched if the creator has a record, else adds exactly the new record |
| Chain.UpdateParams | x/identity/keeper/msg_update_params.go:12-23 | writes the parameters if and only if the sender is the authority, else leaves the store untouched |
| Chain.DeliverTx | app/ante/ante.go:69-186 | one transaction on the byte store is one transaction on the registry; if it does not take effect the store is identical |
| Chain.RunChain | x/identity/module/genesis.go:11-20 | a whole run on the byte store goes, state for state, through the images of the run on the registry |
| Chain.CommitIsExact | x/identity/keeper/msg_server_identity.go:16-38 | a transaction takes effect if and only if it is not simulated, every message passes the gate or height is 0, its creators are new and pairwise distinct with records that fit, its parameter updates are the authority's, and other modules' handlers succeed |
| Chain.DeliverIsExact | x/identity/keeper/msg_server_identity.go:26-35 | then exactly the records it creates are added, and the parameters are those of its last update, else those from before; otherwise nothing changes |
| Chain.OnlyTheAuthority | x/identity/keeper/msg_update_params.go:13-15 | in a transaction that takes effect every parameter update is by the authority |
| Chain.WriteOnce | x/identity/keeper/msg_server_identity.go:19-35 | between any two states of a run no record is removed or changed |
| Chain.RegisteredForGood | x/identity/keeper/msg_server_identity.go:19-35 | a creation that takes effect found no record, and its record is there unchanged in every later state |
| Chain.RegisteredOnce | x/identity/keeper/msg_server_identity.go:19-23 | in a whole run at most one message creates a record for an address |
| Chain.GateSafety | app/ante/ante.go:95-182 | when a transaction takes effect away from height 0, everyone its non-exempt messages name was registered at admission and is, with the same record, ever after |
| Chain.ReachableRoundTrip | x/identity/module/genesis.go:11-31 | every state a run reaches from a genesis comes back byte for byte from its export |
| Chain.CreateIdentityNeedsIdentity | app/ante/ante.go:209-215 | under its registered name a creation passes the gate if and only if its creator, re-encoded, is registered already |
| Chain.UpdateParamsNeverPasses | app/ante/ante.go:123-138 | under its registered name a parameter update has no signer the gate finds |
| Chain.RegistryLocked | app/ante/ante.go:209-215 | after height 0 no run of properly named messages changes the parameters or the set of canonical addresses registered |
| Chain.NobodyEnters | app/ante/ante.go:95-182 | from a registry without records and away from height 0, no transaction with a message takes effect unless a message is literally on the list, and the state never changes |

## Left out

- IdentityCodec.Identity.MarshalToSizedBuffer: requires a slice of at least `Size()` bytes; on a shorter one the Go code panics.
- Machine.GuardIsExact: Go's `int` is 64 bits wide here; on a 32-bit platform the guards would differ.
- Wire.SkipField: one skipper stands for `skipIdentity`, `skipGenesis` and `skipParams`, and one shift loop for its inlined copies, which are the same code; the errors of the three files are told apart by kind only.
- Chain.DeliverTx: roll-back on failure, and that a simulation leaves no trace, are assumed of baseapp, which is not part of this model; the other ante decorators, gas and `ValidateBasic` are not modelled either.
- Chain.CreateIdentity: SHA-256 and its hex printing are one arbitrary function, and the wall clock is an argument; a record too large for a Go slice is an error rather than a crash.
- Chain.RegistryLocked: is about the messages of a transaction; a message that another module executes, such as a parameter update by governance, does not go through the gate.
- The store under the keeper: the SDK's limits on key and value length, caching and Merkle commitment; an iterator is taken to visit keys in ascending byte order.
- Messages nested in other messages: the decorator does not look into them, and the model does not execute them.
- The second generated codec under `api/`, and the codecs of the transaction and query messages: the same patterns again.
- Paged queries, gRPC and REST gateways, CLI, simulation, application wiring and the node commands.
- JSON genesis encoding and the legacy amino encoding, which are the SDK's.
