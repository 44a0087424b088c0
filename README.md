# Peer sets and protocol names of the Polkadot networking layer

This project models `polkadot/node/network/protocol/src/peer_set.rs` in Dafny and proves properties of the model. That file decides three things for the parachain networking layer:

- which *peer sets* exist. There are two: validation traffic and collation traffic.
- which protocol versions each peer set speaks.
- which on-the-wire protocol name each (peer set, version) pair gets, and the reverse lookup from a name.

It also fixes the connection-slot policy that each peer set asks of the network backend.

The modules follow the parts of the file:

- `Encoding` (`encoding.dfy`) covers the text encodings used inside names:
  - lowercase hexadecimal of the genesis hash, which is what `hex::encode` produces;
  - base-ten notation of a version number, which is what `Display` of a `u32` produces.
  
  Each encoder has a decoder and a round-trip lemma, so both encodings are injective.
- `ProtocolVersions` (`protocol_versions.dfy`) covers `ProtocolVersion(u32)`, the enumerations `ValidationVersion` and `CollationVersion` with their explicit discriminants, the `From` conversions, and the two `TryFrom` scans. The scans are loops with an early return.
- `PeerSets` (`peer_sets.dfy`) covers:
  - `PeerSet` and `IsAuthority`;
  - the supported-version tables;
  - `get_main_version`, `get_max_notification_size`, `get_label` and `get_protocol_label`;
  - the two-slot container `PerPeerSet<T>`, modelled as a class with two fields.
- `Policy` (`policy.dfy`) covers the `SetConfig` values chosen in `get_info`, per peer set and per role.
- `ProtocolNames` (`protocol_names.dfy`) covers `generate_name` and the registry `PeerSetProtocolNames`. The registry class has two map fields:
  - `protocols`: name → (peer set, version);
  - `names`: (peer set, version) → name.
  
  The constructor builds them with the source's nested loops. `register_main_protocol`, `register_legacy_collation_protocol` and `insert_protocol_or_panic` are static methods over the two maps, as in the source. The duplicate-name panic is a `collision` result, and the constructor proves that the result is false after every call, so `new` never panics.

  The class invariant `Valid()` says three things:
  - every (peer set, version) key holds its generated name, and that name maps back to it;
  - every other name is the legacy collation name;
  - every supported pair is present.
- `NetworkConfig` (`network_config.dfy`) covers the values that `get_info` and `peer_sets_info` pass to the network backend: main name, fallback names, maximum size and slot policy.
- `TestVectors` (`test_vectors.dfy`) proves the names and lookups that the file's unit tests expect, for the genesis hash used in those tests.

The central results are these:

- name derivation is injective (`GenerateNameInjective`);
- no generated name equals the legacy name `/polkadot/collation/1`, because a generated name has a hexadecimal digit after its first slash and the legacy name has `p` there (`LegacyNameNotGenerated`);
- hence construction never reaches the panic, and afterwards every supported pair has a name that resolves back to it.

Two facts about the code shape the model:

- The peer-set short names inside generated names are `validation` and `collation`, the same strings as the metrics labels.
- The validation slot counts are `MIN_GOSSIP_PEERS / 2 - 1` in each direction, which is positive only when `MIN_GOSSIP_PEERS` is at least 4. The model keeps this arithmetic and requires `MIN_GOSSIP_PEERS / 2 >= 1`, so that the unsigned subtraction does not underflow.

## Model

| member | source | states |
|---|---|---|
| Encoding.Hex | polkadot/node/network/protocol/src/peer_set.rs:423-425 | `hex::encode`: two characters per byte, in byte order. Its partners `UnhexHex` and `HexBytewise` state what those characters are. |
| Encoding.ByteHex | polkadot/node/network/protocol/src/peer_set.rs:423-425 | A byte becomes two lowercase hexadecimal digits whose value, high digit first, is that byte. |
| Encoding.UnhexHex | polkadot/node/network/protocol/src/peer_set.rs:423-425 | The hexadecimal encoding of the genesis hash contains hexadecimal digits only and decodes back to the hash. |
| Encoding.HexInjective | polkadot/node/network/protocol/src/peer_set.rs:423-425 | Distinct genesis hashes have distinct hexadecimal encodings. |
| Encoding.HexBytewise | polkadot/node/network/protocol/src/peer_set.rs:423-425 | A string is the encoding of a byte string when each character pair encodes the byte at the same position. |
| Encoding.Decimal | polkadot/node/network/protocol/src/peer_set.rs:433 | `Display` of the version: non-empty and without a leading zero. Its partner `DecimalValueDecimal` states that it denotes the number. |
| Encoding.DecimalValueDecimal | polkadot/node/network/protocol/src/peer_set.rs:433 | The decimal notation of a version contains digits only and denotes that version. |
| Encoding.DecimalInjective | polkadot/node/network/protocol/src/peer_set.rs:433 | Distinct versions have distinct decimal notations. |
| ProtocolVersions.EnumerationsComplete | polkadot/node/network/protocol/src/peer_set.rs:241-254 | The iteration order lists every validation and every collation enumerator, each exactly once. |
| ProtocolVersions.ValidationToProtocol | polkadot/node/network/protocol/src/peer_set.rs:288-292 | `From<ValidationVersion>`: `V3` becomes protocol version 3, its declared discriminant. |
| ProtocolVersions.CollationToProtocol | polkadot/node/network/protocol/src/peer_set.rs:294-298 | `From<CollationVersion>`: `V1` becomes protocol version 1 and `V2` becomes 2, their declared discriminants. |
| ProtocolVersions.ConversionsInjective | polkadot/node/network/protocol/src/peer_set.rs:288-298 | Converting an enumerator to `ProtocolVersion` loses nothing, and collation V1 comes before V2. |
| ProtocolVersions.ValidationFromProtocol | polkadot/node/network/protocol/src/peer_set.rs:260-272 | `TryFrom`: returns `Ok(v)` exactly when `v` converts to the given version, and `UnknownVersion` when no enumerator does. Converting an enumerator and back gives the same enumerator. |
| ProtocolVersions.CollationFromProtocol | polkadot/node/network/protocol/src/peer_set.rs:274-286 | The same as `ValidationFromProtocol`, for the collation enumerators. |
| PeerSets.SupportedVersionsAreEnumerations | polkadot/node/network/protocol/src/peer_set.rs:241-254 | A version is supported by a peer set exactly when one of its enumerators converts to it, and the supported versions are distinct. |
| PeerSets.SupportedVersionsInOrder | polkadot/node/network/protocol/src/peer_set.rs:314-337 | The supported versions of each peer set are its enumerators in iteration order, which is the order the constructor registers them in. |
| PeerSets.MainVersion | polkadot/node/network/protocol/src/peer_set.rs:139-144 | The main version is supported and is the newest supported version: V3 for validation, V2 for collation. |
| PeerSets.GetMaxNotificationSize | polkadot/node/network/protocol/src/peer_set.rs:147-149 | The size is 100 * 1024 for every peer set and role. |
| PeerSets.Label | polkadot/node/network/protocol/src/peer_set.rs:152-157 | The metrics label is a non-empty string without a slash, so it fits as one name segment. |
| PeerSets.ProtocolLabel | polkadot/node/network/protocol/src/peer_set.rs:160-179 | A label is present exactly for the supported versions, and it is the peer set label, a slash and the decimal version. |
| PeerSets.PerPeerSet.constructor | polkadot/node/network/protocol/src/peer_set.rs:184-187 | Each slot holds the value given for its peer set. |
| PeerSets.PerPeerSet.Index | polkadot/node/network/protocol/src/peer_set.rs:189-197 | `index(ps)` reads the slot of `ps`: the validation field for validation, the collation field for collation. The constructor and `IndexMut` are stated through it. |
| PeerSets.PerPeerSet.IndexMut | polkadot/node/network/protocol/src/peer_set.rs:199-206 | Writing through `index_mut(ps)` sets the slot of `ps` and leaves the other slot unchanged. |
| Policy.PeerSetConfig | polkadot/node/network/protocol/src/peer_set.rs:92-124 | Validation: equal inbound and outbound counts of `MIN/2 - 1`, together below `MIN`, non-reserved peers accepted. Collation: no outbound slots; inbound slots exist (100) exactly for an authority, and non-reserved peers are accepted exactly for an authority. No reserved nodes. |
| Policy.ValidationPolicyRoleIndependent | polkadot/node/network/protocol/src/peer_set.rs:92-101 | The validation policy is the same for authorities and other nodes. |
| Policy.NonAuthorityClosesCollation | polkadot/node/network/protocol/src/peer_set.rs:111-124 | A non-authority gets no collation slots and denies non-reserved peers. |
| ProtocolNames.ChainPrefix | polkadot/node/network/protocol/src/peer_set.rs:421-426 | The prefix is a slash, the 64 hexadecimal digits of the genesis hash and, when there is a fork id, a slash and the fork id. Its partner `ChainPrefixInjective` states that it determines both. |
| ProtocolNames.ChainPrefixInjective | polkadot/node/network/protocol/src/peer_set.rs:421-426 | The chain prefix, with or without fork id, determines the genesis hash and the fork id. |
| ProtocolNames.GenerateName | polkadot/node/network/protocol/src/peer_set.rs:416-434 | A generated name starts with a slash and a hexadecimal digit. Its partners: `GenerateNameInjective` (all four inputs are recovered from the name) and `LegacyNameNotGenerated`. |
| ProtocolNames.GenerateNameInjective | polkadot/node/network/protocol/src/peer_set.rs:416-434 | Two generated names are equal only when genesis hash, fork id, peer set and version are all equal. |
| ProtocolNames.NotHexAfterSlashNotGenerated | polkadot/node/network/protocol/src/peer_set.rs:422-426 | Every generated name has a hexadecimal digit after its leading slash. |
| ProtocolNames.LegacyNameNotGenerated | polkadot/node/network/protocol/src/peer_set.rs:416-434 | The legacy collation name is not the generated name of any chain, peer set or version. |
| ProtocolNames.RegisterMainKeepsRegistered | polkadot/node/network/protocol/src/peer_set.rs:346-357 | Registering a supported pair not yet registered finds its name free and keeps the two tables consistent. |
| ProtocolNames.RegisterMainKeepsPairsResolved | polkadot/node/network/protocol/src/peer_set.rs:354-356 | After a pair with a free name is registered, every registered pair still resolves back to itself. |
| ProtocolNames.RegisterMainKeepsNamesGenerated | polkadot/node/network/protocol/src/peer_set.rs:354-356 | After a registration, every key of the name-to-pair table is still the legacy name or the generated name of a registered pair. |
| ProtocolNames.GeneratedNameIsFree | polkadot/node/network/protocol/src/peer_set.rs:354-392 | In consistent tables, the name of a pair not yet registered is not taken. |
| ProtocolNames.RegisterLegacyKeepsRegistered | polkadot/node/network/protocol/src/peer_set.rs:360-370 | Before it is registered, the legacy name is free. Adding it keeps the tables consistent and maps it to collation version 1. |
| ProtocolNames.TablesRegistered | polkadot/node/network/protocol/src/peer_set.rs:314-337 | Registering distinct supported pairs one after the other never collides and yields consistent tables. |
| ProtocolNames.NamesTableKeys | polkadot/node/network/protocol/src/peer_set.rs:355 | After a sequence of registrations, the pair-to-name table has exactly the registered pairs as keys. |
| ProtocolNames.GeneratedNameFresh | polkadot/node/network/protocol/src/peer_set.rs:354-356 | The name of a pair not among those registered so far is not yet a key of the name-to-pair table. |
| ProtocolNames.LegacyNameFresh | polkadot/node/network/protocol/src/peer_set.rs:360-370 | The legacy name is not a key of the generated part of the name-to-pair table. |
| ProtocolNames.AllRegistrations | polkadot/node/network/protocol/src/peer_set.rs:314-337 | The constructor's loops register every supported pair exactly once: first validation, then collation. |
| ProtocolNames.TablesValid | polkadot/node/network/protocol/src/peer_set.rs:311-342 | Registering every supported pair once and then the legacy name gives consistent tables that hold every supported pair. |
| ProtocolNames.ConstructedTablesValid | polkadot/node/network/protocol/src/peer_set.rs:311-342 | The tables the constructor's loop leaves behind satisfy the registry invariant. |
| ProtocolNames.LookupExact | polkadot/node/network/protocol/src/peer_set.rs:397-399 | In tables that hold every supported pair, a name maps to a pair exactly when it is that supported pair's generated name, or it is the legacy name and the pair is collation version 1. |
| ProtocolNames.PeerSetProtocolNames.constructor | polkadot/node/network/protocol/src/peer_set.rs:311-343 | `new` never hits the duplicate-name panic. Afterwards the registry invariant holds and the chain identity is stored. |
| ProtocolNames.PeerSetProtocolNames.RegisterPeerSet | polkadot/node/network/protocol/src/peer_set.rs:315-340 | One round of the constructor's loop: after it, the tables hold the pairs of one more peer set, in order, and for collation the legacy name. Nothing collides. |
| ProtocolNames.PeerSetProtocolNames.RegisterValidationVersions | polkadot/node/network/protocol/src/peer_set.rs:316-326 | The validation arm registers the validation versions in order, without collision. |
| ProtocolNames.PeerSetProtocolNames.RegisterCollationVersions | polkadot/node/network/protocol/src/peer_set.rs:327-337 | The collation arm registers the collation versions in order, without collision. |
| ProtocolNames.PeerSetProtocolNames.RegisterMainProtocol | polkadot/node/network/protocol/src/peer_set.rs:346-357 | The pair-to-name table always gets the generated name. The name-to-pair table gets it unless the name is already taken, which is the panic case. |
| ProtocolNames.PeerSetProtocolNames.RegisterLegacyCollationProtocol | polkadot/node/network/protocol/src/peer_set.rs:360-370 | Only the name-to-pair table gets the legacy name, mapped to collation version 1. It collides exactly when that name is already present. |
| ProtocolNames.PeerSetProtocolNames.InsertProtocolOrPanic | polkadot/node/network/protocol/src/peer_set.rs:373-394 | An absent name is inserted and nothing else changes. A present name is the panic case, and the table is left as it was. |
| ProtocolNames.PeerSetProtocolNames.TryGetProtocol | polkadot/node/network/protocol/src/peer_set.rs:397-399 | On a constructed registry, a name resolves to `Some(p)` exactly when it is the generated name of the supported pair `p`, or it is `/polkadot/collation/1` and `p` is collation version 1. Every other name resolves to `None`. |
| ProtocolNames.PeerSetProtocolNames.GetName | polkadot/node/network/protocol/src/peer_set.rs:408-413 | For every supported pair, the name is defined, equals the generated name, and resolves back to the pair. |
| ProtocolNames.PeerSetProtocolNames.GetMainName | polkadot/node/network/protocol/src/peer_set.rs:403-405 | The main name is the generated name of the main version, and it resolves to that version. |
| ProtocolNames.PeerSetProtocolNames.GetFallbackNames | polkadot/node/network/protocol/src/peer_set.rs:438-454 | Validation has no fallbacks. Collation has exactly the legacy name. No fallback equals a generated name. |
| ProtocolNames.ResolvedNamesAreRegistered | polkadot/node/network/protocol/src/peer_set.rs:397-399 | A name that resolves is either the generated name (`GetName`) of the pair it resolves to or the legacy name resolving to collation version 1. |
| ProtocolNames.UnknownNamesResolveToNone | polkadot/node/network/protocol/src/peer_set.rs:397-399 | A name that is neither generated for the registry's chain nor the legacy name resolves to `None`. |
| ProtocolNames.LegacyNameResolves | polkadot/node/network/protocol/src/peer_set.rs:360-370 | The legacy name resolves to collation version 1, while the name of collation version 1 stays the genesis-derived one. |
| ProtocolNames.GetNameInjective | polkadot/node/network/protocol/src/peer_set.rs:408-413 | Distinct supported pairs have distinct names. |
| NetworkConfig.GetInfo | polkadot/node/network/protocol/src/peer_set.rs:68-133 | The arguments passed to the backend for one peer set: the main name, which resolves to the main version; the fallback names, each resolving to the same peer set and different from the main name; the fixed size; and the role's policy. The result is tagged with the peer set. |
| NetworkConfig.PeerSetsInfo | polkadot/node/network/protocol/src/peer_set.rs:212-228 | One configuration per peer set, in iteration order, each as `get_info` gives it. |
| TestVectors.TestGenesisEncoding | polkadot/node/network/protocol/src/peer_set.rs:474-485 | The tests' genesis hash encodes to `7ac8741de8b7146d8a5617fd462914557fe63c265a7f1c10e7dae32858eebb80`. |
| TestVectors.GeneratedNamesAreExpected | polkadot/node/network/protocol/src/peer_set.rs:473-518 | The four expected names: validation/3 and collation/5 without a fork id, and validation/7 and collation/11 with fork id `test-fork`. |
| TestVectors.LegacyValidationNameUnknown | polkadot/node/network/protocol/src/peer_set.rs:535-536 | `/polkadot/validation/1` resolves to `None` on every valid registry. |
| TestVectors.AllProtocolNamesAreKnown | polkadot/node/network/protocol/src/peer_set.rs:521-550 | On a registry for the tests' genesis hash without a fork id:<br>- the main validation name resolves to (Validation, 3);<br>- the genesis-derived collation version-1 name resolves to (Collation, 1);<br>- `/polkadot/collation/1` resolves to (Collation, 1);<br>- `/polkadot/validation/1` resolves to nothing. |

## Left out

- The backend calls inside `get_info` and `peer_sets_info` are not modelled: `N::notification_config`, `NotificationMetrics`, `PeerStoreProvider`, `NotificationService` and the `NetworkBackend` generics. They are foreign code. Only the values passed to the backend are modelled, and the returned notification service is reduced to the peer-set tag. The handshake argument, always `None`, is not represented.
- `MIN_GOSSIP_PEERS` is defined in the parent module. It is a parameter here, taken after its cast to `u32`, and it must satisfy `MIN_GOSSIP_PEERS / 2 >= 1` so that the unsigned subtraction does not underflow.
- `hex::encode` and `format!` are replaced by the model's own encoders in `Encoding`. The library code is not modelled.
- The panic message text of `insert_protocol_or_panic` is not modelled. The panic itself is the `collision` result.
- The `Debug`, `Clone` and `Default` derives are not modelled. The `PerPeerSet` constructor takes both values instead of defaulting them.
- `PerPeerSet.IndexMut`: the source returns a mutable reference. The model is one write through it; the reference itself and the aliasing it allows are not modelled.
- `PeerSetProtocolNames.GetName` and `GetMainName` require a supported version. The source's `expect` would panic for any other version.
- `ProtocolNames.PeerSetProtocolNames.RegisterPeerSet`, `RegisterValidationVersions` and `RegisterCollationVersions` are the body of the constructor's loop and the two arms of its `match`, written as methods of their own. This is the induction step of the constructor's loop; the behaviour is unchanged.
- `TestVectors.GeneratedNamesAreExpected` writes the expected names as `"/" + TestGenesisHex + suffix`, with the hexadecimal text spelled out in `TestGenesisHex`, rather than as single literals.
- `all_protocol_versions_are_registered` and `all_protocol_versions_have_labels` (lines 553-608) have no model of their own, because the contracts of `GetName` and `ProtocolLabel` state them for every supported version.
- `substrate/frame/nomination-pools/src/mock.rs` is not modelled. It is a test double whose state lives in runtime storage and whose behaviour is defined by the pools pallet, which is not part of this model.
- `substrate/frame/support/procedural/src/construct_runtime/expand/call.rs` is not modelled. It is procedural-macro code generation and has no runtime behaviour to state.
- `substrate/frame/contracts/mock-network/src/parachain/contracts_config.rs` is not modelled. It holds runtime type configuration only.
- `substrate/frame/system/src/extensions/mod.rs` is not modelled. It holds module declarations only.
- `substrate/frame/revive/rpc/examples/js/abi/Flipper.ts` is not modelled. It is a constant contract interface literal.
