/** Wire protocol names: how they are derived from the chain identity, and the
    registry `PeerSetProtocolNames` that maps them to (peer set, version) and
    back (polkadot/node/network/protocol/src/peer_set.rs). */
module ProtocolNames {
  import opened Wrappers
  import opened Encoding
  import opened ProtocolVersions
  import opened PeerSets

  /** A 32-byte genesis block hash. */
  type Hash = h: seq<u8> | |h| == 32 witness seq(32, _ => 0)

  type ProtocolName = string

  /** A (peer set, version) pair, the value side of the name table. */
  type Protocol = (PeerSet, ProtocolVersion)

  /** The legacy collation protocol name, which does not embed the chain identity. */
  const LegacyCollationProtocolV1: ProtocolName := "/polkadot/collation/1"

  /** The version the legacy collation name stands for. */
  const LegacyCollationProtocolVersionV1: u32 := 1

  const LegacyCollationProtocol: Protocol := (Collation, ProtocolVersion(LegacyCollationProtocolVersionV1))

  /** The chain-identity prefix of a name: a slash and the hexadecimal
      genesis hash, then a slash and the fork id when there is one. */
  function ChainPrefix(genesisHash: Hash, forkId: Option<string>): (p: string)
    ensures |p| >= 65 && p[0] == '/' && p[1..65] == Hex(genesisHash)
    ensures forkId.None? ==> |p| == 65
    ensures forkId.Some? ==> |p| == 66 + |forkId.value| && p[65] == '/' && p[66..] == forkId.value
  {
    match forkId
    case Some(id) => "/" + Hex(genesisHash) + "/" + id
    case None => "/" + Hex(genesisHash)
  }

  /** The protocol name of a peer set and version on the chain with the given
      genesis hash and fork id: the chain prefix, the peer set's short name
      and the decimal version, separated by slashes. It starts with a slash
      followed by a hexadecimal digit of the genesis hash. */
  function GenerateName(genesisHash: Hash, forkId: Option<string>, protocol: PeerSet, version: ProtocolVersion): (name: ProtocolName)
    ensures |name| > 1 && name[0] == '/' && IsHexDigit(name[1])
  {
    HexDigitsOnly(genesisHash);
    ChainPrefix(genesisHash, forkId) + "/" + Label(protocol) + "/" + Decimal(version.n as nat)
  }

  lemma DecimalHasNoSlash(n: nat)
    ensures '/' !in Decimal(n)
  {
    DecimalDigitsOnly(n);
  }

  /** The characters after the last slash of a string (all of it when it
      has no slash). */
  function LastSegment(s: string): string {
    if s == [] || s[|s| - 1] == '/' then [] else LastSegment(s[..|s| - 1]) + [s[|s| - 1]]
  }

  lemma {:induction false} LastSegmentAfterSlash(a: string, b: string)
    requires '/' !in b
    ensures LastSegment(a + "/" + b) == b
  {
    if b != [] {
      var s := a + "/" + b;
      assert s[..|s| - 1] == a + "/" + b[..|b| - 1];
      assert b[|b| - 1] in b;
      LastSegmentAfterSlash(a, b[..|b| - 1]);
    }
  }

  /** Two strings that each end with a slash followed by a slash-free segment
      are equal only when the segments and what precedes them are equal. */
  lemma SplitAtLastSlash(a: string, b: string, c: string, d: string)
    requires a + "/" + b == c + "/" + d
    requires '/' !in b && '/' !in d
    ensures a == c && b == d
  {
    var s := a + "/" + b;
    LastSegmentAfterSlash(a, b);
    LastSegmentAfterSlash(c, d);
    assert a == s[..|a|];
    assert c == (c + "/" + d)[..|c|];
  }

  /** The chain prefix determines the genesis hash and the fork id. */
  lemma ChainPrefixInjective(g1: Hash, f1: Option<string>, g2: Hash, f2: Option<string>)
    requires ChainPrefix(g1, f1) == ChainPrefix(g2, f2)
    ensures g1 == g2 && f1 == f2
  {
    var p1, p2 := ChainPrefix(g1, f1), ChainPrefix(g2, f2);
    assert p1[1..65] == Hex(g1);
    assert p2[1..65] == Hex(g2);
    HexInjective(g1, g2);
    if f1.Some? && f2.Some? {
      assert f1.value == p1[66..];
      assert f2.value == p2[66..];
    }
  }

  /** Name derivation is injective: a different genesis hash, fork id, peer
      set or version always gives a different name. */
  lemma GenerateNameInjective(
    g1: Hash, f1: Option<string>, ps1: PeerSet, v1: ProtocolVersion,
    g2: Hash, f2: Option<string>, ps2: PeerSet, v2: ProtocolVersion)
    requires GenerateName(g1, f1, ps1, v1) == GenerateName(g2, f2, ps2, v2)
    ensures g1 == g2 && f1 == f2 && ps1 == ps2 && v1 == v2
  {
    var c1, c2 := ChainPrefix(g1, f1), ChainPrefix(g2, f2);
    var d1, d2 := Decimal(v1.n as nat), Decimal(v2.n as nat);
    DecimalHasNoSlash(v1.n as nat);
    DecimalHasNoSlash(v2.n as nat);
    SplitAtLastSlash(c1 + "/" + Label(ps1), d1, c2 + "/" + Label(ps2), d2);
    SplitAtLastSlash(c1, Label(ps1), c2, Label(ps2));
    ChainPrefixInjective(g1, f1, g2, f2);
    DecimalInjective(v1.n as nat, v2.n as nat);
  }

  /** A generated name continues its leading slash with a hexadecimal digit,
      so a name whose second character is not one is never generated. */
  lemma NotHexAfterSlashNotGenerated(name: ProtocolName, genesisHash: Hash, forkId: Option<string>, protocol: PeerSet, version: ProtocolVersion)
    requires |name| > 1 && !IsHexDigit(name[1])
    ensures GenerateName(genesisHash, forkId, protocol, version) != name
  {
    var generated := GenerateName(genesisHash, forkId, protocol, version);
    HexDigitsOnly(genesisHash);
    assert generated[1] == Hex(genesisHash)[0];
  }

  /** No generated name is the legacy name: its slash is followed by 'p'. */
  lemma LegacyNameNotGenerated(genesisHash: Hash, forkId: Option<string>, protocol: PeerSet, version: ProtocolVersion)
    ensures GenerateName(genesisHash, forkId, protocol, version) != LegacyCollationProtocolV1
  {
    NotHexAfterSlashNotGenerated(LegacyCollationProtocolV1, genesisHash, forkId, protocol, version);
  }

  /** The registry tables hold only what registration puts there: every
      (peer set, version) key of `names` is supported and holds its generated
      name, that name maps back to it in `protocols`, and every other key of
      `protocols` is the legacy name, once that has been registered. */
  ghost predicate Registered(
    protocols: map<ProtocolName, Protocol>, names: map<Protocol, ProtocolName>,
    genesisHash: Hash, forkId: Option<string>, legacy: bool)
  {
    && (forall p | p in names :: p.1 in SupportedVersions(p.0) && names[p] == GenerateName(genesisHash, forkId, p.0, p.1))
    && (forall p | p in names :: names[p] in protocols && protocols[names[p]] == p)
    && (forall n | n in protocols ::
          || (legacy && n == LegacyCollationProtocolV1)
          || (protocols[n] in names && n == GenerateName(genesisHash, forkId, protocols[n].0, protocols[n].1)))
    && (legacy ==> LegacyCollationProtocolV1 in protocols && protocols[LegacyCollationProtocolV1] == LegacyCollationProtocol)
  }

  /** Registering the generated name of a supported pair that is not yet
      registered cannot panic and keeps the tables consistent. */
  lemma RegisterMainKeepsRegistered(
    protocols: map<ProtocolName, Protocol>, names: map<Protocol, ProtocolName>,
    genesisHash: Hash, forkId: Option<string>, legacy: bool, protocol: PeerSet, version: ProtocolVersion)
    requires Registered(protocols, names, genesisHash, forkId, legacy)
    requires version in SupportedVersions(protocol) && (protocol, version) !in names
    ensures GenerateName(genesisHash, forkId, protocol, version) !in protocols
    ensures var name := GenerateName(genesisHash, forkId, protocol, version);
      Registered(protocols[name := (protocol, version)], names[(protocol, version) := name], genesisHash, forkId, legacy)
  {
    var name := GenerateName(genesisHash, forkId, protocol, version);
    GeneratedNameIsFree(protocols, names, genesisHash, forkId, legacy, protocol, version);
    var protocols', names' := protocols[name := (protocol, version)], names[(protocol, version) := name];
    forall p | p in names' ensures p.1 in SupportedVersions(p.0) && names'[p] == GenerateName(genesisHash, forkId, p.0, p.1) {
    }
    RegisterMainKeepsPairsResolved(protocols, names, genesisHash, forkId, protocol, version);
    RegisterMainKeepsNamesGenerated(protocols, names, genesisHash, forkId, legacy, protocol, version);
    LegacyNameNotGenerated(genesisHash, forkId, protocol, version);
  }

  /** After registering a pair whose name was free, every registered pair's
      name still maps back to that pair. */
  lemma RegisterMainKeepsPairsResolved(
    protocols: map<ProtocolName, Protocol>, names: map<Protocol, ProtocolName>,
    genesisHash: Hash, forkId: Option<string>, protocol: PeerSet, version: ProtocolVersion)
    requires forall p | p in names :: names[p] in protocols && protocols[names[p]] == p
    requires GenerateName(genesisHash, forkId, protocol, version) !in protocols
    ensures var name := GenerateName(genesisHash, forkId, protocol, version);
      var protocols', names' := protocols[name := (protocol, version)], names[(protocol, version) := name];
      forall p | p in names' :: names'[p] in protocols' && protocols'[names'[p]] == p
  {
    var name := GenerateName(genesisHash, forkId, protocol, version);
    var protocols', names' := protocols[name := (protocol, version)], names[(protocol, version) := name];
    forall p | p in names' ensures names'[p] in protocols' && protocols'[names'[p]] == p {
      if p != (protocol, version) {
        assert names[p] in protocols;
      }
    }
  }

  /** After registering a pair, every name in the name table is still the
      legacy name or the generated name of a registered pair. */
  lemma RegisterMainKeepsNamesGenerated(
    protocols: map<ProtocolName, Protocol>, names: map<Protocol, ProtocolName>,
    genesisHash: Hash, forkId: Option<string>, legacy: bool, protocol: PeerSet, version: ProtocolVersion)
    requires forall n | n in protocols ::
          || (legacy && n == LegacyCollationProtocolV1)
          || (protocols[n] in names && n == GenerateName(genesisHash, forkId, protocols[n].0, protocols[n].1))
    ensures var name := GenerateName(genesisHash, forkId, protocol, version);
      var protocols', names' := protocols[name := (protocol, version)], names[(protocol, version) := name];
      forall n | n in protocols' ::
          || (legacy && n == LegacyCollationProtocolV1)
          || (protocols'[n] in names' && n == GenerateName(genesisHash, forkId, protocols'[n].0, protocols'[n].1))
  {
    var name := GenerateName(genesisHash, forkId, protocol, version);
    var protocols', names' := protocols[name := (protocol, version)], names[(protocol, version) := name];
    forall n | n in protocols'
      ensures || (legacy && n == LegacyCollationProtocolV1)
              || (protocols'[n] in names' && n == GenerateName(genesisHash, forkId, protocols'[n].0, protocols'[n].1))
    {
      if n != name {
        assert n in protocols;
      }
    }
  }

  /** The generated name of a supported pair that is not yet registered is
      not yet in the name table. */
  lemma GeneratedNameIsFree(
    protocols: map<ProtocolName, Protocol>, names: map<Protocol, ProtocolName>,
    genesisHash: Hash, forkId: Option<string>, legacy: bool, protocol: PeerSet, version: ProtocolVersion)
    requires Registered(protocols, names, genesisHash, forkId, legacy)
    requires (protocol, version) !in names
    ensures GenerateName(genesisHash, forkId, protocol, version) !in protocols
  {
    var name := GenerateName(genesisHash, forkId, protocol, version);
    LegacyNameNotGenerated(genesisHash, forkId, protocol, version);
    if name in protocols {
      var p := protocols[name];
      GenerateNameInjective(genesisHash, forkId, p.0, p.1, genesisHash, forkId, protocol, version);
    }
  }

  /** Before the legacy name is registered it is free, and registering it
      keeps the tables consistent. */
  lemma RegisterLegacyKeepsRegistered(
    protocols: map<ProtocolName, Protocol>, names: map<Protocol, ProtocolName>,
    genesisHash: Hash, forkId: Option<string>)
    requires Registered(protocols, names, genesisHash, forkId, false)
    ensures LegacyCollationProtocolV1 !in protocols
    ensures Registered(protocols[LegacyCollationProtocolV1 := LegacyCollationProtocol], names, genesisHash, forkId, true)
  {
    if LegacyCollationProtocolV1 in protocols {
      var p := protocols[LegacyCollationProtocolV1];
      LegacyNameNotGenerated(genesisHash, forkId, p.0, p.1);
    }
  }

  /** The (peer set, version) pairs of one peer set, in enumeration order. */
  function PairsOf(ps: PeerSet): (pairs: seq<Protocol>)
    ensures |pairs| == |SupportedVersions(ps)|
    ensures forall k :: 0 <= k < |pairs| ==> pairs[k] == (ps, SupportedVersions(ps)[k])
  {
    seq(|SupportedVersions(ps)|, k requires 0 <= k < |SupportedVersions(ps)| => (ps, SupportedVersions(ps)[k]))
  }

  /** The pairs the constructor registers for the given peer sets, in its
      order: peer set by peer set, each in enumeration order. */
  function Registrations(pss: seq<PeerSet>): seq<Protocol> {
    if pss == [] then [] else Registrations(pss[..|pss| - 1]) + PairsOf(pss[|pss| - 1])
  }

  /** The pair-to-name table after registering the given pairs in order. */
  function NamesTable(genesisHash: Hash, forkId: Option<string>, pairs: seq<Protocol>): map<Protocol, ProtocolName> {
    if pairs == [] then map[]
    else
      var p := pairs[|pairs| - 1];
      NamesTable(genesisHash, forkId, pairs[..|pairs| - 1])[p := GenerateName(genesisHash, forkId, p.0, p.1)]
  }

  /** The name-to-pair table after registering the given pairs in order,
      when no registration collides. */
  function ProtocolsTable(genesisHash: Hash, forkId: Option<string>, pairs: seq<Protocol>): map<ProtocolName, Protocol> {
    if pairs == [] then map[]
    else
      var p := pairs[|pairs| - 1];
      ProtocolsTable(genesisHash, forkId, pairs[..|pairs| - 1])[GenerateName(genesisHash, forkId, p.0, p.1) := p]
  }

  /** The generated name of a pair not yet registered is not yet a key. */
  lemma {:induction false} GeneratedNameFresh(genesisHash: Hash, forkId: Option<string>, pairs: seq<Protocol>, p: Protocol)
    requires p !in pairs
    ensures GenerateName(genesisHash, forkId, p.0, p.1) !in ProtocolsTable(genesisHash, forkId, pairs)
  {
    if pairs != [] {
      var init, q := pairs[..|pairs| - 1], pairs[|pairs| - 1];
      assert pairs == init + [q];
      GeneratedNameFresh(genesisHash, forkId, init, p);
      if GenerateName(genesisHash, forkId, p.0, p.1) == GenerateName(genesisHash, forkId, q.0, q.1) {
        GenerateNameInjective(genesisHash, forkId, p.0, p.1, genesisHash, forkId, q.0, q.1);
      }
    }
  }

  /** The legacy name is never a key of the generated part of the table. */
  lemma {:induction false} LegacyNameFresh(genesisHash: Hash, forkId: Option<string>, pairs: seq<Protocol>)
    ensures LegacyCollationProtocolV1 !in ProtocolsTable(genesisHash, forkId, pairs)
  {
    if pairs != [] {
      var q := pairs[|pairs| - 1];
      LegacyNameFresh(genesisHash, forkId, pairs[..|pairs| - 1]);
      LegacyNameNotGenerated(genesisHash, forkId, q.0, q.1);
    }
  }

  /** The name-to-pair table with the legacy entry added once it has been
      registered. */
  function WithLegacy(protocols: map<ProtocolName, Protocol>, legacy: bool): map<ProtocolName, Protocol> {
    if legacy then protocols[LegacyCollationProtocolV1 := LegacyCollationProtocol] else protocols
  }

  /** Registering one more pair extends both tables by its entry. */
  lemma TablesSnoc(genesisHash: Hash, forkId: Option<string>, pairs: seq<Protocol>, p: Protocol)
    ensures NamesTable(genesisHash, forkId, pairs + [p])
      == NamesTable(genesisHash, forkId, pairs)[p := GenerateName(genesisHash, forkId, p.0, p.1)]
    ensures ProtocolsTable(genesisHash, forkId, pairs + [p])
      == ProtocolsTable(genesisHash, forkId, pairs)[GenerateName(genesisHash, forkId, p.0, p.1) := p]
  {
    assert (pairs + [p])[..|pairs|] == pairs;
  }

  /** The keys of the pair-to-name table are the registered pairs. */
  lemma {:induction false} NamesTableKeys(genesisHash: Hash, forkId: Option<string>, pairs: seq<Protocol>, p: Protocol)
    ensures p in NamesTable(genesisHash, forkId, pairs) <==> p in pairs
  {
    if pairs != [] {
      var init := pairs[..|pairs| - 1];
      assert pairs == init + [pairs[|pairs| - 1]];
      NamesTableKeys(genesisHash, forkId, init, p);
    }
  }

  /** Registering distinct supported pairs in any order gives consistent
      tables without a collision. */
  lemma {:induction false} TablesRegistered(genesisHash: Hash, forkId: Option<string>, pairs: seq<Protocol>)
    requires forall k :: 0 <= k < |pairs| ==> pairs[k].1 in SupportedVersions(pairs[k].0)
    requires forall k, l :: 0 <= k < l < |pairs| ==> pairs[k] != pairs[l]
    ensures Registered(ProtocolsTable(genesisHash, forkId, pairs), NamesTable(genesisHash, forkId, pairs), genesisHash, forkId, false)
  {
    if pairs != [] {
      var init, p := pairs[..|pairs| - 1], pairs[|pairs| - 1];
      assert pairs == init + [p];
      TablesRegistered(genesisHash, forkId, init);
      TablesSnoc(genesisHash, forkId, init, p);
      NamesTableKeys(genesisHash, forkId, init, p);
      RegisterMainKeepsRegistered(
        ProtocolsTable(genesisHash, forkId, init), NamesTable(genesisHash, forkId, init),
        genesisHash, forkId, false, p.0, p.1);
    }
  }

  /** The registrations of peer sets that do not include `ps` hold no pair of `ps`. */
  lemma {:induction false} RegistrationsOfOthers(pss: seq<PeerSet>, ps: PeerSet, v: ProtocolVersion)
    requires ps !in pss
    ensures (ps, v) !in Registrations(pss)
  {
    if pss != [] {
      assert pss[|pss| - 1] in pss;
      assert pss[..|pss| - 1] <= pss;
      RegistrationsOfOthers(pss[..|pss| - 1], ps, v);
    }
  }

  /** A registration order that lists every supported pair exactly once. */
  ghost predicate CompleteRegistration(pairs: seq<Protocol>) {
    && (forall k :: 0 <= k < |pairs| ==> pairs[k].1 in SupportedVersions(pairs[k].0))
    && (forall k, l :: 0 <= k < l < |pairs| ==> pairs[k] != pairs[l])
    && (forall ps, v :: v in SupportedVersions(ps) ==> (ps, v) in pairs)
  }

  /** What the constructor registers: every supported pair, each once. */
  lemma AllRegistrations()
    ensures Registrations(AllPeerSets) == PairsOf(Validation) + PairsOf(Collation)
    ensures CompleteRegistration(Registrations(AllPeerSets))
  {
    assert AllPeerSets[..1] == [Validation];
    assert [Validation][..0] == [];
    var r := Registrations(AllPeerSets);
    assert r == [(Validation, ValidationToProtocol(V3)), (Collation, CollationToProtocol(V1)), (Collation, CollationToProtocol(V2))];
    forall ps, v | v in SupportedVersions(ps) ensures (ps, v) in r {
      if ps == Validation {
        assert r[0] == (ps, v);
      } else if v == CollationToProtocol(V1) {
        assert r[1] == (ps, v);
      } else {
        assert r[2] == (ps, v);
      }
    }
  }

  /** One round of the constructor's outer loop adds the pairs of one more
      peer set, which has not been seen before; the legacy entry is added in
      the collation round. */
  lemma PeerSetStep(i: nat)
    requires i < |AllPeerSets|
    ensures Registrations(AllPeerSets[..i + 1]) == Registrations(AllPeerSets[..i]) + PairsOf(AllPeerSets[i])
    ensures AllPeerSets[i] !in AllPeerSets[..i]
    ensures (Collation in AllPeerSets[..i + 1]) == (AllPeerSets[i] == Collation)
    ensures Collation !in AllPeerSets[..i]
  {
    assert AllPeerSets[..i + 1][..i] == AllPeerSets[..i];
    assert AllPeerSets[..1] == [Validation];
  }

  /** One round of an inner loop registers the next version of `ps`, whose
      generated name is still free. */
  lemma VersionStep(genesisHash: Hash, forkId: Option<string>, pss: seq<PeerSet>, ps: PeerSet, j: nat, version: ProtocolVersion)
    requires ps !in pss && j < |SupportedVersions(ps)| && version == SupportedVersions(ps)[j]
    ensures var pairs := Registrations(pss) + PairsOf(ps)[..j];
      && Registrations(pss) + PairsOf(ps)[..j + 1] == pairs + [(ps, version)]
      && GenerateName(genesisHash, forkId, ps, version) !in ProtocolsTable(genesisHash, forkId, pairs)
      && NamesTable(genesisHash, forkId, pairs + [(ps, version)]) == NamesTable(genesisHash, forkId, pairs)[(ps, version) := GenerateName(genesisHash, forkId, ps, version)]
      && ProtocolsTable(genesisHash, forkId, pairs + [(ps, version)]) == ProtocolsTable(genesisHash, forkId, pairs)[GenerateName(genesisHash, forkId, ps, version) := (ps, version)]
  {
    var pairs, p := Registrations(pss) + PairsOf(ps)[..j], (ps, version);
    assert PairsOf(ps)[j] == p;
    assert Registrations(pss) + PairsOf(ps)[..j + 1] == pairs + [p];
    RegistrationsOfOthers(pss, ps, version);
    SupportedVersionsAreEnumerations(ps, version);
    assert p !in PairsOf(ps)[..j];
    GeneratedNameFresh(genesisHash, forkId, pairs, p);
    TablesSnoc(genesisHash, forkId, pairs, p);
  }

  /** Registering every supported pair once, then the legacy name, gives
      tables that satisfy the registry invariant. */
  lemma TablesValid(genesisHash: Hash, forkId: Option<string>, pairs: seq<Protocol>)
    requires CompleteRegistration(pairs)
    ensures Registered(WithLegacy(ProtocolsTable(genesisHash, forkId, pairs), true), NamesTable(genesisHash, forkId, pairs), genesisHash, forkId, true)
    ensures forall ps, v :: v in SupportedVersions(ps) ==> (ps, v) in NamesTable(genesisHash, forkId, pairs)
  {
    TablesRegistered(genesisHash, forkId, pairs);
    var protocols := ProtocolsTable(genesisHash, forkId, pairs);
    RegisterLegacyKeepsRegistered(protocols, NamesTable(genesisHash, forkId, pairs), genesisHash, forkId);
    forall ps, v | v in SupportedVersions(ps) ensures (ps, v) in NamesTable(genesisHash, forkId, pairs) {
      NamesTableKeys(genesisHash, forkId, pairs, (ps, v));
    }
  }

  /** The tables after the first `i` rounds of the constructor's loop: the
      pairs of those peer sets registered in order, and the legacy name once
      collation is among them. */
  ghost predicate RegisteredUpTo(
    protocols: map<ProtocolName, Protocol>, names: map<Protocol, ProtocolName>,
    genesisHash: Hash, forkId: Option<string>, i: nat)
    requires i <= |AllPeerSets|
  {
    && names == NamesTable(genesisHash, forkId, Registrations(AllPeerSets[..i]))
    && protocols == WithLegacy(ProtocolsTable(genesisHash, forkId, Registrations(AllPeerSets[..i])), Collation in AllPeerSets[..i])
  }

  /** The tables the constructor's loop leaves behind satisfy the registry
      invariant and hold every supported pair. */
  lemma ConstructedTablesValid(
    genesisHash: Hash, forkId: Option<string>,
    protocols: map<ProtocolName, Protocol>, names: map<Protocol, ProtocolName>)
    requires RegisteredUpTo(protocols, names, genesisHash, forkId, |AllPeerSets|)
    ensures Registered(protocols, names, genesisHash, forkId, true)
    ensures forall ps, v :: v in SupportedVersions(ps) ==> (ps, v) in names
  {
    assert AllPeerSets[..|AllPeerSets|] == AllPeerSets;
    assert AllPeerSets[1] == Collation;
    AllRegistrations();
    TablesValid(genesisHash, forkId, Registrations(AllPeerSets));
  }

  /** In tables that hold every supported pair, a name maps to a pair exactly
      when it is the generated name of that supported pair, or the legacy
      name and the pair is collation version 1. */
  lemma LookupExact(
    protocols: map<ProtocolName, Protocol>, names: map<Protocol, ProtocolName>,
    genesisHash: Hash, forkId: Option<string>, name: ProtocolName)
    ensures
      && Registered(protocols, names, genesisHash, forkId, true)
      && (forall ps, v :: v in SupportedVersions(ps) ==> (ps, v) in names)
      ==> forall ps, v ::
        (name in protocols && protocols[name] == (ps, v)) <==>
          || (v in SupportedVersions(ps) && name == GenerateName(genesisHash, forkId, ps, v))
          || (name == LegacyCollationProtocolV1 && (ps, v) == LegacyCollationProtocol)
  {
    if && Registered(protocols, names, genesisHash, forkId, true)
       && (forall ps, v :: v in SupportedVersions(ps) ==> (ps, v) in names)
    {
      forall ps, v
        ensures (name in protocols && protocols[name] == (ps, v)) <==>
          || (v in SupportedVersions(ps) && name == GenerateName(genesisHash, forkId, ps, v))
          || (name == LegacyCollationProtocolV1 && (ps, v) == LegacyCollationProtocol)
      {
        LegacyNameNotGenerated(genesisHash, forkId, ps, v);
        if name in protocols && protocols[name] == (ps, v) && name != LegacyCollationProtocolV1 {
          assert (ps, v) in names;
        }
        if v in SupportedVersions(ps) && name == GenerateName(genesisHash, forkId, ps, v) {
          assert names[(ps, v)] == name;
        }
      }
    }
  }

  /** On-the-wire protocol name to peer set mapping, and back. Built once by
      the constructor and only read afterwards. */
  class PeerSetProtocolNames {
    var protocols: map<ProtocolName, Protocol>
    var names: map<Protocol, ProtocolName>
    const genesisHash: Hash
    const forkId: Option<string>

    /** The state after construction: everything registered, every supported
        version of every peer set present. */
    ghost predicate Valid()
      reads this
    {
      && Registered(protocols, names, genesisHash, forkId, true)
      && forall ps, v :: v in SupportedVersions(ps) ==> (ps, v) in names
    }

    /** Registers, in iteration order, the main name of every version of every
        peer set, and after the collation versions the legacy collation name.
        No registration ever finds its name already taken. */
    constructor (genesisHash: Hash, forkId: Option<string>)
      ensures this.genesisHash == genesisHash && this.forkId == forkId
      ensures Valid()
    {
      var protocols: map<ProtocolName, Protocol> := map[];
      var names: map<Protocol, ProtocolName> := map[];
      assert AllPeerSets[..0] == [];
      for i := 0 to |AllPeerSets|
        invariant RegisteredUpTo(protocols, names, genesisHash, forkId, i)
      {
        protocols, names := RegisterPeerSet(protocols, names, genesisHash, forkId, i);
      }
      this.protocols := protocols;
      this.names := names;
      this.genesisHash := genesisHash;
      this.forkId := forkId;
      new;
      ConstructedTablesValid(this.genesisHash, this.forkId, this.protocols, this.names);
    }

    /** One round of the constructor's loop, the `match` on the `i`-th peer
        set: its versions are registered after those of the peer sets before
        it, and for collation the legacy name after them; nothing collides. */
    static method RegisterPeerSet(
      protocols: map<ProtocolName, Protocol>, names: map<Protocol, ProtocolName>,
      genesisHash: Hash, forkId: Option<string>, i: nat)
      returns (protocols': map<ProtocolName, Protocol>, names': map<Protocol, ProtocolName>)
      requires i < |AllPeerSets|
      requires RegisteredUpTo(protocols, names, genesisHash, forkId, i)
      ensures RegisteredUpTo(protocols', names', genesisHash, forkId, i + 1)
    {
      var protocol := AllPeerSets[i];
      ghost var before := Registrations(AllPeerSets[..i]);
      PeerSetStep(i);
      match protocol {
        case Validation =>
          protocols', names' := RegisterValidationVersions(protocols, names, genesisHash, forkId, AllPeerSets[..i]);
        case Collation =>
          protocols', names' := RegisterCollationVersions(protocols, names, genesisHash, forkId, AllPeerSets[..i]);
          LegacyNameFresh(genesisHash, forkId, before + PairsOf(protocol));
          var collision;
          protocols', collision := RegisterLegacyCollationProtocol(protocols', protocol);
          assert !collision;
      }
    }

    /** The validation arm of the constructor's loop: registers every
        validation version in enumeration order after the pairs of the peer
        sets `done`, none of which is validation; no registration collides. */
    static method RegisterValidationVersions(
      protocols: map<ProtocolName, Protocol>, names: map<Protocol, ProtocolName>,
      genesisHash: Hash, forkId: Option<string>, ghost done: seq<PeerSet>)
      returns (protocols': map<ProtocolName, Protocol>, names': map<Protocol, ProtocolName>)
      requires Validation !in done
      requires names == NamesTable(genesisHash, forkId, Registrations(done))
      requires protocols == ProtocolsTable(genesisHash, forkId, Registrations(done))
      ensures names' == NamesTable(genesisHash, forkId, Registrations(done) + PairsOf(Validation))
      ensures protocols' == ProtocolsTable(genesisHash, forkId, Registrations(done) + PairsOf(Validation))
    {
      protocols', names' := protocols, names;
      ghost var before := Registrations(done);
      SupportedVersionsInOrder();
      assert before + PairsOf(Validation)[..0] == before;
      for j := 0 to |ValidationVersions|
        invariant names' == NamesTable(genesisHash, forkId, before + PairsOf(Validation)[..j])
        invariant protocols' == ProtocolsTable(genesisHash, forkId, before + PairsOf(Validation)[..j])
      {
        var version := ValidationToProtocol(ValidationVersions[j]);
        VersionStep(genesisHash, forkId, done, Validation, j, version);
        var collision;
        protocols', names', collision := RegisterMainProtocol(protocols', names', Validation, version, genesisHash, forkId);
        assert !collision;
      }
      assert PairsOf(Validation)[..|ValidationVersions|] == PairsOf(Validation);
    }

    /** The collation arm of the constructor's loop, before the legacy name:
        registers every collation version in enumeration order after the
        pairs of the peer sets `done`, none of which is collation; no
        registration collides. */
    static method RegisterCollationVersions(
      protocols: map<ProtocolName, Protocol>, names: map<Protocol, ProtocolName>,
      genesisHash: Hash, forkId: Option<string>, ghost done: seq<PeerSet>)
      returns (protocols': map<ProtocolName, Protocol>, names': map<Protocol, ProtocolName>)
      requires Collation !in done
      requires names == NamesTable(genesisHash, forkId, Registrations(done))
      requires protocols == ProtocolsTable(genesisHash, forkId, Registrations(done))
      ensures names' == NamesTable(genesisHash, forkId, Registrations(done) + PairsOf(Collation))
      ensures protocols' == ProtocolsTable(genesisHash, forkId, Registrations(done) + PairsOf(Collation))
    {
      protocols', names' := protocols, names;
      ghost var before := Registrations(done);
      SupportedVersionsInOrder();
      assert before + PairsOf(Collation)[..0] == before;
      for j := 0 to |CollationVersions|
        invariant names' == NamesTable(genesisHash, forkId, before + PairsOf(Collation)[..j])
        invariant protocols' == ProtocolsTable(genesisHash, forkId, before + PairsOf(Collation)[..j])
      {
        var version := CollationToProtocol(CollationVersions[j]);
        VersionStep(genesisHash, forkId, done, Collation, j, version);
        var collision;
        protocols', names', collision := RegisterMainProtocol(protocols', names', Collation, version, genesisHash, forkId);
        assert !collision;
      }
      assert PairsOf(Collation)[..|CollationVersions|] == PairsOf(Collation);
    }

    /** Registers the generated name of one (peer set, version) in both
        tables. The pair-to-name table is written first; `collision` is the
        duplicate-name panic, after which the name-to-pair table is unchanged. */
    static method RegisterMainProtocol(
      protocols: map<ProtocolName, Protocol>, names: map<Protocol, ProtocolName>,
      protocol: PeerSet, version: ProtocolVersion, genesisHash: Hash, forkId: Option<string>)
      returns (protocols': map<ProtocolName, Protocol>, names': map<Protocol, ProtocolName>, collision: bool)
      ensures names' == names[(protocol, version) := GenerateName(genesisHash, forkId, protocol, version)]
      ensures collision <==> GenerateName(genesisHash, forkId, protocol, version) in protocols
      ensures protocols' == if collision then protocols
                            else protocols[GenerateName(genesisHash, forkId, protocol, version) := (protocol, version)]
    {
      var protocolName := GenerateName(genesisHash, forkId, protocol, version);
      names' := names[(protocol, version) := protocolName];
      protocols', collision := InsertProtocolOrPanic(protocols, protocolName, protocol, version);
    }

    /** Registers the legacy collation name in the name-to-pair table only,
        for collation version 1. */
    static method RegisterLegacyCollationProtocol(protocols: map<ProtocolName, Protocol>, protocol: PeerSet)
      returns (protocols': map<ProtocolName, Protocol>, collision: bool)
      ensures collision <==> LegacyCollationProtocolV1 in protocols
      ensures protocols' == if collision then protocols
                            else protocols[LegacyCollationProtocolV1 := (protocol, ProtocolVersion(LegacyCollationProtocolVersionV1))]
    {
      protocols', collision := InsertProtocolOrPanic(
        protocols, LegacyCollationProtocolV1, protocol, ProtocolVersion(LegacyCollationProtocolVersionV1));
    }

    /** Inserts a name when it is absent. A name already present is the
        duplicate-name panic: `collision` is set and nothing is inserted. */
    static method InsertProtocolOrPanic(
      protocols: map<ProtocolName, Protocol>, name: ProtocolName, protocol: PeerSet, version: ProtocolVersion)
      returns (protocols': map<ProtocolName, Protocol>, collision: bool)
      ensures collision <==> name in protocols
      ensures protocols' == if collision then protocols else protocols[name := (protocol, version)]
    {
      if name in protocols {
        protocols', collision := protocols, true;
      } else {
        protocols', collision := protocols[name := (protocol, version)], false;
      }
    }

    /** Looks a protocol up by its on-the-wire name. On a constructed
        registry a name resolves to a pair exactly when it is the generated
        name of that supported pair, or the legacy name and the pair is
        collation version 1; every other name is `None`. */
    function TryGetProtocol(name: ProtocolName): (r: Option<Protocol>)
      reads this
      ensures Valid() ==> forall ps, v ::
        r == Some((ps, v)) <==>
          || (v in SupportedVersions(ps) && name == GenerateName(genesisHash, forkId, ps, v))
          || (name == LegacyCollationProtocolV1 && (ps, v) == LegacyCollationProtocol)
    {
      LookupExact(protocols, names, genesisHash, forkId, name);
      if name in protocols then Some(protocols[name]) else None
    }

    /** The name of a supported version of a peer set: the generated name,
        which resolves back to that peer set and version. */
    function GetName(protocol: PeerSet, version: ProtocolVersion): (name: ProtocolName)
      reads this
      requires Valid() && version in SupportedVersions(protocol)
      ensures name == GenerateName(genesisHash, forkId, protocol, version)
      ensures TryGetProtocol(name) == Some((protocol, version))
    {
      names[(protocol, version)]
    }

    /** The main name of a peer set: the name of its main version. */
    function GetMainName(protocol: PeerSet): (name: ProtocolName)
      reads this
      requires Valid()
      ensures name == GenerateName(genesisHash, forkId, protocol, MainVersion(protocol))
      ensures TryGetProtocol(name) == Some((protocol, MainVersion(protocol)))
    {
      GetName(protocol, MainVersion(protocol))
    }

    /** The fallback names of a peer set: none for validation, the legacy name
        for collation. The chain identity is not used. No fallback name
        coincides with a generated name. */
    static method GetFallbackNames(protocol: PeerSet, genesisHash: Hash, forkId: Option<string>) returns (fallbacks: seq<ProtocolName>)
      ensures protocol == Validation ==> fallbacks == []
      ensures protocol == Collation ==> fallbacks == [LegacyCollationProtocolV1]
      ensures forall i, g, f, ps, v :: 0 <= i < |fallbacks| ==> fallbacks[i] != GenerateName(g, f, ps, v)
    {
      fallbacks := [];
      match protocol {
        case Validation =>
        case Collation =>
          fallbacks := fallbacks + [LegacyCollationProtocolV1];
      }
      forall i, g, f, ps, v | 0 <= i < |fallbacks| ensures fallbacks[i] != GenerateName(g, f, ps, v) {
        LegacyNameNotGenerated(g, f, ps, v);
      }
    }
  }

  /** Every name that resolves is either the generated name of a supported
      version of the peer set it resolves to, or the legacy name resolving to
      collation version 1. */
  lemma ResolvedNamesAreRegistered(r: PeerSetProtocolNames, name: ProtocolName)
    requires r.Valid() && r.TryGetProtocol(name).Some?
    ensures var p := r.TryGetProtocol(name).value;
      || (p.1 in SupportedVersions(p.0) && name == r.GetName(p.0, p.1))
      || (name == LegacyCollationProtocolV1 && p == LegacyCollationProtocol)
  {
  }

  /** A name that is neither a generated name of the registry's chain nor the
      legacy name resolves to nothing. */
  lemma UnknownNamesResolveToNone(r: PeerSetProtocolNames, name: ProtocolName)
    requires r.Valid()
    requires name != LegacyCollationProtocolV1
    requires forall ps, v :: name != GenerateName(r.genesisHash, r.forkId, ps, v)
    ensures r.TryGetProtocol(name) == None
  {
  }

  /** The legacy name resolves to collation version 1, while the pair-to-name
      table keeps the generated name for that pair. */
  lemma LegacyNameResolves(r: PeerSetProtocolNames)
    requires r.Valid()
    ensures r.TryGetProtocol(LegacyCollationProtocolV1) == Some((Collation, CollationToProtocol(V1)))
    ensures r.GetName(Collation, CollationToProtocol(V1)) != LegacyCollationProtocolV1
  {
    LegacyNameNotGenerated(r.genesisHash, r.forkId, Collation, CollationToProtocol(V1));
  }

  /** Distinct supported (peer set, version) pairs have distinct names, so the
      two tables are inverse to each other. */
  lemma GetNameInjective(r: PeerSetProtocolNames, ps1: PeerSet, v1: ProtocolVersion, ps2: PeerSet, v2: ProtocolVersion)
    requires r.Valid() && v1 in SupportedVersions(ps1) && v2 in SupportedVersions(ps2)
    requires r.GetName(ps1, v1) == r.GetName(ps2, v2)
    ensures ps1 == ps2 && v1 == v2
  {
    GenerateNameInjective(r.genesisHash, r.forkId, ps1, v1, r.genesisHash, r.forkId, ps2, v2);
  }
}
