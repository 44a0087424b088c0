/** The peer sets, the node role, the per-peer-set version tables and metrics
    labels, and the two-slot container keyed by peer set
    (polkadot/node/network/protocol/src/peer_set.rs). */
module PeerSets {
  import opened Wrappers
  import opened ProtocolVersions
  import Encoding

  /** An unsigned 64-bit integer. */
  newtype u64 = x: int | 0 <= x < 0x1_0000_0000_0000_0000

  /** The peer sets, and thus the protocols, used on the network. */
  datatype PeerSet = Validation | Collation

  /** Whether the local node is an authority. */
  datatype IsAuthority = Yes | No

  /** The peer sets in declaration order, as the derived iterator yields them. */
  const AllPeerSets: seq<PeerSet> := [Validation, Collation]

  /** Maximum notification size, the same on every peer set. */
  const MaxNotificationSize: u64 := 100 * 1024

  /** The versions a peer set supports: its enumeration, in order, converted
      to protocol versions. */
  function SupportedVersions(ps: PeerSet): seq<ProtocolVersion> {
    match ps
    case Validation => [ValidationToProtocol(V3)]
    case Collation => [CollationToProtocol(V1), CollationToProtocol(V2)]
  }

  /** The supported version tables are exactly the enumerations, converted. */
  lemma SupportedVersionsAreEnumerations(ps: PeerSet, p: ProtocolVersion)
    ensures ps == Validation ==> (p in SupportedVersions(ps) <==> exists v: ValidationVersion :: ValidationToProtocol(v) == p)
    ensures ps == Collation ==> (p in SupportedVersions(ps) <==> exists v: CollationVersion :: CollationToProtocol(v) == p)
    ensures forall i, j :: 0 <= i < j < |SupportedVersions(ps)| ==> SupportedVersions(ps)[i] != SupportedVersions(ps)[j]
  {
    if ps == Collation && p in SupportedVersions(ps) {
      if p == CollationToProtocol(V1) {
        assert CollationToProtocol(V1) == p;
      } else {
        assert CollationToProtocol(V2) == p;
      }
    }
    if ps == Validation && p in SupportedVersions(ps) {
      assert ValidationToProtocol(V3) == p;
    }
  }

  /** The supported version tables list the enumerations in their order. */
  lemma SupportedVersionsInOrder()
    ensures |SupportedVersions(Validation)| == |ValidationVersions|
    ensures forall j :: 0 <= j < |ValidationVersions| ==> SupportedVersions(Validation)[j] == ValidationToProtocol(ValidationVersions[j])
    ensures |SupportedVersions(Collation)| == |CollationVersions|
    ensures forall j :: 0 <= j < |CollationVersions| ==> SupportedVersions(Collation)[j] == CollationToProtocol(CollationVersions[j])
  {
  }

  /** The main protocol version of a peer set: the one whose name the
      networking layer uses for connection bookkeeping. It is supported and is
      the newest supported version. */
  function MainVersion(ps: PeerSet): (v: ProtocolVersion)
    ensures v in SupportedVersions(ps)
    ensures forall w :: w in SupportedVersions(ps) ==> w.n <= v.n
  {
    match ps
    case Validation => ValidationToProtocol(V3)
    case Collation => CollationToProtocol(V2)
  }

  /** The maximum notification size does not depend on the peer set or the role. */
  function GetMaxNotificationSize(ps: PeerSet, role: IsAuthority): (size: u64)
    ensures size as int == 100 * 1024
  {
    MaxNotificationSize
  }

  /** The peer set label for metrics reporting; it is also the short name
      inside generated protocol names. */
  function Label(ps: PeerSet): (s: string)
    ensures |s| > 0 && '/' !in s
  {
    match ps
    case Validation => "validation"
    case Collation => "collation"
  }

  /** The protocol label for metrics reporting: present exactly for the
      versions the peer set supports, and then the peer set label, a slash and
      the version number. */
  function ProtocolLabel(ps: PeerSet, version: ProtocolVersion): (r: Option<string>)
    ensures r.Some? <==> version in SupportedVersions(ps)
    ensures r.Some? ==> r.value == Label(ps) + "/" + Encoding.Decimal(version.n as nat)
  {
    assert Encoding.Decimal(1) == "1" && Encoding.Decimal(2) == "2" && Encoding.Decimal(3) == "3";
    match ps
    case Validation =>
      if version == ValidationToProtocol(V3) then Some("validation/3") else None
    case Collation =>
      if version == CollationToProtocol(V1) then Some("collation/1")
      else if version == CollationToProtocol(V2) then Some("collation/2")
      else None
  }

  /** One value per peer set, stored in a field of its own. */
  class PerPeerSet<T> {
    var validation: T
    var collation: T

    constructor (validation: T, collation: T)
      ensures Index(Validation) == validation && Index(Collation) == collation
    {
      this.validation := validation;
      this.collation := collation;
    }

    /** `Index<PeerSet>`: the slot of the given peer set. */
    function Index(index: PeerSet): (value: T)
      reads this
      ensures index == Validation ==> value == validation
      ensures index == Collation ==> value == collation
    {
      match index
      case Validation => validation
      case Collation => collation
    }

    /** `IndexMut<PeerSet>` followed by a write through the returned
        reference: only the slot of the given peer set changes. */
    method IndexMut(index: PeerSet, value: T)
      modifies this
      ensures Index(index) == value
      ensures forall other :: other != index ==> Index(other) == old(Index(other))
    {
      match index
      case Validation => validation := value;
      case Collation => collation := value;
    }
  }
}
