/** Protocol version numbers and the two closed enumerations of supported
    versions, with the conversions between them
    (polkadot/node/network/protocol/src/peer_set.rs). */
module ProtocolVersions {
  import opened Wrappers

  /** An unsigned 32-bit integer. */
  newtype u32 = x: int | 0 <= x < 0x1_0000_0000

  /** A generic protocol version. Only the conversions below produce one from
      an enumerator; reading the number back is the field `n`. */
  datatype ProtocolVersion = ProtocolVersion(n: u32)

  /** Supported validation protocol versions. */
  datatype ValidationVersion = V3

  /** Supported collation protocol versions. */
  datatype CollationVersion = V1 | V2

  /** Marker for a number that is not the discriminant of any enumerator. */
  datatype UnknownVersion = UnknownVersion

  /** The enumerators in declaration order, as the derived iterator yields them. */
  const ValidationVersions: seq<ValidationVersion> := [V3]
  const CollationVersions: seq<CollationVersion> := [V1, V2]

  /** The explicit discriminant of each enumerator; it is also the wire version. */
  function ValidationDiscriminant(v: ValidationVersion): u32 {
    match v
    case V3 => 3
  }

  function CollationDiscriminant(v: CollationVersion): u32 {
    match v
    case V1 => 1
    case V2 => 2
  }

  /** `From<ValidationVersion> for ProtocolVersion`. */
  function ValidationToProtocol(v: ValidationVersion): (p: ProtocolVersion)
    ensures v == V3 ==> p.n == 3
  {
    ProtocolVersion(ValidationDiscriminant(v))
  }

  /** `From<CollationVersion> for ProtocolVersion`. */
  function CollationToProtocol(v: CollationVersion): (p: ProtocolVersion)
    ensures v == V1 ==> p.n == 1
    ensures v == V2 ==> p.n == 2
  {
    ProtocolVersion(CollationDiscriminant(v))
  }

  /** The iterators enumerate every enumerator exactly once. */
  lemma EnumerationsComplete()
    ensures forall v: ValidationVersion :: v in ValidationVersions
    ensures forall v: CollationVersion :: v in CollationVersions
    ensures forall i, j :: 0 <= i < j < |CollationVersions| ==> CollationVersions[i] != CollationVersions[j]
  {
    forall v: ValidationVersion ensures v in ValidationVersions {
      assert ValidationVersions[0] == v;
    }
    forall v: CollationVersion ensures v in CollationVersions {
      if v == V1 {
        assert CollationVersions[0] == v;
      } else {
        assert CollationVersions[1] == v;
      }
    }
  }

  /** Discriminants are unique within an enumeration, so the conversions to
      `ProtocolVersion` lose nothing. */
  lemma ConversionsInjective()
    ensures forall a: ValidationVersion, b: ValidationVersion :: ValidationToProtocol(a) == ValidationToProtocol(b) ==> a == b
    ensures forall a: CollationVersion, b: CollationVersion :: CollationToProtocol(a) == CollationToProtocol(b) ==> a == b
    ensures CollationDiscriminant(V1) < CollationDiscriminant(V2)
  {
  }

  /** `TryFrom<ProtocolVersion> for ValidationVersion`: scans the enumerators
      in order and returns the first whose discriminant equals the number. */
  method ValidationFromProtocol(p: ProtocolVersion) returns (r: Result<ValidationVersion, UnknownVersion>)
    ensures forall v: ValidationVersion :: ValidationToProtocol(v) == p ==> r == Ok(v)
    ensures r.Ok? ==> ValidationToProtocol(r.value) == p
    ensures r.Err? ==> forall v: ValidationVersion :: ValidationToProtocol(v) != p
  {
    for i := 0 to |ValidationVersions|
      invariant forall k :: 0 <= k < i ==> ValidationToProtocol(ValidationVersions[k]) != p
    {
      var v := ValidationVersions[i];
      if ValidationDiscriminant(v) == p.n {
        ConversionsInjective();
        return Ok(v);
      }
    }
    forall v: ValidationVersion ensures ValidationToProtocol(v) != p {
      EnumerationsComplete();
      var k :| 0 <= k < |ValidationVersions| && ValidationVersions[k] == v;
    }
    return Err(UnknownVersion);
  }

  /** `TryFrom<ProtocolVersion> for CollationVersion`, the same scan over the
      collation enumerators. */
  method CollationFromProtocol(p: ProtocolVersion) returns (r: Result<CollationVersion, UnknownVersion>)
    ensures forall v: CollationVersion :: CollationToProtocol(v) == p ==> r == Ok(v)
    ensures r.Ok? ==> CollationToProtocol(r.value) == p
    ensures r.Err? ==> forall v: CollationVersion :: CollationToProtocol(v) != p
  {
    for i := 0 to |CollationVersions|
      invariant forall k :: 0 <= k < i ==> CollationToProtocol(CollationVersions[k]) != p
    {
      var v := CollationVersions[i];
      if CollationDiscriminant(v) == p.n {
        ConversionsInjective();
        return Ok(v);
      }
    }
    forall v: CollationVersion ensures CollationToProtocol(v) != p {
      EnumerationsComplete();
      var k :| 0 <= k < |CollationVersions| && CollationVersions[k] == v;
    }
    return Err(UnknownVersion);
  }
}
