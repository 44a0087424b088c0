/** The connection-slot policy handed to the transport for each peer set: the
    `SetConfig` values chosen in `PeerSet::get_info`
    (polkadot/node/network/protocol/src/peer_set.rs). */
module Policy {
  import opened ProtocolVersions
  import opened PeerSets

  /** Whether peers that are not reserved may connect. */
  datatype NonReservedPeerMode = Accept | Deny

  /** A reserved peer address; the base policy lists none. */
  type ReservedNode = string

  /** Slot counts and admission mode of one peer set. */
  datatype SetConfig = SetConfig(
    inPeers: u32,
    outPeers: u32,
    reservedNodes: seq<ReservedNode>,
    nonReservedMode: NonReservedPeerMode)

  /** The policy of a peer set for a node of the given role. `minGossipPeers`
      is the parent module's `MIN_GOSSIP_PEERS` after its cast to `u32`; the
      unsigned subtraction needs half of it to be at least one.
      Validation keeps its non-reserved slots, inbound plus outbound, below
      the gossip minimum, so that the reserved peers always count towards it. */
  function PeerSetConfig(ps: PeerSet, role: IsAuthority, minGossipPeers: u32): (c: SetConfig)
    requires minGossipPeers / 2 >= 1
    ensures c.reservedNodes == []
    ensures ps == Validation ==>
      && c.inPeers == c.outPeers
      && c.inPeers as int == minGossipPeers as int / 2 - 1
      && c.inPeers as int + c.outPeers as int < minGossipPeers as int
      && c.nonReservedMode == Accept
    ensures ps == Collation ==>
      && c.outPeers == 0
      && (c.inPeers > 0 <==> role == Yes)
      && (role == Yes ==> c.inPeers == 100)
      && (c.nonReservedMode == Accept <==> role == Yes)
  {
    match ps
    case Validation =>
      SetConfig(minGossipPeers / 2 - 1, minGossipPeers / 2 - 1, [], Accept)
    case Collation =>
      SetConfig(if role == Yes then 100 else 0, 0, [], if role == Yes then Accept else Deny)
  }

  /** Every node, authority or not, gets the same validation policy. */
  lemma ValidationPolicyRoleIndependent(minGossipPeers: u32)
    requires minGossipPeers / 2 >= 1
    ensures PeerSetConfig(Validation, Yes, minGossipPeers) == PeerSetConfig(Validation, No, minGossipPeers)
  {
  }

  /** A non-authority node takes no part in the collation peer set: no slots
      in either direction and no non-reserved peers. */
  lemma NonAuthorityClosesCollation(minGossipPeers: u32)
    requires minGossipPeers / 2 >= 1
    ensures PeerSetConfig(Collation, No, minGossipPeers) == SetConfig(0, 0, [], Deny)
  {
  }
}
