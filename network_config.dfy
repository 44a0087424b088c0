/** The notification-protocol configuration of each peer set, as `get_info`
    and `peer_sets_info` hand it to the network backend
    (polkadot/node/network/protocol/src/peer_set.rs). Only the values passed
    to the backend are modelled; the backend call itself is not. */
module NetworkConfig {
  import opened Wrappers
  import opened ProtocolVersions
  import opened PeerSets
  import opened Policy
  import opened ProtocolNames

  /** The arguments of one notification-protocol registration: main name,
      fallback names, maximum notification size and slot policy. The
      handshake, always absent, is not represented. */
  datatype NotificationConfig = NotificationConfig(
    name: ProtocolName,
    fallbackNames: seq<ProtocolName>,
    maxNotificationSize: u64,
    setConfig: SetConfig)

  /** The configuration of peer set `ps` for a node of role `role`: its main
      name, its fallback names (none for validation, the legacy name for
      collation), the fixed maximum size and the role-dependent policy. */
  ghost predicate IsInfoFor(
    config: NotificationConfig, ps: PeerSet, role: IsAuthority,
    names: PeerSetProtocolNames, minGossipPeers: u32)
    reads names
    requires names.Valid() && minGossipPeers / 2 >= 1
  {
    && config.name == names.GetMainName(ps)
    && config.fallbackNames == (if ps == Validation then [] else [LegacyCollationProtocolV1])
    && config.maxNotificationSize == MaxNotificationSize
    && config.setConfig == PeerSetConfig(ps, role, minGossipPeers)
  }

  /** `PeerSet::get_info`: the configuration of one peer set, tagged with the
      peer set. The main name resolves to the main version, and every
      fallback name resolves to a version of the same peer set without
      being the main name. */
  method GetInfo(peerSet: PeerSet, isAuthority: IsAuthority, names: PeerSetProtocolNames, minGossipPeers: u32)
    returns (config: NotificationConfig, tag: PeerSet)
    requires names.Valid() && minGossipPeers / 2 >= 1
    ensures tag == peerSet
    ensures IsInfoFor(config, peerSet, isAuthority, names, minGossipPeers)
    ensures names.TryGetProtocol(config.name) == Some((peerSet, MainVersion(peerSet)))
    ensures forall i :: 0 <= i < |config.fallbackNames| ==>
      && names.TryGetProtocol(config.fallbackNames[i]).Some?
      && names.TryGetProtocol(config.fallbackNames[i]).value.0 == peerSet
      && config.fallbackNames[i] != config.name
  {
    var protocol := names.GetMainName(peerSet);
    var fallbackNames := PeerSetProtocolNames.GetFallbackNames(peerSet, names.genesisHash, names.forkId);
    var maxNotificationSize := GetMaxNotificationSize(peerSet, isAuthority);
    config := NotificationConfig(protocol, fallbackNames, maxNotificationSize, PeerSetConfig(peerSet, isAuthority, minGossipPeers));
    tag := peerSet;
  }

  /** `peer_sets_info`: the configuration of every peer set, in iteration
      order. */
  method PeerSetsInfo(isAuthority: IsAuthority, names: PeerSetProtocolNames, minGossipPeers: u32)
    returns (infos: seq<(NotificationConfig, PeerSet)>)
    requires names.Valid() && minGossipPeers / 2 >= 1
    ensures |infos| == |AllPeerSets|
    ensures forall k :: 0 <= k < |infos| ==>
      infos[k].1 == AllPeerSets[k] && IsInfoFor(infos[k].0, AllPeerSets[k], isAuthority, names, minGossipPeers)
  {
    infos := [];
    for i := 0 to |AllPeerSets|
      invariant |infos| == i
      invariant forall k :: 0 <= k < i ==>
        infos[k].1 == AllPeerSets[k] && IsInfoFor(infos[k].0, AllPeerSets[k], isAuthority, names, minGossipPeers)
    {
      var config, tag := GetInfo(AllPeerSets[i], isAuthority, names, minGossipPeers);
      ghost var before := infos;
      infos := infos + [(config, tag)];
      forall k | 0 <= k < i + 1
        ensures infos[k].1 == AllPeerSets[k] && IsInfoFor(infos[k].0, AllPeerSets[k], isAuthority, names, minGossipPeers)
      {
        if k < i {
          assert infos[k] == before[k];
        }
      }
    }
  }
}
