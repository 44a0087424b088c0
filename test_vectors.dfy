/** The concrete names and lookups the source's unit tests expect, for the
    genesis hash those tests use (polkadot/node/network/protocol/src/peer_set.rs). */
module TestVectors {
  import opened Wrappers
  import opened Encoding
  import opened ProtocolVersions
  import opened PeerSets
  import opened ProtocolNames

  /** The genesis hash of the unit tests. */
  const TestGenesis: Hash := [
    122, 200, 116, 29, 232, 183, 20, 109, 138, 86, 23, 253, 70, 41, 20, 85,
    127, 230, 60, 38, 90, 127, 28, 16, 231, 218, 227, 40, 88, 238, 187, 128]

  /** Its lowercase hexadecimal text, written in four pieces. */
  const TestGenesisHex: string := "7ac8741de8b7146d" + "8a5617fd46291455" + "7fe63c265a7f1c10" + "e7dae32858eebb80"

  /** Bytes 0 to 3 of the genesis hash and their digits. */
  lemma TestGenesisBytes0()
    ensures forall i :: 0 <= i < 4 ==> ByteHex(TestGenesis[i]) == [TestGenesisHex[2 * i], TestGenesisHex[2 * i + 1]]
  {
    forall i | 0 <= i < 4 ensures ByteHex(TestGenesis[i]) == [TestGenesisHex[2 * i], TestGenesisHex[2 * i + 1]] {
      if i == 0 {
        assert TestGenesis[0] == 122;
        assert ByteHex(122) == [HexDigit(7), HexDigit(10)] == ['7', 'a'];
      } else if i == 1 {
        assert TestGenesis[1] == 200;
        assert ByteHex(200) == [HexDigit(12), HexDigit(8)] == ['c', '8'];
      } else if i == 2 {
        assert TestGenesis[2] == 116;
        assert ByteHex(116) == [HexDigit(7), HexDigit(4)] == ['7', '4'];
      } else {
        assert TestGenesis[3] == 29;
        assert ByteHex(29) == [HexDigit(1), HexDigit(13)] == ['1', 'd'];
      }
    }
  }

  /** Bytes 4 to 7 of the genesis hash and their digits. */
  lemma TestGenesisBytes1()
    ensures forall i :: 4 <= i < 8 ==> ByteHex(TestGenesis[i]) == [TestGenesisHex[2 * i], TestGenesisHex[2 * i + 1]]
  {
    forall i | 4 <= i < 8 ensures ByteHex(TestGenesis[i]) == [TestGenesisHex[2 * i], TestGenesisHex[2 * i + 1]] {
      if i == 4 {
        assert TestGenesis[4] == 232;
        assert ByteHex(232) == [HexDigit(14), HexDigit(8)] == ['e', '8'];
      } else if i == 5 {
        assert TestGenesis[5] == 183;
        assert ByteHex(183) == [HexDigit(11), HexDigit(7)] == ['b', '7'];
      } else if i == 6 {
        assert TestGenesis[6] == 20;
        assert ByteHex(20) == [HexDigit(1), HexDigit(4)] == ['1', '4'];
      } else {
        assert TestGenesis[7] == 109;
        assert ByteHex(109) == [HexDigit(6), HexDigit(13)] == ['6', 'd'];
      }
    }
  }

  /** Bytes 8 to 11 of the genesis hash and their digits. */
  lemma TestGenesisBytes2()
    ensures forall i :: 8 <= i < 12 ==> ByteHex(TestGenesis[i]) == [TestGenesisHex[2 * i], TestGenesisHex[2 * i + 1]]
  {
    forall i | 8 <= i < 12 ensures ByteHex(TestGenesis[i]) == [TestGenesisHex[2 * i], TestGenesisHex[2 * i + 1]] {
      if i == 8 {
        assert TestGenesis[8] == 138;
        assert ByteHex(138) == [HexDigit(8), HexDigit(10)] == ['8', 'a'];
      } else if i == 9 {
        assert TestGenesis[9] == 86;
        assert ByteHex(86) == [HexDigit(5), HexDigit(6)] == ['5', '6'];
      } else if i == 10 {
        assert TestGenesis[10] == 23;
        assert ByteHex(23) == [HexDigit(1), HexDigit(7)] == ['1', '7'];
      } else {
        assert TestGenesis[11] == 253;
        assert ByteHex(253) == [HexDigit(15), HexDigit(13)] == ['f', 'd'];
      }
    }
  }

  /** Bytes 12 to 15 of the genesis hash and their digits. */
  lemma TestGenesisBytes3()
    ensures forall i :: 12 <= i < 16 ==> ByteHex(TestGenesis[i]) == [TestGenesisHex[2 * i], TestGenesisHex[2 * i + 1]]
  {
    forall i | 12 <= i < 16 ensures ByteHex(TestGenesis[i]) == [TestGenesisHex[2 * i], TestGenesisHex[2 * i + 1]] {
      if i == 12 {
        assert TestGenesis[12] == 70;
        assert ByteHex(70) == [HexDigit(4), HexDigit(6)] == ['4', '6'];
      } else if i == 13 {
        assert TestGenesis[13] == 41;
        assert ByteHex(41) == [HexDigit(2), HexDigit(9)] == ['2', '9'];
      } else if i == 14 {
        assert TestGenesis[14] == 20;
        assert ByteHex(20) == [HexDigit(1), HexDigit(4)] == ['1', '4'];
      } else {
        assert TestGenesis[15] == 85;
        assert ByteHex(85) == [HexDigit(5), HexDigit(5)] == ['5', '5'];
      }
    }
  }

  /** Bytes 16 to 19 of the genesis hash and their digits. */
  lemma TestGenesisBytes4()
    ensures forall i :: 16 <= i < 20 ==> ByteHex(TestGenesis[i]) == [TestGenesisHex[2 * i], TestGenesisHex[2 * i + 1]]
  {
    forall i | 16 <= i < 20 ensures ByteHex(TestGenesis[i]) == [TestGenesisHex[2 * i], TestGenesisHex[2 * i + 1]] {
      if i == 16 {
        assert TestGenesis[16] == 127;
        assert ByteHex(127) == [HexDigit(7), HexDigit(15)] == ['7', 'f'];
      } else if i == 17 {
        assert TestGenesis[17] == 230;
        assert ByteHex(230) == [HexDigit(14), HexDigit(6)] == ['e', '6'];
      } else if i == 18 {
        assert TestGenesis[18] == 60;
        assert ByteHex(60) == [HexDigit(3), HexDigit(12)] == ['3', 'c'];
      } else {
        assert TestGenesis[19] == 38;
        assert ByteHex(38) == [HexDigit(2), HexDigit(6)] == ['2', '6'];
      }
    }
  }

  /** Bytes 20 to 23 of the genesis hash and their digits. */
  lemma TestGenesisBytes5()
    ensures forall i :: 20 <= i < 24 ==> ByteHex(TestGenesis[i]) == [TestGenesisHex[2 * i], TestGenesisHex[2 * i + 1]]
  {
    forall i | 20 <= i < 24 ensures ByteHex(TestGenesis[i]) == [TestGenesisHex[2 * i], TestGenesisHex[2 * i + 1]] {
      if i == 20 {
        assert TestGenesis[20] == 90;
        assert ByteHex(90) == [HexDigit(5), HexDigit(10)] == ['5', 'a'];
      } else if i == 21 {
        assert TestGenesis[21] == 127;
        assert ByteHex(127) == [HexDigit(7), HexDigit(15)] == ['7', 'f'];
      } else if i == 22 {
        assert TestGenesis[22] == 28;
        assert ByteHex(28) == [HexDigit(1), HexDigit(12)] == ['1', 'c'];
      } else {
        assert TestGenesis[23] == 16;
        assert ByteHex(16) == [HexDigit(1), HexDigit(0)] == ['1', '0'];
      }
    }
  }

  /** Bytes 24 to 27 of the genesis hash and their digits. */
  lemma TestGenesisBytes6()
    ensures forall i :: 24 <= i < 28 ==> ByteHex(TestGenesis[i]) == [TestGenesisHex[2 * i], TestGenesisHex[2 * i + 1]]
  {
    forall i | 24 <= i < 28 ensures ByteHex(TestGenesis[i]) == [TestGenesisHex[2 * i], TestGenesisHex[2 * i + 1]] {
      if i == 24 {
        assert TestGenesis[24] == 231;
        assert ByteHex(231) == [HexDigit(14), HexDigit(7)] == ['e', '7'];
      } else if i == 25 {
        assert TestGenesis[25] == 218;
        assert ByteHex(218) == [HexDigit(13), HexDigit(10)] == ['d', 'a'];
      } else if i == 26 {
        assert TestGenesis[26] == 227;
        assert ByteHex(227) == [HexDigit(14), HexDigit(3)] == ['e', '3'];
      } else {
        assert TestGenesis[27] == 40;
        assert ByteHex(40) == [HexDigit(2), HexDigit(8)] == ['2', '8'];
      }
    }
  }

  /** Bytes 28 to 31 of the genesis hash and their digits. */
  lemma TestGenesisBytes7()
    ensures forall i :: 28 <= i < 32 ==> ByteHex(TestGenesis[i]) == [TestGenesisHex[2 * i], TestGenesisHex[2 * i + 1]]
  {
    forall i | 28 <= i < 32 ensures ByteHex(TestGenesis[i]) == [TestGenesisHex[2 * i], TestGenesisHex[2 * i + 1]] {
      if i == 28 {
        assert TestGenesis[28] == 88;
        assert ByteHex(88) == [HexDigit(5), HexDigit(8)] == ['5', '8'];
      } else if i == 29 {
        assert TestGenesis[29] == 238;
        assert ByteHex(238) == [HexDigit(14), HexDigit(14)] == ['e', 'e'];
      } else if i == 30 {
        assert TestGenesis[30] == 187;
        assert ByteHex(187) == [HexDigit(11), HexDigit(11)] == ['b', 'b'];
      } else {
        assert TestGenesis[31] == 128;
        assert ByteHex(128) == [HexDigit(8), HexDigit(0)] == ['8', '0'];
      }
    }
  }

  /** The genesis hash encodes to the hexadecimal text the tests expect. */
  lemma TestGenesisEncoding()
    ensures Hex(TestGenesis) == TestGenesisHex
  {
    TestGenesisBytes0();
    TestGenesisBytes1();
    TestGenesisBytes2();
    TestGenesisBytes3();
    TestGenesisBytes4();
    TestGenesisBytes5();
    TestGenesisBytes6();
    TestGenesisBytes7();
    HexBytewise(TestGenesis, TestGenesisHex);
  }

  /** A generated name is its chain prefix followed by the suffix naming the
      peer set and version. */
  lemma NameSuffix(genesisHash: Hash, forkId: Option<string>, ps: PeerSet, version: ProtocolVersion, suffix: string)
    requires suffix == "/" + Label(ps) + "/" + Decimal(version.n as nat)
    ensures GenerateName(genesisHash, forkId, ps, version) == ChainPrefix(genesisHash, forkId) + suffix
  {
    var prefix := ChainPrefix(genesisHash, forkId);
    assert prefix + "/" + Label(ps) == prefix + ("/" + Label(ps));
    assert prefix + ("/" + Label(ps)) + "/" == prefix + ("/" + Label(ps) + "/");
    assert prefix + ("/" + Label(ps) + "/") + Decimal(version.n as nat) == prefix + suffix;
  }

  /** The shape of the names of the tests without a fork id, for any
      genesis hash. */
  lemma NamesWithoutFork(genesisHash: Hash)
    ensures GenerateName(genesisHash, None, Validation, ProtocolVersion(3)) == "/" + Hex(genesisHash) + "/validation/3"
    ensures GenerateName(genesisHash, None, Collation, ProtocolVersion(5)) == "/" + Hex(genesisHash) + "/collation/5"
    ensures GenerateName(genesisHash, None, Collation, ProtocolVersion(1)) == "/" + Hex(genesisHash) + "/collation/1"
  {
    NameSuffix(genesisHash, None, Validation, ProtocolVersion(3), "/validation/3");
    NameSuffix(genesisHash, None, Collation, ProtocolVersion(5), "/collation/5");
    NameSuffix(genesisHash, None, Collation, ProtocolVersion(1), "/collation/1");
  }

  /** The fork id goes between the genesis hash and the suffix. */
  lemma ForkedName(genesisHash: Hash, ps: PeerSet, version: ProtocolVersion, suffix: string)
    requires suffix == "/" + Label(ps) + "/" + Decimal(version.n as nat)
    ensures GenerateName(genesisHash, Some("test-fork"), ps, version) == "/" + Hex(genesisHash) + ("/test-fork" + suffix)
  {
    var root := "/" + Hex(genesisHash);
    NameSuffix(genesisHash, Some("test-fork"), ps, version, suffix);
    assert root + "/" + "test-fork" == root + "/test-fork";
    assert root + "/test-fork" + suffix == root + ("/test-fork" + suffix);
  }

  /** The shape of the names of the tests with the fork id "test-fork", for
      any genesis hash. */
  lemma NamesWithFork(genesisHash: Hash)
    ensures GenerateName(genesisHash, Some("test-fork"), Validation, ProtocolVersion(7))
      == "/" + Hex(genesisHash) + "/test-fork/validation/7"
    ensures GenerateName(genesisHash, Some("test-fork"), Collation, ProtocolVersion(11))
      == "/" + Hex(genesisHash) + "/test-fork/collation/11"
  {
    assert Decimal(7) == "7" && Decimal(11) == "11";
    ForkedName(genesisHash, Validation, ProtocolVersion(7), "/validation/7");
    ForkedName(genesisHash, Collation, ProtocolVersion(11), "/collation/11");
  }

  /** The four names `generate_name` is expected to produce, without and with
      a fork id, including versions that are not supported. */
  lemma GeneratedNamesAreExpected()
    ensures GenerateName(TestGenesis, None, Validation, ProtocolVersion(3)) == "/" + TestGenesisHex + "/validation/3"
    ensures GenerateName(TestGenesis, None, Collation, ProtocolVersion(5)) == "/" + TestGenesisHex + "/collation/5"
    ensures GenerateName(TestGenesis, None, Collation, ProtocolVersion(1)) == "/" + TestGenesisHex + "/collation/1"
    ensures GenerateName(TestGenesis, Some("test-fork"), Validation, ProtocolVersion(7))
      == "/" + TestGenesisHex + "/test-fork/validation/7"
    ensures GenerateName(TestGenesis, Some("test-fork"), Collation, ProtocolVersion(11))
      == "/" + TestGenesisHex + "/test-fork/collation/11"
  {
    NamesWithoutFork(TestGenesis);
    NamesWithFork(TestGenesis);
    TestGenesisEncoding();
  }

  /** A generated name of a supported version resolves to it. */
  lemma GeneratedNameResolves(r: PeerSetProtocolNames, ps: PeerSet, version: ProtocolVersion, name: ProtocolName)
    requires r.Valid() && version in SupportedVersions(ps)
    requires GenerateName(r.genesisHash, r.forkId, ps, version) == name
    ensures r.TryGetProtocol(name) == Some((ps, version))
  {
    assert r.GetName(ps, version) == name;
  }

  /** A validation name in the legacy style is unknown: it embeds no chain
      identity, and no such name is registered. */
  lemma LegacyValidationNameUnknown(r: PeerSetProtocolNames)
    requires r.Valid()
    ensures r.TryGetProtocol("/polkadot/validation/1") == None
  {
    var name := "/polkadot/validation/1";
    forall ps, v ensures name != GenerateName(r.genesisHash, r.forkId, ps, v) {
      NotHexAfterSlashNotGenerated(name, r.genesisHash, r.forkId, ps, v);
    }
    UnknownNamesResolveToNone(r, name);
  }

  /** A registry built for the test genesis hash without a fork id resolves
      the names the tests look up: the main validation name, the genesis
      collation version-1 name and the legacy collation name, but not a
      validation name in the legacy style. */
  lemma AllProtocolNamesAreKnown(r: PeerSetProtocolNames)
    requires r.Valid() && r.genesisHash == TestGenesis && r.forkId == None
    ensures r.TryGetProtocol("/" + TestGenesisHex + "/validation/3") == Some((Validation, ProtocolVersion(3)))
    ensures r.TryGetProtocol("/polkadot/validation/1") == None
    ensures r.TryGetProtocol("/" + TestGenesisHex + "/collation/1") == Some((Collation, ProtocolVersion(1)))
    ensures r.TryGetProtocol("/polkadot/collation/1") == Some((Collation, ProtocolVersion(1)))
  {
    NamesWithoutFork(TestGenesis);
    TestGenesisEncoding();
    assert ValidationToProtocol(V3) == ProtocolVersion(3) && CollationToProtocol(V1) == ProtocolVersion(1);
    GeneratedNameResolves(r, Validation, ProtocolVersion(3), "/" + TestGenesisHex + "/validation/3");
    GeneratedNameResolves(r, Collation, ProtocolVersion(1), "/" + TestGenesisHex + "/collation/1");
    LegacyValidationNameUnknown(r);
    LegacyNameResolves(r);
  }
}
