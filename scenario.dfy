/**
 * The routing scenario of the trie's test suite, replayed on the model: four
 * overlapping routes, four lookups, then a default route, a drop and the same
 * lookups again.
 */
module Scenarios {
  import opened Wrappers
  import opened Ipv4
  import opened Router
  import opened Lpm
  import opened Trie

  const Gateway1: IPv4 := [1, 1, 1, 1]
  const Gateway2: IPv4 := [2, 2, 2, 2]
  const Gateway3: IPv4 := [3, 3, 3, 3]
  const Gateway4: IPv4 := [4, 4, 4, 4]
  const DefaultGateway: IPv4 := [9, 0, 0, 0]

  /** 192.168.0.0: the /16 and the first /18. */
  const Block0: IPv4 := [192, 168, 0, 0]
  /** 192.168.64.0: the second /18. */
  const Block1: IPv4 := [192, 168, 64, 0]
  /** 192.168.128.0: the third /18. */
  const Block2: IPv4 := [192, 168, 128, 0]
  const Anywhere: IPv4 := [0, 0, 0, 0]

  /** The addresses looked up. */
  const InBlock0: IPv4 := [192, 168, 0, 1]
  const InBlock1: IPv4 := [192, 168, 127, 255]
  const InBlock3: IPv4 := [192, 168, 192, 1]
  const Elsewhere: IPv4 := [10, 0, 0, 0]

  /** The routes NewRoute builds for the scenario: every address is already masked. */
  lemma ScenarioRoutes()
    ensures NewRoute(Block0, 16, Gateway1) == Some(Route(Block0, Block0, 16, Gateway1))
    ensures NewRoute(Block0, 18, Gateway2) == Some(Route(Block0, Block0, 18, Gateway2))
    ensures NewRoute(Block1, 18, Gateway3) == Some(Route(Block1, Block1, 18, Gateway3))
    ensures NewRoute(Block2, 18, Gateway4) == Some(Route(Block2, Block2, 18, Gateway4))
    ensures NewRoute(Anywhere, 0, DefaultGateway) == Some(Route(Anywhere, Anywhere, 0, DefaultGateway))
  {
    assert PrefixMask(16) == [255, 255, 0, 0];
    assert PrefixMask(18) == [255, 255, 192, 0];
    assert PrefixMask(0) == [0, 0, 0, 0];
    assert MaskedBy(Block0, PrefixMask(16)) == Block0;
    assert MaskedBy(Block0, PrefixMask(18)) == Block0;
    assert MaskedBy(Block1, PrefixMask(18)) == Block1;
    assert MaskedBy(Block2, PrefixMask(18)) == Block2;
    assert MaskedBy(Anywhere, PrefixMask(0)) == Anywhere;
  }

  /** The table after the four routes are added. */
  ghost function FourRoutes(): Table
  {
    map[BitPath(Block0, 16) := Gateway1, BitPath(Block0, 18) := Gateway2,
        BitPath(Block1, 18) := Gateway3, BitPath(Block2, 18) := Gateway4]
  }

  /** Two addresses whose first n bits agree have the same path to depth n. */
  lemma SamePath(a: IPv4, b: IPv4, n: nat)
    requires n <= 32 && forall k :: 0 <= k < n ==> Bit(a, k) == Bit(b, k)
    ensures BitPath(a, n) == BitPath(b, n)
  {
  }

  /** The paths of the scenario: which agree and where the others part. */
  lemma ScenarioPaths()
    ensures BitPath(InBlock0, 18) == BitPath(Block0, 18)
    ensures BitPath(InBlock1, 18) == BitPath(Block1, 18)
    ensures BitPath(InBlock3, 16) == BitPath(Block0, 16)
    ensures BitPath(InBlock0, 16) == BitPath(Block0, 16)
    ensures BitPath(InBlock1, 16) == BitPath(Block0, 16)
    ensures BitPath(Block0, 18)[16..] == [false, false] && BitPath(Block1, 18)[16..] == [false, true]
    ensures BitPath(Block2, 18)[16..] == [true, false] && BitPath(InBlock3, 18)[16..] == [true, true]
    ensures BitPath(Block0, 18)[0] && !BitPath(Elsewhere, 18)[0]
  {
    forall k | 0 <= k < 18
      ensures Bit(InBlock0, k) == Bit(Block0, k)
    {
      assert InBlock0[k / 8] == Block0[k / 8];
    }
    SamePath(InBlock0, Block0, 18);
    forall k | 0 <= k < 18
      ensures Bit(InBlock1, k) == Bit(Block1, k)
    {
      if k < 16 {
        assert InBlock1[k / 8] == Block1[k / 8];
      }
    }
    SamePath(InBlock1, Block1, 18);
    forall k | 0 <= k < 16
      ensures Bit(InBlock3, k) == Bit(Block0, k) && Bit(InBlock1, k) == Bit(Block0, k)
    {
      assert InBlock3[k / 8] == Block0[k / 8] && InBlock1[k / 8] == Block0[k / 8];
    }
    SamePath(InBlock3, Block0, 16);
    SamePath(InBlock1, Block0, 16);
    BitPathPrefix(InBlock0, 18, 16);
    BitPathPrefix(Block0, 18, 16);
  }

  /** The four lookups against the four routes: the /18 wins where it covers the address, the /16 elsewhere. */
  lemma FourRoutesLookups()
    ensures LongestMatch(FourRoutes(), InBlock0) == Some(Gateway2)
    ensures LongestMatch(FourRoutes(), InBlock1) == Some(Gateway3)
    ensures LongestMatch(FourRoutes(), InBlock3) == Some(Gateway1)
    ensures LongestMatch(FourRoutes(), Elsewhere) == None
  {
    ScenarioPaths();
    var t := FourRoutes();
    assert |BitPath(Block0, 16)| == 16;
    MatchAt(t, InBlock0, 18);
    MatchAt(t, InBlock1, 18);
    assert BitPath(InBlock3, 18) !in t by {
      assert BitPath(InBlock3, 18)[16..] != BitPath(Block0, 18)[16..];
      assert BitPath(InBlock3, 18)[16..] != BitPath(Block1, 18)[16..];
      assert BitPath(InBlock3, 18)[16..] != BitPath(Block2, 18)[16..];
    }
    MatchAt(t, InBlock3, 16);
    forall d | 0 <= d < 32
      ensures BitPath(Elsewhere, d) !in t
    {
      if d == 16 || d == 18 {
        assert BitPath(Elsewhere, d)[0] != BitPath(Block0, d)[0];
      }
    }
    LongestMatchIsDeepest(t, Elsewhere);
  }

  /**
   * Dropping 192.168.0.0/18 after adding the default route removes nothing:
   * Drop's path for 192.168.0.0 leaves Add's at the second bit, where every
   * stored path has a one.
   */
  lemma DropMissesFirstBlock()
    ensures Dropped(Added(FourRoutes(), Route(Anywhere, Anywhere, 0, DefaultGateway)), Route(Block0, Block0, 18, Gateway2))
      == FourRoutes()[[] := DefaultGateway]
  {
    DropPathDiverges();
    var gone := DropPath(Block0, 18);
    assert BitPath(Block1, 18)[1] && BitPath(Block2, 18)[1];
    assert gone != BitPath(Block0, 18) && gone != BitPath(Block1, 18) && gone != BitPath(Block2, 18);
    assert BitPath(Anywhere, 0) == [];
  }

  /** The lookups after the default route is added and the first /18 "dropped". */
  lemma AfterDropLookups()
    ensures LongestMatch(FourRoutes()[[] := DefaultGateway], InBlock0) == Some(Gateway2)
    ensures LongestMatch(FourRoutes()[[] := DefaultGateway], InBlock1) == Some(Gateway3)
    ensures LongestMatch(FourRoutes()[[] := DefaultGateway], InBlock3) == Some(Gateway1)
    ensures LongestMatch(FourRoutes()[[] := DefaultGateway], Elsewhere) == Some(DefaultGateway)
  {
    ScenarioPaths();
    var t := FourRoutes()[[] := DefaultGateway];
    assert |BitPath(Block0, 16)| == 16;
    MatchAt(t, InBlock0, 18);
    MatchAt(t, InBlock1, 18);
    assert BitPath(InBlock3, 18) !in t by {
      assert BitPath(InBlock3, 18)[16..] != BitPath(Block0, 18)[16..];
      assert BitPath(InBlock3, 18)[16..] != BitPath(Block1, 18)[16..];
      assert BitPath(InBlock3, 18)[16..] != BitPath(Block2, 18)[16..];
    }
    MatchAt(t, InBlock3, 16);
    forall d | 0 < d < 32
      ensures BitPath(Elsewhere, d) !in t
    {
      if d == 16 || d == 18 {
        assert BitPath(Elsewhere, d)[0] != BitPath(Block0, d)[0];
      }
    }
    assert BitPath(Elsewhere, 0) == [];
    MatchAt(t, Elsewhere, 0);
  }

  /**
   * The scenario on a trie: four routes added, four lookups, then the default
   * route added, the first /18 dropped and the lookups repeated. The second
   * lookup of 192.168.0.1 still finds 2.2.2.2, since the drop misses it.
   */
  method Comprehensive() returns (first: seq<Option<IPv4>>, second: seq<Option<IPv4>>)
    ensures first == [Some(Gateway2), Some(Gateway3), Some(Gateway1), None]
    ensures second == [Some(Gateway2), Some(Gateway3), Some(Gateway1), Some(DefaultGateway)]
  {
    ScenarioRoutes();
    var pt := new PrefixTree();
    var toAdd := [NewRoute(Block0, 16, Gateway1).value, NewRoute(Block0, 18, Gateway2).value,
                  NewRoute(Block1, 18, Gateway3).value, NewRoute(Block2, 18, Gateway4).value];
    pt.Add(toAdd[0]);
    pt.Add(toAdd[1]);
    pt.Add(toAdd[2]);
    pt.Add(toAdd[3]);
    assert pt.Contents() == FourRoutes();
    FourRoutesLookups();
    var g0 := pt.Get(InBlock0);
    var g1 := pt.Get(InBlock1);
    var g2 := pt.Get(InBlock3);
    var g3 := pt.Get(Elsewhere);
    first := [g0, g1, g2, g3];

    var defaultRoute := NewRoute(Anywhere, 0, DefaultGateway).value;
    pt.Add(defaultRoute);
    pt.Drop(toAdd[1]);
    DropMissesFirstBlock();
    AfterDropLookups();
    g0 := pt.Get(InBlock0);
    g1 := pt.Get(InBlock1);
    g2 := pt.Get(InBlock3);
    g3 := pt.Get(Elsewhere);
    second := [g0, g1, g2, g3];
  }

  /** A fresh trie answers no lookup. */
  method FreshTreeFindsNothing(a: IPv4) returns (gateway: Option<IPv4>)
    ensures gateway == None
  {
    var pt := new PrefixTree();
    EmptyTableMatchesNothing(a);
    gateway := pt.Get(a);
  }

  /** 255.255.64.0 is not a mask, so masking with it yields nothing. */
  method MaskWithNonMask(a: IPv4) returns (r: Option<IPv4>)
    ensures r == None
  {
    IsMaskRejects();
    r := MaskWith(a, [255, 255, 64, 0]);
  }

  /** Every mask MaskFromPrefix builds passes IsMask. */
  method PrefixMaskPassesIsMask(prefix: Uint8) returns (ok: bool)
    requires prefix <= 32
    ensures ok
  {
    var mask := MaskFromPrefix(prefix);
    ok := IsMask(mask.value);
  }
}
