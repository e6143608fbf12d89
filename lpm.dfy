/**
 * What a prefix trie means: the table of routes it holds, keyed by bit paths,
 * and longest-prefix-match lookup in that table.
 */
module Lpm {
  import opened Wrappers
  import opened Ipv4
  import opened Router

  /** A path from the root of the trie: true for a `One` edge, false for a `Zero` edge. */
  type Path = seq<bool>

  /** The gateway stored at the end of each path that holds one. */
  type Table = map<Path, IPv4>

  /** The gateway a table holds at a path, if any. */
  function Lookup(t: Table, p: Path): Option<IPv4>
  {
    if p in t then Some(t[p]) else None
  }

  /** The first n bits of an address, most significant first: the path Add and Get follow. */
  function BitPath(a: IPv4, n: nat): Path
    requires n <= 32
  {
    seq(n, k requires 0 <= k < n => Bit(a, k))
  }

  /**
   * Drop's branch test for bit k: the byte shifted right by 7 - k % 8 equals 1,
   * which holds only when bit k is set and no more significant bit of its byte is.
   */
  function DropBit(a: IPv4, k: nat): bool
    requires k < 32
  {
    DropByteBit(a[k / 8], k % 8)
  }

  /** Drop's branch test on bit j of a byte, most significant first. */
  function DropByteBit(b: bv8, j: nat): bool
    requires j < 8
  {
    b >> (7 - j) == 1
  }

  /** The path Drop follows for the first n bits of an address. */
  function DropPath(a: IPv4, n: nat): Path
    requires n <= 32
  {
    seq(n, k requires 0 <= k < n => DropBit(a, k))
  }

  /** The gateway of the deepest route at depths 0 .. n - 1 on the path of a, if any. */
  function BestBelow(t: Table, a: IPv4, n: nat): Option<IPv4>
    requires n <= 32
  {
    if n == 0 then None
    else if BitPath(a, n - 1) in t then Some(t[BitPath(a, n - 1)])
    else BestBelow(t, a, n - 1)
  }

  /** Longest-prefix match over depths 0 .. 31: depth 32 is never consulted. */
  function LongestMatch(t: Table, a: IPv4): Option<IPv4>
  {
    BestBelow(t, a, 32)
  }

  /** The effect of adding a route: prefixes of 32 and more store nothing. */
  function Added(t: Table, r: Route): Table
  {
    if r.prefix < 32 then t[BitPath(r.masked, r.prefix) := r.to] else t
  }

  /** The effect of dropping a route: the route on Drop's path, if any, is removed. */
  function Dropped(t: Table, r: Route): Table
  {
    if r.prefix < 32 then t - {DropPath(r.masked, r.prefix)} else t
  }

  // ---------------------------------------------------------------------------
  // Paths

  lemma SnocInjective(p: Path, x: bool, q: Path, y: bool)
    requires p + [x] == q + [y]
    ensures p == q && x == y
  {
    assert p == (p + [x])[..|p|];
    assert q == (q + [y])[..|q|];
  }

  lemma BitPathPrefix(a: IPv4, n: nat, k: nat)
    requires k <= n <= 32
    ensures BitPath(a, n)[..k] == BitPath(a, k)
  {
  }

  /** Extending the path by bit j of byte i, the test Add and Get make. */
  lemma BitPathStep(a: IPv4, i: nat, j: nat, k: nat)
    requires i < 4 && j < 8 && k == 8 * i + j
    ensures BitPath(a, k + 1) == BitPath(a, k) + [ByteBit(a[i], j)]
  {
    assert k / 8 == i && k % 8 == j;
    assert BitPath(a, k + 1)[k] == Bit(a, k);
  }

  /** Extending Drop's path by its test on bit j of byte i. */
  lemma DropPathStep(a: IPv4, i: nat, j: nat, k: nat)
    requires i < 4 && j < 8 && k == 8 * i + j
    ensures DropPath(a, k + 1) == DropPath(a, k) + [DropByteBit(a[i], j)]
  {
    assert k / 8 == i && k % 8 == j;
    assert DropPath(a, k + 1)[k] == DropBit(a, k);
  }

  lemma DropPathPrefix(a: IPv4, n: nat, k: nat)
    requires k <= n <= 32
    ensures DropPath(a, n)[..k] == DropPath(a, k)
  {
  }

  lemma DropBitByte(b: bv8, j: nat)
    requires j < 8
    ensures DropByteBit(b, j) ==> ByteBit(b, j)
  {
  }

  /** Where Drop turns to the `One` child, so does Add: Drop's path can only stray to `Zero` edges. */
  lemma DropBitImpliesBit(a: IPv4, k: nat)
    requires k < 32
    ensures DropBit(a, k) ==> Bit(a, k)
  {
    DropBitByte(a[k / 8], k % 8);
  }

  /** For 192.168.0.0/18 Drop's path leaves Add's at the second bit, since 192 >> 6 == 3. */
  lemma DropPathDiverges()
    ensures BitPath([192, 168, 0, 0], 18)[1] == true
    ensures DropPath([192, 168, 0, 0], 18)[1] == false
  {
  }

  // ---------------------------------------------------------------------------
  // Longest-prefix match

  /**
   * BestBelow is the deepest route below depth n: None exactly when there is no
   * route on the path at those depths, and otherwise the route at some depth d
   * with no route deeper than d and below n.
   */
  lemma {:induction false} BestBelowIsDeepest(t: Table, a: IPv4, n: nat)
    requires n <= 32
    ensures BestBelow(t, a, n).None? <==> forall d :: 0 <= d < n ==> BitPath(a, d) !in t
    ensures BestBelow(t, a, n).Some? ==>
              exists d :: 0 <= d < n && BitPath(a, d) in t && t[BitPath(a, d)] == BestBelow(t, a, n).value &&
                forall e :: d < e < n ==> BitPath(a, e) !in t
  {
    if n > 0 {
      BestBelowIsDeepest(t, a, n - 1);
    }
  }

  /** Longest-prefix match: the route at the deepest depth below 32 on the address's path that holds one. */
  lemma LongestMatchIsDeepest(t: Table, a: IPv4)
    ensures LongestMatch(t, a).None? <==> forall d :: 0 <= d < 32 ==> BitPath(a, d) !in t
    ensures LongestMatch(t, a).Some? ==>
              exists d :: 0 <= d < 32 && BitPath(a, d) in t && t[BitPath(a, d)] == LongestMatch(t, a).value &&
                forall e :: d < e < 32 ==> BitPath(a, e) !in t
  {
    BestBelowIsDeepest(t, a, 32);
  }

  /** Depths with no route do not change the deepest route. */
  lemma {:induction false} BestBelowSkips(t: Table, a: IPv4, m: nat, n: nat)
    requires m <= n <= 32
    requires forall d :: m <= d < n ==> BitPath(a, d) !in t
    ensures BestBelow(t, a, n) == BestBelow(t, a, m)
  {
    if m < n {
      BestBelowSkips(t, a, m, n - 1);
    }
  }

  /** A route on the address's path at depth d below 32, with none deeper, is the one lookup returns. */
  lemma MatchAt(t: Table, a: IPv4, d: nat)
    requires d < 32 && BitPath(a, d) in t
    requires forall e :: d < e < 32 ==> BitPath(a, e) !in t
    ensures LongestMatch(t, a) == Some(t[BitPath(a, d)])
  {
    BestBelowSkips(t, a, d + 1, 32);
  }

  /** With a default route (prefix 0) stored, every address has a match. */
  lemma DefaultRouteAlwaysMatches(t: Table, a: IPv4)
    requires [] in t
    ensures LongestMatch(t, a).Some?
  {
    assert BitPath(a, 0) == [];
    LongestMatchIsDeepest(t, a);
  }

  /** An empty table matches nothing. */
  lemma EmptyTableMatchesNothing(a: IPv4)
    ensures LongestMatch(map[], a) == None
  {
    LongestMatchIsDeepest(map[], a);
  }

  /** Adding the same route twice is adding it once. */
  lemma AddedIdempotent(t: Table, r: Route)
    ensures Added(Added(t, r), r) == Added(t, r)
  {
  }

  /**
   * After adding a route with prefix below 32, an address that shares the route's
   * prefix and has no more specific route is answered with the route's gateway.
   */
  lemma AddedRouteMatches(t: Table, r: Route, a: IPv4)
    requires r.prefix < 32 && BitPath(a, r.prefix) == BitPath(r.masked, r.prefix)
    requires forall d :: r.prefix < d < 32 ==> BitPath(a, d) !in t
    ensures LongestMatch(Added(t, r), a) == Some(r.to)
  {
    var t' := Added(t, r);
    forall d | r.prefix + 1 <= d < 32
      ensures BitPath(a, d) !in t'
    {
      assert |BitPath(a, d)| != |BitPath(r.masked, r.prefix)|;
    }
    BestBelowSkips(t', a, r.prefix + 1, 32);
  }
}
