/**
 * The binary trie that stores routes by prefix. Each node has a `One` and a
 * `Zero` child and possibly a gateway; the edge taken at depth d is bit d of the
 * route's key, most significant bit first.
 *
 * The nodes live in an arena owned by the trie: a child pointer is the index of
 * the child's record, and `None` stands for a nil pointer.
 */
module Trie {
  import opened Wrappers
  import opened Ipv4
  import opened Router
  import opened Lpm

  /** A trie node: its `One` and `Zero` children and its gateway, if any. */
  datatype Node = Node(one: Option<nat>, zero: Option<nat>, route: Option<IPv4>)

  /** A node with no children and no route, as NewPrefixTree allocates it. */
  function NewNode(): (n: Node)
    ensures n.one.None? && n.zero.None? && n.route.None?
  {
    Node(None, None, None)
  }

  /** Every prefix of a path in m is in m. */
  ghost predicate PrefixClosed<V>(m: map<Path, V>)
  {
    forall p, k :: p in m && 0 <= k <= |p| ==> p[..k] in m
  }

  /** Paths p and q of m map to the same value. */
  ghost predicate SameValue<V>(m: map<Path, V>, p: Path, q: Path)
  {
    p in m && q in m && m[p] == m[q]
  }

  /**
   * Distinct paths of m map to distinct values. The quantifier fires only on
   * SameValue, so that proofs that do not compare two nodes never enumerate pairs.
   */
  ghost predicate Injective<V>(m: map<Path, V>)
  {
    forall p, q {:trigger SameValue(m, p, q)} :: SameValue(m, p, q) ==> p == q
  }

  /** The children of the node at p are the nodes one edge further down, or none where there are none. */
  ghost predicate Linked(nodes: seq<Node>, paths: map<Path, nat>, p: Path)
  {
    && p in paths && paths[p] < |nodes|
    && nodes[paths[p]].one == (if p + [true] in paths then Some(paths[p + [true]]) else None)
    && nodes[paths[p]].zero == (if p + [false] in paths then Some(paths[p + [false]]) else None)
  }

  lemma ClosedExtend<V>(m: map<Path, V>, path: Path, bit: bool, v: V)
    requires PrefixClosed(m) && path in m
    ensures PrefixClosed(m[path + [bit] := v])
  {
    var m' := m[path + [bit] := v];
    forall p, k | p in m' && 0 <= k <= |p|
      ensures p[..k] in m'
    {
      if p == path + [bit] {
        if k < |p| {
          assert p[..k] == path[..k];
        } else {
          assert p[..k] == p;
        }
      }
    }
  }

  lemma ClosedNoChild<V>(m: map<Path, V>, c: Path, x: bool)
    requires PrefixClosed(m) && c !in m
    ensures c + [x] !in m
  {
    assert (c + [x])[..|c|] == c;
  }

  /** A path with a missing prefix is missing. */
  lemma ClosedNoExtension<V>(m: map<Path, V>, c: Path, q: Path)
    requires PrefixClosed(m) && c !in m && c <= q
    ensures q !in m
  {
    assert q[..|c|] == c;
  }

  /**
   * The nodes form a tree rooted at index 0: distinct paths lead to distinct
   * nodes, the paths are closed under prefixes and at most 32 long, and each
   * node's children are exactly the nodes one edge further down.
   */
  ghost predicate Tree(nodes: seq<Node>, paths: map<Path, nat>)
  {
    && [] in paths && paths[[]] == 0
    && Injective(paths)
    && PrefixClosed(paths)
    && (forall p :: p in paths ==> |p| <= 32 && paths[p] < |nodes|)
    && (forall p {:trigger Linked(nodes, paths, p)} :: p in paths ==> Linked(nodes, paths, p))
  }

  /** Every path of m leads to the same node in m'. */
  ghost predicate Extends(m: map<Path, nat>, m': map<Path, nat>)
  {
    forall p :: p in m ==> p in m' && m'[p] == m[p]
  }

  /** The paths of the first lo + 1 .. hi bits of an address: those a walk from depth lo to hi passes. */
  ghost function PathsAlong(a: IPv4, lo: nat, hi: nat): set<Path>
    requires hi <= 32
  {
    set k | lo < k <= hi :: BitPath(a, k)
  }

  /** Keys grown along `a` up to depth hi, plus the path one bit longer, are grown along `a` up to hi + 1. */
  lemma KeysStep(k0: set<Path>, k1: set<Path>, k2: set<Path>, a: IPv4, lo: nat, hi: nat)
    requires lo <= hi < 32
    requires k1 == k0 + PathsAlong(a, lo, hi) && k2 == k1 + {BitPath(a, hi + 1)}
    ensures k2 == k0 + PathsAlong(a, lo, hi + 1)
  {
    forall k | lo < k <= hi + 1
      ensures BitPath(a, k) in k2
    {
      if k <= hi {
        assert BitPath(a, k) in PathsAlong(a, lo, hi);
      }
    }
    forall p | p in k1 && p !in k0
      ensures p in PathsAlong(a, lo, hi + 1)
    {
      var k :| lo < k <= hi && p == BitPath(a, k);
    }
  }

  /** Every path of `a` more than lo and at most hi bits long is in m. */
  ghost predicate Walked(m: map<Path, nat>, a: IPv4, lo: nat, hi: nat)
    requires hi <= 32
  {
    forall k :: lo < k <= hi ==> BitPath(a, k) in m
  }

  /** Every path m' has and m has not is a path of `a` more than lo and at most hi bits long. */
  ghost predicate OnlyAlong(m: map<Path, nat>, m': map<Path, nat>, a: IPv4, lo: nat, hi: nat)
    requires hi <= 32
  {
    forall p :: p in m' && p !in m ==> lo < |p| <= hi && p == BitPath(a, |p|)
  }

  /** Two consecutive stretches of a walk along `a`, the second keeping what the first added. */
  lemma AlongJoin(m0: map<Path, nat>, m1: map<Path, nat>, m2: map<Path, nat>, a: IPv4, lo: nat, mid: nat, hi: nat)
    requires lo <= mid <= hi <= 32 && Extends(m1, m2)
    requires Walked(m1, a, lo, mid) && OnlyAlong(m0, m1, a, lo, mid)
    requires Walked(m2, a, mid, hi) && OnlyAlong(m1, m2, a, mid, hi)
    ensures Walked(m2, a, lo, hi) && OnlyAlong(m0, m2, a, lo, hi)
  {
    forall k | lo < k <= hi
      ensures BitPath(a, k) in m2
    {
      if k <= mid {
        assert BitPath(a, k) in m1;
      }
    }
  }

  /** Keys grown by exactly the paths along `a` between lo and hi are walked, and grown only there. */
  lemma KeysWalked(m: map<Path, nat>, m': map<Path, nat>, a: IPv4, lo: nat, hi: nat)
    requires hi <= 32 && m'.Keys == m.Keys + PathsAlong(a, lo, hi)
    ensures Walked(m', a, lo, hi) && OnlyAlong(m, m', a, lo, hi)
  {
    forall k | lo < k <= hi
      ensures BitPath(a, k) in m'
    {
      assert BitPath(a, k) in PathsAlong(a, lo, hi);
    }
    forall p | p in m' && p !in m
      ensures lo < |p| <= hi && p == BitPath(a, |p|)
    {
      var k :| lo < k <= hi && p == BitPath(a, k);
    }
  }

  /** A walk along `a` that keeps every old path adds exactly the paths it passes. */
  lemma AlongKeys(m0: map<Path, nat>, m: map<Path, nat>, a: IPv4, lo: nat, hi: nat)
    requires hi <= 32 && Extends(m0, m)
    requires Walked(m, a, lo, hi) && OnlyAlong(m0, m, a, lo, hi)
    ensures m.Keys == m0.Keys + PathsAlong(a, lo, hi)
  {
    forall p | p in m.Keys && p !in m0.Keys
      ensures p in PathsAlong(a, lo, hi)
    {
      assert p == BitPath(a, |p|);
    }
    forall p | p in PathsAlong(a, lo, hi)
      ensures p in m
    {
      var k :| lo < k <= hi && p == BitPath(a, k);
    }
  }

  /** The routes a tree holds: the gateway of every node that has one, by its path. */
  ghost function TableOf(nodes: seq<Node>, paths: map<Path, nat>): Table
  {
    map p | p in paths && paths[p] < |nodes| && nodes[paths[p]].route.Some? :: nodes[paths[p]].route.value
  }

  /** The nodes hold exactly the routes of t. */
  ghost predicate HoldsIn(nodes: seq<Node>, paths: map<Path, nat>, t: Table)
  {
    && t.Keys <= paths.Keys
    && forall p :: p in paths ==> paths[p] < |nodes| && nodes[paths[p]].route == Lookup(t, p)
  }

  lemma HoldsTable(nodes: seq<Node>, paths: map<Path, nat>, t: Table)
    requires Tree(nodes, paths)
    ensures HoldsIn(nodes, paths, t) <==> TableOf(nodes, paths) == t
  {
    if HoldsIn(nodes, paths, t) {
      assert TableOf(nodes, paths).Keys == t.Keys;
    }
  }

  /**
   * Appending an empty node and linking it below the node at `path` on the `bit`
   * side, where there was no child, keeps a tree and the routes it holds.
   */
  lemma GrowKeepsTree(nodes: seq<Node>, paths: map<Path, nat>, nodes': seq<Node>, path: Path, bit: bool, t: Table)
    requires Tree(nodes, paths) && HoldsIn(nodes, paths, t)
    requires path in paths && |path| < 32
    requires (if bit then nodes[paths[path]].one else nodes[paths[path]].zero) == None
    requires |nodes'| == |nodes| + 1 && nodes'[|nodes|] == NewNode()
    requires forall h :: 0 <= h < |nodes| && h != paths[path] ==> nodes'[h] == nodes[h]
    requires nodes'[paths[path]] ==
               if bit then nodes[paths[path]].(one := Some(|nodes|)) else nodes[paths[path]].(zero := Some(|nodes|))
    ensures path + [bit] !in paths
    ensures Tree(nodes', paths[path + [bit] := |nodes|]) && HoldsIn(nodes', paths[path + [bit] := |nodes|], t)
  {
    var child := path + [bit];
    var paths' := paths[child := |nodes|];
    assert Linked(nodes, paths, path);
    ClosedExtend(paths, path, bit, |nodes|);
    forall p | p in paths'
      ensures Linked(nodes', paths', p)
    {
      if p == child {
        ClosedNoChild(paths, child, true);
        ClosedNoChild(paths, child, false);
      } else {
        assert Linked(nodes, paths, p);
        if paths[p] == paths[path] {
          assert SameValue(paths, p, path);
        }
        if p + [true] == child {
          SnocInjective(p, true, path, bit);
        }
        if p + [false] == child {
          SnocInjective(p, false, path, bit);
        }
      }
    }
    forall p, q | SameValue(paths', p, q)
      ensures p == q
    {
      if p != child && q != child {
        assert SameValue(paths, p, q);
      }
    }
  }

  /** Setting the gateway of the node at `path` stores that gateway at `path` and nothing else. */
  lemma SetRouteKeepsTree(nodes: seq<Node>, paths: map<Path, nat>, path: Path, to: Option<IPv4>, t: Table)
    requires Tree(nodes, paths) && HoldsIn(nodes, paths, t) && path in paths
    ensures Tree(nodes[paths[path] := nodes[paths[path]].(route := to)], paths)
    ensures var t' := if to.Some? then t[path := to.value] else t - {path};
            HoldsIn(nodes[paths[path] := nodes[paths[path]].(route := to)], paths, t')
  {
    var nodes' := nodes[paths[path] := nodes[paths[path]].(route := to)];
    forall p | p in paths
      ensures Linked(nodes', paths, p)
    {
      assert Linked(nodes, paths, p);
    }
    forall p | p in paths && paths[p] == paths[path]
      ensures p == path
    {
      assert SameValue(paths, p, path);
    }
  }

  /** The child of a node on the `bit` side: `One` for true, `Zero` for false. */
  function ChildOf(n: Node, bit: bool): Option<nat>
  {
    if bit then n.one else n.zero
  }

  /** In a tree, a node's child on the `bit` side is the node one edge further down, if any. */
  lemma ChildIsNext(nodes: seq<Node>, paths: map<Path, nat>, path: Path, bit: bool)
    requires Tree(nodes, paths) && path in paths
    ensures ChildOf(nodes[paths[path]], bit) == if path + [bit] in paths then Some(paths[path + [bit]]) else None
  {
    assert Linked(nodes, paths, path);
  }

  /** A path missing from the tree has no route below it on the address's path. */
  lemma MissingBelow(nodes: seq<Node>, paths: map<Path, nat>, a: IPv4, n: nat)
    requires Tree(nodes, paths) && n <= 32 && BitPath(a, n) !in paths
    ensures forall e :: n <= e < 32 ==> BitPath(a, e) !in TableOf(nodes, paths)
  {
    forall e | n <= e < 32
      ensures BitPath(a, e) !in paths
    {
      BitPathPrefix(a, e, n);
      ClosedNoExtension(paths, BitPath(a, n), BitPath(a, e));
    }
  }

  /** Removing a path the tree does not have changes nothing it holds. */
  lemma HoldsWithout(nodes: seq<Node>, paths: map<Path, nat>, t: Table, p: Path)
    requires Tree(nodes, paths) && HoldsIn(nodes, paths, t) && p !in paths
    ensures HoldsIn(nodes, paths, t - {p})
  {
  }

  class PrefixTree {
    /** The node records; index 0 is the root. */
    var nodes: seq<Node>

    /** The index of the node at the end of each path from the root. */
    ghost var Paths: map<Path, nat>

    ghost predicate Valid()
      reads this
    {
      Tree(nodes, Paths)
    }

    /** The routes the trie holds, by path. */
    ghost function Contents(): Table
      reads this
    {
      TableOf(nodes, Paths)
    }

    /** An empty trie: a root with no children and no route. */
    constructor ()
      ensures Valid()
      ensures nodes == [NewNode()] && Paths.Keys == {[]} && Contents() == map[]
    {
      nodes := [NewNode()];
      Paths := map[[] := 0];
    }

    /**
     * Steps from the node at `path` to its child on the `bit` side, creating an
     * empty child first when there is none: the body of Add's inner loop after
     * the prefix test.
     */
    method Descend(current: nat, ghost path: Path, bit: bool, ghost t: Table) returns (next: nat)
      requires Valid() && path in Paths && current == Paths[path] && |path| < 32
      requires HoldsIn(nodes, Paths, t)
      modifies this
      ensures Valid() && HoldsIn(nodes, Paths, t)
      ensures path + [bit] in Paths && next == Paths[path + [bit]]
      ensures Paths.Keys == old(Paths.Keys) + {path + [bit]} && Extends(old(Paths), Paths)
      ensures |old(nodes)| <= |nodes| <= |old(nodes)| + 1
      ensures path + [bit] in old(Paths) ==> nodes == old(nodes)
      ensures path + [bit] !in old(Paths) ==> |nodes| == |old(nodes)| + 1
    {
      ChildIsNext(nodes, Paths, path, bit);
      if ChildOf(nodes[current], bit) == None {
        Grow(current, path, bit, t);
      }
      ChildIsNext(nodes, Paths, path, bit);
      next := ChildOf(nodes[current], bit).value;
    }

    /** Gives the node at `path` a new empty child on the `bit` side, where it has none. */
    method Grow(current: nat, ghost path: Path, bit: bool, ghost t: Table)
      requires Valid() && path in Paths && current == Paths[path] && |path| < 32
      requires (if bit then nodes[current].one else nodes[current].zero) == None
      requires HoldsIn(nodes, Paths, t)
      modifies this
      ensures Valid() && HoldsIn(nodes, Paths, t)
      ensures path + [bit] !in old(Paths) && Paths == old(Paths)[path + [bit] := |old(nodes)|]
      ensures |nodes| == |old(nodes)| + 1
    {
      var node := |nodes|;
      ghost var before := nodes;
      nodes := nodes + [NewNode()];
      if bit {
        nodes := nodes[current := nodes[current].(one := Some(node))];
      } else {
        nodes := nodes[current := nodes[current].(zero := Some(node))];
      }
      GrowKeepsTree(before, Paths, nodes, path, bit, t);
      Paths := Paths[path + [bit] := node];
    }

    /** Sets the gateway of the node at `path`; `None` clears it. */
    method SetRoute(current: nat, ghost path: Path, to: Option<IPv4>, ghost t: Table)
      requires Valid() && path in Paths && current == Paths[path] && HoldsIn(nodes, Paths, t)
      modifies this
      ensures Valid() && Paths == old(Paths) && |nodes| == |old(nodes)|
      ensures HoldsIn(nodes, Paths, if to.Some? then t[path := to.value] else t - {path})
    {
      SetRouteKeepsTree(nodes, Paths, path, to, t);
      nodes := nodes[current := nodes[current].(route := to)];
    }

    /**
     * Inserts a route: walks the first `prefix` bits of `r.masked`, creating
     * missing children, and stores `r.to` at the node reached, replacing any
     * gateway there. A prefix of 32 or more walks all 32 bits and stores nothing.
     */
    method Add(r: Route)
      requires Valid()
      modifies this
      ensures Valid() && Extends(old(Paths), Paths)
      ensures Paths.Keys == old(Paths.Keys) + PathsAlong(r.masked, 0, if r.prefix < 32 then r.prefix else 32)
      ensures |old(nodes)| <= |nodes| <= |old(nodes)| + if r.prefix < 32 then r.prefix else 32
      ensures Contents() == Added(old(Contents()), r)
    {
      var current := 0;
      ghost var path: Path := [];
      ghost var before := Contents();
      HoldsTable(nodes, Paths, before);
      for i := 0 to 4
        invariant Valid() && 8 * i <= r.prefix && Extends(old(Paths), Paths)
        invariant Walked(Paths, r.masked, 0, 8 * i) && OnlyAlong(old(Paths), Paths, r.masked, 0, 8 * i)
        invariant |old(nodes)| <= |nodes| <= |old(nodes)| + 8 * i
        invariant path == BitPath(r.masked, 8 * i) && path in Paths && current == Paths[path]
        invariant HoldsIn(nodes, Paths, before)
      {
        var done;
        ghost var paths := Paths;
        current, path, done := AddByte(r, i, current, path, before);
        if done {
          KeysWalked(paths, Paths, r.masked, 8 * i, r.prefix);
          AlongJoin(old(Paths), paths, Paths, r.masked, 0, 8 * i, r.prefix);
          AlongKeys(old(Paths), Paths, r.masked, 0, r.prefix);
          HoldsTable(nodes, Paths, before[BitPath(r.masked, r.prefix) := r.to]);
          return;
        }
        KeysWalked(paths, Paths, r.masked, 8 * i, 8 * i + 8);
        AlongJoin(old(Paths), paths, Paths, r.masked, 0, 8 * i, 8 * i + 8);
      }
      AlongKeys(old(Paths), Paths, r.masked, 0, 32);
      HoldsTable(nodes, Paths, before);
    }

    /**
     * Add's inner loop over the bits of byte i of `r.masked`, starting at the
     * node for the first 8 * i bits. `done` reports that the route was stored.
     */
    method AddByte(r: Route, i: nat, start: nat, ghost startPath: Path, ghost t: Table)
      returns (current: nat, ghost path: Path, done: bool)
      requires Valid() && i < 4 && 8 * i <= r.prefix
      requires startPath == BitPath(r.masked, 8 * i) && startPath in Paths && start == Paths[startPath]
      requires HoldsIn(nodes, Paths, t)
      modifies this
      ensures Valid() && Extends(old(Paths), Paths)
      ensures |old(nodes)| <= |nodes| <= |old(nodes)| + if done then r.prefix - 8 * i else 8
      ensures done ==> r.prefix < 8 * i + 8 && HoldsIn(nodes, Paths, t[BitPath(r.masked, r.prefix) := r.to])
      ensures !done ==> 8 * i + 8 <= r.prefix && HoldsIn(nodes, Paths, t)
      ensures !done ==> path == BitPath(r.masked, 8 * i + 8) && path in Paths && current == Paths[path]
      ensures Paths.Keys == old(Paths.Keys) + PathsAlong(r.masked, 8 * i, if done then r.prefix else 8 * i + 8)
    {
      current, path := start, startPath;
      ghost var depth := 8 * i;
      var pastByteBits := i * 8;
      for j := 0 to 8
        invariant Valid() && depth == pastByteBits + j <= r.prefix && Extends(old(Paths), Paths)
        invariant Paths.Keys == old(Paths.Keys) + PathsAlong(r.masked, 8 * i, depth)
        invariant |old(nodes)| <= |nodes| <= |old(nodes)| + j
        invariant path == BitPath(r.masked, depth) && path in Paths && current == Paths[path]
        invariant HoldsIn(nodes, Paths, t)
      {
        if r.prefix == j + pastByteBits {
          SetRoute(current, path, Some(r.to), t);
          return current, path, true;
        }
        var bit := ByteBit(r.masked[i], j);
        BitPathStep(r.masked, i, j, depth);
        ghost var keys := Paths.Keys;
        current := Descend(current, path, bit, t);
        KeysStep(old(Paths.Keys), keys, Paths.Keys, r.masked, 8 * i, depth);
        path, depth := path + [bit], depth + 1;
      }
      done := false;
    }

    /**
     * Removes a route: follows Drop's path for the first `prefix` bits of
     * `r.masked` and clears the gateway of the node reached, if the path exists.
     * No node is created or pruned.
     */
    method Drop(r: Route)
      requires Valid()
      modifies this
      ensures Valid() && Paths == old(Paths) && |nodes| == |old(nodes)|
      ensures Contents() == Dropped(old(Contents()), r)
    {
      var current := 0;
      ghost var path: Path := [];
      ghost var before := Contents();
      HoldsTable(nodes, Paths, before);
      for i := 0 to 4
        invariant Valid() && 8 * i <= r.prefix && Paths == old(Paths) && nodes == old(nodes)
        invariant path == DropPath(r.masked, 8 * i) && path in Paths && current == Paths[path]
      {
        var done;
        current, path, done := DropByte(r, i, current, path, before);
        if done {
          HoldsTable(nodes, Paths, Dropped(before, r));
          return;
        }
      }
    }

    /**
     * Drop's inner loop over the bits of byte i of `r.masked`. `done` reports
     * that Drop returned: the gateway was cleared or the path does not exist.
     */
    method DropByte(r: Route, i: nat, start: nat, ghost startPath: Path, ghost t: Table)
      returns (current: nat, ghost path: Path, done: bool)
      requires Valid() && i < 4 && 8 * i <= r.prefix
      requires startPath == DropPath(r.masked, 8 * i) && startPath in Paths && start == Paths[startPath]
      requires HoldsIn(nodes, Paths, t)
      modifies this
      ensures Valid() && Paths == old(Paths) && |nodes| == |old(nodes)|
      ensures done ==> HoldsIn(nodes, Paths, Dropped(t, r))
      ensures !done ==> 8 * i + 8 <= r.prefix && nodes == old(nodes)
      ensures !done ==> path == DropPath(r.masked, 8 * i + 8) && path in Paths && current == Paths[path]
    {
      current, path := start, startPath;
      ghost var depth := 8 * i;
      var pastByteBits := i * 8;
      for j := 0 to 8
        invariant Valid() && depth == pastByteBits + j <= r.prefix && Paths == old(Paths) && nodes == old(nodes)
        invariant path == DropPath(r.masked, depth) && path in Paths && current == Paths[path]
      {
        if r.prefix == j + pastByteBits {
          SetRoute(current, path, None, t);
          return current, path, true;
        }
        var bit := DropByteBit(r.masked[i], j);
        DropPathStep(r.masked, i, j, depth);
        ChildIsNext(nodes, Paths, path, bit);
        var child := ChildOf(nodes[current], bit);
        if child == None {
          DropMissing(r, depth + 1, t);
          return current, path, true;
        }
        current := child.value;
        path, depth := path + [bit], depth + 1;
      }
      done := false;
    }

    /** When Drop's path stops early, there is nothing to drop. */
    lemma DropMissing(r: Route, n: nat, t: Table)
      requires Valid() && HoldsIn(nodes, Paths, t) && n <= r.prefix && n <= 32
      requires DropPath(r.masked, n) !in Paths
      ensures HoldsIn(nodes, Paths, Dropped(t, r))
    {
      if r.prefix < 32 {
        DropPathPrefix(r.masked, r.prefix, n);
        ClosedNoExtension(Paths, DropPath(r.masked, n), DropPath(r.masked, r.prefix));
        HoldsWithout(nodes, Paths, t, DropPath(r.masked, r.prefix));
      }
    }

    /**
     * Longest-prefix lookup: walks the bits of `a`, remembering the gateway of
     * the last node passed that has one, until a child is missing or 32 bits are
     * consumed. The node at depth 32 is never inspected.
     */
    method Get(a: IPv4) returns (lastBest: Option<IPv4>)
      requires Valid()
      ensures lastBest == LongestMatch(Contents(), a)
    {
      lastBest := None;
      var current := 0;
      ghost var path: Path := [];
      for i := 0 to 4
        invariant path == BitPath(a, 8 * i) && path in Paths && current == Paths[path]
        invariant lastBest == BestBelow(Contents(), a, 8 * i)
      {
        var done;
        current, path, lastBest, done := GetByte(a, i, current, path, lastBest);
        if done {
          return;
        }
      }
    }

    /**
     * Get's inner loop over the bits of byte i of `a`. `done` reports that a
     * child was missing, so that `lastBest` is the answer.
     */
    method GetByte(a: IPv4, i: nat, start: nat, ghost startPath: Path, startBest: Option<IPv4>)
      returns (current: nat, ghost path: Path, lastBest: Option<IPv4>, done: bool)
      requires Valid() && i < 4
      requires startPath == BitPath(a, 8 * i) && startPath in Paths && start == Paths[startPath]
      requires startBest == BestBelow(Contents(), a, 8 * i)
      ensures done ==> lastBest == LongestMatch(Contents(), a)
      ensures !done ==> lastBest == BestBelow(Contents(), a, 8 * i + 8)
      ensures !done ==> path == BitPath(a, 8 * i + 8) && path in Paths && current == Paths[path]
    {
      current, path, lastBest := start, startPath, startBest;
      ghost var depth := 8 * i;
      var b := a[i];
      for j := 0 to 8
        invariant depth == 8 * i + j
        invariant path == BitPath(a, depth) && path in Paths && current == Paths[path]
        invariant lastBest == BestBelow(Contents(), a, depth)
      {
        if nodes[current].route.Some? {
          lastBest := nodes[current].route;
        }
        assert lastBest == BestBelow(Contents(), a, depth + 1);
        var bit := ByteBit(b, j);
        BitPathStep(a, i, j, depth);
        ChildIsNext(nodes, Paths, path, bit);
        var child := ChildOf(nodes[current], bit);
        if child == None {
          GetMissing(a, depth + 1);
          return current, path, lastBest, true;
        }
        current := child.value;
        path, depth := path + [bit], depth + 1;
      }
      done := false;
    }

    /** When Get's walk stops early, no deeper route can match. */
    lemma GetMissing(a: IPv4, n: nat)
      requires Valid() && n <= 32 && BitPath(a, n) !in Paths
      ensures BestBelow(Contents(), a, 32) == BestBelow(Contents(), a, n)
    {
      MissingBelow(nodes, Paths, a, n);
      BestBelowSkips(Contents(), a, n, 32);
    }
  }
}
