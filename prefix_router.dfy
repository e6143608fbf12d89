/**
 * A router over a prefix trie, with an index from gateways to the trie nodes
 * that route to them, used to withdraw a gateway everywhere at once.
 */
module PrefixRouters {
  import opened Wrappers
  import opened Ipv4
  import opened Router
  import opened Lpm
  import opened Trie

  /**
   * The nodes listed in `hs` with every gateway `g` cleared; all other nodes,
   * and the children of every node, stay as they are.
   */
  function Cleared(nodes: seq<Node>, hs: seq<nat>, g: IPv4): (r: seq<Node>)
    ensures |r| == |nodes|
    ensures forall h :: 0 <= h < |nodes| ==> r[h].one == nodes[h].one && r[h].zero == nodes[h].zero
    ensures forall h :: 0 <= h < |nodes| && h !in hs ==> r[h] == nodes[h]
    ensures forall h :: 0 <= h < |nodes| && h in hs ==> r[h].route != Some(g)
    ensures forall h :: 0 <= h < |nodes| && nodes[h].route != Some(g) ==> r[h] == nodes[h]
  {
    seq(|nodes|, h requires 0 <= h < |nodes| =>
      if h in hs && nodes[h].route == Some(g) then nodes[h].(route := None) else nodes[h])
  }

  /**
   * Visiting the handles `hs` in order, no visit reads a node without a
   * gateway: every listed node holds one when it is reached, which rules out a
   * node listed twice whose gateway the first visit clears.
   */
  ghost predicate DerefSafe(nodes: seq<Node>, hs: seq<nat>, g: IPv4)
  {
    && (forall k :: 0 <= k < |hs| ==> hs[k] < |nodes| && nodes[hs[k]].route.Some?)
    && (forall k, k' :: 0 <= k < k' < |hs| && hs[k] == hs[k'] ==> nodes[hs[k]].route != Some(g))
  }

  /** The paths whose nodes are listed in `hs`. */
  ghost function ListedPaths(paths: map<Path, nat>, hs: seq<nat>): set<Path>
  {
    set p | p in paths && paths[p] in hs
  }

  /** The table without the entries at `listed` that route to `g`. */
  function WithoutRoutesTo(t: Table, listed: set<Path>, g: IPv4): (r: Table)
    ensures r.Keys <= t.Keys
    ensures forall p :: p in r ==> r[p] == t[p]
    ensures forall p :: p in t ==> (p !in r <==> p in listed && t[p] == g)
  {
    map p | p in t && !(p in listed && t[p] == g) :: t[p]
  }

  /** Clearing routes leaves the shape of the trie, so its invariant, as it was. */
  lemma ClearedKeepsTree(nodes: seq<Node>, paths: map<Path, nat>, hs: seq<nat>, g: IPv4)
    requires Tree(nodes, paths)
    ensures Tree(Cleared(nodes, hs, g), paths)
  {
    var nodes' := Cleared(nodes, hs, g);
    forall p | p in paths
      ensures Linked(nodes', paths, p)
    {
      assert Linked(nodes, paths, p);
    }
  }

  /** Clearing the listed nodes' gateway g removes exactly those routes from the table. */
  lemma ClearedContents(nodes: seq<Node>, paths: map<Path, nat>, hs: seq<nat>, g: IPv4)
    requires Tree(nodes, paths)
    ensures TableOf(Cleared(nodes, hs, g), paths) == WithoutRoutesTo(TableOf(nodes, paths), ListedPaths(paths, hs), g)
  {
    var t := TableOf(nodes, paths);
    var t' := TableOf(Cleared(nodes, hs, g), paths);
    var w := WithoutRoutesTo(t, ListedPaths(paths, hs), g);
    forall p | p in t'
      ensures p in w && t'[p] == w[p]
    {
    }
    forall p | p in w
      ensures p in t'
    {
    }
  }

  /**
   * One visit of DropAllTo's loop: the node it reaches still holds its
   * original gateway, and clearing that gateway when it is g extends the
   * cleared prefix of the handle list by one.
   */
  lemma ClearedStep(nodes: seq<Node>, hs: seq<nat>, k: nat, g: IPv4, cur: seq<Node>)
    requires DerefSafe(nodes, hs, g) && k < |hs| && cur == Cleared(nodes, hs[..k], g)
    ensures hs[k] < |cur| && cur[hs[k]] == nodes[hs[k]]
    ensures Cleared(nodes, hs[..k + 1], g)
      == if nodes[hs[k]].route == Some(g) then cur[hs[k] := nodes[hs[k]].(route := None)] else cur
  {
    var h := hs[k];
    assert hs[..k + 1] == hs[..k] + [h];
    if h in hs[..k] {
      var k' :| 0 <= k' < k && hs[k'] == h;
    }
  }

  class PrefixRouter {
    /** The trie holding the routes. */
    var tree: PrefixTree

    /** For each gateway, handles of trie nodes that route to it. */
    var routes: map<IPv4, seq<nat>>

    ghost predicate Valid()
      reads this, tree
    {
      && tree.Valid()
      && forall g, h :: g in routes && h in routes[g] ==> h < |tree.nodes|
    }

    /** A router over an existing trie and gateway index. */
    constructor (tree: PrefixTree, routes: map<IPv4, seq<nat>>)
      requires tree.Valid()
      requires forall g, h :: g in routes && h in routes[g] ==> h < |tree.nodes|
      ensures Valid() && this.tree == tree && this.routes == routes
    {
      this.tree := tree;
      this.routes := routes;
    }

    /**
     * Inserts a route into the trie, creating the missing nodes on its path;
     * the gateway index is left as it is.
     */
    method Add(r: Route)
      requires Valid()
      modifies tree
      ensures Valid() && tree == old(tree) && routes == old(routes)
      ensures Extends(old(tree.Paths), tree.Paths)
      ensures tree.Paths.Keys == old(tree.Paths.Keys) + PathsAlong(r.masked, 0, if r.prefix < 32 then r.prefix else 32)
      ensures |old(tree.nodes)| <= |tree.nodes| <= |old(tree.nodes)| + if r.prefix < 32 then r.prefix else 32
      ensures tree.Contents() == Added(old(tree.Contents()), r)
    {
      tree.Add(r);
    }

    /**
     * Removes a route from the trie without creating or pruning nodes; the
     * gateway index is left as it is.
     */
    method Drop(r: Route)
      requires Valid()
      modifies tree
      ensures Valid() && tree == old(tree) && routes == old(routes)
      ensures tree.Paths == old(tree.Paths) && |tree.nodes| == |old(tree.nodes)|
      ensures tree.Contents() == Dropped(old(tree.Contents()), r)
    {
      tree.Drop(r);
    }

    /** The gateway of the longest stored prefix of the address. */
    method Get(a: IPv4) returns (gateway: Option<IPv4>)
      requires Valid()
      ensures gateway == LongestMatch(tree.Contents(), a)
    {
      gateway := tree.Get(a);
    }

    /**
     * Withdraws gateway g: clears it from every node the index lists for g.
     * A gateway the index does not know changes nothing.
     */
    method DropAllTo(g: IPv4)
      requires Valid()
      requires g in routes ==> DerefSafe(tree.nodes, routes[g], g)
      modifies tree
      ensures Valid() && tree == old(tree) && routes == old(routes) && tree.Paths == old(tree.Paths)
      ensures g !in routes ==> tree.nodes == old(tree.nodes)
      ensures g in routes ==> tree.nodes == Cleared(old(tree.nodes), routes[g], g)
      ensures g in routes ==> tree.Contents() == WithoutRoutesTo(old(tree.Contents()), ListedPaths(tree.Paths, routes[g]), g)
    {
      if g !in routes {
        return;
      }
      var hs := routes[g];
      ghost var before := tree.nodes;
      for k := 0 to |hs|
        invariant tree.Paths == old(tree.Paths) && routes == old(routes)
        invariant tree.nodes == Cleared(before, hs[..k], g)
      {
        var h := hs[k];
        ClearedStep(before, hs, k, g, tree.nodes);
        var node := tree.nodes[h];
        if node.route.value == g {
          tree.nodes := tree.nodes[h := node.(route := None)];
        }
      }
      assert hs[..|hs|] == hs;
      ClearedKeepsTree(before, tree.Paths, hs, g);
      ClearedContents(before, tree.Paths, hs, g);
    }
  }
}
