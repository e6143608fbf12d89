# IPv4 longest-prefix-match router, modelled in Dafny

This project models the core of a small Go package that routes IPv4 addresses
by longest-prefix match, and proves properties of that model. The package has
four parts, each modelled in its own module:

- **`Ipv4`** (`ipv4.dfy`) covers addresses as four bytes and the contiguous
  subnet masks of CIDR notation (RFC 4632, section 3.1).
  - `MaskFromPrefix` builds the mask of a prefix length.
  - `IsMask` checks that a value is ones first, then zeros.
  - `MaskWith` and `MaskWithPrefix` AND an address with a checked mask.
  - The loops of the Go code are kept as `for` loops over arrays and variables.
  - The inner loops are factored into their own methods: `LeadingRun` for the
    shift loop of `IsMask`, and `PartialMaskByte` for the doubling loop of
    `MaskFromPrefix`.
- **`Router`** (`router.dfy`) covers the `Route` record and `NewRoute`. The
  latter checks the prefix length and stores the address masked to its prefix.
- **`Lpm`** (`lpm.dfy`) says what a trie means.
  - A trie holds a *table* from bit paths to gateways.
  - `LongestMatch` is the gateway of the deepest path, from 0 to 31 bits of the
    address, that holds one.
  - `Added` and `Dropped` are the effects of adding and dropping a route on
    that table.
- **`Trie`** (`prefix_tree.dfy`) is the binary trie, `PrefixTree`, modelled as
  a class.
  - Its nodes live in an arena, the field `nodes`. A child pointer is a node
    index, and `None` stands for nil.
  - A ghost map `Paths` gives the node reached by each path from the root.
  - `Valid()` says that the nodes form a tree over `Paths`. `Contents()` is the
    table the trie holds.
  - `Add`, `Drop` and `Get` keep the nested `for i` / `for j` loops of the Go
    code. The inner loops are the methods `AddByte`, `DropByte` and `GetByte`.
  - Each operation is proved against `Added`, `Dropped` and `LongestMatch`.
- **`PrefixRouters`** (`prefix_router.dfy`) is the router facade,
  `PrefixRouter`.
  - It holds a trie and an index from gateways to node handles.
  - `Add`, `Drop` and `Get` delegate to the trie.
  - `DropAllTo` clears a gateway from every node that the index lists for it.
- **`Scenarios`** (`scenario.dfy`) replays the test scenarios on the model as
  client methods and lemmas.

The model follows the code as written, including these behaviours:

- **A route with prefix 32 is never stored.** The prefix test in `Add` only
  compares the prefix with depths 0 to 31. For prefix 32 and above, `Add`
  builds the full 32-bit path and stores nothing. `Get` never looks at depth 32.
- **`Drop` takes the `One` edge only when `b >> (7 - j) == 1`.** That holds
  only when no more significant bit of the byte is set. So `Drop` can follow a
  different path from the one `Add` and `Get` use, which test
  `1 & (b >> (7 - j))`.
  - In the trie test, dropping 192.168.0.0/18 misses the node `Add` wrote.
  - 192.168.0.1 therefore still resolves to 2.2.2.2.
  - That test case's name says the address "now goes into the /16", but its
    expected value and the code both give 2.2.2.2. The model follows the code
    (`Scenarios.DropMissesFirstBlock`, `Scenarios.Comprehensive`).
- **`PrefixRouter.Add` does not record anything in the gateway index.**
- **`DropAllTo` dereferences each listed node's route.** Its precondition is
  exactly the condition under which no dereference finds nil.

## Model

| member | source | states |
|---|---|---|
| Ipv4.IsMask | ipv4.go:22-53 | true exactly when the value is the mask of some prefix length from 0 to 32, in both directions |
| Ipv4.LeadingRun | ipv4.go:31-44 | the shift loop accepts a byte below 255 exactly when it is a run of leading ones, and otherwise proves it is no such run |
| Ipv4.NotMaskAtByte | ipv4.go:28-44 | a byte that is not a run of leading ones rules out every mask |
| Ipv4.NotMaskAfterPartial | ipv4.go:46-49 | a non-zero byte after the partial byte rules out every mask |
| Ipv4.MaskOfShape | ipv4.go:24-52 | 255 bytes, then one byte of leading ones, then 0 bytes, form the mask of prefix length 8 * cut + lead |
| Ipv4.PrefixMaskIffOnesThenZeros | ipv4.go:22-53 | a value is the mask of some prefix length iff its 32 bits are ones, then zeros |
| Ipv4.PrefixMaskIsMask | ipv4.go:74-96 | the mask of every prefix length up to 32 has the ones-then-zeros shape that IsMask accepts |
| Ipv4.MaskFromPrefix | ipv4.go:74-96 | an error, carrying the prefix, iff prefix > 32; otherwise the mask of the prefix length |
| Ipv4.PartialMaskByte | ipv4.go:85-92 | 256 - 2^(8 - rem), computed by doubling, is the byte with `rem` leading ones |
| Ipv4.PartialByte | ipv4.go:86-92 | 256 - 2^(8 - rem) fits in a byte and is the byte with `rem` leading ones |
| Ipv4.PrefixMaskFullBytes | ipv4.go:79-83 | the first p / 8 bytes of the mask of p are 255 |
| Ipv4.PrefixMaskZeroBytes | ipv4.go:78-93 | the bytes after byte p / 8 of the mask of p are 0 |
| Ipv4.PrefixMaskOfBytes | ipv4.go:78-95 | full bytes of 255, then the partial byte, then 0 bytes, make exactly the mask of p |
| Ipv4.PrefixMaskBits | ipv4.go:74-96 | bit k of the mask of p, most significant bit first, is set iff k < p |
| Ipv4.MaskWith | ipv4.go:63-72 | None iff the mask is not valid; otherwise the byte-wise AND of address and mask |
| Ipv4.MaskedByBits | ipv4.go:67-71 | bit k of the AND is set iff bit k is set in both address and mask |
| Ipv4.MaskedByIdempotent | ipv4.go:63-72 | masking a masked address again with the same mask changes nothing |
| Ipv4.MaskWithPrefix | ipv4.go:55-61 | None iff prefix > 32; otherwise bit k of the address is kept iff k < prefix, and the result is the address ANDed with the prefix's mask |
| Ipv4.BitsDetermine | ipv4.go:8 | two addresses with the same 32 bits are equal |
| Ipv4.PrefixMaskExamples | ipv4_test.go:14-37 | the masks of 16, 19, 0 and 32 are 255.255.0.0, 255.255.224.0, 0.0.0.0 and 255.255.255.255 |
| Ipv4.IsMaskAcceptsWholeBytes | ipv4_test.go:71-95 | 0.0.0.0, 255.0.0.0, 255.255.0.0, 255.255.255.0 and 255.255.255.255 are masks |
| Ipv4.IsMaskAcceptsPartial | ipv4_test.go:96-105 | 255.254.0.0 and 255.255.192.0 are masks |
| Ipv4.IsMaskRejects | ipv4_test.go:106-161 | 64.0.0.0, 255.1.0.0, 255.160.0.0 and 255.255.64.0 are not masks |
| Router.NewRoute | router.go:10-20 | None iff prefix > 32; address, prefix and gateway stored as passed; bit k of the key is bit k of the address when k < prefix and clear otherwise |
| Router.NewRouteExtremes | router.go:16 | with prefix 32 the key is the address; with prefix 0 it is 0.0.0.0 |
| Router.NewRouteMaskedIsStable | router.go:16 | masking the key again with its own prefix changes nothing |
| Lpm.BitPathStep | prefix_tree.go:37 | Add's test on bit j of byte i extends the path by bit 8 * i + j of the key |
| Lpm.DropPathStep | prefix_tree.go:70 | Drop's test on bit j of byte i extends Drop's path by one step |
| Lpm.DropBitImpliesBit | prefix_tree.go:70 | where Drop takes the `One` edge, Add takes it too |
| Lpm.DropPathDiverges | prefix_tree.go:70 | for 192.168.0.0/18, Drop's path and Add's path differ at the second bit |
| Lpm.BestBelowIsDeepest | prefix_tree.go:96-118 | the best gateway below depth n is None iff no route lies on the path there, and otherwise comes from the deepest route below n |
| Lpm.LongestMatchIsDeepest | prefix_tree.go:91-119 | lookup returns the gateway of the deepest route at depths 0 to 31 on the address's path, and None iff there is none |
| Lpm.BestBelowSkips | prefix_tree.go:99-101 | depths without a route do not change the best gateway found so far |
| Lpm.MatchAt | prefix_tree.go:91-119 | a route at depth d below 32 on the path, with none deeper, is the one lookup returns |
| Lpm.DefaultRouteAlwaysMatches | prefix_tree.go:99-101 | with a route at the root, every lookup finds a gateway |
| Lpm.EmptyTableMatchesNothing | prefix_tree.go:17-19 | an empty trie answers no lookup |
| Lpm.AddedIdempotent | prefix_tree.go:22-52 | adding the same route twice holds the same routes as adding it once |
| Lpm.AddedRouteMatches | prefix_tree.go:22-52 | after adding a route below /32, an address under its prefix with no more specific route resolves to its gateway |
| Trie.GrowKeepsTree | prefix_tree.go:39-48 | linking a new empty node where a child was missing keeps a tree and keeps every route |
| Trie.SetRouteKeepsTree | prefix_tree.go:33 | setting or clearing a node's gateway changes the table at that node's path only |
| Trie.HoldsTable | prefix_tree.go:10-15 | the nodes hold table t exactly when the trie's table is t |
| Trie.ChildIsNext | prefix_tree.go:11-12 | in a tree, a node's child on a side is the node one edge further down, or nil |
| Trie.MissingBelow | prefix_tree.go:105-113 | a path missing from the trie has no route at or below it |
| Trie.PrefixTree.constructor | prefix_tree.go:17-19 | a new trie is a single root with no children and no route, and holds no routes |
| Trie.PrefixTree.Add | prefix_tree.go:22-52 | the trie holds `Added(old table, r)`: r's gateway at r's first `prefix` bits, or nothing new for prefix 32 or more. Every old path keeps its node, and the paths afterwards are exactly the old ones plus every prefix of `r.masked` of 1 to min(prefix, 32) bits, so a prefix of 32 or more leaves the whole 32-bit path in place. At most min(prefix, 32) nodes are created |
| Trie.PrefixTree.AddByte | prefix_tree.go:26-50 | one byte of Add's walk: it stores the route if the prefix ends in this byte, and otherwise reaches the node of the first 8 * i + 8 bits. Every old path keeps its node, and the new paths are exactly the prefixes of `r.masked` longer than 8 * i bits and at most as long as where the walk stopped |
| Trie.PrefixTree.Descend | prefix_tree.go:37-49 | steps to the child on the bit's side, creating it only if missing: an existing child leaves the nodes unchanged, a missing one adds exactly one node and just that one path |
| Trie.PrefixTree.Grow | prefix_tree.go:39-41 | appends one empty node and links it as the missing child |
| Trie.PrefixTree.SetRoute | prefix_tree.go:33 | the table afterwards has the gateway at that path, or no entry there when cleared; the shape is unchanged |
| Trie.PrefixTree.Drop | prefix_tree.go:58-87 | the trie holds `Dropped(old table, r)`: the entry at the end of Drop's path is removed if that path exists. No node is created and the shape is unchanged |
| Trie.PrefixTree.DropByte | prefix_tree.go:63-85 | one byte of Drop's walk: it clears the route, or stops at a missing child having removed nothing, or reaches the node of Drop's first 8 * i + 8 bits |
| Trie.PrefixTree.DropMissing | prefix_tree.go:72-82 | when Drop's path stops at a missing child, dropping removes nothing |
| Trie.PrefixTree.Get | prefix_tree.go:91-119 | returns the longest match of the address in the trie's table, without changing the trie |
| Trie.PrefixTree.GetByte | prefix_tree.go:96-117 | one byte of Get's walk: the best gateway at the depths seen, or the final answer at a missing child |
| Trie.PrefixTree.GetMissing | prefix_tree.go:105-113 | at a missing child no deeper route exists, so the best so far is the longest match |
| PrefixRouters.Cleared | prefix_router.go:21-25 | listed nodes no longer hold the gateway; unlisted nodes, nodes holding another gateway and all child links are unchanged |
| PrefixRouters.WithoutRoutesTo | prefix_router.go:21-25 | the table loses exactly its entries at listed paths that route to the gateway, and nothing else |
| PrefixRouters.ClearedKeepsTree | prefix_router.go:21-25 | clearing gateways keeps the tree shape |
| PrefixRouters.ClearedContents | prefix_router.go:21-25 | clearing the listed nodes removes exactly the table entries at their paths that route to the gateway |
| PrefixRouters.ClearedStep | prefix_router.go:21-24 | each visit reaches a node that still holds its original gateway, so the dereference is safe and the cleared set grows by that node |
| PrefixRouters.PrefixRouter.constructor | prefix_router.go:3-6 | a router over a given trie and gateway index, stored as given |
| PrefixRouters.PrefixRouter.Add | prefix_router.go:8-10 | the trie's effect exactly as PrefixTree.Add: the same table, the same new paths along `r.masked` with every old path kept, and the same bound on created nodes; the index is unchanged |
| PrefixRouters.PrefixRouter.Drop | prefix_router.go:12-14 | the trie's effect exactly as PrefixTree.Drop: the same table, with paths and node count unchanged; the index is unchanged |
| PrefixRouters.PrefixRouter.Get | prefix_router.go:28-30 | the longest match in the trie |
| PrefixRouters.PrefixRouter.DropAllTo | prefix_router.go:16-26 | for a gateway not in the index, nothing changes. Otherwise exactly the listed nodes holding the gateway lose it, and the table loses exactly those entries. Paths, child links and the index are unchanged |
| Scenarios.ScenarioRoutes | prefix_tree_test.go:14-19 | NewRoute builds the scenario's routes with keys equal to their already-masked addresses |
| Scenarios.ScenarioPaths | prefix_tree_test.go:30-47 | which looked-up addresses share the /16 and /18 paths of the routes, and where the others leave them |
| Scenarios.FourRoutesLookups | prefix_tree_test.go:24-49 | after the four routes: 192.168.0.1 gives 2.2.2.2, 192.168.127.255 gives 3.3.3.3, 192.168.192.1 gives 1.1.1.1, and 10.0.0.0 gives none |
| Scenarios.DropMissesFirstBlock | prefix_tree_test.go:64-68 | adding 0.0.0.0/0 and then dropping 192.168.0.0/18 leaves the four routes plus the default route |
| Scenarios.AfterDropLookups | prefix_tree_test.go:69-94 | afterwards 192.168.0.1 still gives 2.2.2.2, and 10.0.0.0 gives 9.0.0.0 |
| Scenarios.Comprehensive | prefix_tree_test.go:7-109 | the whole scenario on a trie yields the eight expected lookup results |
| Scenarios.FreshTreeFindsNothing | prefix_tree.go:17-19 | Get on a new trie returns none for every address |
| Scenarios.MaskWithNonMask | ipv4_test.go:156-161 | masking with 255.255.64.0 yields none |
| Scenarios.PrefixMaskPassesIsMask | ipv4.go:74-96 | IsMask accepts what MaskFromPrefix returns for every prefix up to 32 |

## Left out

- `IPv4FromString` (ipv4.go:10-20) is not modelled: it delegates to the standard library's address parser, whose byte layout is outside this model.
- The debug rendering `String` and `string` (prefix_tree.go:121-152) is formatting only.
- The `log.Printf` notice when `Add` overwrites a gateway (prefix_tree.go:30-32) is a logging side effect.
- The `Router` interface (router.go:22-31) has no behaviour of its own. Its operations are modelled on `PrefixRouter`.
- The error text of `MaskFromPrefix` is not modelled. The error is the value `PrefixTooLong(prefix)`.
- Addresses are values, not `*IPv4` pointers. A stored gateway therefore does not alias the route's `To` field, and `Get` returns a value.
- Trie nodes are records in an arena owned by the trie, not separate heap objects. A pointer is a node index, so sharing nodes between tries is not modelled.
  - The router's index holds indices into its own trie's arena.
- Go's `uint8` counters in the trie loops (`i * 8`, `j + pastByteBits`) never exceed 31, so unbounded integers behave the same.
- Trie.PrefixTree.Add: a second identical `Add` is shown to hold the same routes (`Lpm.AddedIdempotent`). It is not shown to leave the node sequence itself unchanged.
- PrefixRouters.PrefixRouter.constructor: a `PrefixRouter` whose trie pointer is nil is not modelled; in Go it panics on `Add`, `Drop` and `Get`, while `DropAllTo` does not touch the trie pointer. A router is always built over an existing trie.
- PrefixRouters.PrefixRouter.DropAllTo: the index is assumed to name nodes of the router's own trie, and the precondition rules out the runs that would dereference nil. The Go code would panic on those runs.
