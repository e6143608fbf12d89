/** Routes: an address, its prefix length, the address masked to that prefix, and a gateway. */
module Router {
  import opened Wrappers
  import opened Ipv4

  /**
   * A route. `masked` is the key the trie stores the route under; `to` is the
   * gateway it forwards to.
   */
  datatype Route = Route(address: IPv4, masked: IPv4, prefix: Uint8, to: IPv4)

  /**
   * A route to `to` for the `prefix` leading bits of `address`, or None when the
   * prefix length exceeds 32. The masked key is the address masked with the mask
   * of the prefix length, as MaskWithPrefix computes it.
   */
  function NewRoute(address: IPv4, prefix: Uint8, to: IPv4): (r: Option<Route>)
    ensures r.None? <==> prefix > 32
    ensures r.Some? ==> r.value.address == address && r.value.prefix == prefix && r.value.to == to
    ensures r.Some? ==> forall k :: 0 <= k < 32 ==> Bit(r.value.masked, k) == (Bit(address, k) && k < prefix)
  {
    if prefix > 32 then
      None
    else
      MaskedByBits(address, PrefixMask(prefix));
      PrefixMaskBits(prefix);
      Some(Route(address, MaskedBy(address, PrefixMask(prefix)), prefix, to))
  }

  /** With prefix 32 the key is the address itself; with prefix 0 it is 0.0.0.0. */
  lemma NewRouteExtremes(address: IPv4, to: IPv4)
    ensures NewRoute(address, 32, to).Some? && NewRoute(address, 32, to).value.masked == address
    ensures NewRoute(address, 0, to).Some? && NewRoute(address, 0, to).value.masked == [0, 0, 0, 0]
  {
    BitsDetermine(NewRoute(address, 32, to).value.masked, address);
    BitsDetermine(NewRoute(address, 0, to).value.masked, [0, 0, 0, 0]);
  }

  /** The key of a route is already masked: masking it again with its own prefix changes nothing. */
  lemma NewRouteMaskedIsStable(address: IPv4, prefix: Uint8, to: IPv4)
    requires prefix <= 32
    ensures MaskedBy(NewRoute(address, prefix, to).value.masked, PrefixMask(prefix))
            == NewRoute(address, prefix, to).value.masked
  {
    var m := NewRoute(address, prefix, to).value.masked;
    MaskedByBits(m, PrefixMask(prefix));
    PrefixMaskBits(prefix);
    BitsDetermine(MaskedBy(m, PrefixMask(prefix)), m);
  }
}
