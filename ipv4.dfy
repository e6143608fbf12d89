/**
 * IPv4 addresses as four bytes and the contiguous subnet masks of CIDR
 * prefix/mask notation (RFC 4632, section 3.1): a mask of prefix length p has
 * its p most significant bits set and the other 32 - p bits clear.
 */
module Ipv4 {
  import opened Wrappers

  /** Go's `uint8`, the type of prefix lengths. */
  type Uint8 = x: int | 0 <= x < 256

  /** An address or a mask: four bytes, byte 0 the most significant. */
  type IPv4 = s: seq<bv8> | |s| == 4 witness [0, 0, 0, 0]

  /** The error MaskFromPrefix reports. */
  datatype MaskError = PrefixTooLong(prefix: Uint8)

  /** Bit j of a byte, bit 0 being the most significant, computed as `1 & (b >> (7 - j))`. */
  function ByteBit(b: bv8, j: nat): bool
    requires j < 8
  {
    1 & (b >> (7 - j)) == 1
  }

  /** Bit k of an address, reading byte 0 first and each byte from its most significant bit. */
  function Bit(a: IPv4, k: nat): bool
    requires k < 32
  {
    ByteBit(a[k / 8], k % 8)
  }

  /** The byte whose n most significant bits are set and whose other bits are clear. */
  function LeadingOnes(n: nat): bv8
    requires n <= 8
  {
    (0xFF as bv8) << (8 - n)
  }

  function Clamp8(x: int): (r: nat)
    ensures r <= 8
  {
    if x < 0 then 0 else if x > 8 then 8 else x
  }

  /** The mask of prefix length p, built byte by byte. */
  function PrefixMask(p: nat): IPv4
    requires p <= 32
  {
    [LeadingOnes(Clamp8(p)), LeadingOnes(Clamp8(p - 8)), LeadingOnes(Clamp8(p - 16)), LeadingOnes(Clamp8(p - 24))]
  }

  /** m is the mask of some prefix length. */
  predicate IsPrefixMask(m: IPv4)
  {
    exists p | 0 <= p <= 32 :: m == PrefixMask(p)
  }

  /** Read as 32 bits, m has no set bit after a clear bit: ones first, then zeros. */
  ghost predicate OnesThenZeros(m: IPv4)
  {
    forall k, l :: 0 <= k < l < 32 && Bit(m, l) ==> Bit(m, k)
  }

  /** The byte-wise AND of an address with a mask. */
  function MaskedBy(a: IPv4, m: IPv4): IPv4
  {
    seq(4, u requires 0 <= u < 4 => a[u] & m[u])
  }

  function Pow2(n: nat): (r: nat)
    ensures r >= 1
  {
    if n == 0 then 1 else 2 * Pow2(n - 1)
  }

  // ---------------------------------------------------------------------------
  // Facts about bytes and masks

  lemma PrefixMaskByte(p: nat, u: nat)
    requires p <= 32 && u < 4
    ensures PrefixMask(p)[u] == LeadingOnes(Clamp8(p - 8 * u))
  {
  }

  lemma LeadingOnesInjective(n: nat, n': nat)
    requires n <= 8 && n' <= 8 && LeadingOnes(n) == LeadingOnes(n')
    ensures n == n'
  {
  }

  /** Eight bits determine a byte. */
  lemma ByteBitsDetermine(x: bv8, y: bv8)
    requires forall j :: 0 <= j < 8 ==> ByteBit(x, j) == ByteBit(y, j)
    ensures x == y
  {
    assert ByteBit(x, 0) == ByteBit(y, 0) && ByteBit(x, 1) == ByteBit(y, 1);
    assert ByteBit(x, 2) == ByteBit(y, 2) && ByteBit(x, 3) == ByteBit(y, 3);
    assert ByteBit(x, 4) == ByteBit(y, 4) && ByteBit(x, 5) == ByteBit(y, 5);
    assert ByteBit(x, 6) == ByteBit(y, 6) && ByteBit(x, 7) == ByteBit(y, 7);
  }

  /** Thirty-two bits determine an address. */
  lemma BitsDetermine(a: IPv4, b: IPv4)
    requires forall k :: 0 <= k < 32 ==> Bit(a, k) == Bit(b, k)
    ensures a == b
  {
    forall u | 0 <= u < 4
      ensures a[u] == b[u]
    {
      forall j | 0 <= j < 8
        ensures ByteBit(a[u], j) == ByteBit(b[u], j)
      {
        assert Bit(a, 8 * u + j) == Bit(b, 8 * u + j);
      }
      ByteBitsDetermine(a[u], b[u]);
    }
  }

  lemma ByteBitAnd(x: bv8, y: bv8, z: bv8, j: nat)
    requires j < 8 && z == x & y
    ensures ByteBit(z, j) == (ByteBit(x, j) && ByteBit(y, j))
  {
  }

  lemma LeadingOnesBit(n: nat, j: nat)
    requires n <= 8 && j < 8
    ensures ByteBit(LeadingOnes(n), j) <==> j < n
  {
  }

  lemma MaskedByBit(a: IPv4, m: IPv4, k: nat)
    requires k < 32
    ensures Bit(MaskedBy(a, m), k) == (Bit(a, k) && Bit(m, k))
  {
    var u, j := k / 8, k % 8;
    ByteBitAnd(a[u], m[u], MaskedBy(a, m)[u], j);
  }

  /** Masking keeps bit k of the address exactly when bit k of the mask is set. */
  lemma MaskedByBits(a: IPv4, m: IPv4)
    ensures forall k :: 0 <= k < 32 ==> Bit(MaskedBy(a, m), k) == (Bit(a, k) && Bit(m, k))
  {
    forall k | 0 <= k < 32 {
      MaskedByBit(a, m, k);
    }
  }

  /** Masking twice with the same mask is masking once. */
  lemma MaskedByIdempotent(a: IPv4, m: IPv4)
    ensures MaskedBy(MaskedBy(a, m), m) == MaskedBy(a, m)
  {
    MaskedByBits(a, m);
    MaskedByBits(MaskedBy(a, m), m);
    BitsDetermine(MaskedBy(MaskedBy(a, m), m), MaskedBy(a, m));
  }

  lemma PrefixMaskBit(p: nat, k: nat)
    requires p <= 32 && k < 32
    ensures Bit(PrefixMask(p), k) <==> k < p
  {
    var u, j := k / 8, k % 8;
    PrefixMaskByte(p, u);
    LeadingOnesBit(Clamp8(p - 8 * u), j);
  }

  /** Bit k of the mask of prefix length p is set exactly when k < p. */
  lemma PrefixMaskBits(p: nat)
    requires p <= 32
    ensures forall k :: 0 <= k < 32 ==> (Bit(PrefixMask(p), k) <==> k < p)
  {
    forall k | 0 <= k < 32 {
      PrefixMaskBit(p, k);
    }
  }

  lemma PartialByte(rem: nat)
    requires rem < 8
    ensures 0 <= 256 - Pow2(8 - rem) < 256
    ensures (256 - Pow2(8 - rem)) as bv8 == LeadingOnes(rem)
  {
    assert Pow2(1) == 2 && Pow2(2) == 4 && Pow2(3) == 8 && Pow2(4) == 16;
    assert Pow2(5) == 32 && Pow2(6) == 64 && Pow2(7) == 128 && Pow2(8) == 256;
  }

  /** The first `full` bytes of the mask of prefix length 8 * full + rem are 255. */
  lemma PrefixMaskFullBytes(p: nat, full: nat, rem: nat)
    requires p <= 32 && rem < 8 && p == 8 * full + rem
    ensures forall u :: 0 <= u < full ==> PrefixMask(p)[u] == 0xFF
  {
    assert LeadingOnes(8) == 0xFF;
    forall u | 0 <= u < full
      ensures PrefixMask(p)[u] == 0xFF
    {
      PrefixMaskByte(p, u);
      assert Clamp8(p - 8 * u) == 8;
    }
  }

  /** The bytes after byte `full` of the mask of prefix length 8 * full + rem are 0. */
  lemma PrefixMaskZeroBytes(p: nat, full: nat, rem: nat)
    requires p <= 32 && rem < 8 && p == 8 * full + rem
    ensures forall u :: full < u < 4 ==> PrefixMask(p)[u] == 0
  {
    assert LeadingOnes(0) == 0;
    forall u | full < u < 4
      ensures PrefixMask(p)[u] == 0
    {
      PrefixMaskByte(p, u);
      assert Clamp8(p - 8 * u) == 0;
    }
  }

  /** A value with `full` bytes of ones, then the mask's own partial byte, then zero bytes is the mask of 8*full+rem. */
  lemma PrefixMaskOfBytes(p: nat, full: nat, rem: nat, m: IPv4)
    requires p <= 32 && rem < 8 && p == 8 * full + rem
    requires forall u :: 0 <= u < full && u < 4 ==> m[u] == 0xFF
    requires full < 4 ==> m[full] == PrefixMask(p)[full]
    requires forall u :: full < u < 4 ==> m[u] == 0
    ensures m == PrefixMask(p)
  {
    PrefixMaskFullBytes(p, full, rem);
    PrefixMaskZeroBytes(p, full, rem);
    forall u | 0 <= u < 4
      ensures m[u] == PrefixMask(p)[u]
    {
    }
  }

  /** The index of the first clear bit at or after k, or 32 if there is none. */
  function FirstClear(m: IPv4, k: nat): (r: nat)
    requires k <= 32
    ensures k <= r <= 32
    ensures forall i :: k <= i < r ==> Bit(m, i)
    ensures r < 32 ==> !Bit(m, r)
    decreases 32 - k
  {
    if k == 32 then 32 else if !Bit(m, k) then k else FirstClear(m, k + 1)
  }

  /** A value is the mask of some prefix length exactly when its bits are ones, then zeros. */
  lemma PrefixMaskIffOnesThenZeros(m: IPv4)
    ensures IsPrefixMask(m) <==> OnesThenZeros(m)
  {
    if IsPrefixMask(m) {
      var p :| 0 <= p <= 32 && m == PrefixMask(p);
      PrefixMaskBits(p);
    }
    if OnesThenZeros(m) {
      var p := FirstClear(m, 0);
      PrefixMaskBits(p);
      forall k | 0 <= k < 32
        ensures Bit(m, k) == Bit(PrefixMask(p), k)
      {
        if p < k {
          assert !Bit(m, p);
        }
      }
      BitsDetermine(m, PrefixMask(p));
    }
  }

  /** Every mask of a prefix length from 0 to 32 is valid. */
  lemma PrefixMaskIsMask(p: nat)
    requires p <= 32
    ensures OnesThenZeros(PrefixMask(p))
  {
    PrefixMaskBits(p);
  }

  // ---------------------------------------------------------------------------
  // Steps of the byte check inside IsMask

  lemma LeadingStep(v: bv8, j: nat)
    requires j < 8 && v & LeadingOnes(j) == LeadingOnes(j)
    requires 128 == ((v << j) & 255) & 128
    ensures v & LeadingOnes(j + 1) == LeadingOnes(j + 1)
  {
  }

  lemma LeadingDone(v: bv8, j: nat)
    requires j < 8 && v & LeadingOnes(j) == LeadingOnes(j)
    requires 0 == (v << j) & 255
    ensures v == LeadingOnes(j)
  {
  }

  lemma LeadingBroken(v: bv8, j: nat)
    requires j < 8 && v & LeadingOnes(j) == LeadingOnes(j)
    requires 128 != ((v << j) & 255) & 128 && 0 != (v << j) & 255
    ensures forall n :: 0 <= n <= 8 ==> v != LeadingOnes(n)
  {
  }

  lemma LeadingAll(v: bv8)
    requires v & LeadingOnes(8) == LeadingOnes(8)
    ensures v == 255
  {
  }

  /** A byte that is not a run of leading ones rules out every mask. */
  lemma NotMaskAtByte(m: IPv4, t: nat)
    requires t < 4
    requires forall n :: 0 <= n <= 8 ==> m[t] != LeadingOnes(n)
    ensures !IsPrefixMask(m)
  {
    forall p | 0 <= p <= 32
      ensures m != PrefixMask(p)
    {
      PrefixMaskByte(p, t);
    }
  }

  /** A non-zero byte after a partial byte rules out every mask. */
  lemma NotMaskAfterPartial(m: IPv4, cut: nat, lead: nat, t: nat)
    requires cut < t < 4 && lead < 8
    requires m[cut] == LeadingOnes(lead) && m[t] != 0
    ensures !IsPrefixMask(m)
  {
    forall p | 0 <= p <= 32
      ensures m != PrefixMask(p)
    {
      PrefixMaskByte(p, cut);
      PrefixMaskByte(p, t);
      if m == PrefixMask(p) {
        LeadingOnesInjective(lead, Clamp8(p - 8 * cut));
      }
    }
  }

  /** Bytes of 255, one byte of `lead` leading ones, then bytes of 0: the mask of prefix 8 * cut + lead. */
  lemma MaskOfShape(m: IPv4, cut: nat, lead: nat)
    requires cut <= 4 && lead <= 8 && (cut == 4 ==> lead == 0)
    requires forall u :: 0 <= u < cut ==> m[u] == 0xFF
    requires cut < 4 ==> m[cut] == LeadingOnes(lead)
    requires forall u :: cut < u < 4 ==> m[u] == 0
    ensures IsPrefixMask(m)
  {
    var p := 8 * cut + lead;
    assert LeadingOnes(8) == 0xFF && LeadingOnes(0) == 0;
    forall u | 0 <= u < 4
      ensures m[u] == PrefixMask(p)[u]
    {
      PrefixMaskByte(p, u);
    }
    assert m == PrefixMask(p);
  }

  /**
   * IsMask's inner loop over the first byte below 255: shifts the byte left one
   * bit at a time until the top bit is clear, and accepts it when what is left is
   * zero, that is when the byte is a run of leading ones.
   */
  method LeadingRun(v: bv8) returns (ok: bool, ghost lead: nat)
    requires v != 255
    ensures ok ==> lead < 8 && v == LeadingOnes(lead)
    ensures !ok ==> forall n :: 0 <= n <= 8 ==> v != LeadingOnes(n)
  {
    lead := 0;
    for j := 0 to 8
      invariant v & LeadingOnes(j) == LeadingOnes(j)
    {
      var shifted := (v << j) & 255;
      var bitIsZero := 128 != shifted & 128;
      var shiftedZero := 0 == shifted;
      if bitIsZero {
        if shiftedZero {
          LeadingDone(v, j);
          return true, j;
        } else {
          LeadingBroken(v, j);
          return false, 0;
        }
      }
      LeadingStep(v, j);
    }
    LeadingAll(v);
    assert false;
  }

  /** Whether m is a valid subnet mask: 255 bytes, then at most one byte of leading ones, then 0 bytes. */
  method IsMask(m: IPv4) returns (ok: bool)
    ensures ok <==> IsPrefixMask(m)
  {
    var ones := true;
    ghost var cut: nat := 0;   // the byte where the ones ended
    ghost var lead: nat := 0;  // how many ones that byte holds
    for t := 0 to 4
      invariant ones ==> forall u :: 0 <= u < t ==> m[u] == 0xFF
      invariant !ones ==> cut < t && lead < 8 && m[cut] == LeadingOnes(lead)
      invariant !ones ==> forall u :: 0 <= u < cut ==> m[u] == 0xFF
      invariant !ones ==> forall u :: cut < u < t ==> m[u] == 0
    {
      var v := m[t];
      if ones {
        if v != 255 {
          ones := false;
          cut := t;
          var run;
          run, lead := LeadingRun(v);
          if !run {
            NotMaskAtByte(m, t);
            return false;
          }
        }
      } else {
        if v != 0 {
          NotMaskAfterPartial(m, cut, lead, t);
          return false;
        }
      }
    }
    if ones {
      MaskOfShape(m, 4, 0);
    } else {
      MaskOfShape(m, cut, lead);
    }
    return true;
  }

  /** The mask of a prefix length, or an error when the length exceeds 32. */
  method MaskFromPrefix(prefix: Uint8) returns (r: Result<IPv4, MaskError>)
    ensures r.Err? <==> prefix > 32
    ensures r.Err? ==> r.error == PrefixTooLong(prefix)
    ensures r.Ok? ==> r.value == PrefixMask(prefix)
  {
    if prefix > 32 {
      return Err(PrefixTooLong(prefix));
    }
    var mask := new bv8[4](_ => 0);
    var numFull := prefix / 8;
    for i := 0 to numFull
      invariant forall u :: 0 <= u < i ==> mask[u] == 0xFF
      invariant forall u :: i <= u < 4 ==> mask[u] == 0
    {
      mask[i] := 255;
    }
    if numFull < 4 {
      var rem := prefix % 8;
      var partial := PartialMaskByte(rem);
      PrefixMaskByte(prefix, numFull);
      assert Clamp8(prefix - 8 * numFull) == rem;
      mask[numFull] := partial;
      assert mask[numFull] == PrefixMask(prefix)[numFull];
    }
    PrefixMaskOfBytes(prefix, numFull, prefix % 8, mask[..]);
    return Ok(mask[..]);
  }

  /** The byte 256 - 2^(8-rem), computed by doubling: the byte whose top `rem` bits are set. */
  method PartialMaskByte(rem: nat) returns (b: bv8)
    requires rem < 8
    ensures b == LeadingOnes(rem)
  {
    var power := 8 - rem;
    var partial := 1;
    for i := 0 to power
      invariant partial == Pow2(i)
    {
      partial := partial * 2;
    }
    PartialByte(rem);
    b := (256 - partial) as bv8;
  }

  /** The address ANDed with the mask, or None when the mask is not valid. */
  method MaskWith(a: IPv4, mask: IPv4) returns (r: Option<IPv4>)
    ensures r.None? <==> !IsPrefixMask(mask)
    ensures r.Some? ==> r.value == MaskedBy(a, mask)
  {
    var ok := IsMask(mask);
    if !ok {
      return None;
    }
    var masked := new bv8[4](_ => 0);
    for j := 0 to 4
      invariant forall u :: 0 <= u < j ==> masked[u] == a[u] & mask[u]
    {
      masked[j] := a[j] & mask[j];
    }
    assert masked[..] == MaskedBy(a, mask);
    return Some(masked[..]);
  }

  /** The address with its bits from position `prefix` on cleared, or None when the prefix exceeds 32. */
  method MaskWithPrefix(a: IPv4, prefix: Uint8) returns (r: Option<IPv4>)
    ensures r.None? <==> prefix > 32
    ensures r.Some? ==> forall k :: 0 <= k < 32 ==> Bit(r.value, k) == (Bit(a, k) && k < prefix)
    ensures r.Some? ==> r.value == MaskedBy(a, PrefixMask(prefix))
  {
    var mask := MaskFromPrefix(prefix);
    if mask.Err? {
      return None;
    }
    assert IsPrefixMask(mask.value);
    r := MaskWith(a, mask.value);
    MaskedByBits(a, mask.value);
    PrefixMaskBits(prefix);
  }

  // ---------------------------------------------------------------------------
  // The cases of ipv4_test.go

  lemma PrefixMaskExamples()
    ensures PrefixMask(16) == [255, 255, 0, 0]
    ensures PrefixMask(19) == [255, 255, 224, 0]
    ensures PrefixMask(0) == [0, 0, 0, 0]
    ensures PrefixMask(32) == [255, 255, 255, 255]
  {
  }

  /** The nine bytes that are runs of leading ones. */
  lemma LeadingOnesTable(n: nat)
    requires n <= 8
    ensures LeadingOnes(n) in {0x00, 0x80, 0xC0, 0xE0, 0xF0, 0xF8, 0xFC, 0xFE, 0xFF}
  {
    assert LeadingOnes(0) == 0x00 && LeadingOnes(1) == 0x80 && LeadingOnes(2) == 0xC0;
    assert LeadingOnes(3) == 0xE0 && LeadingOnes(4) == 0xF0 && LeadingOnes(5) == 0xF8;
    assert LeadingOnes(6) == 0xFC && LeadingOnes(7) == 0xFE && LeadingOnes(8) == 0xFF;
  }

  lemma IsMaskAcceptsWholeBytes()
    ensures IsPrefixMask([0, 0, 0, 0]) && IsPrefixMask([255, 0, 0, 0]) && IsPrefixMask([255, 255, 0, 0])
    ensures IsPrefixMask([255, 255, 255, 0]) && IsPrefixMask([255, 255, 255, 255])
  {
    assert PrefixMask(0) == [0, 0, 0, 0] && PrefixMask(8) == [255, 0, 0, 0];
    assert PrefixMask(16) == [255, 255, 0, 0] && PrefixMask(24) == [255, 255, 255, 0];
    assert PrefixMask(32) == [255, 255, 255, 255];
  }

  lemma IsMaskAcceptsPartial()
    ensures IsPrefixMask([255, 254, 0, 0]) && IsPrefixMask([255, 255, 192, 0])
  {
    assert PrefixMask(15) == [255, 254, 0, 0];
    assert PrefixMask(18) == [255, 255, 192, 0];
  }

  lemma IsMaskRejects()
    ensures !IsPrefixMask([64, 0, 0, 0])
    ensures !IsPrefixMask([255, 1, 0, 0])
    ensures !IsPrefixMask([255, 160, 0, 0])
    ensures !IsPrefixMask([255, 255, 64, 0])
  {
    forall n | 0 <= n <= 8 {
      LeadingOnesTable(n);
    }
    NotMaskAtByte([64, 0, 0, 0], 0);
    NotMaskAtByte([255, 1, 0, 0], 1);
    NotMaskAtByte([255, 160, 0, 0], 1);
    NotMaskAtByte([255, 255, 64, 0], 2);
  }
}
