/** Overlay address derivation (internal/mesh/crypto.go): 32-bit masks and prefixes. */
module Overlay {
  import opened Wrappers

  /** `uint32(1)<<(32-ones) - 1`: at /0 the shift overflows to 0 and the subtraction wraps to all ones. */
  function HostMask(ones: nat): bv32
    requires ones <= 32
  {
    ((1 as bv32) << (32 - ones)) - 1
  }

  function NetMask(ones: nat): bv32
    requires ones <= 32
  {
    !HostMask(ones)
  }

  /** `ip` lies in the CIDR block `base`/`ones`. */
  predicate InBlock(ip: bv32, base: bv32, ones: nat)
    requires ones <= 32
  {
    ip & NetMask(ones) == base & NetMask(ones)
  }

  /** An IPv4 CIDR; a mask that is not IPv4 or is longer than /30 is refused. */
  datatype Cidr = Cidr(isV4: bool, base: bv32, ones: nat, bits: nat)

  function HostBits(hash: bv32, ones: nat): bv32
    requires ones <= 32
  {
    hash & HostMask(ones)
  }

  function Joined(base: bv32, host: bv32): bv32 {
    base | host
  }

  /** The bits of `host` that the base leaves free. */
  function FreeBits(base: bv32, host: bv32): bv32 {
    host & !base
  }

  predicate Usable(cidr: Cidr) {
    cidr.isV4 && cidr.bits == 32 && cidr.ones <= 30
  }

  function OverlayIP(cidr: Cidr, hash: bv32): Option<bv32> {
    if !Usable(cidr) then None
    else Some(Joined(cidr.base, HostBits(hash, cidr.ones)))
  }

  lemma NetBitsKept(base: bv32, h: bv32, m: bv32)
    ensures (base | (h & m)) & !m == base & !m
  {
  }

  lemma HostBitsKept(base: bv32, h: bv32, m: bv32)
    ensures HostPart(base | (h & m), base | h, m)
  {
  }

  lemma FreeBitsKept(base: bv32, host: bv32)
    ensures FreeBits(base, Joined(base, host)) == FreeBits(base, host)
    ensures Joined(base, FreeBits(base, host)) == Joined(base, host)
  {
  }

  lemma FreeBitsOfCanonical(base: bv32, h: bv32, m: bv32)
    requires base & m == 0
    ensures FreeBits(base, h & m) == h & m
  {
  }

  /** There is an address in IPv4 blocks from /0 to /30 and in no other, and it lies inside the block. */
  lemma OverlayInsideCidr(cidr: Cidr, hash: bv32)
    ensures OverlayIP(cidr, hash).Some? <==> cidr.isV4 && cidr.bits == 32 && cidr.ones <= 30
    ensures OverlayIP(cidr, hash).Some? ==> InBlock(OverlayIP(cidr, hash).value, cidr.base, cidr.ones)
  {
    if Usable(cidr) {
      hide HostMask;
      NetBitsKept(cidr.base, hash, HostMask(cidr.ones));
    }
  }

  /** Its host bits are those set in the base or in the hash. */
  lemma OverlayHostPart(cidr: Cidr, hash: bv32)
    requires OverlayIP(cidr, hash).Some?
    ensures HostPart(OverlayIP(cidr, hash).value, cidr.base | hash, HostMask(cidr.ones))
  {
    hide HostMask, HostPart;
    HostBitsKept(cidr.base, hash, HostMask(cidr.ones));
  }

  /** The two agree on the bits of the mask. */
  predicate HostPart(v: bv32, w: bv32, mask: bv32) {
    v & mask == w & mask
  }

  /** Two nodes collide exactly when their hashes agree on the host bits the base leaves free. */
  lemma OverlayCollisions(cidr: Cidr, h1: bv32, h2: bv32)
    requires OverlayIP(cidr, h1).Some?
    ensures OverlayIP(cidr, h1) == OverlayIP(cidr, h2) <==>
            FreeBits(cidr.base, HostBits(h1, cidr.ones)) == FreeBits(cidr.base, HostBits(h2, cidr.ones))
  {
    hide Joined, FreeBits, HostBits;
    FreeBitsKept(cidr.base, HostBits(h1, cidr.ones));
    FreeBitsKept(cidr.base, HostBits(h2, cidr.ones));
  }

  /** In a canonical CIDR those are all the host bits. */
  lemma CanonicalOverlayCollisions(cidr: Cidr, h1: bv32, h2: bv32)
    requires OverlayIP(cidr, h1).Some? && HostBits(cidr.base, cidr.ones) == 0
    ensures OverlayIP(cidr, h1) == OverlayIP(cidr, h2) <==> HostBits(h1, cidr.ones) == HostBits(h2, cidr.ones)
  {
    OverlayCollisions(cidr, h1, h2);
    CanonicalFree(cidr, h1);
    CanonicalFree(cidr, h2);
    hide Joined, FreeBits, HostBits;
  }

  lemma CanonicalFree(cidr: Cidr, h: bv32)
    requires cidr.ones <= 32 && HostBits(cidr.base, cidr.ones) == 0
    ensures FreeBits(cidr.base, HostBits(h, cidr.ones)) == HostBits(h, cidr.ones)
  {
    hide HostMask;
    FreeBitsOfCanonical(cidr.base, h, HostMask(cidr.ones));
  }

  lemma SlashZero(hash: bv32, base: bv32)
    ensures HostMask(0) == 0xFFFF_FFFF
    ensures InBlock(hash, base, 0)
  {
    assert (1 as bv32) << 32 == 0;
  }

  // ----- Private ranges -----

  function Word(b: seq<bv8>): bv32
    requires |b| == 4
  {
    (b[0] as bv32 << 24) | (b[1] as bv32 << 16) | (b[2] as bv32 << 8) | b[3] as bv32
  }

  /** The 4-byte form of an address, if it is IPv4 or IPv4-mapped. */
  function To4(ip: seq<bv8>): Option<seq<bv8>> {
    if |ip| == 4 then Some(ip)
    else if |ip| == 16 && (forall i :: 0 <= i < 10 ==> ip[i] == 0) && ip[10] == 0xFF && ip[11] == 0xFF then Some(ip[12..])
    else None
  }

  predicate IsPrivateIP(ip: seq<bv8>) {
    var p := To4(ip);
    && p.Some?
    && var b := p.value;
       || b[0] == 10
       || (b[0] == 172 && b[1] >= 16 && b[1] <= 31)
       || (b[0] == 192 && b[1] == 168)
       || (b[0] == 100 && b[1] >= 64 && b[1] <= 127)
  }

  lemma PrivateBytes(b0: bv8, b1: bv8, b2: bv8, b3: bv8)
    ensures var w := (b0 as bv32 << 24) | (b1 as bv32 << 16) | (b2 as bv32 << 8) | b3 as bv32;
            && (w & 0xFF00_0000 == 0x0A00_0000 <==> b0 == 10)
            && (w & 0xFFF0_0000 == 0xAC10_0000 <==> b0 == 172 && b1 >= 16 && b1 <= 31)
            && (w & 0xFFFF_0000 == 0xC0A8_0000 <==> b0 == 192 && b1 == 168)
            && (w & 0xFFC0_0000 == 0x6440_0000 <==> b0 == 100 && b1 >= 64 && b1 <= 127)
  {
  }

  lemma PrivateMasks()
    ensures NetMask(8) == 0xFF00_0000 && NetMask(12) == 0xFFF0_0000 && NetMask(16) == 0xFFFF_0000 && NetMask(10) == 0xFFC0_0000
  {
    assert (1 as bv32) << 24 == 0x0100_0000;
    assert (1 as bv32) << 20 == 0x0010_0000;
    assert (1 as bv32) << 16 == 0x0001_0000;
    assert (1 as bv32) << 22 == 0x0040_0000;
  }

  /**
    Membership in 10.0.0.0/8, 172.16.0.0/12 or 192.168.0.0/16 (section 3 of
    RFC 1918) or 100.64.0.0/10 (section 7 of RFC 6598).
   */
  ghost predicate InPrivateBlock(w: bv32) {
    || InBlock(w, 0x0A00_0000, 8) || InBlock(w, 0xAC10_0000, 12)
    || InBlock(w, 0xC0A8_0000, 16) || InBlock(w, 0x6440_0000, 10)
  }

  /**
    The byte tests are that membership, of an address in its four bytes or in
    the sixteen of an IPv4-mapped one (section 2.5.5.2 of RFC 4291).
   */
  lemma PrivateIsPrefixMembership(ip: seq<bv8>)
    ensures |ip| == 4 ==> (IsPrivateIP(ip) <==> InPrivateBlock(Word(ip)))
    ensures |ip| == 16 ==>
              (IsPrivateIP(ip) <==>
               (forall i :: 0 <= i < 10 ==> ip[i] == 0) && ip[10] == 0xFF && ip[11] == 0xFF && InPrivateBlock(Word(ip[12..])))
    ensures |ip| != 4 && |ip| != 16 ==> !IsPrivateIP(ip)
  {
    if |ip| == 4 { PrivateWord(ip); }
    if |ip| == 16 { PrivateWord(ip[12..]); }
    hide InPrivateBlock, Word;
  }

  lemma PrivateWord(b: seq<bv8>)
    requires |b| == 4
    ensures IsPrivateIP(b) <==> InPrivateBlock(Word(b))
  {
    PrivateMasks();
    PrivateBytes(b[0], b[1], b[2], b[3]);
    hide NetMask, HostMask;
  }
}
