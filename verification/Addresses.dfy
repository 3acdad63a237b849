/**
  Where overlay addresses come from (internal/mesh/crypto.go) meets where they
  must be distinct (the spokes' source NAT): addresses as text, derived from
  the hash of a node's key.
 */
module Addresses {
  import opened Wrappers
  import opened Records
  import opened SpokeNat
  import opened Envelopes
  import Overlay
  import Daemons
  import Names

  // ----- Dotted quads -----

  function Byte0(w: bv32): bv32 { (w >> 24) & 0xFF }

  function Byte1(w: bv32): bv32 { (w >> 16) & 0xFF }

  function Byte2(w: bv32): bv32 { (w >> 8) & 0xFF }

  function Byte3(w: bv32): bv32 { w & 0xFF }

  function Octet(b: bv32): nat { b as nat }

  /** `net.IP.String` of an IPv4 address. */
  function Dotted(w: bv32): string {
    Quad(Octet(Byte0(w)), Octet(Byte1(w)), Octet(Byte2(w)), Octet(Byte3(w)))
  }

  function Quad(a: nat, b: nat, c: nat, d: nat): string {
    Decimal(a) + "." + (Decimal(b) + "." + (Decimal(c) + "." + Decimal(d)))
  }

  lemma {:induction false} DecimalHasNoDot(n: nat)
    ensures '.' !in Decimal(n)
  {
    if n >= 10 { DecimalHasNoDot(n / 10); }
  }

  lemma SplitAtFirstDot(s: string, x: string, t: string, y: string)
    requires s + "." + x == t + "." + y && '.' !in s && '.' !in t
    ensures s == t && x == y
  {
    var whole := s + "." + x;
    assert whole[|s|] == '.' && whole[|t|] == '.';
    assert forall k :: 0 <= k < |s| ==> whole[k] == s[k];
    assert forall k :: 0 <= k < |t| ==> whole[k] == t[k];
    assert s == whole[..|s|] && t == whole[..|t|];
    assert x == whole[|s| + 1..] && y == whole[|t| + 1..];
  }

  /** One octet and the rest can be read back. */
  lemma OctetReadBack(a: nat, x: string, b: nat, y: string)
    requires Decimal(a) + "." + x == Decimal(b) + "." + y
    ensures a == b && x == y
  {
    DecimalHasNoDot(a);
    DecimalHasNoDot(b);
    SplitAtFirstDot(Decimal(a), x, Decimal(b), y);
    DecimalInjective(a, b);
  }

  lemma QuadInjective(a: nat, b: nat, c: nat, d: nat, a': nat, b': nat, c': nat, d': nat)
    requires Quad(a, b, c, d) == Quad(a', b', c', d')
    ensures a == a' && b == b' && c == c' && d == d'
  {
    hide Decimal;
    var t, t' := Decimal(c) + "." + Decimal(d), Decimal(c') + "." + Decimal(d');
    OctetReadBack(a, Decimal(b) + "." + t, a', Decimal(b') + "." + t');
    OctetReadBack(b, t, b', t');
    OctetReadBack(c, Decimal(d), c', Decimal(d'));
    DecimalInjective(d, d');
  }

  lemma SameOctet(a: bv32, b: bv32)
    requires Octet(a) == Octet(b)
    ensures a == b
  {
    assert (a as nat) as bv32 == a && (b as nat) as bv32 == b;
  }

  lemma BytesMakeWord(v: bv32, w: bv32)
    requires Byte0(v) == Byte0(w) && Byte1(v) == Byte1(w) && Byte2(v) == Byte2(w) && Byte3(v) == Byte3(w)
    ensures v == w
  {
  }

  /** The text gives the four bytes in decimal, the leading one first. */
  lemma DottedReads(w: bv32)
    ensures Dotted(w) == Decimal(Byte0(w) as nat) + "." + Decimal(Byte1(w) as nat) + "." + Decimal(Byte2(w) as nat) + "." + Decimal(Byte3(w) as nat)
  {
    hide Decimal, Byte0, Byte1, Byte2, Byte3;
    JoinedByDots(Decimal(Byte0(w) as nat), Decimal(Byte1(w) as nat), Decimal(Byte2(w) as nat), Decimal(Byte3(w) as nat));
  }

  /** And they are the bytes of the word. */
  lemma BytesJoin(w: bv32)
    ensures Byte0(w) <= 255 && Byte1(w) <= 255 && Byte2(w) <= 255 && Byte3(w) <= 255
    ensures w == (Byte0(w) << 24) | (Byte1(w) << 16) | (Byte2(w) << 8) | Byte3(w)
  {
  }

  lemma JoinedByDots(a: string, b: string, c: string, d: string)
    ensures a + "." + (b + "." + (c + "." + d)) == a + "." + b + "." + c + "." + d
  {
    assert a + "." + (b + "." + (c + "." + d)) == a + "." + b + "." + (c + "." + d);
    assert a + "." + b + "." + (c + "." + d) == a + "." + b + "." + c + "." + d;
  }

  /** Different addresses have different texts. */
  lemma DottedInjective(v: bv32, w: bv32)
    requires Dotted(v) == Dotted(w)
    ensures v == w
  {
    hide Quad, Octet, Byte0, Byte1, Byte2, Byte3;
    QuadInjective(Octet(Byte0(v)), Octet(Byte1(v)), Octet(Byte2(v)), Octet(Byte3(v)),
                  Octet(Byte0(w)), Octet(Byte1(w)), Octet(Byte2(w)), Octet(Byte3(w)));
    SameOctet(Byte0(v), Byte0(w));
    SameOctet(Byte1(v), Byte1(w));
    SameOctet(Byte2(v), Byte2(w));
    SameOctet(Byte3(v), Byte3(w));
    BytesMakeWord(v, w);
  }

  // ----- Spokes -----

  /** The derivation of a mesh: `hash` stands for the leading 32 bits of the digest of a name's key. */
  function MeshDeriver(psk: string, cidr: Overlay.Cidr, hash: string -> bv32): Deriver {
    Deriver(psk, (name: string) => match Overlay.OverlayIP(cidr, hash(name)) { case Some(w) => Some(Dotted(w)) case None => None })
  }

  /** The two hashes agree on the host bits that the base leaves clear. */
  predicate SameHost(cidr: Overlay.Cidr, h1: bv32, h2: bv32)
    requires cidr.ones <= 32
  {
    Overlay.FreeBits(cidr.base, Overlay.HostBits(h1, cidr.ones)) == Overlay.FreeBits(cidr.base, Overlay.HostBits(h2, cidr.ones))
  }

  lemma DerivedAddress(psk: string, cidr: Overlay.Cidr, hash: string -> bv32, a: string)
    requires Overlay.Usable(cidr) && Names.Valid(Names.Normalize(a))
    ensures OverlayIP(MeshDeriver(psk, cidr, hash), a) == Some(Dotted(Overlay.OverlayIP(cidr, hash(Names.Normalize(a))).value))
  {
    hide Dotted, Names.Normalize, Names.Valid, Overlay.Joined, Overlay.HostBits;
  }

  lemma SameWordIffSameHost(cidr: Overlay.Cidr, h1: bv32, h2: bv32)
    requires Overlay.Usable(cidr)
    ensures Overlay.OverlayIP(cidr, h1).Some? && Overlay.OverlayIP(cidr, h2).Some?
    ensures Overlay.OverlayIP(cidr, h1) == Overlay.OverlayIP(cidr, h2) <==> SameHost(cidr, h1, h2)
  {
    hide Overlay.FreeBits, Overlay.HostBits, Overlay.Joined;
    Overlay.OverlayCollisions(cidr, h1, h2);
  }

  lemma SameAddressIffSameHost(psk: string, cidr: Overlay.Cidr, hash: string -> bv32, a: string, b: string)
    requires Overlay.Usable(cidr) && Names.Valid(Names.Normalize(a)) && Names.Valid(Names.Normalize(b))
    ensures var d := MeshDeriver(psk, cidr, hash);
            && OverlayIP(d, a).Some? && OverlayIP(d, b).Some?
            && (OverlayIP(d, a) == OverlayIP(d, b) <==> SameHost(cidr, hash(Names.Normalize(a)), hash(Names.Normalize(b))))
  {
    DerivedAddress(psk, cidr, hash, a);
    DerivedAddress(psk, cidr, hash, b);
    hide Names.Normalize, Names.Valid, Dotted, Overlay.OverlayIP, OverlayIP, MeshDeriver, SameHost;
    var ha, hb := hash(Names.Normalize(a)), hash(Names.Normalize(b));
    SameWordIffSameHost(cidr, ha, hb);
    var va, vb := Overlay.OverlayIP(cidr, ha).value, Overlay.OverlayIP(cidr, hb).value;
    if Dotted(va) == Dotted(vb) { DottedInjective(va, vb); }
  }

  /**
    The assumption under which the spokes' NAT stays in step, that their
    addresses are pairwise distinct, holds exactly when no two validly named
    spokes have keys whose hashes agree on the host bits.
   */
  lemma DistinctSpokeIPsIff(psk: string, cidr: Overlay.Cidr, hash: string -> bv32, spokes: set<string>)
    requires Overlay.Usable(cidr)
    ensures DistinctIPs(Daemons.SpokeIPs(MeshDeriver(psk, cidr, hash), spokes)) <==>
            forall a, b :: a in spokes && b in spokes && Names.Valid(Names.Normalize(a)) && Names.Valid(Names.Normalize(b)) && a != b ==>
              !SameHost(cidr, hash(Names.Normalize(a)), hash(Names.Normalize(b)))
  {
    var d := MeshDeriver(psk, cidr, hash);
    var ips := Daemons.SpokeIPs(d, spokes);
    forall a, b | Names.Valid(Names.Normalize(a)) && Names.Valid(Names.Normalize(b))
      ensures OverlayIP(d, a).Some? && OverlayIP(d, b).Some?
      ensures OverlayIP(d, a) == OverlayIP(d, b) <==> SameHost(cidr, hash(Names.Normalize(a)), hash(Names.Normalize(b)))
    {
      SameAddressIffSameHost(psk, cidr, hash, a, b);
    }
    assert forall n :: OverlayIP(d, n).Some? ==> Names.Valid(Names.Normalize(n));
    hide Names.Normalize, Names.Valid, OverlayIP, MeshDeriver, SameHost;
    assert forall n :: n in ips <==> n in spokes && OverlayIP(d, n).Some?;
  }
}
