/** The address helpers of the rcvinsapi library, a second copy of the
    rc_dynamics_api ones. The shifts are written here as repeated doubling
    (`x << k`), the rc_dynamics_api model multiplies by powers of two, and
    the two copies are proved to agree on every input. */
module VinsNetUtils {
  import opened Common
  import NetUtils

  /** `x << k` on a 32-bit word, for any int operand. */
  function ShiftLeft(x: int, k: nat): NetUtils.uint32
  {
    NetUtils.Wrap(NetUtils.Shl(NetUtils.Wrap(x), k))
  }

  /** `a << 24 | b << 16 | c << 8 | d` on 32-bit words. */
  function ShiftCompose(a: int, b: int, c: int, d: int): NetUtils.uint32
  {
    var hi := ShiftLeft(a, 24);
    var b2 := ShiftLeft(b, 16);
    var c2 := ShiftLeft(c, 8);
    NetUtils.Pow2Of32();
    NetUtils.BitOrBound(hi, b2, 32);
    NetUtils.BitOrBound(NetUtils.BitOr(hi, b2), c2, 32);
    NetUtils.BitOrBound(NetUtils.BitOr(NetUtils.BitOr(hi, b2), c2), NetUtils.Wrap(d), 32);
    NetUtils.BitOr(NetUtils.BitOr(NetUtils.BitOr(hi, b2), c2), NetUtils.Wrap(d))
  }

  /** IPToUInt: 0 unless sscanf reads four integers, otherwise their
      composition. */
  function IPToUInt(ip: string): (r: NetUtils.uint32)
    ensures NetUtils.ScanQuad(ip).None? ==> r == 0
  {
    match NetUtils.ScanQuad(ip)
    case None => 0
    case Some((a, b, c, d)) => ShiftCompose(a, b, c, d)
  }

  predicate IsIPInRange(ip: string, network: string, mask: string)
  {
    var ipAddr, networkAddr, maskAddr := IPToUInt(ip), IPToUInt(network), IPToUInt(mask);
    var netLower := NetUtils.BitAnd(networkAddr, maskAddr);
    var netUpper := NetUtils.BitOr(netLower, NetUtils.BitNot(maskAddr));
    netLower <= ipAddr <= netUpper
  }

  lemma ShiftLeftIsScaling(x: int, k: nat)
    ensures ShiftLeft(x, k) == NetUtils.Wrap(NetUtils.Wrap(x) * NetUtils.Pow2(k))
  {
    NetUtils.ShlMul(NetUtils.Wrap(x), k);
  }

  lemma Pow2Constants()
    ensures NetUtils.Pow2(8) == 0x100
    ensures NetUtils.Pow2(16) == 0x1_0000
    ensures NetUtils.Pow2(24) == 0x100_0000
  {
    NetUtils.Pow2Add(8, 8);
    NetUtils.Pow2Add(16, 8);
  }

  /** Shifting by doubling and shifting by multiplication compose alike. */
  lemma ShiftComposeAgrees(a: int, b: int, c: int, d: int)
    ensures ShiftCompose(a, b, c, d) == NetUtils.Compose(a, b, c, d)
  {
    Pow2Constants();
    ShiftLeftIsScaling(a, 24);
    ShiftLeftIsScaling(b, 16);
    ShiftLeftIsScaling(c, 8);
  }

  /** Both copies of the address parser compute the same word. */
  lemma IPToUIntAgrees(ip: string)
    ensures IPToUInt(ip) == NetUtils.IpToUInt(ip)
  {
    match NetUtils.ScanQuad(ip)
    case None =>
    case Some((a, b, c, d)) => ShiftComposeAgrees(a, b, c, d);
  }

  /** For octets, IPToUInt(a.b.c.d) is a·2²⁴ + b·2¹⁶ + c·2⁸ + d. */
  lemma IPToUIntOctets(ip: string, a: nat, b: nat, c: nat, d: nat)
    requires a < 256 && b < 256 && c < 256 && d < 256
    requires NetUtils.ScanQuad(ip) == Some((a, b, c, d))
    ensures IPToUInt(ip) == a * 0x100_0000 + b * 0x1_0000 + c * 0x100 + d
  {
    IPToUIntAgrees(ip);
    NetUtils.OctetsCompose(a, b, c, d);
  }

  /** Both copies of isIPInRange decide every query alike. */
  lemma IsIPInRangeAgrees(ip: string, network: string, mask: string)
    ensures IsIPInRange(ip, network, mask) <==> NetUtils.IsIPInRange(ip, network, mask)
  {
    IPToUIntAgrees(ip);
    IPToUIntAgrees(network);
    IPToUIntAgrees(mask);
  }
}
