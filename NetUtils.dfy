/** IPv4 helpers of rc_dynamics_api: the dotted-quad scanner ipToUInt, the
    subnet interval test isIPInRange, the address validity check and the POSIX
    scan of this host's interfaces (getThisHostsIP).

    A uint32_t is a natural number below 2^32; the bitwise operators are
    defined bit by bit, so that `&`, `|` and `~` mean exactly what they mean on
    32-bit words. */
module NetUtils {
  import opened Common

  const TWO32: int := 0x1_0000_0000

  type uint32 = x: int | 0 <= x < TWO32

  // ---------------------------------------------------------------------
  // 32-bit words

  /** Conversion of a C int to uint32_t (modulo 2^32, two's complement). */
  function Wrap(x: int): uint32 { x % TWO32 }

  function BitAnd(x: nat, y: nat): nat
    decreases x
  {
    if x == 0 || y == 0 then 0
    else 2 * BitAnd(x / 2, y / 2) + (if x % 2 == 1 && y % 2 == 1 then 1 else 0)
  }

  function BitOr(x: nat, y: nat): nat
    decreases x + y
  {
    if x == 0 then y
    else if y == 0 then x
    else 2 * BitOr(x / 2, y / 2) + (if x % 2 == 1 || y % 2 == 1 then 1 else 0)
  }

  /** `~m` on a 32-bit word. */
  function BitNot(m: uint32): uint32 { TWO32 - 1 - m }

  function Pow2(n: nat): (p: nat)
    ensures p >= 1
  {
    if n == 0 then 1 else 2 * Pow2(n - 1)
  }

  lemma BitAndStep(x: nat, y: nat)
    ensures BitAnd(x, y) == 2 * BitAnd(x / 2, y / 2) + (if x % 2 == 1 && y % 2 == 1 then 1 else 0)
  {
  }

  lemma BitOrStep(x: nat, y: nat)
    ensures BitOr(x, y) == 2 * BitOr(x / 2, y / 2) + (if x % 2 == 1 || y % 2 == 1 then 1 else 0)
  {
    if x == 0 {
      assert BitOr(x / 2, y / 2) == y / 2;
    } else if y == 0 {
      assert BitOr(x / 2, y / 2) == x / 2;
    }
  }

  /** Or-ing two n-bit words stays within n bits. */
  lemma {:induction false} BitOrBound(x: nat, y: nat, n: nat)
    requires x < Pow2(n) && y < Pow2(n)
    ensures BitOr(x, y) < Pow2(n)
    decreases n
  {
    if n > 0 && x != 0 && y != 0 {
      BitOrBound(x / 2, y / 2, n - 1);
    }
  }

  /** Masking never makes a word larger. */
  lemma {:induction false} BitAndBound(x: nat, y: nat)
    ensures BitAnd(x, y) <= x && BitAnd(x, y) <= y
    decreases x
  {
    if x != 0 && y != 0 {
      BitAndBound(x / 2, y / 2);
    }
  }

  /** Or-ing a word shifted left by k bits with a word below 2^k is addition:
      the two occupy disjoint bits. */
  lemma {:induction false} BitOrDisjoint(hi: nat, lo: nat, k: nat)
    requires lo < Pow2(k)
    ensures BitOr(hi * Pow2(k), lo) == hi * Pow2(k) + lo
    decreases k
  {
    if k > 0 {
      var p := Pow2(k - 1);
      var h := hi * p;
      assert hi * Pow2(k) == 2 * h;
      assert lo / 2 < p;
      BitOrDisjoint(hi, lo / 2, k - 1);
      BitOrStep(2 * h, lo);
      assert (2 * h) / 2 == h && (2 * h) % 2 == 0;
    }
  }

  /** A word and-ed with the all-ones n-bit mask is the word itself. */
  lemma {:induction false} BitAndOnes(x: nat, n: nat)
    requires x < Pow2(n)
    ensures BitAnd(x, Pow2(n) - 1) == x
    decreases n
  {
    if n > 0 && x != 0 {
      BitAndOnes(x / 2, n - 1);
      BitAndStep(x, Pow2(n) - 1);
      assert (Pow2(n) - 1) / 2 == Pow2(n - 1) - 1;
    }
  }

  /** Bit by bit, x <= (x & m) | ~m: every bit of x survives. */
  lemma {:induction false} MaskedUpperBound(x: nat, m: nat, n: nat)
    requires x < Pow2(n) && m < Pow2(n)
    ensures x <= BitOr(BitAnd(x, m), Pow2(n) - 1 - m)
    decreases n
  {
    if n > 0 {
      var hi := BitAnd(x / 2, m / 2);
      var lowBit := if x % 2 == 1 && m % 2 == 1 then 1 else 0;
      var notM := Pow2(n) - 1 - m;
      assert notM / 2 == Pow2(n - 1) - 1 - m / 2;
      assert notM % 2 == 1 - m % 2;
      BitAndStep(x, m);
      assert BitAnd(x, m) / 2 == hi && BitAnd(x, m) % 2 == lowBit;
      BitOrStep(BitAnd(x, m), notM);
      var rest := BitOr(hi, Pow2(n - 1) - 1 - m / 2);
      assert BitOr(BitAnd(x, m) / 2, notM / 2) == rest;
      assert x / 2 <= rest by {
        MaskedUpperBound(x / 2, m / 2, n - 1);
      }
      assert x % 2 <= (if lowBit == 1 || notM % 2 == 1 then 1 else 0);
      assert x == 2 * (x / 2) + x % 2;
    }
  }

  lemma Pow2Of32()
    ensures Pow2(32) == TWO32
  {
    assert Pow2(8) == 256;
    assert Pow2(16) == 65536 by { assert Pow2(16) == Pow2(8) * Pow2(8) by { Pow2Add(8, 8); } }
    assert Pow2(32) == Pow2(16) * Pow2(16) by { Pow2Add(16, 16); }
  }

  lemma {:induction false} Pow2Add(a: nat, b: nat)
    ensures Pow2(a + b) == Pow2(a) * Pow2(b)
    decreases a
  {
    if a > 0 {
      Pow2Add(a - 1, b);
    }
  }

  // ---------------------------------------------------------------------
  // sscanf(ip, "%d.%d.%d.%d", ...)

  /** isspace in the C locale. */
  predicate IsSpace(c: char) { c == ' ' || 9 <= c as int <= 13 }

  /** The input once leading white space is skipped. */
  function SkipSpace(s: string): (r: string)
    ensures |r| <= |s|
  {
    if |s| > 0 && IsSpace(s[0]) then SkipSpace(s[1..]) else s
  }

  /** Length of the run of decimal digits s starts with. */
  function DigitCount(s: string): (n: nat)
    ensures n <= |s|
  {
    if |s| > 0 && IsDigit(s[0]) then 1 + DigitCount(s[1..]) else 0
  }

  /** A digit string's value, most significant digit first. */
  function DecimalValue(t: string): int
  {
    if t == [] then 0 else DecimalValue(t[..|t| - 1]) * 10 + ((t[|t| - 1] as int) - ('0' as int))
  }

  /** One "%d" conversion: white space, an optional sign, then the longest
      run of decimal digits; the value and the input left unread. None when
      no digit follows. The value is not bounded to the range of int. */
  function ScanInt(s: string): (r: Option<(int, string)>)
    ensures r.Some? ==> |r.value.1| < |s|
  {
    var t := SkipSpace(s);
    var neg := |t| > 0 && t[0] == '-';
    var u := if |t| > 0 && (t[0] == '+' || t[0] == '-') then t[1..] else t;
    var n := DigitCount(u);
    if n == 0 then None
    else
      var v := DecimalValue(u[..n]);
      Some((if neg then -v else v, u[n..]))
  }

  /** The literal '.' of the format, then one more "%d". */
  function ScanDotInt(s: string): (r: Option<(int, string)>)
    ensures r.Some? ==> |r.value.1| < |s|
  {
    if |s| > 0 && s[0] == '.' then ScanInt(s[1..]) else None
  }

  /** The four integers when sscanf returns 4, None otherwise. */
  function ScanQuad(s: string): Option<(int, int, int, int)>
  {
    match ScanInt(s)
    case None => None
    case Some((a, r1)) =>
      match ScanDotInt(r1)
      case None => None
      case Some((b, r2)) =>
        match ScanDotInt(r2)
        case None => None
        case Some((c, r3)) =>
          match ScanDotInt(r3)
          case None => None
          case Some((d, _)) => Some((a, b, c, d))
  }

  /** `(a << 24) | (b << 16) | (c << 8) | d` on 32-bit words. */
  function Compose(a: int, b: int, c: int, d: int): (r: uint32)
  {
    var hi := Wrap(Wrap(a) * 0x100_0000);
    var b2 := Wrap(Wrap(b) * 0x1_0000);
    var c2 := Wrap(Wrap(c) * 0x100);
    Pow2Of32();
    BitOrBound(hi, b2, 32);
    BitOrBound(BitOr(hi, b2), c2, 32);
    BitOrBound(BitOr(BitOr(hi, b2), c2), Wrap(d), 32);
    BitOr(BitOr(BitOr(hi, b2), c2), Wrap(d))
  }

  /** ipToUInt: 0 unless four integers are scanned, else their composition. */
  function IpToUInt(ip: string): uint32
  {
    match ScanQuad(ip)
    case None => 0
    case Some((a, b, c, d)) => Compose(a, b, c, d)
  }

  /** For octets the composition is big-endian positional notation. */
  lemma OctetsCompose(a: nat, b: nat, c: nat, d: nat)
    requires a < 256 && b < 256 && c < 256 && d < 256
    ensures Compose(a, b, c, d) == a * 0x100_0000 + b * 0x1_0000 + c * 0x100 + d
  {
    var x := a * 256 + b;
    var y := x * 256 + c;
    assert Compose(a, b, c, d) == BitOr(BitOr(BitOr(a * 0x100_0000, b * 0x1_0000), c * 0x100), d) by {
      ComposeOctets(a, b, c, d);
    }
    // (a << 24) | (b << 16) == (a * 256 + b) << 16
    var ab := BitOr(a * 0x100_0000, b * 0x1_0000);
    assert ab == x * 0x1_0000 by {
      assert a * 0x100_0000 == a * 256 * 0x1_0000;
      Pow2Add(8, 8);
      ShiftedOr(a, b, 16, 0x1_0000);
    }
    // ... | (c << 8) == ((a * 256 + b) * 256 + c) << 8
    var abc := BitOr(ab, c * 0x100);
    assert abc == y * 0x100 by {
      assert x * 0x1_0000 == x * 256 * 0x100;
      ShiftedOr(x, c, 8, 0x100);
    }
    // ... | d
    assert BitOr(abc, d) == y * 0x100 + d by {
      assert Pow2(8) == 256;
      BitOrDisjoint(y, d, 8);
    }
    assert y * 0x100 == x * 0x1_0000 + c * 0x100;
    assert x * 0x1_0000 == a * 0x100_0000 + b * 0x1_0000;
  }

  /** For octets no operand of the composition is cut to 32 bits. */
  lemma ComposeOctets(a: nat, b: nat, c: nat, d: nat)
    requires a < 256 && b < 256 && c < 256 && d < 256
    ensures Compose(a, b, c, d) == BitOr(BitOr(BitOr(a * 0x100_0000, b * 0x1_0000), c * 0x100), d)
  {
    assert Wrap(a) == a && Wrap(b) == b && Wrap(c) == c && Wrap(d) == d;
    assert Wrap(a * 0x100_0000) == a * 0x100_0000;
    assert Wrap(b * 0x1_0000) == b * 0x1_0000;
    assert Wrap(c * 0x100) == c * 0x100;
  }

  /** Appending an octet below a word, both shifted by k bits. */
  lemma ShiftedOr(hi: nat, lo: nat, k: nat, p: nat)
    requires lo < 256 && p == Pow2(k)
    ensures BitOr(hi * 256 * p, lo * p) == (hi * 256 + lo) * p
  {
    assert Pow2(8) == 256;
    BitOrScaled(hi * 256, lo, k);
    BitOrDisjoint(hi, lo, 8);
  }

  /** Shifting both operands by one bit shifts their disjunction. */
  lemma BitOrDouble(x: nat, y: nat)
    ensures BitOr(2 * x, 2 * y) == 2 * BitOr(x, y)
  {
    BitOrStep(2 * x, 2 * y);
    assert (2 * x) / 2 == x && (2 * x) % 2 == 0;
    assert (2 * y) / 2 == y && (2 * y) % 2 == 0;
  }

  /** `x << k` without a word limit. */
  function Shl(x: nat, k: nat): nat
  {
    if k == 0 then x else 2 * Shl(x, k - 1)
  }

  lemma {:induction false} ShlMul(x: nat, k: nat)
    ensures Shl(x, k) == x * Pow2(k)
  {
    if k > 0 {
      ShlMul(x, k - 1);
      assert x * (2 * Pow2(k - 1)) == 2 * (x * Pow2(k - 1));
    }
  }

  lemma {:induction false} BitOrShl(x: nat, y: nat, k: nat)
    ensures BitOr(Shl(x, k), Shl(y, k)) == Shl(BitOr(x, y), k)
  {
    if k > 0 {
      BitOrShl(x, y, k - 1);
      BitOrDouble(Shl(x, k - 1), Shl(y, k - 1));
    }
  }

  /** Shifting both operands by k bits shifts their disjunction. */
  lemma BitOrScaled(x: nat, y: nat, k: nat)
    ensures BitOr(x * Pow2(k), y * Pow2(k)) == BitOr(x, y) * Pow2(k)
  {
    BitOrShl(x, y, k);
    ShlMul(x, k);
    ShlMul(y, k);
    ShlMul(BitOr(x, y), k);
  }

  // ---------------------------------------------------------------------
  // isIPInRange

  /** net_lower = network & mask, net_upper = net_lower | ~mask, and the
      address lies between the two. */
  predicate InRange(ip: uint32, network: uint32, mask: uint32)
  {
    var lower := BitAnd(network, mask);
    var upper := BitOr(lower, BitNot(mask));
    lower <= ip <= upper
  }

  predicate IsIPInRange(ip: string, network: string, mask: string)
  {
    InRange(IpToUInt(ip), IpToUInt(network), IpToUInt(mask))
  }

  /** Every network contains its own address, whatever the mask. */
  lemma InRangeSelf(x: uint32, m: uint32)
    ensures InRange(x, x, m)
  {
    BitAndBound(x, m);
    Pow2Of32();
    MaskedUpperBound(x, m, 32);
  }

  /** The mask 0.0.0.0 admits every address. */
  lemma InRangeZeroMask(ip: uint32, network: uint32)
    ensures InRange(ip, network, 0)
  {
  }

  /** The mask 255.255.255.255 admits only the network address itself. */
  lemma InRangeFullMask(ip: uint32, network: uint32)
    ensures InRange(ip, network, TWO32 - 1) <==> ip == network
  {
    Pow2Of32();
    BitAndOnes(network, 32);
    assert BitNot(TWO32 - 1) == 0;
  }

  lemma IsIPInRangeSelf(x: string, m: string)
    ensures IsIPInRange(x, x, m)
  {
    InRangeSelf(IpToUInt(x), IpToUInt(m));
  }

  // ---------------------------------------------------------------------
  // inet_ntop and inet_pton for AF_INET

  function Octet(v: uint32, k: nat): nat
    requires k < 4
  {
    if k == 3 then v / 0x100_0000
    else if k == 2 then v / 0x1_0000 % 256
    else if k == 1 then v / 0x100 % 256
    else v % 256
  }

  /** inet_ntop: the four bytes of the address, most significant first. */
  function Ntop(v: uint32): string
  {
    Join(".", [NatToString(Octet(v, 3)), NatToString(Octet(v, 2)),
               NatToString(Octet(v, 1)), NatToString(Octet(v, 0))])
  }

  /** inet_pton for AF_INET as POSIX specifies it: four dot-separated decimal
      numbers of one to three digits, each at most 255. */
  predicate IsValidIPAddress(ip: string)
  {
    var parts := Split('.', ip);
    |parts| == 4 &&
    forall i :: 0 <= i < 4 ==> 1 <= |parts[i]| <= 3 && AllDigits(parts[i]) && DigitsValue(parts[i]) <= 255
  }

  lemma OctetBound(v: uint32, k: nat)
    requires k < 4
    ensures Octet(v, k) < 256
  {
  }

  /** Every rendered address is a valid address: an interface address found
      by getThisHostsIP always passes the check of the receiver constructor. */
  lemma NtopIsValid(v: uint32)
    ensures IsValidIPAddress(Ntop(v))
  {
    var parts := [NatToString(Octet(v, 3)), NatToString(Octet(v, 2)),
                  NatToString(Octet(v, 1)), NatToString(Octet(v, 0))];
    forall i | 0 <= i < 4
      ensures 1 <= |parts[i]| <= 3 && AllDigits(parts[i]) && DigitsValue(parts[i]) <= 255
      ensures Count('.', parts[i]) == 0
    {
      var k := 3 - i;
      OctetBound(v, k);
      NatToStringDigits(Octet(v, k));
      NatToStringShort(Octet(v, k));
      DigitsHaveNo('.', parts[i]);
    }
    SplitJoin('.', parts);
  }

  /** A digit run ended by the end of the input or by a non-digit. */
  lemma {:induction false} DigitCountOf(A: string, R: string)
    requires AllDigits(A) && (R == [] || !IsDigit(R[0]))
    ensures DigitCount(A + R) == |A|
    decreases |A|
  {
    if A == [] {
      assert A + R == R;
    } else {
      assert (A + R)[1..] == A[1..] + R;
      DigitCountOf(A[1..], R);
    }
  }

  /** On digit strings it is the usual decimal value. */
  lemma {:induction false} DecimalValueDigits(t: string)
    requires AllDigits(t)
    ensures DecimalValue(t) == DigitsValue(t)
  {
    if t != [] {
      DecimalValueDigits(t[..|t| - 1]);
    }
  }

  /** "%d" reads a digit string up to the next dot or the end. */
  lemma ScanDigits(A: string, R: string)
    requires |A| > 0 && AllDigits(A) && (R == [] || R[0] == '.')
    ensures ScanInt(A + R) == Some((DigitsValue(A), R))
  {
    var s := A + R;
    assert s[0] == A[0];
    assert SkipSpace(s) == s;
    DigitCountOf(A, R);
    assert s[..|A|] == A && s[|A|..] == R;
    DecimalValueDigits(A);
  }

  lemma ScanDotDigits(A: string, R: string)
    requires |A| > 0 && AllDigits(A) && (R == [] || R[0] == '.')
    ensures ScanDotInt("." + (A + R)) == Some((DigitsValue(A), R))
  {
    assert ("." + (A + R))[1..] == A + R;
    ScanDigits(A, R);
  }

  lemma JoinCons(sep: string, A: string, rest: seq<string>)
    requires |rest| > 0
    ensures Join(sep, [A] + rest) == A + sep + Join(sep, rest)
  {
    assert ([A] + rest)[1..] == rest;
  }

  lemma JoinFour(A: string, B: string, C: string, D: string)
    ensures Join(".", [A, B, C, D]) == A + ("." + (B + ("." + (C + ("." + D)))))
  {
    JoinCons(".", C, [D]);
    assert [C] + [D] == [C, D];
    JoinCons(".", B, [C, D]);
    assert [B] + [C, D] == [B, C, D];
    JoinCons(".", A, [B, C, D]);
    assert [A] + [B, C, D] == [A, B, C, D];
  }

  /** Four digit strings joined by dots scan back to their values. */
  lemma ScanLayout(A: string, B: string, C: string, D: string)
    requires |A| > 0 && |B| > 0 && |C| > 0 && |D| > 0
    requires AllDigits(A) && AllDigits(B) && AllDigits(C) && AllDigits(D)
    ensures ScanQuad(A + ("." + (B + ("." + (C + ("." + D))))))
            == Some((DigitsValue(A), DigitsValue(B), DigitsValue(C), DigitsValue(D)))
  {
    var r3 := "." + D;
    var r2 := "." + (C + r3);
    var r1 := "." + (B + r2);
    ScanDigits(A, r1);
    ScanDotDigits(B, r2);
    ScanDotDigits(C, r3);
    ScanDotLast(D);
    ScanQuadOf(A + r1, DigitsValue(A), DigitsValue(B), DigitsValue(C), DigitsValue(D), r1, r2, r3);
  }

  lemma ScanDotLast(D: string)
    requires |D| > 0 && AllDigits(D)
    ensures ScanDotInt("." + D) == Some((DigitsValue(D), []))
  {
    assert D + [] == D;
    ScanDotDigits(D, []);
  }

  lemma ScanQuadOf(s: string, a: int, b: int, c: int, d: int, r1: string, r2: string, r3: string)
    requires ScanInt(s) == Some((a, r1))
    requires ScanDotInt(r1) == Some((b, r2))
    requires ScanDotInt(r2) == Some((c, r3))
    requires ScanDotInt(r3).Some? && ScanDotInt(r3).value.0 == d
    ensures ScanQuad(s) == Some((a, b, c, d))
  {
  }

  /** sscanf reads four rendered numbers back out of their dotted join. */
  lemma ScanDotted(a: nat, b: nat, c: nat, d: nat)
    ensures ScanQuad(Join(".", [NatToString(a), NatToString(b), NatToString(c), NatToString(d)]))
            == Some((a, b, c, d))
  {
    NatToStringDigits(a);
    NatToStringDigits(b);
    NatToStringDigits(c);
    NatToStringDigits(d);
    var A, B, C, D := NatToString(a), NatToString(b), NatToString(c), NatToString(d);
    JoinFour(A, B, C, D);
    ScanLayout(A, B, C, D);
  }

  /** Reading back a rendered address gives the address: ipToUInt inverts
      inet_ntop, so getThisHostsIP compares the interface's real address. */
  lemma IpToUIntNtop(v: uint32)
    ensures IpToUInt(Ntop(v)) == v
  {
    ScanDotted(Octet(v, 3), Octet(v, 2), Octet(v, 1), Octet(v, 0));
    OctetBound(v, 3);
    OctetBound(v, 2);
    OctetBound(v, 1);
    OctetBound(v, 0);
    OctetsCompose(Octet(v, 3), Octet(v, 2), Octet(v, 1), Octet(v, 0));
    Positional(v);
  }

  lemma Positional(v: uint32)
    ensures Octet(v, 3) * 0x100_0000 + Octet(v, 2) * 0x1_0000 + Octet(v, 1) * 0x100 + Octet(v, 0) == v
  {
    var q1 := v / 256;
    var q2 := q1 / 256;
    var q3 := q2 / 256;
    assert v == q1 * 256 + v % 256;
    assert q1 == q2 * 256 + q1 % 256;
    assert q2 == q3 * 256 + q2 % 256;
    assert q2 == v / 0x1_0000;
    assert q3 == v / 0x100_0000;
  }

  // ---------------------------------------------------------------------
  // getThisHostsIP (POSIX)

  datatype SockAddr = Inet(addr: uint32) | OtherFamily(family: int)

  /** One node of the list getifaddrs returns: the interface name, its
      address (absent, IPv4 or another family) and its IPv4 netmask. */
  datatype IfAddr = IfAddr(name: string, addr: Option<SockAddr>, netmask: uint32)

  /** The entry is IPv4, passes the name filter (an empty name means no
      filter) and its address lies in the peer's range under its netmask. */
  predicate Qualifies(ifa: IfAddr, otherHostsIp: string, networkInterface: string)
  {
    && ifa.addr.Some? && ifa.addr.value.Inet?
    && (|networkInterface| == 0 || networkInterface == ifa.name)
    && IsIPInRange(Ntop(ifa.addr.value.addr), otherHostsIp, Ntop(ifa.netmask))
  }

  /** Index of the first qualifying entry, in list order. */
  function FirstQualifying(table: seq<IfAddr>, otherHostsIp: string, networkInterface: string): (r: Option<nat>)
    ensures r.Some? ==> r.value < |table| && Qualifies(table[r.value], otherHostsIp, networkInterface)
    ensures r.Some? ==> NoneQualify(table, r.value, otherHostsIp, networkInterface)
    ensures r.None? ==> NoneQualify(table, |table|, otherHostsIp, networkInterface)
  {
    FirstFrom(e => Qualifies(e, otherHostsIp, networkInterface), table, 0)
  }

  /** Index of the first entry at or after index i that satisfies p. */
  function FirstFrom(p: IfAddr -> bool, table: seq<IfAddr>, i: nat): (r: Option<nat>)
    requires i <= |table|
    ensures r.Some? ==> i <= r.value < |table| && p(table[r.value])
    ensures r.Some? ==> forall j :: i <= j < r.value ==> !p(table[j])
    ensures r.None? ==> forall j :: i <= j < |table| ==> !p(table[j])
    decreases |table| - i
  {
    if i == |table| then None
    else if p(table[i]) then Some(i)
    else FirstFrom(p, table, i + 1)
  }

  /** The scan over the interface list: returns whether an address was found
      and the new value of the out-parameter, which is written only on
      success. */
  method GetThisHostsIP(thisHostsIp: string, otherHostsIp: string, networkInterface: string, table: seq<IfAddr>)
    returns (found: bool, hostIp: string)
    ensures found <==> FirstQualifying(table, otherHostsIp, networkInterface).Some?
    ensures found ==> hostIp == Ntop(table[FirstQualifying(table, otherHostsIp, networkInterface).value].addr.value.addr)
    ensures !found ==> hostIp == thisHostsIp
  {
    found := false;
    var addressBuffer := "";
    var i := 0;
    while i < |table|
      invariant 0 <= i <= |table|
      invariant !found
      invariant NoneQualify(table, i, otherHostsIp, networkInterface)
    {
      var ifa := table[i];
      if ifa.addr.Some? && ifa.addr.value.Inet? {
        addressBuffer := Ntop(ifa.addr.value.addr);
        if |networkInterface| == 0 || networkInterface == ifa.name {
          var netmaskBuffer := Ntop(ifa.netmask);
          if IsIPInRange(addressBuffer, otherHostsIp, netmaskBuffer) {
            found := true;
            break;
          }
        }
      }
      NoneQualifyStep(table, i, otherHostsIp, networkInterface);
      i := i + 1;
    }
    if found {
      FirstQualifyingIs(table, otherHostsIp, networkInterface, i);
    } else {
      NoneQualifyAll(table, otherHostsIp, networkInterface);
    }
    hostIp := if found then addressBuffer else thisHostsIp;
  }

  /** No entry before index i qualifies. */
  predicate NoneQualify(table: seq<IfAddr>, i: nat, otherHostsIp: string, networkInterface: string)
    requires i <= |table|
  {
    forall j :: 0 <= j < i ==> !Qualifies(table[j], otherHostsIp, networkInterface)
  }

  lemma NoneQualifyStep(table: seq<IfAddr>, i: nat, otherHostsIp: string, networkInterface: string)
    requires i < |table| && NoneQualify(table, i, otherHostsIp, networkInterface)
    requires !Qualifies(table[i], otherHostsIp, networkInterface)
    ensures NoneQualify(table, i + 1, otherHostsIp, networkInterface)
  {
  }

  lemma NoneQualifyAll(table: seq<IfAddr>, otherHostsIp: string, networkInterface: string)
    requires NoneQualify(table, |table|, otherHostsIp, networkInterface)
    ensures FirstQualifying(table, otherHostsIp, networkInterface).None?
  {
  }

  lemma FirstQualifyingIs(table: seq<IfAddr>, otherHostsIp: string, networkInterface: string, i: nat)
    requires i < |table| && Qualifies(table[i], otherHostsIp, networkInterface)
    requires NoneQualify(table, i, otherHostsIp, networkInterface)
    ensures FirstQualifying(table, otherHostsIp, networkInterface) == Some(i)
  {
  }

  /** The address found lies in the peer's subnet interval under the netmask
      of the interface it was taken from, compared as 32-bit words. */
  lemma FoundAddressInRange(table: seq<IfAddr>, otherHostsIp: string, networkInterface: string)
    requires FirstQualifying(table, otherHostsIp, networkInterface).Some?
    ensures var e := table[FirstQualifying(table, otherHostsIp, networkInterface).value];
            InRange(e.addr.value.addr, IpToUInt(otherHostsIp), e.netmask)
  {
    var e := table[FirstQualifying(table, otherHostsIp, networkInterface).value];
    IpToUIntNtop(e.addr.value.addr);
    IpToUIntNtop(e.netmask);
  }
}
