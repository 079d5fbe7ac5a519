// Membership of an address in a network: the shift-and-mask test against
// aligned intervals (section 3.1 of RFC 4632).
module LanCidrs {
  import opened Prelude
  import opened Rules

  // Bitwise and of unsigned integers.
  function And(a: nat, b: nat): nat {
    if a == 0 || b == 0 then 0 else 2 * And(a / 2, b / 2) + if a % 2 == 1 && b % 2 == 1 then 1 else 0
  }

  // A left shift of a value below 2^width in a register of `width` bits, bit
  // by bit: the top bit falls out.
  function ShiftLeft(a: int, count: nat, width: nat): int
    decreases count
  {
    if count == 0 then a
    else ShiftLeft(if 2 * a >= Pow2(width) then 2 * a - Pow2(width) else 2 * a, count - 1, width)
  }

  function Mask(prefix: nat, width: nat): int
    requires 0 < prefix <= width
  {
    if prefix == width then Pow2(width) - 1 else ShiftLeft(Pow2(width) - 1, width - prefix, width)
  }

  // The test both address families use, on `width` bits.
  predicate PrefixMatch(a: nat, b: nat, prefix: nat, width: nat) {
    if prefix == 0 then true
    else if prefix > width then false
    else
      MaskIsBits(prefix, width - prefix);
      And(a, Mask(prefix, width)) == And(b, Mask(prefix, width))
  }

  // ---- Masks ----

  // `ones` ones above `zeros` zeros.
  function Bits(ones: nat, zeros: nat): nat
    decreases ones, zeros
  {
    if zeros > 0 then 2 * Bits(ones, zeros - 1) else if ones > 0 then 2 * Bits(ones - 1, 0) + 1 else 0
  }

  lemma {:induction false} BitsValue(ones: nat, zeros: nat)
    ensures Bits(ones, zeros) == Pow2(ones + zeros) - Pow2(zeros)
    decreases ones, zeros
  {
    if zeros > 0 {
      BitsValue(ones, zeros - 1);
      assert Pow2(ones + zeros) == 2 * Pow2(ones + (zeros - 1));
    } else if ones > 0 {
      BitsValue(ones - 1, 0);
    }
  }

  lemma {:induction false} Pow2Grows(a: nat, b: nat)
    requires a <= b
    ensures Pow2(a) <= Pow2(b)
    decreases b
  {
    if a < b { Pow2Grows(a, b - 1); }
  }

  // Each shift turns the lowest one into a zero.
  lemma {:induction false} ShiftedBits(ones: nat, zeros: nat, count: nat)
    requires count < ones
    ensures ShiftLeft(Bits(ones, zeros), count, ones + zeros) == Bits(ones - count, zeros + count)
    decreases count
  {
    if count > 0 {
      BitsValue(ones, zeros);
      BitsValue(ones - 1, zeros + 1);
      Pow2Grows(zeros + 1, ones + zeros);
      assert ones - 1 + (zeros + 1) == ones + zeros;
      ShiftedBits(ones - 1, zeros + 1, count - 1);
      assert ones - 1 - (count - 1) == ones - count && zeros + 1 + (count - 1) == zeros + count;
    }
  }

  // The mask of a prefix is that many ones on top of zeros.
  lemma MaskIsBits(prefix: nat, zeros: nat)
    requires prefix > 0
    ensures Mask(prefix, prefix + zeros) == Bits(prefix, zeros)
  {
    BitsValue(prefix + zeros, 0);
    if zeros > 0 { ShiftedBits(prefix + zeros, 0, zeros); }
  }

  // The quotient by 2^count, halving by halving.
  function ShiftRight(a: nat, count: nat): nat
    decreases count
  {
    if count == 0 then a else ShiftRight(a / 2, count - 1)
  }

  lemma {:induction false} AndDouble(a: nat, m: nat)
    ensures And(a, 2 * m) == 2 * And(a / 2, m)
    ensures And(a, 2 * m + 1) == 2 * And(a / 2, m) + a % 2
  {
    assert (2 * m) / 2 == m && (2 * m + 1) / 2 == m;
  }

  lemma {:induction false} AndOnes(a: nat, ones: nat)
    requires a < Pow2(ones)
    ensures And(a, Bits(ones, 0)) == a
    decreases ones
  {
    if ones > 0 {
      AndOnes(a / 2, ones - 1);
      AndDouble(a, Bits(ones - 1, 0));
    }
  }

  // Masking keeps exactly the bits above the zeros.
  lemma {:induction false} MaskedEqualIff(a: nat, b: nat, ones: nat, zeros: nat)
    requires a < Pow2(ones + zeros) && b < Pow2(ones + zeros)
    ensures And(a, Bits(ones, zeros)) == And(b, Bits(ones, zeros)) <==> ShiftRight(a, zeros) == ShiftRight(b, zeros)
    decreases zeros
  {
    if zeros == 0 {
      AndOnes(a, ones);
      AndOnes(b, ones);
    } else {
      assert Pow2(ones + zeros) == 2 * Pow2(ones + (zeros - 1));
      MaskedEqualIff(a / 2, b / 2, ones, zeros - 1);
      AndDouble(a, Bits(ones, zeros - 1));
      AndDouble(b, Bits(ones, zeros - 1));
    }
  }

  // Division with remainder is unique.
  lemma QuotientIff(a: nat, m: nat, q: nat)
    requires m > 0
    ensures a / m == q <==> q * m <= a < q * m + m
  {
    var d := a / m - q;
    assert a == m * (a / m) + a % m;
    assert m * (a / m) == m * q + m * d;
    assert d > 0 ==> m * d >= m;
    assert d < 0 ==> m * d <= 0 - m;
  }

  lemma HalfThenDivide(a: nat, m: nat)
    requires m > 0
    ensures a / (2 * m) == (a / 2) / m
  {
    var q := (a / 2) / m;
    QuotientIff(a / 2, m, q);
    assert q * (2 * m) == 2 * (q * m);
    QuotientIff(a, 2 * m, q);
  }

  lemma {:induction false} ShiftRightDivides(a: nat, count: nat)
    ensures ShiftRight(a, count) == a / Pow2(count)
    decreases count
  {
    if count > 0 {
      ShiftRightDivides(a / 2, count - 1);
      HalfThenDivide(a, Pow2(count - 1));
    }
  }

  lemma {:induction false} ShiftRightTwice(a: nat, first: nat, second: nat)
    ensures ShiftRight(a, first + second) == ShiftRight(ShiftRight(a, first), second)
    decreases first
  {
    if first > 0 {
      ShiftRightTwice(a / 2, first - 1, second);
      assert first + second - 1 == first - 1 + second;
    }
  }

  lemma {:induction false} ShiftRightVanishes(a: nat, count: nat)
    requires a < Pow2(count)
    ensures ShiftRight(a, count) == 0
    decreases count
  {
    if count > 0 { ShiftRightVanishes(a / 2, count - 1); }
  }

  lemma MatchIff(a: nat, b: nat, prefix: nat, width: nat)
    requires a < Pow2(width) && b < Pow2(width)
    ensures PrefixMatch(a, b, prefix, width)
            <==> prefix <= width && ShiftRight(a, width - prefix) == ShiftRight(b, width - prefix)
  {
    if 0 < prefix <= width {
      MaskIsBits(prefix, width - prefix);
      MaskedEqualIff(a, b, prefix, width - prefix);
    } else if prefix == 0 {
      ShiftRightVanishes(a, width);
      ShiftRightVanishes(b, width);
    }
  }

  // The mask test says that both addresses have the same quotient by the block size.
  lemma SameBlockIff(a: nat, b: nat, prefix: nat, width: nat)
    requires a < Pow2(width) && b < Pow2(width)
    ensures PrefixMatch(a, b, prefix, width)
            <==> prefix <= width && a / Pow2(width - prefix) == b / Pow2(width - prefix)
  {
    MatchIff(a, b, prefix, width);
    if prefix <= width {
      ShiftRightDivides(a, width - prefix);
      ShiftRightDivides(b, width - prefix);
    }
  }

  // `b` lies in the aligned interval of 2^(width - prefix) values that holds `a`.
  ghost predicate InInterval(a: nat, b: nat, prefix: nat, width: nat) {
    && prefix <= width
    && var size, block := Pow2(width - prefix), ShiftRight(a, width - prefix);
       block * size <= b < block * size + size
  }

  lemma {:induction false} IntervalIff(a: nat, b: nat, prefix: nat, width: nat)
    requires a < Pow2(width) && b < Pow2(width)
    ensures PrefixMatch(a, b, prefix, width) <==> InInterval(a, b, prefix, width)
  {
    MatchIff(a, b, prefix, width);
    if prefix <= width {
      var k := width - prefix;
      ShiftRightDivides(b, k);
      QuotientIff(b, Pow2(k), ShiftRight(a, k));
    }
  }

  // ---- Networks ----

  datatype IpCidr = IpCidr(network: IpAddr, prefix: Byte)

  function Width(ip: IpAddr): nat { if ip.V4? then 32 else 128 }

  // An address of its family.
  ghost predicate ValidIp(ip: IpAddr) { ip.bits < Pow2(Width(ip)) }

  predicate Contains(c: IpCidr, ip: IpAddr) {
    match (c.network, ip)
    case (V4(net), V4(peer)) => PrefixMatch(net, peer, c.prefix, 32)
    case (V6(net), V6(peer)) => PrefixMatch(net, peer, c.prefix, 128)
    case _ => false
  }

  // A network contains exactly the addresses of one aligned block of its own family.
  ghost predicate InBlock(c: IpCidr, ip: IpAddr) {
    ip.SameFamily(c.network) && InInterval(c.network.bits, ip.bits, c.prefix, if ip.V4? then 32 else 128)
  }

  lemma ContainsIffInBlock(c: IpCidr, ip: IpAddr)
    requires ValidIp(c.network) && ValidIp(ip)
    ensures Contains(c, ip) <==> InBlock(c, ip)
  {
    if ip.SameFamily(c.network) {
      IntervalIff(c.network.bits, ip.bits, c.prefix, Width(c.network));
    }
  }

  // A longer prefix contains less.
  lemma LongerPrefixContainsLess(network: IpAddr, short: Byte, long: Byte, ip: IpAddr)
    requires ValidIp(network) && ValidIp(ip) && short <= long
    requires Contains(IpCidr(network, long), ip)
    ensures Contains(IpCidr(network, short), ip)
  {
    var w := Width(network);
    MatchIff(network.bits, ip.bits, long, w);
    MatchIff(network.bits, ip.bits, short, w);
    ShiftRightTwice(network.bits, w - long, long - short);
    ShiftRightTwice(ip.bits, w - long, long - short);
  }

  predicate ContainsAny(cidrs: seq<IpCidr>, ip: IpAddr) {
    cidrs != [] && (Contains(cidrs[0], ip) || ContainsAny(cidrs[1..], ip))
  }

  // The resolved set is the union of its blocks.
  lemma {:induction false} UnionOfBlocks(cidrs: seq<IpCidr>, ip: IpAddr)
    requires ValidIp(ip) && forall i :: 0 <= i < |cidrs| ==> ValidIp(cidrs[i].network)
    ensures ContainsAny(cidrs, ip) <==> exists i :: 0 <= i < |cidrs| && InBlock(cidrs[i], ip)
  {
    if cidrs != [] {
      ContainsIffInBlock(cidrs[0], ip);
      UnionOfBlocks(cidrs[1..], ip);
      if i :| 0 <= i < |cidrs| && InBlock(cidrs[i], ip) {
        if i > 0 { assert cidrs[1..][i - 1] == cidrs[i]; }
      }
    }
  }
}
