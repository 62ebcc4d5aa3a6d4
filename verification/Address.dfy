/** IPv6 addresses as byte arrays: the carry loop, the per-account /112 blocks, and what lies where. */
module Address {
  import opened Bytes

  type Ip = a: seq<Byte> | |a| == 16 witness [0, 0, 0, 0, 0, 0, 0, 0, 0, 0, 0, 0, 0, 0, 0, 0]

  const P64: nat := 0x1_0000_0000_0000_0000

  function Pow256(n: nat): (p: nat)
    ensures p > 0
  {
    if n == 0 then 1 else 256 * Pow256(n - 1)
  }

  lemma Pow256Of8()
    ensures Pow256(8) == P64
  {
  }

  lemma {:induction false} BEBound(s: seq<Byte>)
    ensures BE(s) < Pow256(|s|)
  {
    if s != [] { BEBound(s[..|s| - 1]); }
  }

  lemma Distribute(x: nat, p: nat, y: nat)
    ensures (x * p + y) * 256 == x * (256 * p) + y * 256
  {
  }

  lemma {:induction false} BEConcat(a: seq<Byte>, b: seq<Byte>)
    ensures BE(a + b) == BE(a) * Pow256(|b|) + BE(b)
  {
    if b == [] {
      assert a + b == a;
    } else {
      var n := |b| - 1;
      assert (a + b)[..|a + b| - 1] == a + b[..n];
      BEConcat(a, b[..n]);
      Distribute(BE(a), Pow256(n), BE(b[..n]));
    }
  }

  lemma {:induction false} BEInjective(a: seq<Byte>, b: seq<Byte>)
    requires |a| == |b| && BE(a) == BE(b)
    ensures a == b
  {
    if a != [] {
      var n := |a| - 1;
      BEInjective(a[..n], b[..n]);
      assert a == a[..n] + [a[n]] && b == b[..n] + [b[n]];
    }
  }

  function Hi(ip: Ip): nat { BE(ip[..8]) }

  function Lo(ip: Ip): nat { BE(ip[8..]) }

  // ---- addHostOffset and hostOffset

  function Digit(b: Byte, k: nat): Byte { (b + k % 256) % 256 }

  function Carry(b: Byte, k: nat): nat { k / 256 + if b + k % 256 > 0xff then 1 else 0 }

  /** Big-endian addition of k to a byte string, dropping the carry out of its first byte. */
  function Added(s: seq<Byte>, k: nat): (r: seq<Byte>)
    ensures |r| == |s|
  {
    if s == [] then []
    else Added(s[..|s| - 1], Carry(s[|s| - 1], k)) + [Digit(s[|s| - 1], k)]
  }

  lemma Grows(z: int, m: int)
    requires z >= 1 && m >= 0
    ensures z * m >= m
  {
  }

  lemma SmallMultiple(z: int, m: int)
    requires -m < z * m < m
    ensures z == 0
  {
  }

  lemma Difference(a: int, b: int, m: int)
    ensures a * m - b * m == (a - b) * m
  {
  }

  lemma ModUnique(q: nat, m: nat, t: nat)
    requires t < m
    ensures (q * m + t) % m == t
  {
    var x := q * m + t;
    var q', t' := x / m, x % m;
    assert x == m * q' + t';
    assert m * q' == q' * m;
    Difference(q, q', m);
    SmallMultiple(q - q', m);
  }

  /** Reducing the leading digits and then appending one is reducing the whole number. */
  lemma ModScale(x: nat, p: nat, d: nat)
    requires p > 0 && d < 256
    ensures x % p * 256 + d == (x * 256 + d) % (256 * p)
  {
    var q, r := x / p, x % p;
    assert x == q * p + r;
    Regroup(q, p, r, d);
    ModUnique(q, 256 * p, r * 256 + d);
  }

  lemma Regroup(q: nat, p: nat, r: nat, d: nat)
    ensures (q * p + r) * 256 + d == q * (256 * p) + (r * 256 + d)
  {
  }

  lemma DigitStep(b: Byte, k: nat)
    ensures b + k == Digit(b, k) + 256 * Carry(b, k)
  {
  }

  lemma BEAppend(front: seq<Byte>, x: Byte)
    ensures BE(front + [x]) == BE(front) * 256 + x
  {
  }

  /** The digit-wise addition is addition modulo the size of the field. */
  lemma {:induction false} AddedIsSum(s: seq<Byte>, k: nat)
    ensures BE(Added(s, k)) == (BE(s) + k) % Pow256(|s|)
  {
    if s != [] {
      var front, n := s[..|s| - 1], |s| - 1;
      var k', d := Carry(s[n], k), Digit(s[n], k);
      AddedIsSum(front, k');
      DigitStep(s[n], k);
      BEAppend(Added(front, k'), d);
      ModScale(BE(front) + k', Pow256(n), d);
    }
  }

  lemma AddedStep(s: seq<Byte>, k: nat, x: Byte, done: seq<Byte>)
    ensures Added(s + [x], k) + done == Added(s, Carry(x, k)) + ([Digit(x, k)] + done)
  {
  }

  lemma {:induction false} AddedZero(s: seq<Byte>)
    ensures Added(s, 0) == s
  {
    if s != [] {
      AddedZero(s[..|s| - 1]);
      assert s == s[..|s| - 1] + [s[|s| - 1]];
    }
  }

  lemma Overwrite(front: seq<Byte>, x: Byte, done: seq<Byte>, y: Byte)
    ensures (front + [x] + done)[|front| := y] == front + ([y] + done)
  {
  }

  lemma TakeOne(net: Ip, i: nat)
    requires 8 <= i < 16
    ensures net[8..i + 1] == net[8..i] + [net[i]] && net[..i + 1] == net[..i] + [net[i]]
  {
  }

  lemma LowHalf(net: Ip, n: nat, done: seq<Byte>)
    requires 8 <= n <= 16 && |done| == 16 - n
    ensures (net[..n] + done)[..8] == net[..8] && (net[..n] + done)[8..] == net[8..n] + done
  {
  }

  function HostOffset(net: Ip, k: nat): Ip { net[..8] + Added(net[8..], k) }

  /** One round of the carry loop: v is the byte plus the low byte of k; k moves on with the carry. */
  method NextDigit(b: Byte, k: nat) returns (digit: Byte, k': nat)
    ensures digit == Digit(b, k) && k' == Carry(b, k)
  {
    var v: int := b + k % 256;
    digit := v % 256;
    k' := k / 256;
    if v > 0xff { k' := k' + 1; }
  }

  /** What one round does to the array, seen as a sequence, and to the sum still to be made. */
  lemma CarryRound(net: Ip, i: nat, rest: nat, done: seq<Byte>, bytes: seq<Byte>)
    requires 8 <= i < 16 && |done| == 15 - i && bytes == net[..i + 1] + done
    ensures bytes[i] == net[i] && bytes[i := Digit(net[i], rest)] == net[..i] + ([Digit(net[i], rest)] + done)
    ensures Added(net[8..i + 1], rest) + done == Added(net[8..i], Carry(net[i], rest)) + ([Digit(net[i], rest)] + done)
  {
    TakeOne(net, i);
    AddedStep(net[8..i], rest, net[i], done);
    Overwrite(net[..i], net[i], done, Digit(net[i], rest));
  }

  /** The carry loop adds k to the low 64 bits and leaves the high 64 bits alone. */
  method AddHostOffset(net: Ip, k: nat) returns (ip: Ip)
    requires k < P64
    ensures ip == HostOffset(net, k)
  {
    ghost var sum := Added(net[8..], k);
    var a := new Byte[16](i requires 0 <= i < 16 => net[i]);
    var rest: nat := k;
    var i := 15;
    ghost var done: seq<Byte> := [];
    assert a[..] == net == net[..16] + done && net[8..16] == net[8..];
    while i >= 8 && rest > 0
      invariant 7 <= i <= 15 && |done| == 15 - i
      invariant a[..] == net[..i + 1] + done
      invariant sum == Added(net[8..i + 1], rest) + done
    {
      ghost var bytes := a[..];
      CarryRound(net, i, rest, done, bytes);
      assert a[i] == bytes[i];
      var digit, next := NextDigit(a[i], rest);
      a[i] := digit;
      assert a[..] == bytes[i := digit];
      rest, i, done := next, i - 1, [digit] + done;
    }
    ip := a[..];
    AddedZero(net[8..i + 1]);
    LowHalf(net, i + 1, done);
    assert ip == ip[..8] + ip[8..];
  }

  /** Seen as numbers: addition modulo 2^64 in the low half. */
  lemma HostOffsetSum(net: Ip, k: nat)
    ensures var ip := HostOffset(net, k); ip[..8] == net[..8] && Lo(ip) == (Lo(net) + k) % P64
  {
    var ip := HostOffset(net, k);
    assert ip[8..] == Added(net[8..], k) && ip[..8] == net[..8];
    AddedIsSum(net[8..], k);
    Pow256Of8();
  }

  // ---- prefixes

  function Pow2(n: nat): (p: nat)
    ensures p > 0
  {
    if n == 0 then 1 else 2 * Pow2(n - 1)
  }

  lemma {:induction false} Pow2Sum(a: nat, b: nat)
    ensures Pow2(a + b) == Pow2(a) * Pow2(b)
  {
    if a > 0 {
      Pow2Sum(a - 1, b);
      Twice(Pow2(a - 1), Pow2(b));
    }
  }

  lemma Twice(x: nat, y: nat)
    ensures 2 * (x * y) == (2 * x) * y
  {
  }

  lemma {:induction false} Pow256IsPow2(n: nat)
    ensures Pow256(n) == Pow2(8 * n)
  {
    if n > 0 {
      Pow256IsPow2(n - 1);
      Pow2Sum(8, 8 * (n - 1));
      assert Pow2(8) == 256;
    }
  }

  /** A prefix as Go's net.IPNet holds it: a base address and a mask length. */
  datatype Net = Net(ip: Ip, ones: nat)

  function HostSize(n: Net): nat
    requires n.ones <= 128
  {
    Pow2(128 - n.ones)
  }

  /** An address is in a prefix when the bits above the host part agree. */
  predicate Contains(n: Net, t: Ip)
    requires n.ones <= 128
  {
    BE(t) / HostSize(n) == BE(n.ip) / HostSize(n)
  }

  /** The base is a network address: its host bits are zero. */
  predicate Aligned(n: Net)
    requires n.ones <= 128
  {
    BE(n.ip) % HostSize(n) == 0
  }

  lemma DivUnique(q: nat, m: nat, r: nat)
    requires r < m
    ensures (q * m + r) / m == q && (q * m + r) % m == r
  {
    var x := q * m + r;
    ModUnique(q, m, r);
    assert x == m * (x / m) + x % m && m * (x / m) == (x / m) * m;
    Difference(q, x / m, m);
    SmallMultiple(q - x / m, m);
  }

  lemma DivDiv(x: nat, a: nat, b: nat, m: nat)
    requires a > 0 && b > 0 && m == a * b && m > 0
    ensures x / m == x / a / b
  {
    var q1, r1 := x / a, x % a;
    var q2, r2 := q1 / b, q1 % b;
    var t := r2 * a + r1;
    Quotient(x, a);
    Quotient(q1, b);
    TwoLevels(q2, b, r2, a, r1);
    DivUnique(q2, m, t);
  }

  lemma Quotient(x: nat, m: nat)
    requires m > 0
    ensures x == x / m * m + x % m
  {
  }

  lemma TwoLevels(q: nat, b: nat, r: nat, a: nat, r1: nat)
    requires r < b && r1 < a
    ensures (q * b + r) * a + r1 == q * (a * b) + (r * a + r1)
    ensures r * a + r1 < a * b
  {
    assert (q * b + r) * a == q * (a * b) + r * a;
    assert r * a + a <= b * a by { Rows(r, b, a); }
  }

  lemma Rows(r: nat, b: nat, a: nat)
    requires r < b
    ensures r * a + a <= b * a
  {
    assert (r + 1) * a <= b * a;
  }

  /** Dividing by a power of 256 drops trailing bytes. */
  lemma DropBytes(s: seq<Byte>, n: nat)
    requires n <= |s|
    ensures BE(s) / Pow256(n) == BE(s[..|s| - n])
  {
    var front, back := s[..|s| - n], s[|s| - n..];
    assert s == front + back;
    BEConcat(front, back);
    BEBound(back);
    DivUnique(BE(front), Pow256(n), BE(back));
  }

  lemma IpIsHiLo(ip: Ip)
    ensures BE(ip) == Hi(ip) * P64 + Lo(ip) && Lo(ip) < P64
  {
    assert ip == ip[..8] + ip[8..];
    BEConcat(ip[..8], ip[8..]);
    BEBound(ip[8..]);
    Pow256Of8();
  }

  // ---- staying inside a prefix

  /** Two multiples of d, the smaller at least d below the larger. */
  lemma MultiplesApart(lo: nat, top: nat, d: nat)
    requires d > 0 && lo % d == 0 && top % d == 0 && lo < top
    ensures lo + d <= top
  {
    Quotient(lo, d);
    Quotient(top, d);
    var m, n := lo / d, top / d;
    if m >= n { Rows'(n, m, d); }
    Rows(m, n, d);
  }

  lemma Rows'(n: nat, m: nat, d: nat)
    requires n <= m
    ensures n * d <= m * d
  {
  }

  lemma MultipleOfMultiple(q: nat, c: nat, d: nat, m: nat)
    requires d > 0 && m == c * d
    ensures (q * m) % d == 0
  {
    assert q * (c * d) == (q * c) * d;
    DivUnique(q * c, d, 0);
  }

  lemma ModOfSum(q: nat, m: nat, lo: nat, c: nat, d: nat)
    requires d > 0 && m == c * d && (q * m + lo) % d == 0
    ensures lo % d == 0
  {
    Quotient(lo, d);
    var a := q * c + lo / d;
    assert q * m + lo == a * d + lo % d by {
      assert q * (c * d) == (q * c) * d;
      assert (q * c + lo / d) * d == (q * c) * d + lo / d * d;
    }
    DivUnique(a, d, lo % d);
  }

  /** Inside the host part of a network address nothing is carried out of the low 64 bits. */
  lemma NoCarryOut(n: Net, k: nat)
    requires n.ones <= 128 && Aligned(n) && k < HostSize(n) && k < P64
    ensures Lo(n.ip) + k < P64
  {
    if n.ones >= 64 { NoCarryInLow(n, k); } else { LowHalfIsZero(n); }
  }

  lemma NoCarryInLow(n: Net, k: nat)
    requires 64 <= n.ones <= 128 && Aligned(n) && k < HostSize(n)
    ensures Lo(n.ip) + k < P64
  {
    IpIsHiLo(n.ip);
    Pow256Of8();
    Pow256IsPow2(8);
    var h := 128 - n.ones;
    var d := Pow2(h);
    Pow2Sum(64 - h, h);
    ModOfSum(Hi(n.ip), P64, Lo(n.ip), Pow2(64 - h), d);
    MultipleOfMultiple(1, Pow2(64 - h), d, P64);
    MultiplesApart(Lo(n.ip), P64, d);
  }

  /** The whole low half is host part. */
  lemma LowHalfIsZero(n: Net)
    requires n.ones < 64 && Aligned(n)
    ensures Lo(n.ip) == 0
  {
    IpIsHiLo(n.ip);
    Pow256Of8();
    Pow256IsPow2(8);
    var h := 128 - n.ones;
    Pow2Sum(h - 64, 64);
    Quotient(BE(n.ip), HostSize(n));
    var q := BE(n.ip) / HostSize(n);
    MultipleOfMultiple(q, Pow2(h - 64), P64, HostSize(n));
    DivUnique(Hi(n.ip), P64, Lo(n.ip));
  }

  /** Adding less than the size of the host part to a network address adds exactly that much and stays
      inside the prefix, for prefixes of any length. */
  lemma OffsetStaysInside(n: Net, k: nat)
    requires n.ones <= 128 && Aligned(n) && k < HostSize(n) && k < P64
    ensures BE(HostOffset(n.ip, k)) == BE(n.ip) + k
    ensures Contains(n, HostOffset(n.ip, k))
  {
    NoCarryOut(n, k);
    OffsetAdds(n.ip, k);
    SameMultiple(BE(n.ip), HostSize(n), k);
  }

  lemma OffsetAdds(ip: Ip, k: nat)
    requires Lo(ip) + k < P64
    ensures BE(HostOffset(ip, k)) == BE(ip) + k
  {
    HostOffsetSum(ip, k);
    IpIsHiLo(ip);
    IpIsHiLo(HostOffset(ip, k));
  }

  lemma SameMultiple(x: nat, h: nat, k: nat)
    requires k < h && x % h == 0
    ensures (x + k) / h == x / h
  {
    Quotient(x, h);
    DivUnique(x / h, h, k);
  }

  /** The address a block is announced under. */
  method AnnounceTarget(block: Net) returns (target: Ip)
    requires block.ones <= 128
    ensures target == Announced(block)
  {
    var t := AddHostOffset(block.ip, 1);
    if Contains(block, t) {
      return t;
    }
    return block.ip;
  }

  function Announced(block: Net): Ip
    requires block.ones <= 128
  {
    if Contains(block, HostOffset(block.ip, 1)) then HostOffset(block.ip, 1) else block.ip
  }

  /** It is the first host address of the block, and the address itself for a /128. */
  lemma AnnouncedIsPrimary(block: Net)
    requires block.ones <= 128 && Aligned(block)
    ensures Announced(block) == if block.ones < 128 then HostOffset(block.ip, 1) else block.ip
    ensures block.ones < 128 ==> BE(Announced(block)) == BE(block.ip) + 1
    ensures Contains(block, Announced(block))
  {
    if block.ones < 128 {
      OffsetStaysInside(block, 1);
    } else {
      HostOffsetSum(block.ip, 1);
      assert HostSize(block) == 1;
      OneMore(block.ip);
    }
  }

  lemma OneMore(ip: Ip)
    ensures HostOffset(ip, 1) == ip || BE(HostOffset(ip, 1)) != BE(ip)
  {
  }

  // ---- the /112 block of an account

  const BLOCK_BITS: nat := 112

  function BlockIp(prefix: Ip, idx: int): Ip { prefix[..10] + U32(idx % 0x1_0000_0000) + prefix[14..] }

  function Block(prefix: Net, idx: int): Net { Net(BlockIp(prefix.ip, idx), BLOCK_BITS) }

  method Ipv6BlockIdx(prefix: Net, idx: int) returns (block: Net)
    ensures block == Block(prefix, idx)
  {
    var a := new Byte[16](i requires 0 <= i < 16 => prefix.ip[i]);
    Put(a, 10, U32(idx % 0x1_0000_0000));
    assert a[..10] == prefix.ip[..10] && a[10..14] == U32(idx % 0x1_0000_0000) && a[14..] == prefix.ip[14..];
    assert a[..] == a[..10] + a[10..14] + a[14..];
    block := Net(a[..], BLOCK_BITS);
  }

  lemma BlockBytes(prefix: Net, idx: int)
    ensures var b := Block(prefix, idx).ip;
      b[..10] == prefix.ip[..10] && b[10..14] == U32(idx % 0x1_0000_0000) && b[14..] == prefix.ip[14..]
  {
  }

  lemma ContainsIsPrefix(n: Net, t: Ip, bytes: nat)
    requires bytes <= 16 && n.ones == 8 * bytes
    ensures Contains(n, t) <==> t[..bytes] == n.ip[..bytes]
  {
    Pow256IsPow2(16 - bytes);
    DropBytes(t, 16 - bytes);
    DropBytes(n.ip, 16 - bytes);
    if BE(t[..bytes]) == BE(n.ip[..bytes]) { BEInjective(t[..bytes], n.ip[..bytes]); }
  }

  lemma TagIn(b: Net, t: Ip, tag: seq<Byte>)
    requires b.ones == 112 && Contains(b, t) && b.ip[10..14] == tag
    ensures t[10..14] == tag
  {
    ContainsIsPrefix(b, t, 14);
    SameSlice(t, b.ip);
  }

  lemma TagReads(idx: int)
    requires 0 <= idx < 0x1_0000_0000
    ensures BE(U32(idx % 0x1_0000_0000)) == idx
  {
    U32Reads(idx % 0x1_0000_0000);
  }

  lemma BlockTag(prefix: Net, idx: int, t: Ip)
    requires 0 <= idx < 0x1_0000_0000 && Contains(Block(prefix, idx), t)
    ensures BE(t[10..14]) == idx
  {
    BlockBytes(prefix, idx);
    TagIn(Block(prefix, idx), t, U32(idx % 0x1_0000_0000));
    TagReads(idx);
  }

  lemma SameSlice(s: Ip, t: Ip)
    requires s[..14] == t[..14]
    ensures s[10..14] == t[10..14]
  {
    assert s[..14][10..14] == s[10..14] && t[..14][10..14] == t[10..14];
  }

  /** The blocks of two accounts with different indices share no address. */
  lemma BlocksDisjoint(prefix: Net, i: int, j: int, t: Ip)
    requires 0 <= i < 0x1_0000_0000 && 0 <= j < 0x1_0000_0000 && i != j
    ensures !(Contains(Block(prefix, i), t) && Contains(Block(prefix, j), t))
  {
    if Contains(Block(prefix, i), t) { BlockTag(prefix, i, t); }
    if Contains(Block(prefix, j), t) { BlockTag(prefix, j, t); }
  }

  /** Every address of a block lies in the configured prefix, for prefixes up to /80. */
  lemma BlockInside(prefix: Net, idx: int, t: Ip)
    requires prefix.ones <= 80 && Contains(Block(prefix, idx), t)
    ensures Contains(prefix, t)
  {
    ContainsIsPrefix(Block(prefix, idx), t, 14);
    BlockBytes(prefix, idx);
    assert t[..10] == t[..14][..10] == prefix.ip[..10];
    DropBytes(t, 6);
    DropBytes(prefix.ip, 6);
    Pow256IsPow2(6);
    var extra := 80 - prefix.ones;
    Pow2Sum(48, extra);
    DivDiv(BE(t), Pow2(48), Pow2(extra), HostSize(prefix));
    DivDiv(BE(prefix.ip), Pow2(48), Pow2(extra), HostSize(prefix));
  }
}
