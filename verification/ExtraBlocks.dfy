/** Whole /64 blocks out of the extra prefix: how many there are, which is the idx-th, and the bounded
    scan that finds the lowest free one. A /64 is named by its upper 64 bits. */
module ExtraBlocks {
  import opened Common
  import opened Bytes
  import opened Address

  // ---- byte-wise OR

  function Or(x: nat, y: nat): nat {
    if x == 0 then y
    else if y == 0 then x
    else (if x % 2 == 1 || y % 2 == 1 then 1 else 0) + 2 * Or(x / 2, y / 2)
  }

  lemma HalfAgain(n: nat, i: nat)
    requires i > 0
    ensures n / Pow2(i) == n / 2 / Pow2(i - 1)
  {
    var half, p := n / 2, Pow2(i - 1);
    Quotient(half, p);
    var q, r := half / p, half % p;
    assert n == 2 * half + n % 2 && Pow2(i) == 2 * p;
    TwiceQuotient(q, p, r, n % 2);
    DivUnique(q, 2 * p, 2 * r + n % 2);
  }

  lemma TwiceQuotient(q: nat, p: nat, r: nat, e: nat)
    ensures 2 * (q * p + r) + e == q * (2 * p) + (2 * r + e)
  {
  }

  /** Bit by bit: a bit of the result is set exactly if it is set in one of the two. */
  lemma {:induction false} OrBits(x: nat, y: nat, i: nat)
    ensures Or(x, y) / Pow2(i) % 2 == if x / Pow2(i) % 2 == 1 || y / Pow2(i) % 2 == 1 then 1 else 0
  {
    if i == 0 {
      OrLast(x, y);
    } else if x == 0 || y == 0 {
      DivUnique(0, Pow2(i), 0);
    } else {
      OrHalf(x, y);
      OrBits(x / 2, y / 2, i - 1);
      HalfAgain(x, i);
      HalfAgain(y, i);
      HalfAgain(Or(x, y), i);
    }
  }

  lemma OrLast(x: nat, y: nat)
    ensures Pow2(0) == 1 && Or(x, y) % 2 == if x % 2 == 1 || y % 2 == 1 then 1 else 0
  {
  }

  lemma OrHalf(x: nat, y: nat)
    requires x > 0 && y > 0
    ensures Or(x, y) / 2 == Or(x / 2, y / 2)
  {
  }

  lemma HalfMultiple(x: nat, q: nat)
    requires q > 0 && x % (2 * q) == 0
    ensures x % 2 == 0 && (x / 2) % q == 0
  {
    Quotient(x, 2 * q);
    var c := x / (2 * q);
    assert x == 2 * (c * q);
    DivUnique(c, q, 0);
  }

  /** ORing a number into zero bits adds it. */
  lemma {:induction false} OrAdds(x: nat, y: nat, m: nat)
    requires x % Pow2(m) == 0 && y < Pow2(m)
    ensures Or(x, y) == x + y
  {
    if m > 0 && x != 0 && y != 0 {
      HalfMultiple(x, Pow2(m - 1));
      OrAdds(x / 2, y / 2, m - 1);
    }
  }

  lemma OrByte(x: Byte, y: Byte)
    ensures Or(x, y) < 256
  {
    OrBound(x, y, 8);
    assert Pow2(8) == 256;
  }

  lemma {:induction false} OrBound(x: nat, y: nat, m: nat)
    requires x < Pow2(m) && y < Pow2(m)
    ensures Or(x, y) < Pow2(m)
  {
    if m > 0 && x != 0 && y != 0 { OrBound(x / 2, y / 2, m - 1); }
  }

  function OrB(x: Byte, y: Byte): Byte {
    OrByte(x, y);
    Or(x, y)
  }

  /** A number ORed into a big-endian byte string, digits beyond its first byte being dropped. */
  function Ored(s: seq<Byte>, k: nat): (r: seq<Byte>)
    ensures |r| == |s|
  {
    if s == [] then [] else Ored(s[..|s| - 1], k / 256) + [OrB(s[|s| - 1], k % 256)]
  }

  lemma {:induction false} OredZero(s: seq<Byte>)
    ensures Ored(s, 0) == s
  {
    if s != [] {
      OredZero(s[..|s| - 1]);
      assert s == s[..|s| - 1] + [s[|s| - 1]];
    }
  }

  lemma LowMultiple(h: nat, l: nat, m: nat)
    requires m <= 8 && (h * 256 + l) % Pow2(m) == 0
    ensures l % Pow2(m) == 0
  {
    Pow2Sum(8 - m, m);
    assert Pow2(8) == 256;
    ModOfSum(h, 256, l, Pow2(8 - m), Pow2(m));
  }

  lemma HighMultiple(h: nat, l: nat, m: nat)
    requires m >= 8 && l < 256 && (h * 256 + l) % Pow2(m) == 0
    ensures l == 0 && h % Pow2(m - 8) == 0
  {
    var p := Pow2(m - 8);
    Pow2Sum(m - 8, 8);
    assert Pow2(8) == 256;
    var x := h * 256 + l;
    Quotient(x, p * 256);
    var c := x / (p * 256);
    assert x == (c * p) * 256;
    DivUnique(h, 256, l);
    DivUnique(c * p, 256, 0);
    DivUnique(c, p, 0);
  }

  lemma SmallQuotient(k: nat, m: nat)
    requires k < Pow2(m)
    ensures m >= 8 ==> k / 256 < Pow2(m - 8)
    ensures m < 8 ==> k < 256
  {
    if m >= 8 {
      Pow2Sum(m - 8, 8);
      assert Pow2(8) == 256;
    } else {
      Pow2Sum(m, 8 - m);
      assert Pow2(8) == 256;
      Grows(Pow2(8 - m), Pow2(m));
    }
  }

  /** What an OR adds to the last byte and to the rest, it adds to the whole. */
  lemma OredStep(s: seq<Byte>, k: nat, a: nat, b: nat)
    requires s != [] && |Ored(s, k)| == |s|
    requires BE(Ored(s[..|s| - 1], k / 256)) == BE(s[..|s| - 1]) + a && OrB(s[|s| - 1], k % 256) == s[|s| - 1] + b
    ensures BE(Ored(s, k)) == BE(s) + a * 256 + b
  {
    OredParts(s, k);
    LastDigit(s, Ored(s, k), a, b);
  }

  /** The last byte is zero and takes the last digit as it is. */
  lemma OredHigh(s: seq<Byte>, k: nat, a: nat)
    requires s != [] && s[|s| - 1] == 0 && BE(Ored(s[..|s| - 1], k / 256)) == BE(s[..|s| - 1]) + a
    ensures BE(Ored(s, k)) == BE(s) + a * 256 + k % 256
  {
    OredStep(s, k, a, k % 256);
  }

  /** Only the last byte changes. */
  lemma OredLow(s: seq<Byte>, k: nat, x: nat)
    requires s != [] && k < 256 && Or(s[|s| - 1], k) == s[|s| - 1] + x
    ensures BE(Ored(s, k)) == BE(s) + x
  {
    OredZero(s[..|s| - 1]);
    assert k / 256 == 0 && k % 256 == k;
    OredStep(s, k, 0, x);
  }

  lemma OredParts(s: seq<Byte>, k: nat)
    requires s != []
    ensures Ored(s, k)[..|s| - 1] == Ored(s[..|s| - 1], k / 256) && Ored(s, k)[|s| - 1] == OrB(s[|s| - 1], k % 256)
  {
  }

  lemma LastDigit(s: seq<Byte>, t: seq<Byte>, a: nat, b: nat)
    requires s != [] && |t| == |s|
    requires BE(t[..|s| - 1]) == BE(s[..|s| - 1]) + a && t[|s| - 1] == s[|s| - 1] + b
    ensures BE(t) == BE(s) + a * 256 + b
  {
  }

  /** The low m bits of the string are zero. */
  predicate LowZero(s: seq<Byte>, m: nat)
    requires m <= 8 * |s|
  {
    if s == [] then true
    else if m >= 8 then s[|s| - 1] == 0 && LowZero(s[..|s| - 1], m - 8)
    else s[|s| - 1] % Pow2(m) == 0
  }

  lemma {:induction false} LowZeroOf(s: seq<Byte>, m: nat)
    requires BE(s) % Pow2(m) == 0 && m <= 8 * |s|
    ensures LowZero(s, m)
  {
    if s != [] {
      var front, last := s[..|s| - 1], s[|s| - 1];
      if m >= 8 {
        HighMultiple(BE(front), last, m);
        LowZeroOf(front, m - 8);
      } else {
        LowMultiple(BE(front), last, m);
      }
    }
  }

  lemma {:induction false} OredInto(s: seq<Byte>, k: nat, m: nat)
    requires m <= 8 * |s| && LowZero(s, m) && k < Pow2(m)
    ensures BE(Ored(s, k)) == BE(s) + k
  {
    if s != [] {
      SmallQuotient(k, m);
      if m >= 8 {
        OredInto(s[..|s| - 1], k / 256, m - 8);
        OredHigh(s, k, k / 256);
      } else {
        OrAdds(s[|s| - 1], k, m);
        OredLow(s, k, k);
      }
    }
  }

  /** With the low m bits of the string zero, ORing in a number of at most m bits adds it. */
  lemma OredIsSum(s: seq<Byte>, k: nat, m: nat)
    requires BE(s) % Pow2(m) == 0 && k < Pow2(m) && m <= 8 * |s|
    ensures BE(Ored(s, k)) == BE(s) + k
  {
    LowZeroOf(s, m);
    OredInto(s, k, m);
  }

  lemma Regrouped(q: nat, m: nat, p: nat)
    ensures q * (m * p) == (q * m) * p
  {
  }

  lemma TopRegrouped(q: nat, p: nat, c: nat)
    ensures q * (2 * (p * c)) + p * c == (q * (2 * p) + p) * c
  {
    Regrouped(q, 2 * p, c);
  }

  /** ORing in a number whose top bit is already set adds the rest of it. */
  lemma {:induction false} OrSetBit(x: nat, q: nat, j: nat, m: nat)
    requires x == q * (2 * Pow2(m)) + Pow2(m) && j < Pow2(m)
    ensures Or(x, Pow2(m) + j) == x + j
  {
    if m > 0 {
      TopRegrouped(q, Pow2(m - 1), 2);
      OrSetBit(x / 2, q, j / 2, m - 1);
    }
  }

  lemma SplitDigit(p: nat, j: nat)
    ensures (p * 256 + j) / 256 == p + j / 256 && (p * 256 + j) % 256 == j % 256
  {
  }

  lemma SetBitAbove(h: nat, l: nat, q: nat, p: nat)
    requires l < 256 && h * 256 + l == q * (2 * (p * 256)) + p * 256
    ensures l == 0 && h == q * (2 * p) + p
  {
    TopRegrouped(q, p, 256);
    DivUnique(h, 256, l);
    DivUnique(q * (2 * p) + p, 256, 0);
  }

  lemma SetBitInside(h: nat, l: nat, q: nat, c: nat, p: nat) returns (q': nat)
    requires p > 0 && c * (2 * p) == 256 && h * 256 + l == q * (2 * p) + p
    ensures l == q' * (2 * p) + p
  {
    assert h * 256 == (h * c) * (2 * p) by { Regrouped(h, c, 2 * p); }
    var d: int := q - h * c;
    assert l == d * (2 * p) + p by { Distributed(q, h * c, 2 * p); }
    if d < 0 { NegativeProduct(d, 2 * p); }
    q' := d;
  }

  lemma Distributed(a: int, b: int, c: int)
    ensures a * c - b * c == (a - b) * c
  {
  }

  lemma NegativeProduct(d: int, p: int)
    requires d < 0 && p > 0
    ensures d * p <= -p
  {
  }

  /** Bit m of the string is set and the bits below it are zero. */
  predicate TopBit(s: seq<Byte>, m: nat)
    requires m < 8 * |s|
  {
    if m >= 8 then s[|s| - 1] == 0 && TopBit(s[..|s| - 1], m - 8)
    else s[|s| - 1] % (2 * Pow2(m)) == Pow2(m)
  }

  lemma {:induction false} TopBitOf(s: seq<Byte>, q: nat, m: nat)
    requires BE(s) == q * (2 * Pow2(m)) + Pow2(m) && m < 8 * |s|
    ensures TopBit(s, m)
  {
    var front, last := s[..|s| - 1], s[|s| - 1];
    if m >= 8 {
      TopBitAbove(BE(front), last, q, m);
      TopBitOf(front, q, m - 8);
    } else {
      TopBitInside(BE(front), last, q, m);
    }
  }

  lemma TopBitAbove(h: nat, l: nat, q: nat, m: nat)
    requires m >= 8 && l < 256 && h * 256 + l == q * (2 * Pow2(m)) + Pow2(m)
    ensures l == 0 && h == q * (2 * Pow2(m - 8)) + Pow2(m - 8)
  {
    Pow2Sum(m - 8, 8);
    assert Pow2(8) == 256;
    SetBitAbove(h, l, q, Pow2(m - 8));
  }

  lemma TopBitInside(h: nat, l: nat, q: nat, m: nat)
    requires m < 8 && l < 256 && h * 256 + l == q * (2 * Pow2(m)) + Pow2(m)
    ensures l % (2 * Pow2(m)) == Pow2(m)
  {
    Pow2Sum(7 - m, m + 1);
    assert Pow2(8) == 256 && Pow2(m + 1) == 2 * Pow2(m);
    var inner := SetBitInside(h, l, q, Pow2(7 - m), Pow2(m));
    DivUnique(inner, 2 * Pow2(m), Pow2(m));
  }

  lemma TopQuotient(j: nat, m: nat)
    requires j < Pow2(m)
    ensures m >= 8 ==> (Pow2(m) + j) / 256 == Pow2(m - 8) + j / 256 && (Pow2(m) + j) % 256 == j % 256 && j / 256 < Pow2(m - 8)
    ensures m < 8 ==> Pow2(m) + j < 256
  {
    assert Pow2(8) == 256;
    if m >= 8 {
      Pow2Sum(m - 8, 8);
      SplitDigit(Pow2(m - 8), j);
      SmallQuotient(j, m);
    } else {
      Pow2Sum(7 - m, m + 1);
      assert Pow2(m + 1) == 2 * Pow2(m);
      Grows(Pow2(7 - m), Pow2(m + 1));
    }
  }

  /** The same for a byte string. */
  lemma {:induction false} OredSetBit(s: seq<Byte>, j: nat, m: nat)
    requires m < 8 * |s| && TopBit(s, m) && j < Pow2(m)
    ensures BE(Ored(s, Pow2(m) + j)) == BE(s) + j
  {
    TopQuotient(j, m);
    if m >= 8 {
      OredSetBit(s[..|s| - 1], j / 256, m - 8);
      OredHigh(s, Pow2(m) + j, j / 256);
    } else {
      OrTop(s[|s| - 1], j, m);
      OredLow(s, Pow2(m) + j, j);
    }
  }

  lemma OrTop(x: nat, j: nat, m: nat)
    requires x % (2 * Pow2(m)) == Pow2(m) && j < Pow2(m)
    ensures Or(x, Pow2(m) + j) == x + j
  {
    Quotient(x, 2 * Pow2(m));
    OrSetBit(x, x / (2 * Pow2(m)), j, m);
  }

  // ---- extraBlockAt

  function BlockAddress(p: Ip, idx: nat): Ip { Ored(p[..8], idx) + p[8..] }

  lemma OrRound(p: Ip, i: nat, rest: nat, done: seq<Byte>, bytes: seq<Byte>)
    requires i < 8 && |done| == 15 - i && bytes == p[..i + 1] + done
    ensures bytes[i] == p[i] && bytes[i := OrB(p[i], rest % 256)] == p[..i] + ([OrB(p[i], rest % 256)] + done)
    ensures Ored(p[..i + 1], rest) + done == Ored(p[..i], rest / 256) + ([OrB(p[i], rest % 256)] + done)
  {
    assert p[..i + 1] == p[..i] + [p[i]];
    assert p[..i + 1][..i] == p[..i];
    Overwrite(p[..i], p[i], done, OrB(p[i], rest % 256));
  }

  method ExtraBlockAt(p: Ip, idx: nat) returns (b: Ip)
    ensures b == BlockAddress(p, idx)
  {
    ghost var target := BlockAddress(p, idx);
    var a := new Byte[16](i requires 0 <= i < 16 => p[i]);
    var rest := idx;
    var i := 7;
    ghost var done := p[8..];
    assert a[..] == p == p[..8] + done;
    while i >= 0 && rest > 0
      invariant -1 <= i <= 7 && |done| == 15 - i
      invariant a[..] == p[..i + 1] + done
      invariant target == Ored(p[..i + 1], rest) + done
    {
      ghost var bytes := a[..];
      OrRound(p, i, rest, done, bytes);
      assert a[i] == bytes[i];
      var byte := OrB(a[i], rest % 256);
      a[i] := byte;
      assert a[..] == bytes[i := byte];
      rest, i, done := rest / 256, i - 1, [byte] + done;
    }
    if i >= 0 { OredZero(p[..i + 1]); }
    assert i < 0 ==> Ored(p[..i + 1], rest) == [] == p[..i + 1];
    b := a[..];
  }

  /** How many /64s the prefix really holds. */
  function Room(p: Net): nat
    requires p.ones < 64
  {
    Pow2(64 - p.ones)
  }

  lemma CommonFactor(hi: nat, lo: nat, q: nat, m: nat, p: nat)
    requires m > 0 && lo < p && hi * p + lo == q * (m * p)
    ensures lo == 0 && hi % m == 0
  {
    Regrouped(q, m, p);
    DivUnique(hi, p, lo);
    DivUnique(q * m, p, 0);
    DivUnique(q, m, 0);
  }

  lemma HighHalfAligned(p: Net)
    requires p.ones < 64 && Aligned(p)
    ensures Hi(p.ip) % Room(p) == 0 && Lo(p.ip) == 0
  {
    IpIsHiLo(p.ip);
    Pow2Sum(64 - p.ones, 64);
    Pow256Of8();
    Pow256IsPow2(8);
    Quotient(BE(p.ip), HostSize(p));
    CommonFactor(Hi(p.ip), Lo(p.ip), BE(p.ip) / HostSize(p), Room(p), P64);
  }

  /** The idx-th block is base + idx · 2^64: the OR never meets a set bit. */
  lemma BlockIsOffset(p: Net, idx: nat)
    requires p.ones < 64 && Aligned(p) && idx < Room(p)
    ensures Hi(BlockAddress(p.ip, idx)) == Hi(p.ip) + idx && Lo(BlockAddress(p.ip, idx)) == 0
    ensures BE(BlockAddress(p.ip, idx)) == BE(p.ip) + idx * P64
  {
    var b := BlockAddress(p.ip, idx);
    HighHalfAligned(p);
    OredIsSum(p.ip[..8], idx, 64 - p.ones);
    assert b[..8] == Ored(p.ip[..8], idx) && b[8..] == p.ip[8..];
    IpIsHiLo(p.ip);
    IpIsHiLo(b);
  }

  /** A /64 of the prefix: its number lies between the first and the last. */
  predicate InPrefix(p: Net, hi: nat)
    requires p.ones < 64
  {
    Hi(p.ip) <= hi < Hi(p.ip) + Room(p)
  }

  /** The blocks are the /64s of the prefix: an address is in the prefix exactly when its /64 is one. */
  lemma PrefixIsItsBlocks(p: Net, t: Ip)
    requires p.ones < 64 && Aligned(p)
    ensures Contains(p, t) <==> InPrefix(p, Hi(t))
  {
    HighHalfAligned(p);
    IpIsHiLo(p.ip);
    IpIsHiLo(t);
    Pow2Sum(64, 64 - p.ones);
    Pow256Of8();
    Pow256IsPow2(8);
    DivDiv(BE(t), P64, Room(p), HostSize(p));
    DivDiv(BE(p.ip), P64, Room(p), HostSize(p));
    DivUnique(Hi(t), P64, Lo(t));
    DivUnique(Hi(p.ip), P64, 0);
    SameQuotient(Hi(p.ip), Hi(t), Room(p));
  }

  lemma SameQuotient(base: nat, x: nat, m: nat)
    requires m > 0 && base % m == 0
    ensures x / m == base / m <==> base <= x < base + m
  {
    Quotient(base, m);
    Quotient(x, m);
    if base <= x < base + m {
      DivUnique(base / m, m, x - base);
    }
  }

  // ---- extraBlockCount

  const COUNT_CAP: nat := 0x1_0000_0000

  function ExtraBlockCount(ones: nat): nat {
    if ones >= 64 then 0
    else if 64 - ones >= 31 then COUNT_CAP
    else Pow2(64 - ones)
  }

  lemma {:induction false} Pow2Monotone(a: nat, b: nat)
    requires a <= b
    ensures Pow2(a) <= Pow2(b)
  {
    Pow2Sum(a, b - a);
    Grows(Pow2(b - a), Pow2(a));
  }

  lemma Pow2Of32()
    ensures Pow2(31) == 0x8000_0000 && Pow2(32) == COUNT_CAP
  {
    Pow2Sum(16, 16);
    assert Pow2(8) == 256;
    Pow2Sum(8, 8);
    assert Pow2(32) == 2 * Pow2(31);
  }

  /** The count never exceeds the room, except at exactly /33, where the cap doubles it; from /34 on it
      is exact. */
  lemma CountFitsExactly(p: Net)
    ensures p.ones < 64 ==> (ExtraBlockCount(p.ones) <= Room(p) <==> p.ones != 33)
    ensures 33 < p.ones < 64 ==> ExtraBlockCount(p.ones) == Room(p)
    ensures p.ones == 33 ==> ExtraBlockCount(p.ones) == 2 * Room(p)
    ensures p.ones <= 33 ==> ExtraBlockCount(p.ones) == 0x1_0000_0000
    ensures p.ones >= 64 ==> ExtraBlockCount(p.ones) == 0
  {
    Pow2Of32();
    if p.ones < 33 { Pow2Monotone(32, 64 - p.ones); }
  }

  // ---- pickExtraBlock

  function BlockNumber(p: Net, idx: nat): nat { Hi(BlockAddress(p.ip, idx)) }

  ghost predicate TakenBelow(p: Net, n: nat, taken: set<nat>) {
    forall i :: 0 <= i < n ==> BlockNumber(p, i) in taken
  }

  /** The outcome of scanning the first `limit` indices: the first whose block is not taken. */
  ghost predicate Scanned(p: Net, limit: nat, taken: set<nat>, r: Option<nat>) {
    if r.None? then TakenBelow(p, limit, taken)
    else r.value !in taken && exists idx :: 0 <= idx < limit && r.value == BlockNumber(p, idx) && TakenBelow(p, idx, taken)
  }

  function Limit(p: Net, used: set<nat>, reserved: set<nat>): nat {
    Min(|used| + |reserved| + 1, ExtraBlockCount(p.ones))
  }

  /** The bounded scan, as it stands: it looks at no more than used + reserved + 1 indices. */
  method PickExtraBlock(modeOk: bool, p: Option<Net>, used: set<nat>, reserved: set<nat>) returns (r: Option<nat>)
    ensures !modeOk || p.None? || p.value.ones >= 64 ==> r == None
    ensures modeOk && p.Some? && p.value.ones < 64 ==> Scanned(p.value, Limit(p.value, used, reserved), used + reserved, r)
  {
    if !modeOk || p.None? { return None; }
    var total := ExtraBlockCount(p.value.ones);
    CountFitsExactly(p.value);
    if total == 0 { return None; }
    var limit := |used| + |reserved| + 1;
    if limit > total { limit := total; }
    for idx := 0 to limit
      invariant TakenBelow(p.value, idx, used + reserved)
    {
      var address := ExtraBlockAt(p.value.ip, idx);
      var b := Hi(address);
      if b in used || b in reserved { continue; }
      return Some(b);
    }
    return None;
  }

  /** Distinct numbers that all lie in a finite set are at most as many as its elements. */
  lemma {:induction false} Pigeonhole(base: nat, n: nat, taken: set<nat>)
    requires forall i :: base <= i < base + n ==> i in taken
    ensures n <= |taken|
  {
    if n > 0 {
      var last := base + n - 1;
      assert last in taken;
      Pigeonhole(base, n - 1, taken - {last});
    }
  }

  lemma UnionSize(a: set<nat>, b: set<nat>)
    ensures |a + b| <= |a| + |b|
  {
  }

  /** The prefixes for which the scan's reasoning holds: every length but /33, and /33 as long as fewer
      blocks are used and reserved than it holds. */
  predicate ScanSound(p: Net, used: set<nat>, reserved: set<nat>)
    requires p.ones < 64
  {
    p.ones != 33 || |used| + |reserved| < Room(p)
  }

  lemma TakenAreNumbers(p: Net, n: nat, taken: set<nat>)
    requires p.ones < 64 && Aligned(p) && n <= Room(p) && TakenBelow(p, n, taken)
    ensures forall i :: Hi(p.ip) <= i < Hi(p.ip) + n ==> i in taken
  {
    forall i | Hi(p.ip) <= i < Hi(p.ip) + n ensures i in taken {
      BlockIsOffset(p, i - Hi(p.ip));
      assert BlockNumber(p, i - Hi(p.ip)) in taken;
    }
  }

  /** One free index among any used + reserved + 1: the scan cannot come back empty before the limit. */
  lemma ScanReachesFree(p: Net, used: set<nat>, reserved: set<nat>)
    requires p.ones < 64 && Aligned(p) && |used| + |reserved| + 1 <= Room(p)
    ensures !TakenBelow(p, |used| + |reserved| + 1, used + reserved)
  {
    if TakenBelow(p, |used| + |reserved| + 1, used + reserved) {
      TakenAreNumbers(p, |used| + |reserved| + 1, used + reserved);
      Pigeonhole(Hi(p.ip), |used| + |reserved| + 1, used + reserved);
      UnionSize(used, reserved);
      assert false;
    }
  }

  /** What the scan returns, against an independent definition of "the lowest free block". */
  ghost predicate LowestFree(p: Net, taken: set<nat>, b: nat)
    requires p.ones < 64
  {
    InPrefix(p, b) && b !in taken && forall c :: Hi(p.ip) <= c < b ==> c in taken
  }

  ghost predicate AllTaken(p: Net, n: nat, taken: set<nat>) {
    forall c :: Hi(p.ip) <= c < Hi(p.ip) + n ==> c in taken
  }

  /** Although it looks at only used + reserved + 1 indices, the scan returns the lowest free block of the
      prefix, and nothing only when every counted block is taken. */
  method PickIsComplete(p: Net, used: set<nat>, reserved: set<nat>) returns (r: Option<nat>)
    requires p.ones < 64 && Aligned(p) && ScanSound(p, used, reserved)
    ensures r.Some? ==> LowestFree(p, used + reserved, r.value) && r.value < Hi(p.ip) + ExtraBlockCount(p.ones)
    ensures r.None? ==> AllTaken(p, Min(ExtraBlockCount(p.ones), Room(p)), used + reserved)
  {
    r := PickExtraBlock(true, Some(p), used, reserved);
    PickMeans(p, used, reserved, r);
  }

  lemma PickMeans(p: Net, used: set<nat>, reserved: set<nat>, r: Option<nat>)
    requires p.ones < 64 && Aligned(p) && ScanSound(p, used, reserved)
    requires Scanned(p, Limit(p, used, reserved), used + reserved, r)
    ensures r.Some? ==> LowestFree(p, used + reserved, r.value) && r.value < Hi(p.ip) + ExtraBlockCount(p.ones)
    ensures r.None? ==> AllTaken(p, Min(ExtraBlockCount(p.ones), Room(p)), used + reserved)
  {
    var taken := used + reserved;
    var limit := Min(|used| + |reserved| + 1, ExtraBlockCount(p.ones));
    CountFitsExactly(p);
    assert limit <= Room(p);
    if r.Some? {
      var idx :| 0 <= idx < limit && r.value == BlockNumber(p, idx) && r.value !in taken && TakenBelow(p, idx, taken);
      BlockIsOffset(p, idx);
      TakenAreNumbers(p, idx, taken);
    } else {
      if limit == |used| + |reserved| + 1 { ScanReachesFree(p, used, reserved); }
      TakenAreNumbers(p, limit, taken);
    }
  }

  // ---- exactly /33, where the count is twice the room

  /** The scan returns the block of index k if that is the first free one and the scan gets to it. */
  lemma ScanFinds(p: Net, limit: nat, taken: set<nat>, r: Option<nat>, k: nat)
    requires Scanned(p, limit, taken, r) && TakenBelow(p, k, taken) && BlockNumber(p, k) !in taken && k < limit
    ensures r == Some(BlockNumber(p, k))
  {
  }

  lemma BlockInRoom(p: Net, idx: nat)
    requires p.ones < 64 && Aligned(p) && idx < Room(p)
    ensures BlockNumber(p, idx) == Hi(p.ip) + idx
  {
    BlockIsOffset(p, idx);
  }

  lemma NumbersAreTaken(p: Net, n: nat, taken: set<nat>)
    requires p.ones < 64 && Aligned(p) && n <= Room(p) && AllTaken(p, n, taken)
    ensures TakenBelow(p, n, taken)
  {
    forall i | 0 <= i < n ensures BlockNumber(p, i) in taken { BlockInRoom(p, i); }
  }

  /** The lowest free block, if the first n are not all taken. */
  lemma {:induction false} FirstFree(base: nat, n: nat, taken: set<nat>) returns (k: nat)
    requires !(forall c :: base <= c < base + n ==> c in taken)
    ensures k < n && base + k !in taken && forall c :: base <= c < base + k ==> c in taken
    decreases n
  {
    if forall c :: base <= c < base + (n - 1) ==> c in taken { k := n - 1; } else { k := FirstFree(base, n - 1, taken); }
  }

  /** As long as the prefix has a free block, the scan returns the lowest; once it is full, nothing the scan
      returns lies in the prefix. */
  lemma At33(p: Net, used: set<nat>, reserved: set<nat>, r: Option<nat>)
    requires p.ones == 33 && Aligned(p) && Scanned(p, Limit(p, used, reserved), used + reserved, r)
    ensures !AllTaken(p, Room(p), used + reserved) ==> r.Some? && LowestFree(p, used + reserved, r.value)
    ensures AllTaken(p, Room(p), used + reserved) ==> r.None? || !InPrefix(p, r.value)
  {
    var taken := used + reserved;
    if !AllTaken(p, Room(p), taken) {
      var k := FirstFree(Hi(p.ip), Room(p), taken);
      NumbersAreTaken(p, k, taken);
      BlockInRoom(p, k);
      CountFitsExactly(p);
      Pigeonhole(Hi(p.ip), k, taken);
      UnionSize(used, reserved);
      ScanFinds(p, Limit(p, used, reserved), taken, r, k);
    }
  }

  lemma NextBlockAt33(p: Net)
    requires p.ones == 33 && Aligned(p) && Hi(p.ip) % Pow2(32) == 0
    ensures BlockNumber(p, Room(p)) == Hi(p.ip) + Room(p)
  {
    Pow2Of32();
    OredIsSum(p.ip[..8], Room(p), 32);
    assert BlockAddress(p.ip, Room(p))[..8] == Ored(p.ip[..8], Room(p));
  }

  /** In the upper half of a /32 the indices past the room lead back into the prefix. */
  lemma BlockPast33(p: Net, idx: nat)
    requires p.ones == 33 && Aligned(p) && Hi(p.ip) % Pow2(32) != 0 && Room(p) <= idx < 2 * Room(p)
    ensures BlockNumber(p, idx) == Hi(p.ip) + (idx - Room(p))
  {
    Pow2Of32();
    HighHalfAligned(p);
    var q := HalfwayUp(Hi(p.ip), Pow2(31));
    TopBitOf(p.ip[..8], q, 31);
    OredSetBit(p.ip[..8], idx - Room(p), 31);
    assert BlockAddress(p.ip, idx)[..8] == Ored(p.ip[..8], idx);
  }

  lemma HalfwayUp(x: nat, h: nat) returns (q: nat)
    requires h > 0 && x % h == 0 && x % (2 * h) != 0
    ensures x == q * (2 * h) + h
  {
    Quotient(x, h);
    var c := x / h;
    q := c / 2;
    if c % 2 == 0 {
      Regrouped(q, 2, h);
      DivUnique(q, 2 * h, 0);
    } else {
      TopRegrouped(q, h, 1);
      assert c == 2 * q + 1;
    }
  }

  /** Exactly what a full /33 hands out: in the lower half of its /32 the first block of its neighbour, in the
      upper half nothing. */
  lemma Full33Exactly(p: Net, used: set<nat>, reserved: set<nat>, r: Option<nat>)
    requires p.ones == 33 && Aligned(p)
    requires AllTaken(p, Room(p), used + reserved) && forall b :: b in used + reserved ==> InPrefix(p, b)
    requires Scanned(p, Limit(p, used, reserved), used + reserved, r)
    ensures r == if Hi(p.ip) % Pow2(32) == 0 then Some(Hi(p.ip) + Room(p)) else None
    ensures (r.Some? && !InPrefix(p, r.value)) <==> Hi(p.ip) % Pow2(32) == 0
  {
    var taken := used + reserved;
    CountFitsExactly(p);
    if Hi(p.ip) % Pow2(32) == 0 {
      NumbersAreTaken(p, Room(p), taken);
      Pigeonhole(Hi(p.ip), Room(p), taken);
      UnionSize(used, reserved);
      NextBlockAt33(p);
      ScanFinds(p, Limit(p, used, reserved), taken, r, Room(p));
    } else if r.Some? {
      var idx :| 0 <= idx < Limit(p, used, reserved) && r.value == BlockNumber(p, idx);
      if idx < Room(p) { BlockInRoom(p, idx); } else { BlockPast33(p, idx); }
    }
  }

  // ---- ExtraCapacity

  datatype Capacity = Capacity(total: nat, reserved: nat, used: nat, free: nat)

  ghost function UsedInside(p: Net, used: set<nat>): set<nat>
    requires p.ones < 64
  {
    set b | b in used && InPrefix(p, b)
  }

  method ExtraCapacity(p: Net, used: set<nat>, reserved: set<nat>) returns (c: Capacity)
    requires p.ones < 64
    ensures c.total == ExtraBlockCount(p.ones) && c.reserved == |reserved| && c.used == |UsedInside(p, used)|
    ensures c.free == Max(0, c.total - c.reserved - c.used)
  {
    var rest := used;
    var n := 0;
    while rest != {}
      invariant rest <= used && n == |UsedInside(p, used - rest)|
      decreases rest
    {
      var b :| b in rest;
      assert UsedInside(p, used - (rest - {b})) == UsedInside(p, used - rest) + (if InPrefix(p, b) then {b} else {});
      rest := rest - {b};
      if InPrefix(p, b) { n := n + 1; }
    }
    assert used - {} == used;
    var total := ExtraBlockCount(p.ones);
    var free := total - |reserved| - n;
    if free < 0 { free := 0; }
    c := Capacity(total, |reserved|, n, free);
  }

  /** If every one of the first n blocks is taken, capacity reports at most total - n free. */
  lemma TakenCounted(p: Net, used: set<nat>, reserved: set<nat>, n: nat)
    requires p.ones < 64 && n <= Room(p) && AllTaken(p, n, used + reserved)
    ensures n <= |reserved| + |UsedInside(p, used)|
  {
    forall c | Hi(p.ip) <= c < Hi(p.ip) + n ensures c in reserved + UsedInside(p, used) {
      assert c in used + reserved && InPrefix(p, c);
    }
    Pigeonhole(Hi(p.ip), n, reserved + UsedInside(p, used));
    UnionSize(reserved, UsedInside(p, used));
  }

  /** A positive free count means the pick succeeds. */
  lemma FreeMeansPick(p: Net, used: set<nat>, reserved: set<nat>, r: Option<nat>)
    requires p.ones < 64 && Aligned(p) && ScanSound(p, used, reserved)
    requires r.None? ==> AllTaken(p, Min(ExtraBlockCount(p.ones), Room(p)), used + reserved)
    requires ExtraBlockCount(p.ones) - |reserved| - |UsedInside(p, used)| > 0
    ensures r.Some?
  {
    if r.None? {
      CountFitsExactly(p);
      var n := Min(ExtraBlockCount(p.ones), Room(p));
      TakenCounted(p, used, reserved, n);
      UsedInsideSmall(p, used);
      assert false;
    }
  }

  lemma UsedInsideSmall(p: Net, used: set<nat>)
    requires p.ones < 64
    ensures |UsedInside(p, used)| <= |used|
  {
    var u := UsedInside(p, used);
    assert u <= used && used == u + (used - u);
    assert |used| == |u| + |used - u|;
  }
}
