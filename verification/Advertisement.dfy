/** Neighbor Advertisement frames and the Internet checksum. */
module Advertisement {
  import opened Bytes

  // ---- the checksum

  /** The sum of the 16-bit words of a byte string, an odd last byte being the high half of a word. */
  function WordSum(data: seq<Byte>): nat {
    if |data| == 0 then 0
    else if |data| == 1 then data[0] * 256
    else data[0] * 256 + data[1] + WordSum(data[2..])
  }

  /** The one's complement sum belonging to a plain sum: its residue modulo 2^16 - 1, where a multiple
      other than zero is represented by 0xffff. */
  function Folded(sum: nat): (r: nat)
    ensures r <= 0xffff && (r == 0 <==> sum == 0)
  {
    if sum == 0 then 0 else if sum % 0xffff == 0 then 0xffff else sum % 0xffff
  }

  const ACCUMULATOR: int := 0x1_0000_0000

  lemma FoldStep(sum: nat)
    ensures (sum % 0x1_0000 + sum / 0x1_0000) % 0xffff == sum % 0xffff
    ensures sum % 0x1_0000 + sum / 0x1_0000 == 0 <==> sum == 0
    ensures sum >= 0x1_0000 ==> sum % 0x1_0000 + sum / 0x1_0000 < sum
  {
  }

  lemma WrapStep(a: nat, b: nat)
    ensures (a % ACCUMULATOR + b) % ACCUMULATOR == (a + b) % ACCUMULATOR
  {
  }

  lemma FoldedIs(sum: nat, total: nat)
    requires sum < 0x1_0000 && sum % 0xffff == total % 0xffff && (sum == 0 <==> total == 0)
    ensures sum == Folded(total)
  {
  }

  /** The loops of the checksum, with the 32-bit accumulator wrapping as it does in the source. */
  method Checksum(data: seq<Byte>) returns (c: int)
    ensures c == 0xffff - Folded(WordSum(data) % ACCUMULATOR)
  {
    var sum: nat := 0;
    var rest := data;
    while |rest| >= 2
      invariant sum < ACCUMULATOR
      invariant (sum + WordSum(rest)) % ACCUMULATOR == WordSum(data) % ACCUMULATOR
      decreases |rest|
    {
      var high: int, low: int := rest[0], rest[1];
      WrapStep(sum + high * 256 + low, WordSum(rest[2..]));
      sum := (sum + high * 256 + low) % ACCUMULATOR;
      rest := rest[2..];
    }
    if |rest| == 1 {
      var high: int := rest[0];
      sum := (sum + high * 256) % ACCUMULATOR;
    }

    ghost var total := sum;
    assert total == WordSum(data) % ACCUMULATOR;
    while sum / 0x1_0000 != 0
      invariant sum % 0xffff == total % 0xffff && (sum == 0 <==> total == 0)
      decreases sum
    {
      FoldStep(sum);
      sum := sum % 0x1_0000 + sum / 0x1_0000;
    }
    FoldedIs(sum, total);
    c := 0xffff - sum;
  }

  const LONGEST: nat := 131074

  lemma {:induction false} WordSumBound(data: seq<Byte>)
    ensures WordSum(data) <= (|data| + 1) / 2 * 0xffff
  {
    if |data| >= 2 { WordSumBound(data[2..]); }
  }

  /** Up to 131074 bytes the accumulator holds the true sum. */
  lemma NoOverflow(data: seq<Byte>)
    requires |data| <= LONGEST
    ensures WordSum(data) < ACCUMULATOR
  {
    WordSumBound(data);
  }

  lemma {:induction false} AllOnesSum(words: nat)
    ensures WordSum(seq(2 * words, _ => 255)) == words * 0xffff
  {
    var data := seq(2 * words, _ => 255);
    if words > 0 {
      assert data[2..] == seq(2 * (words - 1), _ => 255);
      AllOnesSum(words - 1);
    }
  }

  /** The bound is the largest possible: at the next even length a byte string overflows it. */
  lemma BoundIsTight()
    ensures exists data: seq<Byte> :: |data| == LONGEST + 2 && WordSum(data) >= ACCUMULATOR
  {
    var data: seq<Byte> := seq(2 * 65538, _ => 255);
    AllOnesSum(65538);
    assert |data| == LONGEST + 2;
  }

  lemma {:induction false} WordSumConcat(a: seq<Byte>, b: seq<Byte>)
    requires |a| % 2 == 0
    ensures WordSum(a + b) == WordSum(a) + WordSum(b)
  {
    if a == [] {
      assert a + b == b;
    } else {
      assert (a + b)[2..] == a[2..] + b;
      WordSumConcat(a[2..], b);
    }
  }

  /** Modulo 2^16 - 1, where 2^16 is 1, the sum of the words is the number the bytes spell. */
  lemma {:induction false} WordSumIsResidue(data: seq<Byte>)
    requires |data| % 2 == 0
    ensures WordSum(data) % 0xffff == BE(data) % 0xffff && (WordSum(data) == 0 <==> BE(data) == 0)
  {
    if data != [] {
      var k := |data| - 2;
      var front, a, b := data[..k], data[k], data[k + 1];
      assert data == front + [a, b] && data[..k + 1] == front + [a];
      WordSumConcat(front, [a, b]);
      WordSumIsResidue(front);
      assert BE(data) == BE(front) * 65536 + (a as int * 256 + b as int);
      ResidueStep(BE(front), WordSum(front), a as int * 256 + b as int);
    }
  }

  /** An odd last byte counts as if a zero followed it. */
  lemma {:induction false} OddByteIsHigh(data: seq<Byte>)
    requires |data| % 2 == 1
    ensures WordSum(data) == WordSum(data + [0])
  {
    if |data| == 1 {
      assert (data + [0])[2..] == [];
    } else {
      assert (data + [0])[2..] == data[2..] + [0];
      OddByteIsHigh(data[2..]);
    }
  }

  lemma ResidueStep(x: nat, y: nat, w: nat)
    requires x % 0xffff == y % 0xffff
    ensures (x * 65536 + w) % 0xffff == (y + w) % 0xffff
  {
  }

  lemma WordOf(v: int)
    requires 0 <= v < 0x1_0000
    ensures WordSum(U16(v)) == v
  {
  }

  /** Adding the complement of a folded sum makes the sum fold to all ones. */
  lemma ComplementFolds(sum: nat)
    ensures Folded(sum + (0xffff - Folded(sum))) == 0xffff
  {
  }

  // ---- the frame

  type Mac = m: seq<Byte> | |m| == 6 witness [0, 0, 0, 0, 0, 0]
  type Address = a: seq<Byte> | |a| == 16 witness [0, 0, 0, 0, 0, 0, 0, 0, 0, 0, 0, 0, 0, 0, 0, 0]

  const ICMPV6: Byte := 58
  const NEIGHBOR_ADVERTISEMENT: Byte := 136

  /** The pseudo-header of section 8.1 of RFC 8200. */
  function PseudoHeader(source: seq<Byte>, destination: seq<Byte>, length: int): seq<Byte>
    requires 0 <= length < 0x1_0000_0000
  {
    source + destination + U32(length) + [0, 0, 0, ICMPV6]
  }

  /** What a receiver computes over an IPv6 frame without extension headers: the checksum of the
      pseudo-header taken from its IPv6 header, followed by the upper-layer message. */
  function ReceivedSum(frame: seq<Byte>): nat
    requires 54 <= |frame| < 0x1_0000_0000
  {
    WordSum(PseudoHeader(frame[22..38], frame[38..54], |frame| - 54) + frame[54..])
  }

  /** Section 2.3 of RFC 4443: the message is intact when the running checksum comes out as zero. */
  predicate ChecksumValid(frame: seq<Byte>)
    requires 54 <= |frame| < 0x1_0000_0000
  {
    0xffff - Folded(ReceivedSum(frame)) == 0
  }

  /** That is, when the number spelled by the pseudo-header and the message is a multiple of 2^16 - 1 other than zero. */
  lemma ValidExactly(frame: seq<Byte>, source: Address, destination: Address, a: Byte, b: Byte)
    requires 54 <= |frame| && |frame| - 54 == a * 256 + b && |frame| % 2 == 0
    requires frame[22..38] == source && frame[38..54] == destination
    ensures ChecksumValid(frame) <==>
      var n := BE(source + destination + [0, 0, a, b, 0, 0, 0, 58] + frame[54..]); n > 0 && n % 0xffff == 0
  {
    ShortPseudo(source, destination, a, b);
    WordSumIsResidue(source + destination + [0, 0, a, b, 0, 0, 0, 58] + frame[54..]);
  }

  lemma ShortPseudo(source: Address, destination: Address, a: Byte, b: Byte)
    ensures PseudoHeader(source, destination, a * 256 + b) == source + destination + [0, 0, a, b, 0, 0, 0, 58]
  {
    assert U32(a as int * 256 + b as int) == [0, 0, a, b];
  }

  function Message(ck: int, flags: int, target: seq<Byte>, mac: seq<Byte>): seq<Byte>
    requires 0 <= ck < 0x1_0000 && 0 <= flags < ACCUMULATOR
  {
    [NEIGHBOR_ADVERTISEMENT, 0] + U16(ck) + U32(flags) + target + [2, 1] + mac
  }

  function Ipv6Header(source: seq<Byte>, destination: seq<Byte>): seq<Byte> {
    [0x60, 0, 0, 0] + U16(32) + [ICMPV6, 255] + source + destination
  }

  lemma SumAround(whole: seq<Byte>, head: seq<Byte>, v: int, tail: seq<Byte>)
    requires |head| % 2 == 0 && 0 <= v < 0x1_0000 && whole == head + (U16(v) + tail)
    ensures WordSum(whole) == WordSum(head) + v + WordSum(tail)
  {
    WordSumConcat(head, U16(v) + tail);
    WordSumConcat(U16(v), tail);
    WordOf(v);
  }

  function MessageTail(flags: int, target: seq<Byte>, mac: seq<Byte>): seq<Byte>
    requires 0 <= flags < ACCUMULATOR
  {
    U32(flags) + target + [2, 1] + mac
  }

  lemma MessageShape(ck: int, flags: int, target: seq<Byte>, mac: seq<Byte>)
    requires 0 <= ck < 0x1_0000 && 0 <= flags < ACCUMULATOR
    ensures Message(ck, flags, target, mac) == [NEIGHBOR_ADVERTISEMENT, 0] + (U16(ck) + MessageTail(flags, target, mac))
  {
  }

  lemma Regroup(a: seq<Byte>, b: seq<Byte>, c: seq<Byte>)
    ensures a + (b + c) == (a + b) + c
  {
  }

  lemma SumSplitAt(pseudo: seq<Byte>, head: seq<Byte>, ck: int, tail: seq<Byte>)
    requires |pseudo| % 2 == 0 && |head| % 2 == 0 && 0 <= ck < 0x1_0000
    ensures WordSum(pseudo + (head + (U16(ck) + tail))) == WordSum(pseudo + head) + ck + WordSum(tail)
  {
    Regroup(pseudo, head, U16(ck) + tail);
    SumAround(pseudo + (head + (U16(ck) + tail)), pseudo + head, ck, tail);
  }

  /** The sum over a message is the sum over the same message with a zero checksum, plus the checksum. */
  lemma SumSplit(pseudo: seq<Byte>, ck: int, flags: int, target: seq<Byte>, mac: seq<Byte>)
    requires |pseudo| % 2 == 0 && 0 <= ck < 0x1_0000 && 0 <= flags < ACCUMULATOR
    ensures WordSum(pseudo + Message(ck, flags, target, mac)) == WordSum(pseudo + Message(0, flags, target, mac)) + ck
  {
    MessageShape(ck, flags, target, mac);
    MessageShape(0, flags, target, mac);
    SumSplitAt(pseudo, [NEIGHBOR_ADVERTISEMENT, 0], ck, MessageTail(flags, target, mac));
    SumSplitAt(pseudo, [NEIGHBOR_ADVERTISEMENT, 0], 0, MessageTail(flags, target, mac));
  }

  /** The field layout of an advertisement frame, offset by offset. */
  ghost predicate Layout(frame: seq<Byte>, sourceMAC: Mac, target: Address, dstIP: Address, dstMAC: Mac, flags: int) {
    && |frame| == 86
    && frame[0..6] == dstMAC && frame[6..12] == sourceMAC && frame[12..14] == [0x86, 0xdd]
    && frame[14..18] == [0x60, 0, 0, 0] && BE(frame[18..20]) == |frame| - 54 && frame[20] == 58 && frame[21] == 255
    && frame[22..38] == target && frame[38..54] == dstIP
    && frame[54] == 136 && frame[55] == 0
    && BE(frame[58..62]) == flags && frame[62..78] == target
    && frame[78] == 2 && frame[79] == 1 && frame[80..86] == sourceMAC
  }

  /** Both properties of a good advertisement: the layout, and a checksum every receiver accepts. */
  ghost predicate GoodAdvertisement(frame: seq<Byte>, sourceMAC: Mac, target: Address, dstIP: Address, dstMAC: Mac, flags: int) {
    Layout(frame, sourceMAC, target, dstIP, dstMAC, flags) && ChecksumValid(frame)
  }

  function Frame(ck: int, sourceMAC: Mac, target: Address, dstIP: Address, dstMAC: Mac, flags: int): seq<Byte>
    requires 0 <= ck < 0x1_0000 && 0 <= flags < ACCUMULATOR
  {
    dstMAC + sourceMAC + [0x86, 0xdd] + Ipv6Header(target, dstIP) + Message(ck, flags, target, sourceMAC)
  }

  lemma HeaderLayout(source: Address, destination: Address)
    ensures var h := Ipv6Header(source, destination);
      && |h| == 40 && h[0..4] == [0x60, 0, 0, 0] && h[4..6] == U16(32) && h[6] == ICMPV6 && h[7] == 255
      && h[8..24] == source && h[24..40] == destination
  {
  }

  lemma MessageLayout(ck: int, flags: int, target: Address, mac: Mac)
    requires 0 <= ck < 0x1_0000 && 0 <= flags < ACCUMULATOR
    ensures var m := Message(ck, flags, target, mac);
      && |m| == 32 && m[0] == NEIGHBOR_ADVERTISEMENT && m[1] == 0 && m[2..4] == U16(ck) && m[4..8] == U32(flags)
      && m[8..24] == target && m[24] == 2 && m[25] == 1 && m[26..32] == mac
  {
  }

  lemma FrameParts(ethernet: seq<Byte>, header: seq<Byte>, message: seq<Byte>)
    requires |ethernet| == 14 && |header| == 40 && |message| == 32
    ensures var f := ethernet + header + message;
      && |f| == 86 && f[..14] == ethernet && f[14..54] == header && f[54..] == message
  {
  }

  lemma Slice(f: seq<Byte>, part: seq<Byte>, at: nat, i: nat, j: nat)
    requires at + |part| <= |f| && f[at..at + |part|] == part && i <= j <= |part|
    ensures f[at + i..at + j] == part[i..j]
    ensures i < j ==> f[at + i] == part[i]
  {
    forall k | 0 <= k < |part| ensures f[at + k] == part[k] {
      assert f[at..at + |part|][k] == f[at + k];
    }
  }

  lemma LayoutOf(ck: int, sourceMAC: Mac, target: Address, dstIP: Address, dstMAC: Mac, flags: int)
    requires 0 <= ck < 0x1_0000 && 0 <= flags < ACCUMULATOR
    ensures Layout(Frame(ck, sourceMAC, target, dstIP, dstMAC, flags), sourceMAC, target, dstIP, dstMAC, flags)
    ensures Frame(ck, sourceMAC, target, dstIP, dstMAC, flags)[54..] == Message(ck, flags, target, sourceMAC)
  {
    var e: seq<Byte> := dstMAC + sourceMAC + [0x86, 0xdd];
    var h, m := Ipv6Header(target, dstIP), Message(ck, flags, target, sourceMAC);
    var f := Frame(ck, sourceMAC, target, dstIP, dstMAC, flags);
    HeaderLayout(target, dstIP);
    MessageLayout(ck, flags, target, sourceMAC);
    FrameParts(e, h, m);
    EthernetPart(f, e, dstMAC, sourceMAC);
    HeaderPart(f, h, target, dstIP);
    MessagePart(f, m, ck, flags, target, sourceMAC);
  }

  lemma EthernetPart(f: seq<Byte>, e: seq<Byte>, dstMAC: Mac, sourceMAC: Mac)
    requires |f| == 86 && f[..14] == e && e == dstMAC + sourceMAC + [0x86, 0xdd]
    ensures f[0..6] == dstMAC && f[6..12] == sourceMAC && f[12..14] == [0x86, 0xdd]
  {
  }

  lemma HeaderPart(f: seq<Byte>, h: seq<Byte>, target: Address, dstIP: Address)
    requires |f| == 86 && f[14..54] == h && |h| == 40
    requires h[0..4] == [0x60, 0, 0, 0] && h[4..6] == U16(32) && h[6] == ICMPV6 && h[7] == 255 && h[8..24] == target && h[24..40] == dstIP
    ensures f[14..18] == [0x60, 0, 0, 0] && BE(f[18..20]) == 32 && f[20] == ICMPV6 && f[21] == 255
    ensures f[22..38] == target && f[38..54] == dstIP
  {
    Slice(f, h, 14, 0, 4);
    Slice(f, h, 14, 4, 6);
    Slice(f, h, 14, 6, 7);
    Slice(f, h, 14, 7, 8);
    Slice(f, h, 14, 8, 24);
    Slice(f, h, 14, 24, 40);
    U16Reads(32);
  }

  lemma MessagePart(f: seq<Byte>, m: seq<Byte>, ck: int, flags: int, target: Address, mac: Mac)
    requires |f| == 86 && f[54..] == m && |m| == 32 && 0 <= flags < ACCUMULATOR
    requires m[0] == NEIGHBOR_ADVERTISEMENT && m[1] == 0 && m[4..8] == U32(flags)
    requires m[8..24] == target && m[24] == 2 && m[25] == 1 && m[26..32] == mac
    ensures f[54] == NEIGHBOR_ADVERTISEMENT && f[55] == 0 && BE(f[58..62]) == flags
    ensures f[62..78] == target && f[78] == 2 && f[79] == 1 && f[80..86] == mac
  {
    assert f[54..54 + 32] == m;
    Slice(f, m, 54, 0, 1);
    Slice(f, m, 54, 1, 2);
    Slice(f, m, 54, 4, 8);
    Slice(f, m, 54, 8, 24);
    Slice(f, m, 54, 24, 25);
    Slice(f, m, 54, 25, 26);
    Slice(f, m, 54, 26, 32);
    U32Reads(flags);
  }

  /** The checksum that makes a frame with these fields valid. */
  lemma ChecksumCompletes(sourceMAC: Mac, target: Address, dstIP: Address, dstMAC: Mac, flags: int, ck: int)
    requires 0 <= flags < ACCUMULATOR
    requires ck == 0xffff - Folded(WordSum(PseudoHeader(target, dstIP, 32) + Message(0, flags, target, sourceMAC)))
    ensures GoodAdvertisement(Frame(ck, sourceMAC, target, dstIP, dstMAC, flags), sourceMAC, target, dstIP, dstMAC, flags)
  {
    var pseudo := PseudoHeader(target, dstIP, 32);
    var zero := WordSum(pseudo + Message(0, flags, target, sourceMAC));
    SumSplit(pseudo, ck, flags, target, sourceMAC);
    LayoutOf(ck, sourceMAC, target, dstIP, dstMAC, flags);
    assert ReceivedSum(Frame(ck, sourceMAC, target, dstIP, dstMAC, flags)) == zero + ck;
    ComplementFolds(zero);
  }

  // ---- building it

  lemma SixParts(a: seq<Byte>, ck: int, flags: int, target: Address, mac: Mac)
    requires 0 <= ck < 0x1_0000 && 0 <= flags < ACCUMULATOR && |a| == 32
    requires a[0] == NEIGHBOR_ADVERTISEMENT && a[1] == 0 && a[2..4] == U16(ck) && a[4..8] == U32(flags)
    requires a[8..24] == target && a[24] == 2 && a[25] == 1 && a[26..32] == mac
    ensures a == Message(ck, flags, target, mac)
  {
  }

  lemma RunAt(a: seq<Byte>, at: nat, run: seq<Byte>)
    requires at + |run| <= |a| && forall k :: at <= k < at + |run| ==> a[k] == run[k - at]
    ensures a[at..at + |run|] == run
  {
  }

  method BuildMessage(target: Address, flags: int, sourceMAC: Mac) returns (icmp: array<Byte>)
    requires 0 <= flags < ACCUMULATOR
    ensures fresh(icmp) && icmp.Length == 32
    ensures icmp[..] == Message(0, flags, target, sourceMAC)
  {
    icmp := new Byte[32](_ => 0);
    icmp[0] := NEIGHBOR_ADVERTISEMENT;
    Put(icmp, 4, U32(flags));
    Put(icmp, 8, target);
    icmp[24], icmp[25] := 2, 1;
    Put(icmp, 26, sourceMAC);
    ghost var a := icmp[..];
    RunAt(a, 4, U32(flags));
    RunAt(a, 8, target);
    RunAt(a, 26, sourceMAC);
    RunAt(a, 2, U16(0));
    SixParts(a, 0, flags, target, sourceMAC);
  }

  lemma FourParts(a: seq<Byte>, source: Address, destination: Address)
    requires |a| == 40 && a[..4] == [0x60, 0, 0, 0] && a[4..6] == U16(32) && a[6] == ICMPV6 && a[7] == 255
    requires a[8..24] == source && a[24..40] == destination
    ensures a == Ipv6Header(source, destination)
  {
  }

  method BuildHeader(target: Address, dstIP: Address) returns (ipv6: array<Byte>)
    ensures fresh(ipv6) && ipv6.Length == 40
    ensures ipv6[..] == Ipv6Header(target, dstIP)
  {
    ipv6 := new Byte[40](_ => 0);
    ipv6[0] := 0x60;
    Put(ipv6, 4, U16(32));
    ipv6[6], ipv6[7] := ICMPV6, 255;
    Put(ipv6, 8, target);
    Put(ipv6, 24, dstIP);
    ghost var a := ipv6[..];
    RunAt(a, 0, [0x60, 0, 0, 0]);
    RunAt(a, 4, U16(32));
    RunAt(a, 8, target);
    RunAt(a, 24, dstIP);
    FourParts(a, target, dstIP);
  }

  method BuildPseudo(target: Address, dstIP: Address) returns (pseudo: array<Byte>)
    ensures fresh(pseudo) && pseudo.Length == 40
    ensures pseudo[..] == PseudoHeader(target, dstIP, 32)
  {
    pseudo := new Byte[40](_ => 0);
    Put(pseudo, 0, target);
    Put(pseudo, 16, dstIP);
    Put(pseudo, 32, U32(32));
    pseudo[39] := ICMPV6;
    ghost var a := pseudo[..];
    RunAt(a, 0, target);
    RunAt(a, 16, dstIP);
    RunAt(a, 32, U32(32));
    RunAt(a, 36, [0, 0, 0, ICMPV6]);
    assert a == a[0..16] + a[16..32] + a[32..36] + a[36..40];
  }

  /** For every address, MAC and flag word: the frame has the right layout and a checksum that every
      receiver finds valid. */
  method BuildNA(sourceMAC: Mac, target: Address, dstIP: Address, dstMAC: Mac, flags: int) returns (frame: seq<Byte>)
    requires 0 <= flags < ACCUMULATOR
    ensures GoodAdvertisement(frame, sourceMAC, target, dstIP, dstMAC, flags)
    ensures BE(target + dstIP + [0, 0, 0, 32, 0, 0, 0, 58] + frame[54..]) % 0xffff == 0
  {
    var icmp := BuildMessage(target, flags, sourceMAC);
    var ipv6 := BuildHeader(target, dstIP);
    var pseudo := BuildPseudo(target, dstIP);
    var data := pseudo[..] + icmp[..];
    var ck := Checksum(data);
    NoOverflow(data);
    Put(icmp, 2, U16(ck));
    ghost var a := icmp[..];
    MessageLayout(0, flags, target, sourceMAC);
    Patched(Message(0, flags, target, sourceMAC), a, ck, flags, target, sourceMAC);
    frame := dstMAC + sourceMAC + [0x86, 0xdd] + ipv6[..] + icmp[..];
    ChecksumCompletes(sourceMAC, target, dstIP, dstMAC, flags, ck);
    ValidExactly(frame, target, dstIP, 0, 32);
  }

  /** Writing the checksum into the message changes its two bytes and nothing else. */
  lemma Patched(m: seq<Byte>, a: seq<Byte>, ck: int, flags: int, target: Address, mac: Mac)
    requires 0 <= ck < 0x1_0000 && 0 <= flags < ACCUMULATOR
    requires m == Message(0, flags, target, mac) && |a| == 32 == |m|
    requires forall k :: 2 <= k < 4 ==> a[k] == U16(ck)[k - 2]
    requires forall k :: (0 <= k < 2 || 4 <= k < 32) ==> a[k] == m[k]
    ensures a == Message(ck, flags, target, mac)
  {
  }
}
