/** The Internet checksum, and the echo request whose two checksums it fills in. */
module InternetChecksum {
  import opened Common

  type Word = w: nat | w < 0x1_0000

  function Read16(hi: Byte, lo: Byte): Word {
    hi * 256 + lo
  }

  function Bytes16(w: Word): (r: seq<Byte>)
    ensures |r| == 2 && Read16(r[0], r[1]) == w
  {
    [w / 256, w % 256]
  }

  /** The sum of the big-endian words, an odd last byte as the high half of one. */
  function WordSum(s: seq<Byte>): nat {
    if s == [] then 0
    else if |s| == 1 then s[0] * 256
    else Read16(s[0], s[1]) + WordSum(s[2..])
  }

  /** Adding the carries back until there are none. */
  function Fold(sum: nat): nat
    decreases sum
  {
    if sum < 0x1_0000 then sum
    else
      FoldLess(sum);
      Fold(sum % 0x1_0000 + sum / 0x1_0000)
  }

  lemma FoldLess(sum: nat)
    requires 0x1_0000 <= sum
    ensures 0 < sum % 0x1_0000 + sum / 0x1_0000 < sum
    ensures (sum % 0x1_0000 + sum / 0x1_0000) % 0xFFFF == sum % 0xFFFF
  {
    var q, r := sum / 0x1_0000, sum % 0x1_0000;
    assert sum == 0xFFFF * q + (q + r);
    Multiples(q, q + r);
  }

  lemma Multiples(q: nat, x: nat)
    ensures (0xFFFF * q + x) % 0xFFFF == x % 0xFFFF
  {
  }

  /** Folding keeps the value modulo 65535, and what is not zero does not become it. */
  lemma {:induction false} FoldKeeps(sum: nat)
    ensures Fold(sum) < 0x1_0000 && Fold(sum) % 0xFFFF == sum % 0xFFFF && (Fold(sum) == 0 <==> sum == 0)
    decreases sum
  {
    if 0x1_0000 <= sum {
      FoldLess(sum);
      FoldKeeps(sum % 0x1_0000 + sum / 0x1_0000);
    }
  }

  function Checksum(s: seq<Byte>): (r: Word)
    ensures r == 0 <==> 0 < WordSum(s) && WordSum(s) % 0xFFFF == 0
  {
    FoldKeeps(WordSum(s));
    0xFFFF - Fold(WordSum(s))
  }

  /** The word `w` in the two bytes from `p`. */
  function Stored(s: seq<Byte>, p: nat, w: Word): (r: seq<Byte>)
    requires p + 2 <= |s|
    ensures |r| == |s|
  {
    s[..p] + Bytes16(w) + s[p + 2..]
  }

  /** At an even position it is one word of the sum. */
  lemma {:induction false} StoredSum(s: seq<Byte>, p: nat, w: Word)
    requires p + 2 <= |s| && p % 2 == 0
    ensures WordSum(Stored(s, p, w)) == WordSum(s) - Read16(s[p], s[p + 1]) + w
  {
    var r := Stored(s, p, w);
    if p == 0 {
      assert r[2..] == s[2..];
    } else {
      StoredSum(s[2..], p - 2, w);
      assert r[2..] == Stored(s[2..], p - 2, w);
    }
  }

  /** Zero the field, store the checksum, and the checksum of the whole is zero. */
  lemma StoreVerifies(s: seq<Byte>, p: nat)
    requires p + 2 <= |s| && p % 2 == 0
    ensures Checksum(Stored(s, p, Checksum(Stored(s, p, 0)))) == 0
  {
    hide Stored, Checksum, WordSum, Fold, Read16;
    var zeroed := Stored(s, p, 0);
    var sum := WordSum(zeroed);
    var c := Checksum(zeroed);
    StoredSum(s, p, 0);
    StoredSum(s, p, c);
    FoldKeeps(sum);
    ChecksumIs(zeroed);
    assert WordSum(Stored(s, p, c)) == sum + (0xFFFF - Fold(sum));
    SumsToZero(sum, Fold(sum));
  }

  lemma SumsToZero(sum: nat, f: nat)
    requires f <= 0xFFFF && f % 0xFFFF == sum % 0xFFFF && (f == 0 <==> sum == 0)
    ensures (sum + (0xFFFF - f)) % 0xFFFF == 0 && 0 < sum + (0xFFFF - f)
  {
  }

  /** A word changed in a message that verifies goes unnoticed exactly if it is one zero for the other. */
  lemma ChangeSeen(s: seq<Byte>, p: nat, w: Word)
    requires p + 2 <= |s| && p % 2 == 0 && Checksum(s) == 0 && w != Read16(s[p], s[p + 1])
    ensures Checksum(Stored(s, p, w)) == 0 <==>
      && (w == 0 || w == 0xFFFF) && (Read16(s[p], s[p + 1]) == 0 || Read16(s[p], s[p + 1]) == 0xFFFF)
      && 0 < WordSum(Stored(s, p, w))
  {
    StoredSum(s, p, w);
    var before, sum := Read16(s[p], s[p + 1]), WordSum(s);
    SameResidue(sum, before, w);
  }

  lemma SameResidue(sum: nat, a: Word, b: Word)
    requires a <= sum && sum % 0xFFFF == 0 && a != b
    ensures (sum - a + b) % 0xFFFF == 0 <==> (a == 0 && b == 0xFFFF) || (a == 0xFFFF && b == 0)
  {
  }

  const SUM_LIMIT: nat := 0x1_0000_0000

  /** `+` on `uint32_t`. */
  function Add32(a: nat, b: nat): (r: nat)
    ensures a + b < SUM_LIMIT ==> r == a + b
  {
    (a + b) % SUM_LIMIT
  }

  lemma ChecksumIs(s: seq<Byte>)
    ensures Checksum(s) == 0xFFFF - Fold(WordSum(s))
  {
    FoldKeeps(WordSum(s));
  }

  /** `ip_checksum` of `len` bytes from `at`; the sum is 32 bits wide. */
  method IpChecksum(frame: array<Byte>, at: nat, len: nat) returns (r: Word)
    requires at + len <= frame.Length && WordSum(frame[at..at + len]) < SUM_LIMIT
    ensures r == Checksum(frame[at..at + len])
  {
    hide Fold, Add32, Checksum;
    ghost var s := frame[at..at + len];
    var sum: nat, i: nat := 0, 0;
    while i + 1 < len
      invariant i <= len && i % 2 == 0 && sum + WordSum(s[i..]) == WordSum(s)
      decreases len - i
    {
      assert s[i..][0] == frame[at + i] && s[i..][1] == frame[at + i + 1] && s[i..][2..] == s[i + 2..];
      sum := Add32(sum, Read16(frame[at + i], frame[at + i + 1]));
      i := i + 2;
    }
    if len % 2 == 1 {
      assert i == len - 1 && s[i..] == [frame[at + len - 1]];
      sum := Add32(sum, Read16(frame[at + len - 1], 0));
    } else {
      assert i == len && s[i..] == [];
    }
    assert sum == WordSum(s);
    r := Folded(sum);
    assert r == Checksum(s) by {
      ChecksumIs(s);
    }
  }

  /** The folding loop and the complement. */
  method Folded(total: nat) returns (r: Word)
    requires total < SUM_LIMIT
    ensures r == 0xFFFF - Fold(total)
  {
    var sum: nat := total;
    while sum / 0x1_0000 != 0
      invariant Fold(sum) == Fold(total)
      decreases sum
    {
      FoldLess(sum);
      sum := sum % 0x1_0000 + sum / 0x1_0000;
    }
    FoldKeeps(total);
    return 0xFFFF - sum;
  }

  lemma {:induction false} SumBound(s: seq<Byte>)
    ensures WordSum(s) <= 0xFFFF * ((|s| + 1) / 2)
  {
    if |s| >= 2 {
      SumBound(s[2..]);
    }
  }

  /** The bytes `b` at `off`. */
  function PutAt(s: seq<Byte>, off: nat, b: seq<Byte>): (r: seq<Byte>)
    requires off + |b| <= |s|
    ensures |r| == |s|
  {
    s[..off] + b + s[off + |b|..]
  }

  /** `memcpy8`. */
  method Copy(frame: array<Byte>, off: nat, b: seq<Byte>)
    requires off + |b| <= frame.Length
    modifies frame
    ensures frame[..] == PutAt(old(frame[..]), off, b)
  {
    for i := 0 to |b|
      invariant forall k | 0 <= k < frame.Length :: frame[k] == if off <= k < off + i then b[k - off] else old(frame[k])
    {
      frame[off + i] := b[i];
    }
  }

  /** `write16be`. */
  method Write16(frame: array<Byte>, off: nat, v: Word)
    requires off + 2 <= frame.Length
    modifies frame
    ensures frame[..] == PutAt(old(frame[..]), off, Bytes16(v)) && frame[..] == Stored(old(frame[..]), off, v)
  {
    frame[off] := v / 256;
    frame[off + 1] := v % 256;
  }

  /** The letters sent along. */
  function Payload(n: nat): (r: seq<Byte>)
    ensures |r| == n
  {
    seq(n, i requires 0 <= i < n => 0x41 + i % 26)
  }

  /** Ethernet header and the first two bytes of the IP header. */
  function Front(srcMac: seq<Byte>, dstMac: seq<Byte>): seq<Byte> {
    dstMac + srcMac + Bytes16(0x0800) + [0x45, 0]
  }

  /** The IP header between its length and its checksum. */
  function Middle(): (r: seq<Byte>)
    ensures |r| == 6
  {
    Bytes16(0x1234) + Bytes16(0) + [64, 1]
  }

  /** From the addresses to the ICMP type and code. */
  function Addresses(srcIp: seq<Byte>, dstIp: seq<Byte>): seq<Byte> {
    srcIp + dstIp + [8, 0]
  }

  /** The ICMP message after its checksum. */
  function Tail(sequence: Word): (r: seq<Byte>)
    ensures |r| == 36
  {
    Bytes16(1) + Bytes16(sequence) + Payload(32)
  }

  const FRAME: nat := 74
  const IP_START: nat := 14
  const LENGTH_AT: nat := 16
  const IP_SUM_AT: nat := 24
  const ICMP_START: nat := 34
  const ICMP_SUM_AT: nat := 36

  /** The frame, but for its length and its two checksums. */
  ghost predicate EchoFrame(s: seq<Byte>, srcMac: seq<Byte>, dstMac: seq<Byte>, srcIp: seq<Byte>, dstIp: seq<Byte>,
                            sequence: Word)
    requires FRAME <= |s|
  {
    && s[..LENGTH_AT] == Front(srcMac, dstMac)
    && s[LENGTH_AT + 2..IP_SUM_AT] == Middle()
    && s[IP_SUM_AT + 2..ICMP_SUM_AT] == Addresses(srcIp, dstIp)
    && s[ICMP_SUM_AT + 2..FRAME] == Tail(sequence)
  }

  lemma StoredInside(s: seq<Byte>, p: nat, w: Word, i: nat, j: nat)
    requires i <= p && p + 2 <= j <= |s|
    ensures Stored(s, p, w)[i..j] == Stored(s[i..j], p - i, w)
  {
  }

  lemma StoredWord(s: seq<Byte>, p: nat, w: Word)
    requires p + 2 <= |s|
    ensures Stored(s, p, w)[p..p + 2] == Bytes16(w)
  {
  }

  lemma StoredOutside(s: seq<Byte>, p: nat, w: Word, i: nat, j: nat)
    requires p + 2 <= |s| && i <= j <= |s| && (j <= p || p + 2 <= i)
    ensures Stored(s, p, w)[i..j] == s[i..j]
  {
    hide Bytes16;
    forall k | i <= k < j
      ensures Stored(s, p, w)[k] == s[k]
    {
    }
  }

  lemma StoredTwice(s: seq<Byte>, p: nat, v: Word, w: Word)
    requires p + 2 <= |s|
    ensures Stored(Stored(s, p, v), p, w) == Stored(s, p, w)
  {
  }

  /** None of the fields filled in late is among the others. */
  lemma EchoKept(s: seq<Byte>, p: nat, w: Word, srcMac: seq<Byte>, dstMac: seq<Byte>, srcIp: seq<Byte>,
                 dstIp: seq<Byte>, sequence: Word)
    requires FRAME <= |s| && EchoFrame(s, srcMac, dstMac, srcIp, dstIp, sequence)
    requires p == LENGTH_AT || p == IP_SUM_AT || p == ICMP_SUM_AT
    ensures EchoFrame(Stored(s, p, w), srcMac, dstMac, srcIp, dstIp, sequence)
    ensures Stored(s, p, w)[FRAME..] == s[FRAME..]
    ensures p != LENGTH_AT ==> Stored(s, p, w)[LENGTH_AT..LENGTH_AT + 2] == s[LENGTH_AT..LENGTH_AT + 2]
    ensures p == LENGTH_AT ==> Stored(s, p, w)[LENGTH_AT..LENGTH_AT + 2] == Bytes16(w)
    ensures p == ICMP_SUM_AT ==> Stored(s, p, w)[IP_START..ICMP_START] == s[IP_START..ICMP_START]
  {
    hide Stored, Bytes16;
    StoredWord(s, p, w);
    StoredOutside(s, p, w, FRAME, |s|);
    if p != LENGTH_AT {
      StoredOutside(s, p, w, LENGTH_AT, LENGTH_AT + 2);
    }
    if p == ICMP_SUM_AT {
      StoredOutside(s, p, w, IP_START, ICMP_START);
    }
    StoredOutside(s, p, w, 0, LENGTH_AT);
    StoredOutside(s, p, w, LENGTH_AT + 2, IP_SUM_AT);
    StoredOutside(s, p, w, IP_SUM_AT + 2, ICMP_SUM_AT);
    StoredOutside(s, p, w, ICMP_SUM_AT + 2, FRAME);
    assert Stored(s, p, w)[FRAME..|s|] == Stored(s, p, w)[FRAME..] && s[FRAME..|s|] == s[FRAME..];
    assert Stored(s, p, w)[0..LENGTH_AT] == Stored(s, p, w)[..LENGTH_AT] && s[0..LENGTH_AT] == s[..LENGTH_AT];
  }

  /** The checksum over a stretch of the frame that has the field in it. */
  lemma StretchVerifies(s: seq<Byte>, from: nat, to: nat, at: nat)
    requires from <= at && at + 2 <= to <= |s| && (at - from) % 2 == 0
    ensures
      var sum := Checksum(Stored(s, at, 0)[from..to]);
      Checksum(Stored(Stored(s, at, 0), at, sum)[from..to]) == 0 &&
          Stored(Stored(s, at, 0), at, sum) == Stored(s, at, sum)
  {
    hide Checksum, Stored;
    var sum := Checksum(Stored(s, at, 0)[from..to]);
    StoredTwice(s, at, 0, sum);
    StoredInside(s, at, 0, from, to);
    StoredInside(s, at, sum, from, to);
    StoreVerifies(s[from..to], at - from);
  }

  lemma Stretch(s: seq<Byte>, from: nat, to: nat)
    requires from <= to <= |s| && to - from <= 0x2_0000
    ensures WordSum(s[from..to]) < SUM_LIMIT
  {
    SumBound(s[from..to]);
  }

  /** Zeroes the field at `at`, sums the bytes from `from` to `to`, and stores the result. */
  method StoreChecksum(frame: array<Byte>, from: nat, to: nat, at: nat)
    requires from <= at && at + 2 <= to <= frame.Length && (at - from) % 2 == 0 && to - from <= 0x2_0000
    modifies frame
    ensures exists w :: frame[..] == Stored(old(frame[..]), at, w)
    ensures Checksum(frame[..][from..to]) == 0
  {
    hide Checksum, Stored, WordSum, PutAt, Bytes16;
    ghost var s := frame[..];
    Write16(frame, at, 0);
    ghost var len := to - from;
    assert frame[from..from + len] == frame[..][from..to];
    Stretch(frame[..], from, to);
    var sum := IpChecksum(frame, from, to - from);
    Write16(frame, at, sum);
    StretchVerifies(s, from, to, at);
  }

  lemma PutTwice(s: seq<Byte>, off: nat, a: seq<Byte>, b: seq<Byte>)
    requires off + |a| + |b| <= |s|
    ensures PutAt(PutAt(s, off, a), off + |a|, b) == PutAt(s, off, a + b)
  {
  }

  lemma PutSlice(s: seq<Byte>, off: nat, b: seq<Byte>, i: nat, j: nat)
    requires off + |b| <= |s| && i <= j <= |s|
    ensures j <= off || off + |b| <= i ==> PutAt(s, off, b)[i..j] == s[i..j]
    ensures i == off && j == off + |b| ==> PutAt(s, off, b)[i..j] == b
  {
    forall k | i <= k < j && (j <= off || off + |b| <= i)
      ensures PutAt(s, off, b)[k] == s[k]
    {
    }
  }

  method WriteFront(frame: array<Byte>, srcMac: seq<Byte>, dstMac: seq<Byte>)
    requires FRAME <= frame.Length && |srcMac| == |dstMac| == 6
    modifies frame
    ensures frame[..] == PutAt(old(frame[..]), 0, Front(srcMac, dstMac))
  {
    hide PutAt, Stored, Bytes16;
    ghost var s := frame[..];
    Copy(frame, 0, dstMac);
    Copy(frame, 6, srcMac);
    PutTwice(s, 0, dstMac, srcMac);
    Write16(frame, 12, 0x0800);
    PutTwice(s, 0, dstMac + srcMac, Bytes16(0x0800));
    Copy(frame, 14, [0x45, 0]);
    PutTwice(s, 0, dstMac + srcMac + Bytes16(0x0800), [0x45, 0]);
  }

  method WriteMiddle(frame: array<Byte>)
    requires FRAME <= frame.Length
    modifies frame
    ensures frame[..] == PutAt(old(frame[..]), 18, Middle())
  {
    hide PutAt, Stored, Bytes16;
    ghost var s := frame[..];
    Write16(frame, 18, 0x1234);
    Write16(frame, 20, 0);
    PutTwice(s, 18, Bytes16(0x1234), Bytes16(0));
    Copy(frame, 22, [64, 1]);
    PutTwice(s, 18, Bytes16(0x1234) + Bytes16(0), [64, 1]);
  }

  method WriteAddresses(frame: array<Byte>, srcIp: seq<Byte>, dstIp: seq<Byte>)
    requires FRAME <= frame.Length && |srcIp| == |dstIp| == 4
    modifies frame
    ensures frame[..] == PutAt(old(frame[..]), 26, Addresses(srcIp, dstIp))
  {
    hide PutAt, Stored;
    ghost var s := frame[..];
    Copy(frame, 26, srcIp);
    Copy(frame, 30, dstIp);
    PutTwice(s, 26, srcIp, dstIp);
    Copy(frame, 34, [8, 0]);
    PutTwice(s, 26, srcIp + dstIp, [8, 0]);
  }

  method WriteTail(frame: array<Byte>, sequence: Word)
    requires FRAME <= frame.Length
    modifies frame
    ensures frame[..] == PutAt(old(frame[..]), 38, Tail(sequence))
  {
    hide PutAt, Stored, Bytes16, Payload;
    ghost var s := frame[..];
    Write16(frame, 38, 1);
    Write16(frame, 40, sequence);
    PutTwice(s, 38, Bytes16(1), Bytes16(sequence));
    FillPayload(frame, 42);
    PutTwice(s, 38, Bytes16(1) + Bytes16(sequence), Payload(32));
  }

  lemma FieldsInPlace(s: seq<Byte>, front: seq<Byte>, middle: seq<Byte>, addresses: seq<Byte>, tail: seq<Byte>)
    requires FRAME <= |s| && |front| == 16 && |middle| == 6 && |addresses| == 10 && |tail| == 36
    ensures
      var r := PutAt(PutAt(PutAt(PutAt(s, 0, front), 18, middle), 26, addresses), 38, tail);
      r[..16] == front && r[18..24] == middle && r[26..36] == addresses && r[38..74] == tail && r[74..] == s[74..]
  {
    hide PutAt;
    var a := PutAt(s, 0, front);
    var b := PutAt(a, 18, middle);
    var c := PutAt(b, 26, addresses);
    var d := PutAt(c, 38, tail);
    PutSlice(s, 0, front, 0, 16);
    PutSlice(a, 18, middle, 0, 16);
    PutSlice(b, 26, addresses, 0, 16);
    PutSlice(c, 38, tail, 0, 16);
    PutSlice(a, 18, middle, 18, 24);
    PutSlice(b, 26, addresses, 18, 24);
    PutSlice(c, 38, tail, 18, 24);
    PutSlice(b, 26, addresses, 26, 36);
    PutSlice(c, 38, tail, 26, 36);
    PutSlice(c, 38, tail, 38, 74);
    PutSlice(s, 0, front, 74, |s|);
    PutSlice(a, 18, middle, 74, |s|);
    PutSlice(b, 26, addresses, 74, |s|);
    PutSlice(c, 38, tail, 74, |s|);
    assert d[0..16] == d[..16];
  }

  /** The fields, in order, but for the three that are filled in late. */
  method WriteFields(frame: array<Byte>, srcMac: seq<Byte>, dstMac: seq<Byte>, srcIp: seq<Byte>, dstIp: seq<Byte>,
                     sequence: Word)
    requires FRAME <= frame.Length && |srcMac| == |dstMac| == 6 && |srcIp| == |dstIp| == 4
    modifies frame
    ensures EchoFrame(frame[..], srcMac, dstMac, srcIp, dstIp, sequence)
    ensures frame[..][FRAME..] == old(frame[..][FRAME..])
  {
    hide PutAt, Payload, Bytes16;
    FieldsInPlace(frame[..], Front(srcMac, dstMac), Middle(), Addresses(srcIp, dstIp), Tail(sequence));
    WriteFront(frame, srcMac, dstMac);
    WriteMiddle(frame);
    WriteAddresses(frame, srcIp, dstIp);
    WriteTail(frame, sequence);
  }

  method FillPayload(frame: array<Byte>, off: nat)
    requires off + 32 <= frame.Length
    modifies frame
    ensures frame[..] == PutAt(old(frame[..]), off, Payload(32))
  {
    for i := 0 to 32
      invariant forall k | 0 <= k < frame.Length ::
        frame[k] == if off <= k < off + i then Payload(32)[k - off] else old(frame[k])
    {
      frame[off + i] := 0x41 + i % 26;
    }
  }

  /** `build_icmp_echo`: every field in its place, and both checksums verify. */
  method BuildIcmpEcho(frame: array<Byte>, srcMac: seq<Byte>, dstMac: seq<Byte>, srcIp: seq<Byte>, dstIp: seq<Byte>,
                       sequence: Word) returns (n: nat)
    requires FRAME <= frame.Length && |srcMac| == |dstMac| == 6 && |srcIp| == |dstIp| == 4
    modifies frame
    ensures n == FRAME && EchoFrame(frame[..], srcMac, dstMac, srcIp, dstIp, sequence)
    ensures frame[..][LENGTH_AT..LENGTH_AT + 2] == Bytes16(60)
    ensures Checksum(frame[..][IP_START..ICMP_START]) == 0 && Checksum(frame[..][ICMP_START..FRAME]) == 0
    ensures frame[..][FRAME..] == old(frame[..][FRAME..])
  {
    hide Checksum, EchoFrame, PutAt, Stored, Payload, Bytes16;
    WriteFields(frame, srcMac, dstMac, srcIp, dstIp, sequence);
    ghost var s := frame[..];
    Write16(frame, LENGTH_AT, FRAME - IP_START);
    EchoKept(s, LENGTH_AT, FRAME - IP_START, srcMac, dstMac, srcIp, dstIp, sequence);
    s := frame[..];
    StoreChecksum(frame, IP_START, ICMP_START, IP_SUM_AT);
    ghost var ipSum :| frame[..] == Stored(s, IP_SUM_AT, ipSum);
    EchoKept(s, IP_SUM_AT, ipSum, srcMac, dstMac, srcIp, dstIp, sequence);
    s := frame[..];
    StoreChecksum(frame, ICMP_START, FRAME, ICMP_SUM_AT);
    ghost var icmpSum :| frame[..] == Stored(s, ICMP_SUM_AT, icmpSum);
    EchoKept(s, ICMP_SUM_AT, icmpSum, srcMac, dstMac, srcIp, dstIp, sequence);
    return FRAME;
  }
}