/**
 * Packet rewriting on the tunnel's ingress: MSS clamping of TCP SYNs with the TCP checksum
 * recomputed in place, and the ICMP "Fragmentation Needed" reply.
 */
module Defense {
  import opened Bytes
  import opened Checksum
  import opened Common

  // ---------- Reading the headers ----------

  /** Length in bytes of the IPv4 header. */
  function Ihl(p: seq<u8>): (n: nat)
    requires |p| > 0
  {
    4 * (p[0] % 16)
  }

  /** The packets whose TCP options are walked: IPv4, TCP, SYN set, and options present. */
  predicate IsSynWithOptions(p: seq<u8>) {
    && |p| >= 40
    && p[0] / 16 == 4
    && |p| >= Ihl(p) + 20
    && p[9] == 6
    && p[Ihl(p) + 12] / 16 > 5
    && p[Ihl(p) + 13] / 2 % 2 == 1
  }

  /** Where the TCP header says its options end. */
  function OptionsEnd(p: seq<u8>): (n: nat)
    requires |p| >= 40 && |p| >= Ihl(p) + 20
  {
    Ihl(p) + 4 * (p[Ihl(p) + 12] / 16)
  }

  /**
   * Parsing the TCP options from offset `j`: the offsets of the values of the 4-byte MSS
   * options that are reached. Parsing stops at End-of-List, at a malformed length, at an
   * option that runs past `end`, or when fewer than two bytes are left.
   */
  function Walk(p: seq<u8>, end: nat, j: nat): (slots: seq<nat>)
    decreases |p| - j
  {
    if !(j < end && j + 1 < |p|) || p[j] == 0 then []
    else if p[j] == 1 then Walk(p, end, j + 1)
    else if p[j + 1] < 2 || j + p[j + 1] > end then []
    else (if p[j] == 2 && p[j + 1] == 4 then [j + 2] else []) + Walk(p, end, j + p[j + 1])
  }

  function MssSlots(p: seq<u8>): (slots: seq<nat>) {
    if IsSynWithOptions(p) then Walk(p, OptionsEnd(p), Ihl(p) + 20) else []
  }

  /** The bound on the MSS: `saturating_sub`, then a cast that keeps the low 16 bits. */
  function MaxMss(p: seq<u8>, mtu: nat): (m: u16)
    requires |p| > 0
    ensures m == 0 || Ihl(p) + 20 + m <= mtu
  {
    (if mtu >= Ihl(p) + 20 then mtu - (Ihl(p) + 20) else 0) % 0x1_0000
  }

  ghost predicate InBounds(p: seq<u8>, slots: seq<nat>) {
    forall k :: 0 <= k < |slots| ==> slots[k] + 2 <= |p|
  }

  function ValueAt(p: seq<u8>, slot: nat): (v: u16)
    requires slot + 2 <= |p|
  {
    Word(p[slot], p[slot + 1])
  }

  function Min(a: u16, b: u16): (m: u16) {
    if a > b then b else a
  }

  ghost predicate Exceeds(p: seq<u8>, slots: seq<nat>, max: u16)
    requires InBounds(p, slots)
  {
    exists k :: 0 <= k < |slots| && ValueAt(p, slots[k]) > max
  }

  /**
   * What `clamp_mss` needs of its caller so as to index only inside the packet: every MSS
   * option it reaches lies there, and a packet it has to rewrite has a full IPv4 header.
   */
  ghost predicate ClampSafe(p: seq<u8>, mtu: nat) {
    && InBounds(p, MssSlots(p))
    && (MssSlots(p) != [] && Exceeds(p, MssSlots(p), MaxMss(p, mtu)) ==> Ihl(p) >= 20)
  }

  /** A well-formed packet (full IP header, options inside the segment) meets that need. */
  lemma WellFormedIsSafe(p: seq<u8>, mtu: nat)
    requires IsSynWithOptions(p) ==> Ihl(p) >= 20 && OptionsEnd(p) <= |p|
    ensures ClampSafe(p, mtu)
  {
    if IsSynWithOptions(p) {
      WalkBounds(p, OptionsEnd(p), Ihl(p) + 20);
    }
  }

  // ---------- The clamp as a function ----------

  function CapAt(p: seq<u8>, slot: nat, max: u16): (q: seq<u8>)
    requires slot + 2 <= |p|
    ensures |q| == |p|
  {
    if ValueAt(p, slot) > max then PutWord(p, slot, max) else p
  }

  ghost function Cap(p: seq<u8>, slots: seq<nat>, max: u16): (q: seq<u8>)
    requires InBounds(p, slots)
    ensures |q| == |p|
    decreases |slots|
  {
    if slots == [] then p else Cap(CapAt(p, slots[0], max), slots[1..], max)
  }

  /** The TCP pseudo-header (RFC 9293, section 3.1). */
  function PseudoHeader(p: seq<u8>, ihl: nat): (s: seq<u8>)
    requires 20 <= ihl <= |p|
    ensures |s| == 12
  {
    p[12..20] + [0, 6] + ToBe(|p| - ihl, 2)
  }

  ghost predicate TcpChecksumValid(p: seq<u8>, ihl: nat)
    requires 20 <= ihl <= |p|
  {
    Verifies(PseudoHeader(p, ihl) + p[ihl..])
  }

  /** The packet with its TCP checksum field recomputed. */
  function FixTcp(p: seq<u8>, ihl: nat): (q: seq<u8>)
    requires 20 <= ihl && ihl + 18 <= |p|
    ensures |q| == |p|
  {
    PutWord(p, ihl + 16, FieldChecksum(PseudoHeader(p, ihl), p[ihl..], 16))
  }

  ghost predicate Rewritable(p: seq<u8>) {
    IsSynWithOptions(p) && Ihl(p) >= 20 && InBounds(p, MssSlots(p))
  }

  /** Every reached MSS capped and the TCP checksum recomputed. */
  ghost function Rewritten(p: seq<u8>, max: u16): (q: seq<u8>)
    requires Rewritable(p)
    ensures |q| == |p|
  {
    FixTcp(Cap(p, MssSlots(p), max), Ihl(p))
  }

  /** The effect of `clamp_mss`: the new packet, and whether it was rewritten. */
  ghost function Clamp(p: seq<u8>, mtu: nat): (r: (seq<u8>, bool))
    requires ClampSafe(p, mtu)
    ensures |r.0| == |p|
  {
    if MssSlots(p) != [] && Exceeds(p, MssSlots(p), MaxMss(p, mtu))
    then (Rewritten(p, MaxMss(p, mtu)), true)
    else (p, false)
  }

  // ---------- Properties of the walk ----------

  ghost predicate ValueByte(slots: seq<nat>, x: int) {
    exists k :: 0 <= k < |slots| && (x == slots[k] || x == slots[k] + 1)
  }

  /** In increasing order from `lo`, at least four bytes apart. */
  ghost predicate Spaced(slots: seq<nat>, lo: nat) {
    slots != [] ==> lo <= slots[0] && Spaced(slots[1..], slots[0] + 4)
  }

  lemma {:induction false} SpacedFrom(slots: seq<nat>, lo: nat, k: nat)
    requires Spaced(slots, lo) && k < |slots|
    ensures slots[k] >= lo
  {
    if k > 0 {
      SpacedFrom(slots[1..], slots[0] + 4, k - 1);
    }
  }

  /** The values found lie between the starting point and the end. */
  lemma {:induction false} WalkBounds(p: seq<u8>, end: nat, j: nat)
    ensures forall k :: 0 <= k < |Walk(p, end, j)| ==> j + 2 <= Walk(p, end, j)[k] <= end - 2
    decreases |p| - j
  {
    if !(j < end && j + 1 < |p|) || p[j] == 0 {
    } else if p[j] == 1 {
      WalkBounds(p, end, j + 1);
    } else if p[j + 1] < 2 || j + p[j + 1] > end {
    } else {
      WalkBounds(p, end, j + p[j + 1]);
    }
  }

  /** They are at least four bytes apart. */
  lemma {:induction false} WalkSpaced(p: seq<u8>, end: nat, j: nat)
    ensures Spaced(Walk(p, end, j), j + 2)
    decreases |p| - j
  {
    if !(j < end && j + 1 < |p|) || p[j] == 0 {
    } else if p[j] == 1 {
      WalkSpaced(p, end, j + 1);
    } else if p[j + 1] < 2 || j + p[j + 1] > end {
    } else {
      var rest := Walk(p, end, j + p[j + 1]);
      WalkSpaced(p, end, j + p[j + 1]);
      SpacedStep(rest, j + 2, p[j + 1]);
    }
  }

  lemma SpacedStep(rest: seq<nat>, slot: nat, gap: nat)
    requires Spaced(rest, slot + gap)
    ensures Spaced([] + rest, slot)
    ensures gap == 4 ==> Spaced([slot] + rest, slot)
  {
    assert ([slot] + rest)[1..] == rest && [] + rest == rest;
  }

  /** Changing only MSS values (or bytes before the walk) never alters the walk. */
  lemma {:induction false} WalkStable(p: seq<u8>, q: seq<u8>, end: nat, j: nat)
    requires |p| == |q|
    requires forall x :: j <= x < |p| && !ValueByte(Walk(p, end, j), x) ==> p[x] == q[x]
    ensures Walk(q, end, j) == Walk(p, end, j)
    decreases |p| - j
  {
    if j < end && j + 1 < |p| {
      WalkBounds(p, end, j);
      var slots := Walk(p, end, j);
      assert !ValueByte(slots, j) && !ValueByte(slots, j + 1);
      if p[j] == 0 {
      } else if p[j] == 1 {
        WalkStable(p, q, end, j + 1);
      } else if p[j + 1] >= 2 && j + p[j + 1] <= end {
        var next := j + p[j + 1];
        var rest := Walk(p, end, next);
        forall x | next <= x < |p| && !ValueByte(rest, x)
          ensures p[x] == q[x]
        {
          assert !ValueByte(slots, x);
        }
        WalkStable(p, q, end, next);
      }
    }
  }

  lemma {:induction false} CapKeeps(p: seq<u8>, slots: seq<nat>, max: u16, x: nat)
    requires InBounds(p, slots)
    requires x < |p| && !ValueByte(slots, x)
    ensures Cap(p, slots, max)[x] == p[x]
    decreases |slots|
  {
    if slots != [] {
      assert forall k :: 0 <= k < |slots[1..]| ==> slots[1..][k] == slots[k + 1];
      assert x != slots[0] && x != slots[0] + 1;
      CapKeeps(CapAt(p, slots[0], max), slots[1..], max, x);
    }
  }

  lemma CapAtValue(p: seq<u8>, slot: nat, max: u16, other: nat)
    requires slot + 2 <= |p| && other + 2 <= |p|
    requires other == slot || other >= slot + 2
    ensures ValueAt(CapAt(p, slot, max), other) ==
            if other == slot then Min(ValueAt(p, slot), max) else ValueAt(p, other)
  {
  }

  lemma {:induction false} CapValue(p: seq<u8>, slots: seq<nat>, lo: nat, max: u16, k: nat)
    requires InBounds(p, slots) && Spaced(slots, lo) && k < |slots|
    ensures ValueAt(Cap(p, slots, max), slots[k]) == Min(ValueAt(p, slots[k]), max)
    decreases |slots|
  {
    var p', rest, next := CapAt(p, slots[0], max), slots[1..], slots[0] + 4;
    if k == 0 {
      CapAtValue(p, slots[0], max, slots[0]);
      forall i | 0 <= i < |rest| ensures rest[i] >= next { SpacedFrom(rest, next, i); }
      CapKeeps(p', rest, max, slots[0]);
      CapKeeps(p', rest, max, slots[0] + 1);
    } else {
      SpacedFrom(rest, next, k - 1);
      CapAtValue(p, slots[0], max, slots[k]);
      CapValue(p', rest, next, max, k - 1);
    }
  }

  // ---------- What a clamp achieves ----------

  lemma FixTcpVerifies(p: seq<u8>, ihl: nat)
    requires 20 <= ihl && ihl + 18 <= |p|
    ensures TcpChecksumValid(FixTcp(p, ihl), ihl)
  {
    var q, c := FixTcp(p, ihl), FieldChecksum(PseudoHeader(p, ihl), p[ihl..], 16);
    FieldChecksumVerifies(PseudoHeader(p, ihl), p[ihl..], 16);
    assert q[ihl..] == PutWord(p[ihl..], 16, c);
    assert q[12..20] == p[12..20];
  }

  ghost predicate ChecksumByte(p: seq<u8>, x: int)
    requires |p| > 0
  {
    x == Ihl(p) + 16 || x == Ihl(p) + 17
  }

  /** Only MSS values and the TCP checksum are rewritten. */
  lemma RewriteKeeps(p: seq<u8>, max: u16, x: nat)
    requires Rewritable(p) && x < |p| && !ValueByte(MssSlots(p), x) && !ChecksumByte(p, x)
    ensures Rewritten(p, max)[x] == p[x]
  {
    CapKeeps(p, MssSlots(p), max, x);
  }

  /** The fields that steer the search are kept. */
  lemma RewriteKeepsHeader(p: seq<u8>, max: u16)
    requires Rewritable(p)
    ensures var q := Rewritten(p, max);
            IsSynWithOptions(q) && Ihl(q) == Ihl(p) && OptionsEnd(q) == OptionsEnd(p)
  {
    WalkBounds(p, OptionsEnd(p), Ihl(p) + 20);
    RewriteKeeps(p, max, 0);
    RewriteKeeps(p, max, 9);
    RewriteKeeps(p, max, Ihl(p) + 12);
    RewriteKeeps(p, max, Ihl(p) + 13);
  }

  /** Rewriting never changes which options are found. */
  lemma RewriteKeepsWalk(p: seq<u8>, max: u16)
    requires Rewritable(p)
    ensures MssSlots(Rewritten(p, max)) == MssSlots(p)
  {
    var q, start, end := Rewritten(p, max), Ihl(p) + 20, OptionsEnd(p);
    forall x | start <= x < |p| && !ValueByte(Walk(p, end, start), x) ensures p[x] == q[x] {
      RewriteKeeps(p, max, x);
    }
    WalkStable(p, q, end, start);
    RewriteKeepsHeader(p, max);
  }

  lemma RewriteValue(p: seq<u8>, max: u16, k: nat)
    requires Rewritable(p) && k < |MssSlots(p)|
    ensures ValueAt(Rewritten(p, max), MssSlots(p)[k]) == Min(ValueAt(p, MssSlots(p)[k]), max)
  {
    var slots, start, end := MssSlots(p), Ihl(p) + 20, OptionsEnd(p);
    WalkSpaced(p, end, start);
    SpacedFrom(slots, start + 2, k);
    CapValue(p, slots, start + 2, max, k);
  }

  /** The clamp changes only MSS values and the TCP checksum, and those only when it reports so. */
  lemma ClampKeeps(p: seq<u8>, mtu: nat, x: nat)
    requires ClampSafe(p, mtu) && x < |p|
    requires Clamp(p, mtu).1 ==> !ValueByte(MssSlots(p), x) && !ChecksumByte(p, x)
    ensures Clamp(p, mtu).0[x] == p[x]
  {
    if Clamp(p, mtu).1 {
      RewriteKeeps(p, MaxMss(p, mtu), x);
    }
  }

  /** Every reached MSS ends up as its minimum with the bound. */
  lemma ClampValue(p: seq<u8>, mtu: nat, k: nat)
    requires ClampSafe(p, mtu) && k < |MssSlots(p)|
    ensures ValueAt(Clamp(p, mtu).0, MssSlots(p)[k]) == Min(ValueAt(p, MssSlots(p)[k]), MaxMss(p, mtu))
  {
    if Clamp(p, mtu).1 {
      RewriteValue(p, MaxMss(p, mtu), k);
    }
  }

  /** A rewritten packet's TCP checksum is valid, whatever it was before. */
  lemma ClampChecksum(p: seq<u8>, mtu: nat)
    requires ClampSafe(p, mtu) && Clamp(p, mtu).1
    ensures TcpChecksumValid(Clamp(p, mtu).0, Ihl(p))
  {
    FixTcpVerifies(Cap(p, MssSlots(p), MaxMss(p, mtu)), Ihl(p));
  }

  /** After a clamp, a full segment of any announced size fits the MTU (or the size is zero). */
  lemma ClampFitsMtu(p: seq<u8>, mtu: nat, k: nat)
    requires ClampSafe(p, mtu) && k < |MssSlots(p)|
    ensures var v := ValueAt(Clamp(p, mtu).0, MssSlots(p)[k]);
            v == 0 || Ihl(p) + 20 + v <= mtu
  {
    ClampValue(p, mtu, k);
  }

  lemma NothingToClamp(p: seq<u8>, mtu: nat)
    requires InBounds(p, MssSlots(p))
    requires forall k :: 0 <= k < |MssSlots(p)| ==> ValueAt(p, MssSlots(p)[k]) <= MaxMss(p, mtu)
    ensures ClampSafe(p, mtu) && Clamp(p, mtu) == (p, false)
  {
  }

  /** A second clamp with the same MTU finds nothing to do. */
  lemma ClampIdempotent(p: seq<u8>, mtu: nat)
    requires ClampSafe(p, mtu)
    ensures var q := Clamp(p, mtu).0;
            ClampSafe(q, mtu) && Clamp(q, mtu) == (q, false)
  {
    if Clamp(p, mtu).1 {
      var q, max := Rewritten(p, MaxMss(p, mtu)), MaxMss(p, mtu);
      RewriteKeepsWalk(p, max);
      RewriteKeepsHeader(p, max);
      forall k | 0 <= k < |MssSlots(q)| ensures ValueAt(q, MssSlots(q)[k]) <= MaxMss(q, mtu) {
        RewriteValue(p, max, k);
      }
      NothingToClamp(q, mtu);
    }
  }

  // ---------- The routines, in place ----------

  lemma FourWords(a: seq<u8>)
    requires |a| == 8
    ensures WordSum(a) == Word(a[0], a[1]) + Word(a[2], a[3]) + Word(a[4], a[5]) + Word(a[6], a[7])
  {
    assert WordSum(a[4..]) == Word(a[4], a[5]) + Word(a[6], a[7]) by {
      assert a[4..][2..][2..] == [];
    }
    assert a[2..][2..] == a[4..];
  }

  lemma TwoBytes(n: u16)
    ensures ToBe(n, 2) == [n / 256, n % 256]
    ensures WordSum(ToBe(n, 2)) == n
  {
    assert ToBe(n / 256, 1) == ToBe(n / 256 / 256, 0) + [n / 256 % 256];
    assert ToBe(n, 2)[2..] == [];
  }

  lemma PseudoSum(p: seq<u8>, ihl: nat)
    requires 20 <= ihl <= |p| && |p| - ihl <= 0xFFFF
    ensures WordSum(PseudoHeader(p, ihl)) ==
            Word(p[12], p[13]) + Word(p[14], p[15]) + Word(p[16], p[17]) + Word(p[18], p[19]) + 6 + (|p| - ihl)
  {
    FourWords(p[12..20]);
    TwoBytes(|p| - ihl);
    WordSumConcat(p[12..20] + [0, 6], ToBe(|p| - ihl, 2));
    WordSumConcat(p[12..20], [0, 6]);
    assert [0 as u8, 6][2..] == [];
  }

  /** Stores a word in place, high byte first. */
  method StoreWord(packet: array<u8>, at: nat, w: u16)
    requires at + 2 <= packet.Length
    modifies packet
    ensures packet[..] == PutWord(old(packet[..]), at, w)
  {
    packet[at], packet[at + 1] := w / 256, w % 256;
  }

  /** The part of the sum that comes from the pseudo-header. */
  method SumPseudoHeader(packet: array<u8>, ihl: nat) returns (sum: u32)
    requires 20 <= ihl <= packet.Length && packet.Length - ihl <= 0xFFFF
    ensures sum == WordSum(PseudoHeader(packet[..], ihl)) <= 0xFFFF * 6
  {
    sum := Word(packet[12], packet[13]);
    sum := sum + Word(packet[14], packet[15]);
    sum := sum + Word(packet[16], packet[17]);
    sum := sum + Word(packet[18], packet[19]);
    sum := sum + 6;
    sum := sum + (packet.Length - ihl);
    PseudoSum(packet[..], ihl);
  }

  /** The folded sum of the pseudo-header and the segment. */
  method SumSegment(packet: array<u8>, ihl: nat) returns (folded: u16)
    requires 20 <= ihl <= packet.Length <= 0xFFFF
    ensures folded == Fold(WordSum(PseudoHeader(packet[..], ihl)) + WordSum(packet[..][ihl..]))
  {
    var sum := SumPseudoHeader(packet, ihl);
    assert packet[ihl..packet.Length] == packet[..][ihl..];
    var total := AccumulateWords(sum, packet, ihl, packet.Length);
    folded := FoldCarries(total);
  }

  /** Zeroing the checksum field touches neither the pseudo-header nor the rest of the segment. */
  lemma ZeroedField(p: seq<u8>, ihl: nat)
    requires 20 <= ihl && ihl + 18 <= |p|
    ensures var q := PutWord(p, ihl + 16, 0);
            PseudoHeader(q, ihl) == PseudoHeader(p, ihl) && q[ihl..] == PutWord(p[ihl..], 16, 0)
  {
    assert PutWord(p, ihl + 16, 0)[12..20] == p[12..20];
  }

  lemma PutTwice(p: seq<u8>, k: nat, v: u16, w: u16)
    requires k + 2 <= |p|
    ensures PutWord(PutWord(p, k, v), k, w) == PutWord(p, k, w)
  {
  }

  /** `recompute_tcp_checksum` on the packet split at `ihl`. */
  method RecomputeTcpChecksum(packet: array<u8>, ihl: nat)
    requires 20 <= ihl && ihl + 18 <= packet.Length <= 0xFFFF
    modifies packet
    ensures packet[..] == FixTcp(old(packet[..]), ihl)
  {
    ghost var p := packet[..];
    StoreWord(packet, ihl + 16, 0);
    var folded := SumSegment(packet, ihl);
    ZeroedField(p, ihl);
    PutTwice(p, ihl + 16, 0, 0xFFFF - folded);
    StoreWord(packet, ihl + 16, 0xFFFF - folded);
  }

  /** One MSS option handled: what is left to do is the walk behind it. */
  lemma MssStep(q: seq<u8>, end: nat, j: nat, max: u16)
    requires j + 4 <= end && j + 1 < |q| && q[j] == 2 && q[j + 1] == 4
    requires InBounds(q, Walk(q, end, j))
    ensures j + 4 <= |q|
    ensures var q' := CapAt(q, j + 2, max);
            && Walk(q', end, j + 4) == Walk(q, end, j + 4)
            && InBounds(q', Walk(q', end, j + 4))
            && Cap(q, Walk(q, end, j), max) == Cap(q', Walk(q', end, j + 4), max)
            && (Exceeds(q, Walk(q, end, j), max) <==>
                ValueAt(q, j + 2) > max || Exceeds(q', Walk(q', end, j + 4), max))
  {
    var slots, rest := Walk(q, end, j), Walk(q, end, j + 4);
    assert slots == [j + 2] + rest && slots[0] == j + 2;
    var q' := CapAt(q, j + 2, max);
    assert forall k :: 0 <= k < |rest| ==> rest[k] == slots[k + 1];
    WalkStable(q, q', end, j + 4);
    WalkSpaced(q, end, j);
    ExceedsStep(q, q', slots, j + 2, max);
  }

  /** Removing the first reached value from an `Exceeds` question. */
  lemma ExceedsStep(q: seq<u8>, q': seq<u8>, slots: seq<nat>, lo: nat, max: u16)
    requires slots != [] && InBounds(q, slots) && Spaced(slots, lo) && q' == CapAt(q, slots[0], max)
    ensures Exceeds(q, slots, max) <==> ValueAt(q, slots[0]) > max || Exceeds(q', slots[1..], max)
  {
    var rest := slots[1..];
    forall k | 0 <= k < |rest| ensures ValueAt(q', rest[k]) == ValueAt(q, slots[k + 1]) {
      SpacedFrom(rest, slots[0] + 4, k);
      CapAtValue(q, slots[0], max, rest[k]);
    }
    if Exceeds(q, slots, max) {
      var k :| 0 <= k < |slots| && ValueAt(q, slots[k]) > max;
      assert k > 0 ==> ValueAt(q', rest[k - 1]) > max;
    }
    if Exceeds(q', rest, max) {
      var k :| 0 <= k < |rest| && ValueAt(q', rest[k]) > max;
      assert ValueAt(q, slots[k + 1]) > max;
    }
  }

  /** Lowers the MSS value at `slot` when it is above the bound. */
  method CapValueInPlace(packet: array<u8>, slot: nat, max: u16) returns (lowered: bool)
    requires slot + 2 <= packet.Length
    modifies packet
    ensures packet[..] == CapAt(old(packet[..]), slot, max)
    ensures lowered <==> ValueAt(old(packet[..]), slot) > max
  {
    lowered := Word(packet[slot], packet[slot + 1]) > max;
    if lowered {
      StoreWord(packet, slot, max);
    }
  }

  /** What remains to be done from offset `j`: the capped packet, and whether a value is too large. */
  ghost function Outcome(q: seq<u8>, end: nat, j: nat, max: u16): (r: (seq<u8>, bool))
    requires InBounds(q, Walk(q, end, j))
  {
    (Cap(q, Walk(q, end, j), max), Exceeds(q, Walk(q, end, j), max))
  }

  /** One round of the option loop; `next.None?` is the loop's `break`. */
  method ClampOption(packet: array<u8>, end: nat, j: nat, max: u16) returns (next: Option<nat>, lowered: bool)
    requires j < end && j + 1 < packet.Length
    requires InBounds(packet[..], Walk(packet[..], end, j))
    modifies packet
    ensures next.None? ==> Walk(old(packet[..]), end, j) == [] && packet[..] == old(packet[..]) && !lowered
    ensures next.Some? ==>
              && next.value > j
              && InBounds(packet[..], Walk(packet[..], end, next.value))
              && var before, after := Outcome(old(packet[..]), end, j, max), Outcome(packet[..], end, next.value, max);
                 before.0 == after.0 && before.1 == (lowered || after.1)
    ensures !lowered ==> packet[..] == old(packet[..])
  {
    lowered := false;
    var kind := packet[j];
    if kind == 0 {
      return None, false;
    } else if kind == 1 {
      return Some(j + 1), false;
    }
    var optLen := packet[j + 1];
    if optLen < 2 || j + optLen > end {
      return None, false;
    }
    if kind == 2 && optLen == 4 {
      MssStep(packet[..], end, j, max);
      lowered := CapValueInPlace(packet, j + 2, max);
    } else {
      assert Walk(packet[..], end, j) == Walk(packet[..], end, j + optLen);
    }
    next := Some(j + optLen);
  }

  /** The option loop of `clamp_mss`. */
  method ClampOptions(packet: array<u8>, ihl: nat, end: nat, max: u16) returns (clamped: bool)
    requires InBounds(packet[..], Walk(packet[..], end, ihl + 20))
    modifies packet
    ensures (packet[..], clamped) == Outcome(old(packet[..]), end, ihl + 20, max)
    ensures !clamped ==> packet[..] == old(packet[..])
  {
    clamped := false;
    var j := ihl + 20;
    while j < end && j + 1 < packet.Length
      invariant InBounds(packet[..], Walk(packet[..], end, j))
      invariant Outcome(packet[..], end, j, max).0 == Outcome(old(packet[..]), end, ihl + 20, max).0
      invariant (clamped || Outcome(packet[..], end, j, max).1) == Outcome(old(packet[..]), end, ihl + 20, max).1
      invariant !clamped ==> packet[..] == old(packet[..])
      decreases packet.Length - j
    {
      var next, lowered := ClampOption(packet, end, j, max);
      if next.None? {
        break;
      }
      clamped := clamped || lowered;
      j := next.value;
    }
  }

  /** `clamp_mss`, walking and rewriting the packet in place. */
  method ClampMss(packet: array<u8>, mtu: nat) returns (clamped: bool)
    requires packet.Length <= 0xFFFF
    requires ClampSafe(packet[..], mtu)
    modifies packet
    ensures (packet[..], clamped) == Clamp(old(packet[..]), mtu)
  {
    clamped := false;
    if packet.Length < 40 { return; }
    if packet[0] / 16 == 4 {
      var ihl: nat := 4 * (packet[0] % 16);
      if packet.Length < ihl + 20 { return; }
      if packet[9] == 6 {
        var end: nat := ihl + 4 * (packet[ihl + 12] / 16);
        if end > ihl + 20 && packet[ihl + 13] / 2 % 2 == 1 {
          assert MssSlots(packet[..]) == Walk(packet[..], end, ihl + 20);
          clamped := ClampOptions(packet, ihl, end, MaxMss(packet[..], mtu));
        } else {
          assert MssSlots(packet[..]) == [];
        }
        if clamped {
          RecomputeTcpChecksum(packet, ihl);
        }
      }
    }
  }

  // ---------- ICMP Fragmentation Needed ----------

  /** The reply's IPv4 header: back to the sender, ICMP, with a checksum that verifies. */
  ghost predicate IsReplyHeader(h: seq<u8>, original: seq<u8>, total: nat)
    requires |original| >= 20
  {
    && |h| == 20
    && h[0] == 0x45 && h[1] == 0 && Word(h[2], h[3]) == total
    && h[4] == h[5] == h[6] == h[7] == 0 && h[8] == 64 && h[9] == 1
    && h[12..16] == original[16..20] && h[16..20] == original[12..16]
    && Verifies(h)
  }

  /**
   * The ICMP message (RFC 792, and RFC 1191, section 4): type 3, code 4, the next-hop MTU, and
   * the quoted start of the offending packet, with a checksum that verifies.
   */
  ghost predicate IsFragNeeded(m: seq<u8>, quoted: seq<u8>, mtu: u16) {
    && |m| == 8 + |quoted|
    && m[0] == 3 && m[1] == 4 && m[4] == m[5] == 0 && Word(m[6], m[7]) == mtu
    && m[8..] == quoted
    && Verifies(m)
  }

  function ReplyHeader(original: seq<u8>, total: u16): (h: seq<u8>)
    requires |original| >= 20
    ensures |h| == 20
  {
    [0x45, 0, total / 256, total % 256, 0, 0, 0, 0, 64, 1, 0, 0] + original[16..20] + original[12..16]
  }

  lemma ReplyHeaderVerifies(original: seq<u8>, total: u16)
    requires |original| >= 20
    ensures var h := ReplyHeader(original, total);
            IsReplyHeader(PutWord(h, 10, 0xFFFF - Fold(WordSum(h))), original, total)
  {
    var h := ReplyHeader(original, total);
    ZeroFieldVerifies(h, 10);
  }

  function FragMessage(quoted: seq<u8>, mtu: u16): (m: seq<u8>) {
    [3, 4, 0, 0, 0, 0, mtu / 256, mtu % 256] + quoted
  }

  lemma FragMessageVerifies(quoted: seq<u8>, mtu: u16)
    ensures var m := FragMessage(quoted, mtu);
            IsFragNeeded(PutWord(m, 2, 0xFFFF - Fold(WordSum(m))), quoted, mtu)
  {
    ZeroFieldVerifies(FragMessage(quoted, mtu), 2);
  }

  /** Writes `bytes` at `from`, then the checksum of that slice at offset `k` inside it. */
  method WriteWithChecksum(pkt: array<u8>, from: nat, bytes: seq<u8>, k: nat)
    requires from + |bytes| <= pkt.Length <= 0xFFFF && k + 2 <= |bytes|
    modifies pkt
    ensures pkt[from..from + |bytes|] == PutWord(bytes, k, 0xFFFF - Fold(WordSum(bytes)))
    ensures forall i :: 0 <= i < pkt.Length && !(from <= i < from + |bytes|) ==> pkt[i] == old(pkt[i])
  {
    forall i | 0 <= i < |bytes| { pkt[from + i] := bytes[i]; }
    assert pkt[from..from + |bytes|] == bytes;
    var c := IpChecksum(pkt, from, from + |bytes|);
    pkt[from + k], pkt[from + k + 1] := c / 256, c % 256;
  }

  /** The whole reply: both parts with their checksums stored. */
  function FragReply(original: seq<u8>, mtu: u16): (pkt: seq<u8>)
    requires 20 <= |original| && Ihl(original) + 8 <= |original|
  {
    var n := Ihl(original) + 8;
    var h, m := ReplyHeader(original, 28 + n), FragMessage(original[..n], mtu);
    PutWord(h, 10, 0xFFFF - Fold(WordSum(h))) + PutWord(m, 2, 0xFFFF - Fold(WordSum(m)))
  }

  /** Both checksums of the reply verify, and it says what the two RFCs ask for. */
  lemma FragReplyVerifies(original: seq<u8>, mtu: u16)
    requires 20 <= |original| && Ihl(original) + 8 <= |original|
    ensures var pkt := FragReply(original, mtu);
            && |pkt| >= 20
            && IsReplyHeader(pkt[..20], original, |pkt|)
            && IsFragNeeded(pkt[20..], original[..Ihl(original) + 8], mtu)
  {
    var pkt, n := FragReply(original, mtu), Ihl(original) + 8;
    var h, m := ReplyHeader(original, 28 + n), FragMessage(original[..n], mtu);
    assert pkt[..20] == PutWord(h, 10, 0xFFFF - Fold(WordSum(h)));
    assert pkt[20..] == PutWord(m, 2, 0xFFFF - Fold(WordSum(m)));
    ReplyHeaderVerifies(original, 28 + n);
    FragMessageVerifies(original[..n], mtu);
  }

  /**
   * `build_icmp_frag_needed`. A packet too short to quote gets no reply; the precondition
   * excludes only the packets on which the original indexes out of range.
   */
  method BuildIcmpFragNeeded(original: seq<u8>, mtu: u16) returns (reply: Option<seq<u8>>)
    requires original != [] && (|original| >= Ihl(original) + 8 ==> |original| >= 20)
    ensures reply == if |original| < Ihl(original) + 8 then None else Some(FragReply(original, mtu))
  {
    var n := Ihl(original) + 8;
    if |original| < n {
      return None;
    }
    var pkt := new u8[28 + n](_ => 0);
    var h, m := ReplyHeader(original, 28 + n), FragMessage(original[..n], mtu);
    WriteWithChecksum(pkt, 0, h, 10);
    ghost var header := pkt[0..20];
    WriteWithChecksum(pkt, 20, m, 2);
    assert pkt[..] == header + pkt[20..20 + |m|];
    reply := Some(pkt[..]);
  }
}
