/** Bringing the checksums of a packet up to date in place, after an address was rewritten. */
module PacketChecksums {
  import opened Bytes
  import opened Checksum
  import opened Ipv6Headers

  const ICMP := 1

  // ----- Sums of pseudo-header and segment

  lemma {:induction false} WordSumConcat(a: bytes, b: bytes, sum: nat)
    requires |a| % 2 == 0 && Ones16(WordSum(a) + WordSum(b)) == sum
    ensures OnesSum(a + b) == sum
  {
    hide WordSum, Ones16, OnesSum;
    WordSumAppend(a, b);
    OnesSumIs(a + b);
  }

  lemma WordSumPair(x: byte, y: byte)
    ensures WordSum([x, y]) == 256 * x as nat + y as nat
  {
    WordSumWord([x, y], 0);
    assert WordSum([]) == 0 && [x, y][..0] == [];
  }

  lemma WordSumSnoc2(b: bytes, x: byte, y: byte)
    requires |b| % 2 == 0
    ensures WordSum(b + [x, y]) == WordSum(b) + 256 * x as nat + y as nat
  {
    WordSumAppend(b, [x, y]);
    WordSumPair(x, y);
  }

  /** With the checksum written into its zeroed field, pseudo-header and segment sum to all ones. */
  lemma SegmentSums(b: bytes, k: nat, start: nat, n: nat, pseudo: bytes, avoidZero: bool)
    requires start + n <= |b| && Covered(k, start, n) && n < 0x1_0000
    requires |pseudo| % 2 == 0 && WordSum(pseudo) < 0x1000_0000
    ensures var r := Finished(Zeroed(b, k), k, start, n, WordSum(pseudo), avoidZero);
            OnesSum(pseudo + r[start..start + n]) == ONES
  {
    hide WordSum, Ones16, OnesSum, Finished, Zeroed;
    var z := Zeroed(b, k);
    FinishedSums(z, k, start, n, WordSum(pseudo), avoidZero);
    WordSumConcat(pseudo, Finished(z, k, start, n, WordSum(pseudo), avoidZero)[start..start + n], ONES);
  }

  lemma PlainSums(b: bytes, k: nat, start: nat, n: nat)
    requires start + n <= |b| && Covered(k, start, n) && n < 0x1_0000
    ensures OnesSum(Finished(Zeroed(b, k), k, start, n, 0, false)[start..start + n]) == ONES
  {
    hide Ones16, OnesSum, WordSum, Finished, Zeroed;
    FinishedSums(Zeroed(b, k), k, start, n, 0, false);
    OnesSumIs(Finished(Zeroed(b, k), k, start, n, 0, false)[start..start + n]);
  }

  /** Zeroes a checksum field. */
  method Zero(p: array<byte>, k: nat)
    requires k + 2 <= p.Length
    modifies p
    ensures p[..] == Zeroed(old(p[..]), k)
  {
    p[k] := 0;
    p[k + 1] := 0;
  }

  // ----- IPv4

  function HeaderLength(b: bytes): nat
    requires 20 <= |b|
  {
    b[0] % 16 * 4
  }

  function Total(b: bytes): nat
    requires 20 <= |b|
  {
    U16At(b, 2)
  }

  /** The routines stay within the buffer: this is all they ask. */
  predicate Runs4(b: bytes) {
    && 20 <= |b|
    && (Total(b) <= |b| ==>
          && HeaderLength(b) <= |b|
          && (b[9] == TCP ==> HeaderLength(b) + 18 <= |b|)
          && (b[9] == ICMP ==> HeaderLength(b) + 4 <= |b|))
  }

  /** The pseudo-header of section 3.1 of RFC 9293: addresses, protocol and segment length. */
  function Pseudo4(b: bytes, n: nat): (s: bytes)
    requires 20 <= |b| && n < 0x1_0000
    ensures |s| == 12
  {
    b[12..20] + [0, b[9]] + U16(n)
  }

  /** Its sum in 32 bits; a negative length wraps around. */
  function PseudoSum4(b: bytes, n: int): Sum
    requires 20 <= |b|
  {
    (U16At(b, 12) + U16At(b, 14) + U16At(b, 16) + U16At(b, 18) + b[9] as nat + n) % 0x1_0000_0000
  }

  lemma WordSum8(s: bytes)
    requires |s| == 8
    ensures WordSum(s) == U16At(s, 0) + U16At(s, 2) + U16At(s, 4) + U16At(s, 6)
  {
    hide WordSum;
    assert s == [s[0], s[1]] + [s[2], s[3]] + [s[4], s[5]] + [s[6], s[7]];
    WordSumPair(s[0], s[1]);
    WordSumSnoc2([s[0], s[1]], s[2], s[3]);
    WordSumSnoc2([s[0], s[1]] + [s[2], s[3]], s[4], s[5]);
    WordSumSnoc2([s[0], s[1]] + [s[2], s[3]] + [s[4], s[5]], s[6], s[7]);
  }

  lemma PseudoSum4Is(b: bytes, n: nat)
    requires 20 <= |b| && n < 0x1_0000
    ensures PseudoSum4(b, n) == WordSum(Pseudo4(b, n)) && PseudoSum4(b, n) < 0x1000_0000
  {
    hide WordSum;
    WordSum8(b[12..20]);
    WordSumSnoc2(b[12..20], 0, b[9]);
    WordSumSnoc2(b[12..20] + [0, b[9]], n / 256, n % 256);
  }

  method PseudoHeaderSum4(p: array<byte>, n: int) returns (sum: Sum)
    requires 20 <= p.Length
    ensures sum == PseudoSum4(p[..], n)
    ensures 0 <= n < 0x1_0000 ==> sum == WordSum(Pseudo4(p[..], n)) && sum < 0x1000_0000
  {
    sum := 256 * p[12] as nat + p[13] as nat;
    sum := sum + 256 * p[14] as nat + p[15] as nat;
    sum := sum + 256 * p[16] as nat + p[17] as nat;
    sum := sum + 256 * p[18] as nat + p[19] as nat;
    sum := sum + p[9] as nat;
    sum := (sum + n) % 0x1_0000_0000;
    if 0 <= n < 0x1_0000 {
      PseudoSum4Is(p[..], n);
    }
  }

  function Positive(n: int): nat {
    if n < 0 then 0 else n
  }

  function Even(n: nat): nat {
    n - n % 2
  }

  /** The packet with its header checksum brought up to date. */
  function Header4(b: bytes): (r: bytes)
    requires 20 <= |b| && HeaderLength(b) <= |b|
    ensures OnlyField(b, r, 10)
  {
    Finished(Zeroed(b, 10), 10, 0, HeaderLength(b), 0, false)
  }

  function Tcp4(b: bytes): (r: bytes)
    requires Runs4(b) && Total(b) <= |b| && b[9] == TCP
    ensures OnlyField(b, r, Field4(b))
  {
    var h := HeaderLength(b);
    var z := Zeroed(b, h + 16);
    Finished(z, h + 16, h, Positive(Total(b) - h), PseudoSum4(z, Total(b) - h), false)
  }

  /** The UDP header and the length it announces lie within the buffer. */
  predicate UdpFits(b: bytes, o: nat) {
    o + 8 <= |b| && o + U16At(b, o + 4) <= |b|
  }

  function Udp4(b: bytes): (r: bytes)
    requires Runs4(b) && b[9] == UDP
    ensures OnlyField(b, r, Field4(b))
  {
    var h := HeaderLength(b);
    if !UdpFits(b, h) then b else
    var z, n := Zeroed(b, h + 6), U16At(b, h + 4);
    Finished(z, h + 6, h, n, PseudoSum4(z, n), true)
  }

  /** An odd last byte is left out. */
  function Icmp4(b: bytes): (r: bytes)
    requires Runs4(b) && Total(b) <= |b| && b[9] == ICMP
    ensures OnlyField(b, r, Field4(b))
  {
    var h := HeaderLength(b);
    Finished(Zeroed(b, h + 2), h + 2, h, Even(Positive(Total(b) - h)), 0, false)
  }

  function Transport4(b: bytes): (r: bytes)
    requires Runs4(b) && Total(b) <= |b|
    ensures OnlyField(b, r, Field4(b))
  {
    if b[9] == ICMP then Icmp4(b) else if b[9] == TCP then Tcp4(b) else if b[9] == UDP then Udp4(b) else b
  }

  /** The packet with all its checksums brought up to date; one that announces more than the buffer
      holds is left alone. */
  function Updated4(b: bytes): (r: bytes)
    requires Runs4(b)
    ensures |r| == |b|
  {
    if Total(b) > |b| then b else Transport4(Header4(b))
  }

  /** The offset of the transport checksum. */
  function Field4(b: bytes): nat
    requires 20 <= |b|
  {
    HeaderLength(b) + (if b[9] == TCP then 16 else if b[9] == UDP then 6 else 2)
  }

  /** Only checksum bytes differ. */
  ghost predicate OnlyChecksums4(b: bytes, b': bytes) {
    && 20 <= |b| == |b'|
    && forall i :: 0 <= i < |b| && i !in {10, 11, Field4(b), Field4(b) + 1} ==> b'[i] == b[i]
  }

  lemma OnlyChecksumsChange4(b: bytes)
    requires Runs4(b)
    ensures OnlyChecksums4(b, Updated4(b))
  {
    hide Transport4, Header4;
  }

  /** Where the bytes may differ: in the header checksum, and in that of a TCP segment, a UDP datagram
      that fits, or an ICMP message. A packet that does not fit is as it was. */
  ghost predicate OnlyIn4(b: bytes, r: bytes) {
    && 20 <= |b| && (Total(b) > |b| ==> r == b)
    && var h := HeaderLength(b);
       var udp := b[9] == UDP && h + 8 <= |b| && h + U16At(b, h + 4) <= |b|;
       && (b[9] == TCP ==> OnlyFields(b, r, 10, h + 16)) && (b[9] == ICMP ==> OnlyFields(b, r, 10, h + 2))
       && (udp ==> OnlyFields(b, r, 10, h + 6))
       && (b[9] != TCP && b[9] != ICMP && !udp ==> OnlyField(b, r, 10))
  }

  ghost predicate OnlyFields(b: bytes, r: bytes, k: nat, k': nat) {
    |r| == |b| && forall i :: 0 <= i < |b| && i !in {k, k + 1, k', k' + 1} ==> r[i] == b[i]
  }

  lemma ChangesOnlyIn4(b: bytes)
    requires Runs4(b)
    ensures OnlyIn4(b, Updated4(b))
  {
    hide Finished, PseudoSum4;
  }

  // ----- In place

  method UpdateHeaderChecksum(p: array<byte>)
    requires 20 <= p.Length && HeaderLength(p[..]) <= p.Length
    modifies p
    ensures p[..] == Header4(old(p[..]))
  {
    hide WordSum;
    var h := HeaderLength(p[..]);
    Zero(p, 10);
    SetChecksum(p, 10, 0, h, 0, true, false);
  }

  method UpdateTcpChecksum(p: array<byte>)
    requires Runs4(p[..]) && Total(p[..]) <= p.Length && p[9] == TCP
    modifies p
    ensures p[..] == Tcp4(old(p[..]))
  {
    hide WordSum;
    var h := HeaderLength(p[..]);
    var n := Total(p[..]) - h;
    Zero(p, h + 16);
    var sum := PseudoHeaderSum4(p, n);
    SetChecksum(p, h + 16, h, Positive(n), sum, true, false);
  }

  method UpdateUdpChecksum(p: array<byte>)
    requires Runs4(p[..]) && p[9] == UDP
    modifies p
    ensures p[..] == Udp4(old(p[..]))
  {
    hide WordSum;
    var h := HeaderLength(p[..]);
    if p.Length < h + 8 {
      return;
    }
    var n := U16At(p[..], h + 4);
    if h + n > p.Length {
      return;
    }
    Zero(p, h + 6);
    var sum := PseudoHeaderSum4(p, n);
    SetChecksum(p, h + 6, h, n, sum, true, true);
  }

  method UpdateIcmpChecksum(p: array<byte>)
    requires Runs4(p[..]) && Total(p[..]) <= p.Length && p[9] == ICMP
    modifies p
    ensures p[..] == Icmp4(old(p[..]))
  {
    hide WordSum;
    var h := HeaderLength(p[..]);
    var n := Total(p[..]) - h;
    Zero(p, h + 2);
    SetChecksum(p, h + 2, h, Positive(n), 0, false, false);
  }

  method UpdateChecksum4(p: array<byte>)
    requires Runs4(p[..])
    modifies p
    ensures p[..] == Updated4(old(p[..])) && OnlyIn4(old(p[..]), p[..])
    ensures old(WellFormed4(p[..])) ==> WellFormed4(p[..]) && Sound4(p[..])
  {
    hide Header4, Tcp4, Udp4, Icmp4, Sound4, OnlyIn4;
    ghost var b := p[..];
    ChangesOnlyIn4(b);
    if WellFormed4(b) {
      UpdatedSound4(b);
    }
    if Total(p[..]) > p.Length {
      return;
    }
    UpdateHeaderChecksum(p);
    if p[9] == ICMP {
      UpdateIcmpChecksum(p);
    } else if p[9] == TCP {
      UpdateTcpChecksum(p);
    } else if p[9] == UDP {
      UpdateUdpChecksum(p);
    }
  }

  // ----- Sound IPv4 packets

  /** The header has at least its 20 bytes and ends within the packet, the packet within the buffer. */
  predicate WellFormed4(b: bytes) {
    20 <= |b| && 20 <= HeaderLength(b) <= Total(b) <= |b|
  }

  ghost predicate TcpSound(b: bytes)
    requires WellFormed4(b)
  {
    var h, total := HeaderLength(b), Total(b);
    18 <= total - h ==> OnesSum(Pseudo4(b, total - h) + b[h..total]) == ONES && U16At(b, h + 16) != ONES
  }

  ghost predicate UdpSound(b: bytes)
    requires WellFormed4(b)
  {
    var h := HeaderLength(b);
    h + 8 <= |b| && 8 <= U16At(b, h + 4) && h + U16At(b, h + 4) <= |b| ==>
      var n := U16At(b, h + 4);
      OnesSum(Pseudo4(b, n) + b[h..h + n]) == ONES && U16At(b, h + 6) != 0
  }

  ghost predicate IcmpSound(b: bytes)
    requires WellFormed4(b)
  {
    var h, total := HeaderLength(b), Total(b);
    4 <= total - h ==>
      && OnesSum(b[h..h + Even(total - h)]) == ONES
      && (U16At(b, h + 2) == ONES ==> forall i :: h <= i < h + Even(total - h) && i != h + 2 && i != h + 3 ==> b[i] == 0)
  }

  /** The checksums of the packet hold: over the header, and over pseudo-header and segment. Of the two
      forms of zero, the header and TCP have the plain one, UDP the one of all ones, and ICMP the plain
      one unless there is nothing but zeros to sum. */
  ghost predicate Sound4(b: bytes)
    requires WellFormed4(b)
  {
    && OnesSum(b[..HeaderLength(b)]) == ONES && U16At(b, 10) != ONES
    && (b[9] == TCP ==> TcpSound(b)) && (b[9] == UDP ==> UdpSound(b)) && (b[9] == ICMP ==> IcmpSound(b))
  }

  lemma Pseudo4Same(b: bytes, b': bytes, k: nat, n: nat)
    requires 20 <= |b| && 20 <= k && OnlyField(b, b', k) && n < 0x1_0000
    ensures Pseudo4(b', n) == Pseudo4(b, n)
  {
    assert b'[12..20] == b[12..20];
  }

  lemma HeaderSound4(b: bytes)
    requires WellFormed4(b)
    ensures WellFormed4(Header4(b)) && OnesSum(Header4(b)[..HeaderLength(b)]) == ONES && U16At(Header4(b), 10) != ONES
  {
    hide OnesSum, WordSum, Finished;
    PlainSums(b, 10, 0, HeaderLength(b));
    PlainNotOnes(b, 10, 0, HeaderLength(b), 0);
    assert Header4(b)[0..HeaderLength(b)] == Header4(b)[..HeaderLength(b)];
  }

  lemma PseudoPositive4(b: bytes, n: nat)
    requires 20 <= |b| && b[9] > 0 && n < 0x1_0000
    ensures 0 < PseudoSum4(b, n)
  {
  }

  lemma TcpSound4(b: bytes)
    requires WellFormed4(b) && Runs4(b) && b[9] == TCP
    ensures WellFormed4(Tcp4(b)) && TcpSound(Tcp4(b))
  {
    hide OnesSum, WordSum, PseudoSum4, Finished;
    var h := HeaderLength(b);
    var n := Total(b) - h;
    if 18 <= n {
      PseudoSum4Is(Zeroed(b, h + 16), n);
      Pseudo4Same(b, Zeroed(b, h + 16), h + 16, n);
      Pseudo4Same(b, Tcp4(b), h + 16, n);
      SegmentSums(b, h + 16, h, n, Pseudo4(b, n), false);
      PseudoPositive4(Zeroed(b, h + 16), n);
      FinishedNotOnes(Zeroed(b, h + 16), h + 16, h, n, PseudoSum4(Zeroed(b, h + 16), n));
    }
  }

  lemma UdpSound4(b: bytes)
    requires WellFormed4(b) && Runs4(b) && b[9] == UDP
    ensures WellFormed4(Udp4(b)) && UdpSound(Udp4(b))
  {
    hide OnesSum, WordSum, PseudoSum4, Finished;
    var h := HeaderLength(b);
    if UdpFits(b, h) && 8 <= U16At(b, h + 4) {
      var n := U16At(b, h + 4);
      PseudoSum4Is(Zeroed(b, h + 6), n);
      Pseudo4Same(b, Zeroed(b, h + 6), h + 6, n);
      Pseudo4Same(b, Udp4(b), h + 6, n);
      SegmentSums(b, h + 6, h, n, Pseudo4(b, n), true);
    }
  }

  lemma IcmpSound4(b: bytes)
    requires WellFormed4(b) && Runs4(b) && b[9] == ICMP
    ensures WellFormed4(Icmp4(b)) && IcmpSound(Icmp4(b))
  {
    hide OnesSum, WordSum, Finished;
    var h := HeaderLength(b);
    var n := Total(b) - h;
    if 4 <= n {
      PlainSums(b, h + 2, h, Even(n));
      forall i | h <= i < h + Even(n) && i != h + 2 && i != h + 3 && b[i] != 0
        ensures U16At(Icmp4(b), h + 2) != ONES
      {
        PlainNotOnes(b, h + 2, h, Even(n), i);
      }
    }
  }

  lemma PlainNotOnes(b: bytes, k: nat, start: nat, n: nat, i: nat)
    requires start + n <= |b| && k + 2 <= |b| && n < 0x1_0000
    requires start <= i < start + n && i != k && i != k + 1 && b[i] != 0
    ensures U16At(Finished(Zeroed(b, k), k, start, n, 0, false), k) != ONES
  {
    hide WordSum, Finished;
    var z := Zeroed(b, k);
    WordSumAtLeast(z[start..start + n], i - start);
    FinishedNotOnes(z, k, start, n, 0);
  }

  /** After the update every checksum holds. */
  lemma UpdatedSound4(b: bytes)
    requires Runs4(b) && WellFormed4(b)
    ensures WellFormed4(Updated4(b)) && Sound4(Updated4(b))
  {
    hide OnesSum, WordSum, Header4, Tcp4, Udp4, Icmp4, TcpSound, UdpSound, IcmpSound;
    var h := HeaderLength(b);
    HeaderSound4(b);
    var b1 := Header4(b);
    if b[9] == TCP {
      TcpSound4(b1);
    } else if b[9] == UDP {
      UdpSound4(b1);
    } else if b[9] == ICMP {
      IcmpSound4(b1);
    }
    assert Transport4(b1)[..h] == b1[..h];
  }

  // ----- The odd last byte of an ICMP message

  lemma OnesAddZero(x: nat)
    requires x < ONES
    ensures OnesAdd(ONES, x) == ONES <==> x == 0
  {
  }

  /** A message of odd length whose even part sums to all ones does so as a whole exactly when its
      last byte is zero. */
  lemma OddByte(b: bytes)
    requires |b| % 2 == 1 && OnesSum(b[..|b| - 1]) == ONES
    ensures OnesSum(b) == ONES <==> b[|b| - 1] == 0
  {
    OnesAddZero(256 * b[|b| - 1] as nat);
  }

  /** The ICMP routine is right for even lengths and for messages ending in a zero byte, and for no
      others. */
  lemma IcmpSoundIff(b: bytes)
    requires Runs4(b) && WellFormed4(b) && b[9] == ICMP && 4 <= Total(b) - HeaderLength(b)
    ensures var h, total := HeaderLength(b), Total(b);
            OnesSum(Updated4(b)[h..total]) == ONES <==> (total - h) % 2 == 0 || b[total - 1] == 0
  {
    hide OnesSum, WordSum, Header4, Icmp4;
    UpdatedSound4(b);
    OnlyChecksumsChange4(b);
    var h, total, r := HeaderLength(b), Total(b), Updated4(b);
    if (total - h) % 2 == 1 {
      assert r[h..total][..total - h - 1] == r[h..h + Even(total - h)];
      OddByte(r[h..total]);
    }
  }

  /** Such a packet: an echo request of five bytes, the last of which its checksum does not cover. */
  const ODD_ECHO: bytes := [0x45, 0, 0, 25, 0, 0, 0, 0, 64, 1] + seq(10, _ => 0) + [8, 0, 0, 0, 1]

  lemma OddByteMissed()
    ensures Runs4(ODD_ECHO) && OnesSum(Updated4(ODD_ECHO)[20..25]) != ONES
  {
    hide Updated4, OnesSum;
    assert HeaderLength(ODD_ECHO) == 20 && Total(ODD_ECHO) == 25;
    IcmpSoundIff(ODD_ECHO);
  }

  // ----- IPv6

  /** The pseudo-header of section 8.1 of RFC 8200: addresses, length and next header. */
  function Pseudo6(b: bytes, next: byte, n: nat): (s: bytes)
    requires HEADER_LEN <= |b| && n < 0x1_0000
    ensures |s| == 40
  {
    b[8..24] + b[24..40] + [0, 0] + U16(n) + [0, 0] + [0, next]
  }

  method PseudoHeaderSum6(p: array<byte>, next: byte, n: nat) returns (sum: Sum)
    requires HEADER_LEN <= p.Length && n < 0x1_0000
    ensures sum == WordSum(Pseudo6(p[..], next, n)) && sum < 0x1000_0000
  {
    hide WordSum;
    ghost var source, dest := p[8..24], p[24..40];
    WordSumBound(source);
    WordSumBound(dest);
    sum := AddWords(p, 8, 16, 0, true);
    sum := AddWords(p, 24, 16, sum, true);
    sum := sum + n / 0x1_0000 % 0x1_0000;
    sum := sum + n % 0x1_0000;
    sum := sum + next as nat;
    WordSumAppend(source, dest);
    WordSumSnoc2(source + dest, 0, 0);
    WordSumSnoc2(source + dest + [0, 0], n / 256, n % 256);
    WordSumSnoc2(source + dest + [0, 0] + U16(n), 0, 0);
    WordSumSnoc2(source + dest + [0, 0] + U16(n) + [0, 0], 0, next);
    assert p[..][8..24] == source && p[..][24..40] == dest;
  }

  lemma Pseudo6Bound(b: bytes, next: byte, n: nat)
    requires HEADER_LEN <= |b| && n < 0x1_0000
    ensures WordSum(Pseudo6(b, next, n)) < 0x1000_0000
  {
    WordSumBound(Pseudo6(b, next, n));
  }

  /** The length of the segment whose checksum is brought up to date; zero when the transport
      header is not there in full, or a UDP length does not fit. A UDP length of zero stands for
      the rest of the payload. */
  function Segment6(b: bytes, t: nat, o: nat): (n: nat)
    requires HEADER_LEN <= |b| && HEADER_LEN <= o < End(b)
    ensures n < 0x1_0000 && o + n <= |b|
  {
    var rest := End(b) - o;
    if t == TCP then if |b| < o + 20 then 0 else rest
    else if t == UDP then
      if |b| < o + 8 then 0 else
      var n := if U16At(b, o + 4) == 0 then rest else U16At(b, o + 4);
      if n < 8 || o + n > |b| then 0 else n
    else if |b| < o + 4 || rest < 4 then 0
    else rest
  }

  function Field6(t: nat, o: nat): nat {
    o + (if t == TCP then 16 else if t == UDP then 6 else 2)
  }

  /** The packet with the checksum of its transport header `t` at `o` brought up to date. */
  function Transport6(b: bytes, t: byte, o: nat): (r: bytes)
    requires HEADER_LEN <= |b| && HEADER_LEN <= o < End(b)
    ensures OnlyField(b, r, Field6(t, o))
  {
    var n, k := Segment6(b, t, o), Field6(t, o);
    if n == 0 then b else Finished(Zeroed(b, k), k, o, n, WordSum(Pseudo6(b, t, n)), t == UDP)
  }

  ghost predicate HasTransport(b: bytes) {
    exists t: byte, o: nat :: IsTransport(b, t, o)
  }

  /** The packet after the update: without a transport header, as it was. */
  ghost function Updated6(b: bytes): (r: bytes)
    ensures |r| == |b|
  {
    if !HasTransport(b) then b else
    var t: byte, o: nat :| IsTransport(b, t, o);
    TransportBehindHeader(b, t, o);
    Transport6(b, t, o)
  }

  lemma UpdatedTo6(b: bytes, t: byte, o: nat)
    requires IsTransport(b, t, o)
    ensures HEADER_LEN <= o < End(b) && Updated6(b) == Transport6(b, t, o)
  {
    hide Transport6;
    TransportBehindHeader(b, t, o);
    forall t': byte, o': nat | IsTransport(b, t', o')
      ensures t' == t && o' == o
    {
      TransportUnique(b, t, o, t', o');
    }
  }

  /** Pseudo-header and the `n` bytes from `o` on sum to all ones. */
  ghost predicate Sums6(b: bytes, t: byte, o: nat, n: nat)
    requires HEADER_LEN <= |b| && o + n <= |b| && n < 0x1_0000
  {
    OnesSum(Pseudo6(b, t, n) + b[o..o + n]) == ONES
  }

  /** A TCP segment is the rest of the payload. */
  ghost predicate TcpSound6(b: bytes, o: nat)
    requires HEADER_LEN <= |b| && HEADER_LEN <= o < End(b)
  {
    o + 20 <= |b| && o + 18 <= End(b) ==> Sums6(b, TCP, o, End(b) - o) && U16At(b, o + 16) != ONES
  }

  /** A UDP datagram has the length it announces, or is the rest of the payload if that is zero. */
  ghost predicate UdpSound6(b: bytes, o: nat)
    requires HEADER_LEN <= |b| && HEADER_LEN <= o < End(b)
  {
    o + 8 <= |b| ==>
      var announced := U16At(b, o + 4);
      && (8 <= announced && o + announced <= |b| ==> Sums6(b, UDP, o, announced) && U16At(b, o + 6) != 0)
      && (announced == 0 && o + 8 <= End(b) ==> Sums6(b, UDP, o, End(b) - o) && U16At(b, o + 6) != 0)
  }

  ghost predicate IcmpSound6(b: bytes, o: nat)
    requires HEADER_LEN <= |b| && HEADER_LEN <= o < End(b)
  {
    o + 4 <= End(b) ==> Sums6(b, ICMP_V6, o, End(b) - o) && U16At(b, o + 2) != ONES
  }

  /** The checksum of the transport header `t` at `o` holds. */
  ghost predicate Sound6(b: bytes, t: byte, o: nat)
    requires HEADER_LEN <= |b| && HEADER_LEN <= o < End(b)
  {
    && (t == TCP ==> TcpSound6(b, o)) && (t == UDP ==> UdpSound6(b, o))
    && (t == ICMP_V6 ==> IcmpSound6(b, o))
  }

  lemma SumsSound6(b: bytes, t: byte, o: nat)
    requires HEADER_LEN <= |b| && HEADER_LEN <= o < End(b) && Transport(t)
    requires var n := Segment6(b, t, o);
             n > 0 && (t == TCP ==> 18 <= n) ==>
               && Sums6(b, t, o, n)
               && (if t == UDP then U16At(b, o + 6) != 0 else U16At(b, Field6(t, o)) != ONES)
    ensures Sound6(b, t, o)
  {
    hide Sums6;
  }

  lemma Pseudo6Same(b: bytes, b': bytes, k: nat, t: byte, n: nat)
    requires HEADER_LEN <= |b| && HEADER_LEN <= k && OnlyField(b, b', k) && n < 0x1_0000
    ensures Pseudo6(b', t, n) == Pseudo6(b, t, n)
  {
    assert b'[8..24] == b[8..24] && b'[24..40] == b[24..40];
  }

  lemma Segment6Same(b: bytes, b': bytes, t: byte, o: nat)
    requires HEADER_LEN <= |b| && HEADER_LEN <= o < End(b) && Transport(t) && OnlyField(b, b', Field6(t, o))
    ensures End(b') == End(b) && Segment6(b', t, o) == Segment6(b, t, o)
  {
  }

  /** After the update the checksum holds. */
  lemma TransportSound6(b: bytes, t: byte, o: nat)
    requires HEADER_LEN <= |b| && HEADER_LEN <= o < End(b) && Transport(t)
    ensures End(Transport6(b, t, o)) == End(b) && Sound6(Transport6(b, t, o), t, o)
  {
    hide OnesSum, WordSum, Finished, Segment6, Sound6;
    var n, k, r := Segment6(b, t, o), Field6(t, o), Transport6(b, t, o);
    Segment6Same(b, r, t, o);
    if n > 0 && (t == TCP ==> 18 <= n) {
      Segment6Covers(b, t, o);
      Pseudo6Same(b, r, k, t, n);
      Pseudo6Bound(b, t, n);
      SegmentSums(b, k, o, n, Pseudo6(b, t, n), t == UDP);
      if t == UDP {
        NotZero(Zeroed(b, k), k, o, n, WordSum(Pseudo6(b, t, n)));
      } else {
        WordSumAtLeast(Pseudo6(b, t, n), 39);
        FinishedNotOnes(Zeroed(b, k), k, o, n, WordSum(Pseudo6(b, t, n)));
      }
    }
    SumsSound6(r, t, o);
  }

  lemma NotZero(b: bytes, k: nat, start: nat, n: nat, base: nat)
    requires start + n <= |b| && k + 2 <= |b|
    ensures U16At(Finished(b, k, start, n, base, true), k) != 0
  {
  }

  lemma Segment6Covers(b: bytes, t: byte, o: nat)
    requires HEADER_LEN <= |b| && HEADER_LEN <= o < End(b) && Transport(t)
    requires Segment6(b, t, o) > 0 && (t == TCP ==> 18 <= Segment6(b, t, o))
    ensures Covered(Field6(t, o), o, Segment6(b, t, o))
  {
  }

  /** The transport header is not there in full, or its UDP length does not fit. */
  predicate Short6(b: bytes, t: byte, o: nat)
    requires HEADER_LEN <= |b|
  {
    || (t == TCP && |b| < o + 20) || (t == ICMP_V6 && End(b) < o + 4)
    || (t == UDP && (|| |b| < o + 8 || 0 < U16At(b, o + 4) < 8 || |b| < o + U16At(b, o + 4)
                     || (U16At(b, o + 4) == 0 && End(b) < o + 8)))
  }

  /** Only the checksum field of the transport header at `o` differs, and none if that is short; and
      the checksum holds. */
  ghost predicate BroughtUp6(b: bytes, r: bytes, t: byte, o: nat) {
    && HEADER_LEN <= |b| == |r| && HEADER_LEN <= o < End(b) == End(r)
    && (Short6(b, t, o) ==> r == b)
    && (t == TCP ==> OnlyField(b, r, o + 16)) && (t == UDP ==> OnlyField(b, r, o + 6))
    && (t == ICMP_V6 ==> OnlyField(b, r, o + 2)) && Sound6(r, t, o)
  }

  lemma UpdateBringsUp6(b: bytes, t: byte, o: nat)
    requires IsTransport(b, t, o)
    ensures BroughtUp6(b, Updated6(b), t, o)
  {
    hide Sound6, Finished, Updated6;
    UpdatedTo6(b, t, o);
    TransportSound6(b, t, o);
  }

  /** The checksum of whatever transport header there is has been brought up to date. */
  ghost predicate AllBroughtUp6(b: bytes, r: bytes) {
    && (forall t: byte, o: nat :: IsTransport(b, t, o) ==> BroughtUp6(b, r, t, o))
    && ((forall t: byte, o: nat :: !IsTransport(b, t, o)) ==> r == b)
  }

  lemma UpdateBringsAllUp6(b: bytes)
    ensures AllBroughtUp6(b, Updated6(b))
  {
    hide IsTransport, BroughtUp6;
    forall t: byte, o: nat | IsTransport(b, t, o)
      ensures BroughtUp6(b, Updated6(b), t, o)
    {
      UpdateBringsUp6(b, t, o);
    }
  }

  method UpdateSegment6(p: array<byte>, t: byte, o: nat, n: nat)
    requires HEADER_LEN <= p.Length && HEADER_LEN <= o < End(p[..]) && Transport(t)
    requires 0 < n == Segment6(p[..], t, o)
    modifies p
    ensures p[..] == Transport6(old(p[..]), t, o)
  {
    hide WordSum;
    var k := Field6(t, o);
    Zero(p, k);
    Pseudo6Same(old(p[..]), p[..], k, t, n);
    var sum := PseudoHeaderSum6(p, t, n);
    SetChecksum(p, k, o, n, sum, true, t == UDP);
  }

  lemma LeftAlone6(b: bytes)
    requires forall t, o :: !IsTransport(b, t, o)
    ensures Updated6(b) == b
  {
    hide IsTransport;
  }

  /** Finds the transport header and brings its checksum up to date. */
  method UpdateChecksum6(p: array<byte>)
    modifies p
    ensures p[..] == Updated6(old(p[..])) && AllBroughtUp6(old(p[..]), p[..])
  {
    hide IsTransport, WordSum, Finished, Updated6, AllBroughtUp6;
    UpdateBringsAllUp6(p[..]);
    var protocol, offset, length, ok := TransportHeader(p[..]);
    if !ok {
      LeftAlone6(p[..]);
      return;
    }
    ghost var b := p[..];
    assert IsTransport(b, protocol, offset);
    UpdatedTo6(b, protocol, offset);
    var n := length;
    if protocol == TCP {
      if p.Length < offset + 20 {
        return;
      }
    } else if protocol == UDP {
      if p.Length < offset + 8 {
        return;
      }
      if U16At(p[..], offset + 4) != 0 {
        n := U16At(p[..], offset + 4);
      }
      if n < 8 || offset + n > p.Length {
        return;
      }
    } else if p.Length < offset + 4 || n < 4 {
      return;
    }
    UpdateSegment6(p, protocol, offset, n);
  }
}
