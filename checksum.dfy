/** The checksum that Socket.checksumFor computes over a pseudo-header and
    a segment, next to the iterated-fold variant the checksum tests use as
    their reference, and the validity test Socket.isValid applies to every
    received segment.  The one's-complement sum is that of section 1 of
    RFC 1071; the pseudo-header that of section 3.1 of RFC 793. */
module Checksum {
  import opened Bytes
  import opened Segments

  /** `((x >>> 16) + x) & 0xffff`: the two 16-bit halves of a 32-bit value
      added, with the carry out of bit 15 dropped. */
  function PseudoTerm(x: uint32): uint16
  {
    (x / 0x1_0000 + x) % 0x1_0000
  }

  /** The sum of the first `n` big-endian 16-bit words of `s`. */
  function WordSum(s: seq<uint8>, n: nat): nat
    requires 2 * n <= |s|
  {
    if n == 0 then 0 else WordSum(s, n - 1) + GetShort(s, 2 * (n - 1))
  }

  /** `(b & 0xffff) << 8` for the Java byte `b`: the byte is sign-extended
      before the mask, so a byte of 0x80 or more brings 0xff00 along. */
  function OddTerm(b: uint8): nat
  {
    (if b < 0x80 then b as int else b as int + 0xff00) * 0x100
  }

  /** The words of bytes [0, len), then an odd trailing byte. */
  function SegmentSum(s: seq<uint8>, len: nat): nat
    requires len <= |s|
  {
    WordSum(s, len / 2) + (if len % 2 != 0 then OddTerm(s[len - 1]) else 0)
  }

  /** The whole accumulated `sum` before any folding. */
  function RawSum(local: uint32, remote: uint32, protocol: uint16, s: seq<uint8>, len: nat): nat
    requires len <= |s| <= CAPACITY
  {
    PseudoTerm(local) + PseudoTerm(remote) + protocol + PseudoTerm(len) + SegmentSum(s, len)
  }

  /** `sum += (sum >>> 16)`: a single end-around carry. */
  function FoldOnce(sum: nat): nat
  {
    sum + sum / 0x1_0000
  }

  /** `while (sum > 65535) sum = (sum >>> 16) + (sum & 0xffff)`. */
  function FoldAll(sum: nat): nat
    decreases sum
  {
    if sum > 0xffff then FoldAll(sum / 0x1_0000 + sum % 0x1_0000) else sum
  }

  /** `~sum & 0xffff`. */
  function Complement(sum: nat): uint16
  {
    0xffff - sum % 0x1_0000
  }

  /** What Socket.checksumFor returns. */
  function ChecksumOf(local: uint32, remote: uint32, protocol: uint16, s: seq<uint8>, len: nat): uint16
    requires len <= |s| <= CAPACITY
  {
    Complement(FoldOnce(RawSum(local, remote, protocol, s, len)))
  }

  /** What the tests' reference computation returns: the same sum, folded
      until it fits in 16 bits. */
  function FoldedChecksumOf(local: uint32, remote: uint32, protocol: uint16, s: seq<uint8>, len: nat): uint16
    requires len <= |s| <= CAPACITY
  {
    Complement(FoldAll(RawSum(local, remote, protocol, s, len)))
  }

  /** Socket.isValid: the length test is inverted, so only segments
      shorter than a header can pass. */
  predicate IsValid(local: uint32, remote: uint32, protocol: uint16, s: seq<uint8>, len: nat)
    requires len <= |s| <= CAPACITY
  {
    len < TCP_HEADER_LENGTH && ChecksumOf(local, remote, protocol, s, len) == 0
  }

  /** The sum that one fold brings into 16 bits for good. */
  predicate NoSecondCarry(sum: nat)
  {
    sum % 0x1_0000 + sum / 0x1_0000 < 0x1_0000
  }

  // ---------------------------------------------------------------------
  // Arithmetic helpers

  lemma DivMod16(x: int, q: int, r: int)
    requires x == 0x1_0000 * q + r && 0 <= r < 0x1_0000
    ensures x / 0x1_0000 == q && x % 0x1_0000 == r
  {
  }

  lemma DivModFfff(x: int, q: int, r: int)
    requires x == 0xffff * q + r && 0 <= r < 0xffff
    ensures x / 0xffff == q && x % 0xffff == r
  {
  }

  lemma ModMultipleFfff(k: nat, y: nat)
    ensures (0xffff * k + y) % 0xffff == y % 0xffff
  {
    DivModFfff(y, y / 0xffff, y % 0xffff);
    DivModFfff(0xffff * k + y, k + y / 0xffff, y % 0xffff);
  }

  // ---------------------------------------------------------------------
  // The pseudo-header and odd-byte terms

  /** Each pseudo-header term is the sum of the two halves, less 0x10000
      when that sum carries: the carry is dropped rather than folded. */
  lemma PseudoTermDropsCarry(x: uint32)
    ensures x / 0x1_0000 + x % 0x1_0000 < 0x1_0000 ==> PseudoTerm(x) == x / 0x1_0000 + x % 0x1_0000
    ensures x / 0x1_0000 + x % 0x1_0000 >= 0x1_0000 ==> PseudoTerm(x) == x / 0x1_0000 + x % 0x1_0000 - 0x1_0000
  {
    var hi, lo := x / 0x1_0000, x % 0x1_0000;
    DivMod16(x, hi, lo);
    DivMod16(hi * 0x1_0000 + hi + lo, hi + (hi + lo) / 0x1_0000, (hi + lo) % 0x1_0000);
    if hi + lo >= 0x1_0000 {
      DivMod16(hi + lo, 1, hi + lo - 0x1_0000);
    }
  }

  /** The odd trailing byte lands in the high half of a word, as in
      RFC 1071, only when it is below 0x80. */
  lemma OddTermPadsHighByte(b: uint8)
    ensures OddTerm(b) == b * 0x100 <==> b < 0x80
  {
  }

  // ---------------------------------------------------------------------
  // Storing the checksum

  /** Overwriting one word changes the word sum by the difference, if the
      word is among the first `n`. */
  lemma {:induction false} WordSumPutShort(s: seq<uint8>, i: nat, v: uint16, n: nat)
    requires i % 2 == 0 && i + 2 <= |s| && 2 * n <= |s|
    ensures 2 * n <= i ==> WordSum(PutShort(s, i, v), n) == WordSum(s, n)
    ensures i < 2 * n ==> WordSum(PutShort(s, i, v), n) == WordSum(s, n) - GetShort(s, i) + v
  {
    if n > 0 {
      WordSumPutShort(s, i, v, n - 1);
      var t := PutShort(s, i, v);
      var j := 2 * (n - 1);
      if j != i {
        GetShortFrame(s, t, j);
      }
    }
  }

  /** With the checksum field zero, storing `c` there adds `c` to the
      segment sum of any segment that covers the field. */
  lemma SegmentSumWithChecksum(s: seq<uint8>, len: nat, c: uint16)
    requires CHECKSUM_IX + 2 <= len <= |s| <= CAPACITY
    requires GetShort(s, CHECKSUM_IX) == 0
    ensures SegmentSum(PutShort(s, CHECKSUM_IX, c), len) == SegmentSum(s, len) + c
  {
    WordSumPutShort(s, CHECKSUM_IX, c, len / 2);
  }

  /** The round trip the checksum tests assert, for checksumFor as written:
      if the raw sum needs no second carry, storing the checksum in a
      segment whose checksum field was zero makes the checksum of the
      result zero. */
  lemma RoundTripSingleFold(local: uint32, remote: uint32, protocol: uint16, s: seq<uint8>, len: nat)
    requires CHECKSUM_IX + 2 <= len <= |s| <= CAPACITY
    requires GetShort(s, CHECKSUM_IX) == 0
    requires NoSecondCarry(RawSum(local, remote, protocol, s, len))
    ensures ChecksumOf(local, remote, protocol,
                       PutShort(s, CHECKSUM_IX, ChecksumOf(local, remote, protocol, s, len)), len) == 0
  {
    var s0 := RawSum(local, remote, protocol, s, len);
    var c := ChecksumOf(local, remote, protocol, s, len);
    var t := PutShort(s, CHECKSUM_IX, c);
    SegmentSumWithChecksum(s, len, c);
    var s1 := RawSum(local, remote, protocol, t, len);
    assert s1 == s0 + c;
    var h, l := s0 / 0x1_0000, s0 % 0x1_0000;
    DivMod16(FoldOnce(s0), h, l + h) by {
      DivMod16(s0, h, l);
    }
    assert c == 0xffff - (l + h);
    DivMod16(s1, h, 0xffff - h);
    DivMod16(FoldOnce(s1), h, 0xffff);
  }

  /** Overwriting the checksum field replaces its word in the segment sum. */
  lemma SegmentSumReplaceChecksum(s: seq<uint8>, len: nat, c: uint16)
    requires CHECKSUM_IX + 2 <= len <= |s| <= CAPACITY
    ensures SegmentSum(PutShort(s, CHECKSUM_IX, c), len) == SegmentSum(s, len) - GetShort(s, CHECKSUM_IX) + c
  {
    WordSumPutShort(s, CHECKSUM_IX, c, len / 2);
  }

  /** sendSegment computes the checksum over the segment as it stands,
      checksum field included.  When that field still holds an earlier
      value `c` (a segment re-sent after a receive), the receiver's
      recomputation yields `c` rather than 0, given that neither sum needs
      a second carry. */
  lemma ResentChecksumEchoesStaleField(local: uint32, remote: uint32, protocol: uint16, s: seq<uint8>, len: nat)
    requires CHECKSUM_IX + 2 <= len <= |s| <= CAPACITY
    requires NoSecondCarry(RawSum(local, remote, protocol, s, len))
    requires RawSum(local, remote, protocol, s, len) / 0x1_0000 + GetShort(s, CHECKSUM_IX) <= 0xffff
    ensures ChecksumOf(local, remote, protocol,
                       PutShort(s, CHECKSUM_IX, ChecksumOf(local, remote, protocol, s, len)), len)
            == GetShort(s, CHECKSUM_IX)
  {
    var s0 := RawSum(local, remote, protocol, s, len);
    var c := GetShort(s, CHECKSUM_IX);
    var x := ChecksumOf(local, remote, protocol, s, len);
    SegmentSumReplaceChecksum(s, len, x);
    var s1 := RawSum(local, remote, protocol, PutShort(s, CHECKSUM_IX, x), len);
    assert s1 == s0 - c + x;
    var h, l := s0 / 0x1_0000, s0 % 0x1_0000;
    DivMod16(FoldOnce(s0), h, l + h) by {
      DivMod16(s0, h, l);
    }
    assert x == 0xffff - (l + h);
    DivMod16(s1, h, 0xffff - c - h);
    DivMod16(FoldOnce(s1), h, 0xffff - c);
  }

  // ---------------------------------------------------------------------
  // What the checksum reads

  /** The word sum reads only the bytes it sums. */
  lemma {:induction false} WordSumPrefix(s: seq<uint8>, t: seq<uint8>, n: nat)
    requires 2 * n <= |s| && 2 * n <= |t|
    requires forall k :: 0 <= k < 2 * n ==> s[k] == t[k]
    ensures WordSum(s, n) == WordSum(t, n)
  {
    if n > 0 {
      WordSumPrefix(s, t, n - 1);
      assert s[2 * (n - 1)] == t[2 * (n - 1)] && s[2 * (n - 1) + 1] == t[2 * (n - 1) + 1];
    }
  }

  /** checksumFor and isValid depend only on the first `len` bytes. */
  lemma ChecksumReadsPrefix(local: uint32, remote: uint32, protocol: uint16, s: seq<uint8>, t: seq<uint8>, len: nat)
    requires len <= |s| <= CAPACITY && len <= |t| <= CAPACITY
    requires s[..len] == t[..len]
    ensures ChecksumOf(local, remote, protocol, s, len) == ChecksumOf(local, remote, protocol, t, len)
    ensures IsValid(local, remote, protocol, s, len) == IsValid(local, remote, protocol, t, len)
  {
    forall k | 0 <= k < len ensures s[k] == t[k] {
      assert s[..len][k] == t[..len][k];
    }
    WordSumPrefix(s, t, len / 2);
  }

  /** A segment on which the single fold breaks the round trip: its raw sum
      is 0x1ffff, which needs a second carry. */
  function SecondCarrySegment(): (s: seq<uint8>)
    ensures |s| == CAPACITY
  {
    [0xff, 0xff, 0xff, 0xe6] + Zeros(CAPACITY - 4)
  }

  /** The round trip fails for checksumFor as written on that segment (with
      both addresses zero and protocol number 6), while the iterated fold
      of the tests still returns zero on it. */
  lemma SingleFoldRoundTripFails()
    ensures var s := SecondCarrySegment();
      && GetShort(s, CHECKSUM_IX) == 0
      && RawSum(0, 0, 6, s, TCP_HEADER_LENGTH) == 0x1ffff
      && !NoSecondCarry(RawSum(0, 0, 6, s, TCP_HEADER_LENGTH))
      && ChecksumOf(0, 0, 6, PutShort(s, CHECKSUM_IX, ChecksumOf(0, 0, 6, s, TCP_HEADER_LENGTH)),
                    TCP_HEADER_LENGTH) == 0xffff
      && FoldedChecksumOf(0, 0, 6, PutShort(s, CHECKSUM_IX, FoldedChecksumOf(0, 0, 6, s, TCP_HEADER_LENGTH)),
                          TCP_HEADER_LENGTH) == 0
  {
    SecondCarrySegmentSum();
    SecondCarryBreaksSingleFold(0, 0, 6, SecondCarrySegment(), TCP_HEADER_LENGTH);
  }

  /** Whenever the raw sum is 0x1ffff, checksumFor yields 0xffff both
      before and after storing it, while the iterated fold yields 0xfffe
      and then 0. */
  lemma SecondCarryBreaksSingleFold(local: uint32, remote: uint32, protocol: uint16, s: seq<uint8>, len: nat)
    requires CHECKSUM_IX + 2 <= len <= |s| <= CAPACITY
    requires GetShort(s, CHECKSUM_IX) == 0
    requires RawSum(local, remote, protocol, s, len) == 0x1ffff
    ensures ChecksumOf(local, remote, protocol, s, len) == 0xffff
    ensures ChecksumOf(local, remote, protocol, PutShort(s, CHECKSUM_IX, 0xffff), len) == 0xffff
    ensures FoldedChecksumOf(local, remote, protocol, s, len) == 0xfffe
    ensures FoldedChecksumOf(local, remote, protocol, PutShort(s, CHECKSUM_IX, 0xfffe), len) == 0
  {
    SegmentSumWithChecksum(s, len, 0xffff);
    SegmentSumWithChecksum(s, len, 0xfffe);
    assert FoldAll(0x1ffff) == 1 by {
      assert FoldAll(0x1_0000) == 1;
    }
    assert FoldAll(0x1ffff + 0xfffe) == 0xffff;
  }

  lemma SecondCarrySegmentSum()
    ensures GetShort(SecondCarrySegment(), CHECKSUM_IX) == 0
    ensures RawSum(0, 0, 6, SecondCarrySegment(), TCP_HEADER_LENGTH) == 0x1ffff
  {
    var s := SecondCarrySegment();
    assert s[0] == 0xff && s[1] == 0xff && s[2] == 0xff && s[3] == 0xe6;
    assert forall k :: 4 <= k < |s| ==> s[k] == 0;
    assert WordSum(s, 2) == 0xffff + 0xffe6 by {
      assert WordSum(s, 1) == 0xffff;
    }
    assert WordSum(s, 4) == WordSum(s, 2) by {
      assert WordSum(s, 3) == WordSum(s, 2);
    }
    assert WordSum(s, 6) == WordSum(s, 2) by {
      assert WordSum(s, 5) == WordSum(s, 4);
    }
    assert WordSum(s, 8) == WordSum(s, 2) by {
      assert WordSum(s, 7) == WordSum(s, 6);
    }
    assert WordSum(s, 10) == WordSum(s, 2) by {
      assert WordSum(s, 9) == WordSum(s, 8);
    }
    assert PseudoTerm(TCP_HEADER_LENGTH) == 20;
  }

  // ---------------------------------------------------------------------
  // The iterated fold

  /** Folding keeps the value modulo 0xffff and ends in [1, 0xffff] for a
      non-zero sum. */
  lemma {:induction false} FoldAllProperties(x: nat)
    ensures FoldAll(x) <= 0xffff
    ensures FoldAll(x) % 0xffff == x % 0xffff
    ensures x > 0 ==> FoldAll(x) > 0
    decreases x
  {
    if x > 0xffff {
      var q, r := x / 0x1_0000, x % 0x1_0000;
      DivMod16(x, q, r);
      assert x == 0xffff * q + (q + r);
      ModMultipleFfff(q, q + r);
      FoldAllProperties(q + r);
    }
  }

  /** With the iterated fold the round trip holds unconditionally: storing
      the checksum in a segment whose checksum field was zero makes the
      checksum of the result zero. */
  lemma RoundTripFolded(local: uint32, remote: uint32, protocol: uint16, s: seq<uint8>, len: nat)
    requires CHECKSUM_IX + 2 <= len <= |s| <= CAPACITY
    requires GetShort(s, CHECKSUM_IX) == 0
    ensures FoldedChecksumOf(local, remote, protocol,
                             PutShort(s, CHECKSUM_IX, FoldedChecksumOf(local, remote, protocol, s, len)), len) == 0
  {
    var s0 := RawSum(local, remote, protocol, s, len);
    var c := Complement(FoldAll(s0));
    var t := PutShort(s, CHECKSUM_IX, c);
    SegmentSumWithChecksum(s, len, c);
    assert RawSum(local, remote, protocol, t, len) == s0 + c;
    FoldedComplementCompletes(s0);
    assert Complement(0xffff) == 0;
  }

  /** Adding the complement of the folded sum makes the folded sum 0xffff. */
  lemma FoldedComplementCompletes(s0: nat)
    ensures FoldAll(s0 + Complement(FoldAll(s0))) == 0xffff
  {
    var f := FoldAll(s0);
    FoldAllProperties(s0);
    var c := Complement(f);
    DivMod16(f, 0, f);
    assert c == 0xffff - f;
    var s1 := s0 + c;
    FoldAllProperties(s1);
    // s1 == s0 - f + 0xffff, and s0 and f agree modulo 0xffff
    var a, b := s0 / 0xffff, f / 0xffff;
    DivModFfff(s0, a, s0 % 0xffff);
    DivModFfff(f, b, f % 0xffff);
    assert s1 == 0xffff * (a - b + 1);
    DivModFfff(s1, a - b + 1, 0);
    var g := FoldAll(s1);
    assert 0 < g <= 0xffff && g % 0xffff == 0;
  }

  // ---------------------------------------------------------------------
  // isValid

  /** isValid lets through only segments shorter than a header, so no
      segment that carries a whole header is ever accepted, whatever its
      checksum. */
  lemma IsValidRejectsFullSegments(local: uint32, remote: uint32, protocol: uint16, s: seq<uint8>, len: nat)
    requires len <= |s| <= CAPACITY
    ensures IsValid(local, remote, protocol, s, len) ==> len < TCP_HEADER_LENGTH
    ensures TCP_HEADER_LENGTH <= len ==> !IsValid(local, remote, protocol, s, len)
  {
  }

  /** A segment whose checksum round trip succeeds is still rejected by
      isValid when it carries its header. */
  lemma SentSegmentRejected(local: uint32, remote: uint32, protocol: uint16, s: seq<uint8>, len: nat)
    requires TCP_HEADER_LENGTH <= len <= |s| <= CAPACITY
    requires GetShort(s, CHECKSUM_IX) == 0
    requires NoSecondCarry(RawSum(local, remote, protocol, s, len))
    ensures var t := PutShort(s, CHECKSUM_IX, ChecksumOf(local, remote, protocol, s, len));
      ChecksumOf(local, remote, protocol, t, len) == 0 && !IsValid(local, remote, protocol, t, len)
  {
    RoundTripSingleFold(local, remote, protocol, s, len);
  }

  /** An empty packet carries no words, so isValid judges it on the
      pseudo-header alone: when the address and protocol terms sum to at
      most 0xffff, it passes exactly when they sum to 0xffff, whatever
      stale bytes the buffer holds. */
  lemma IsValidAcceptsEmptySegment(local: uint32, remote: uint32, protocol: uint16, s: seq<uint8>)
    requires |s| <= CAPACITY
    requires PseudoTerm(local) + PseudoTerm(remote) + protocol <= 0xffff
    ensures IsValid(local, remote, protocol, s, 0) <==> PseudoTerm(local) + PseudoTerm(remote) + protocol == 0xffff
  {
    var p := PseudoTerm(local) + PseudoTerm(remote) + protocol;
    assert RawSum(local, remote, protocol, s, 0) == p;
    DivMod16(p, 0, p);
    DivMod16(FoldOnce(p), 0, p);
  }

  /** One such pseudo-header: local address 0xfff9, remote 0, protocol 6. */
  lemma IsValidAcceptsEmptyExample()
    ensures IsValid(0xfff9, 0, 6, Zeros(CAPACITY), 0)
  {
    IsValidAcceptsEmptySegment(0xfff9, 0, 6, Zeros(CAPACITY));
  }
}
