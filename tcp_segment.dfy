/** The TCP segment codec: a fixed 148-byte buffer holding a 20-byte header
    and up to 128 data bytes, with big-endian fields at fixed offsets
    (the header layout of section 3.1 of RFC 793, without the urgent
    pointer). */
module Segments {
  import opened Bytes

  const TCP_MAX_DATA_LENGTH: nat := 128
  const TCP_HEADER_LENGTH: nat := 20
  /** Size of the backing buffer: header plus the largest payload. */
  const CAPACITY: nat := TCP_HEADER_LENGTH + TCP_MAX_DATA_LENGTH

  const ACK_FLAG: uint8 := 16
  const PUSH_FLAG: uint8 := 8
  const SYN_FLAG: uint8 := 2
  const FIN_FLAG: uint8 := 1

  const FROM_PORT_IX: nat := 0
  const TO_PORT_IX: nat := 2
  const SEQ_IX: nat := 4
  const ACK_IX: nat := 8
  const FLAGS_IX: nat := 13
  const WINDOW_IX: nat := 14
  const CHECKSUM_IX: nat := 16
  const DATA_IX: nat := 20

  /** Every header field the getters can read.  Byte 12 (data offset) and
      bytes 18-19 (urgent pointer) have no getter and no setter. */
  datatype Header = Header(
    fromPort: uint16,
    toPort: uint16,
    seqNumber: uint32,
    ackNumber: uint32,
    flags: uint8,
    window: uint16,
    checksum: uint16)

  /** What the getters return for a buffer. */
  function HeaderOf(s: seq<uint8>): Header
    requires |s| >= TCP_HEADER_LENGTH
  {
    Header(
      GetShort(s, FROM_PORT_IX),
      GetShort(s, TO_PORT_IX),
      GetInt(s, SEQ_IX),
      GetInt(s, ACK_IX),
      s[FLAGS_IX],
      GetShort(s, WINDOW_IX),
      GetShort(s, CHECKSUM_IX))
  }

  /** What the seven setters, applied in turn, leave in a buffer. */
  function EncodeHeader(s: seq<uint8>, h: Header): seq<uint8>
    requires |s| >= TCP_HEADER_LENGTH
  {
    var s1 := PutShort(s, FROM_PORT_IX, h.fromPort);
    var s2 := PutShort(s1, TO_PORT_IX, h.toPort);
    var s3 := PutInt(s2, SEQ_IX, h.seqNumber);
    var s4 := PutInt(s3, ACK_IX, h.ackNumber);
    var s5 := PutByte(s4, FLAGS_IX, h.flags);
    var s6 := PutShort(s5, WINDOW_IX, h.window);
    PutShort(s6, CHECKSUM_IX, h.checksum)
  }

  /** The getters depend on the first 20 bytes only. */
  lemma HeaderOfPrefix(s: seq<uint8>, t: seq<uint8>)
    requires |s| >= TCP_HEADER_LENGTH && |t| >= TCP_HEADER_LENGTH
    requires s[..TCP_HEADER_LENGTH] == t[..TCP_HEADER_LENGTH]
    ensures HeaderOf(s) == HeaderOf(t)
  {
    forall k | 0 <= k < TCP_HEADER_LENGTH ensures s[k] == t[k] {
      assert s[k] == s[..TCP_HEADER_LENGTH][k];
    }
    GetIntFrame(s, t, SEQ_IX);
    GetIntFrame(s, t, ACK_IX);
  }

  /** Decoding an encoded header gives back every field, and encoding
      leaves byte 12, bytes 18-19 and the data area as they were. */
  lemma {:induction false} DecodeEncode(s: seq<uint8>, h: Header)
    requires |s| >= TCP_HEADER_LENGTH
    ensures |EncodeHeader(s, h)| == |s|
    ensures HeaderOf(EncodeHeader(s, h)) == h
    ensures EncodeHeader(s, h)[12] == s[12]
    ensures EncodeHeader(s, h)[18..] == s[18..]
  {
    var s1 := PutShort(s, FROM_PORT_IX, h.fromPort);
    var s2 := PutShort(s1, TO_PORT_IX, h.toPort);
    var s3 := PutInt(s2, SEQ_IX, h.seqNumber);
    var s4 := PutInt(s3, ACK_IX, h.ackNumber);
    var s5 := PutByte(s4, FLAGS_IX, h.flags);
    var s6 := PutShort(s5, WINDOW_IX, h.window);
    var r := PutShort(s6, CHECKSUM_IX, h.checksum);
    GetPutInt(s2, SEQ_IX, h.seqNumber);
    GetPutInt(s3, ACK_IX, h.ackNumber);
    GetIntFrame(s3, r, SEQ_IX);
    GetIntFrame(s4, r, ACK_IX);
    GetShortFrame(s1, r, FROM_PORT_IX);
    GetShortFrame(s2, r, TO_PORT_IX);
    GetShortFrame(s6, r, WINDOW_IX);
    assert r[18..] == s[18..];
  }

  /** Flags byte as Java reads it into an `int`: sign-extended. */
  function SignExtend(b: uint8): bv32
  {
    if b < 0x80 then b as bv32 else (b as bv32) | 0xFFFF_FF00
  }

  /** hasFlags(allOfMask, noneOfMask) on the flags byte. */
  predicate HasFlags(flags: uint8, allOfMask: bv32, noneOfMask: bv32)
  {
    MaskTest(SignExtend(flags), allOfMask, noneOfMask)
  }

  /** `(flags & allOfMask) == allOfMask && (flags | ~noneOfMask) == ~noneOfMask` */
  predicate MaskTest(f: bv32, allOfMask: bv32, noneOfMask: bv32)
  {
    f & allOfMask == allOfMask && f | !noneOfMask == !noneOfMask
  }

  /** `f | ~n == ~n` is Java's way of saying that no bit of `n` is set in `f`. */
  lemma NoneOfMask(f: bv32, n: bv32)
    ensures (f | !n == !n) <==> (f & n == 0)
  {
    NoneOfMaskOnly(f, n);
    NoneOfMaskIf(f, n);
  }

  lemma NoneOfMaskOnly(f: bv32, n: bv32)
    ensures (f | !n == !n) ==> (f & n == 0)
  {
  }

  lemma NoneOfMaskIf(f: bv32, n: bv32)
    ensures (f & n == 0) ==> (f | !n == !n)
  {
  }

  /** Sign extension only touches bits 8-31, which a one-byte mask ignores. */
  lemma SignExtendLowByte(flags: uint8, m: bv32)
    requires m < 0x100
    ensures SignExtend(flags) & m == (flags as bv32) & m
  {
    if flags >= 0x80 {
      HighOnesMasked(flags as bv32, m);
    }
  }

  lemma HighOnesMasked(x: bv32, m: bv32)
    requires m < 0x100
    ensures (x | 0xFFFF_FF00) & m == x & m
  {
  }

  /** hasFlags holds exactly when every bit of the first mask and no bit of
      the second is set in the (sign-extended) flags. */
  lemma HasFlagsMeaning(flags: uint8, allOfMask: bv32, noneOfMask: bv32)
    ensures HasFlags(flags, allOfMask, noneOfMask) <==>
      (SignExtend(flags) & allOfMask == allOfMask && SignExtend(flags) & noneOfMask == 0)
  {
    MaskTestMeaning(SignExtend(flags), allOfMask, noneOfMask);
  }

  lemma MaskTestMeaning(f: bv32, allOfMask: bv32, noneOfMask: bv32)
    ensures MaskTest(f, allOfMask, noneOfMask) <==> (f & allOfMask == allOfMask && f & noneOfMask == 0)
  {
    NoneOfMask(f, noneOfMask);
  }

  /** For masks within one byte, hasFlags is a statement about the flags
      byte itself. */
  lemma HasFlagsOnByte(flags: uint8, allOfMask: bv32, noneOfMask: bv32)
    requires allOfMask < 0x100 && noneOfMask < 0x100
    ensures HasFlags(flags, allOfMask, noneOfMask) <==>
      ((flags as bv32) & allOfMask == allOfMask && (flags as bv32) & noneOfMask == 0)
  {
    HasFlagsMeaning(flags, allOfMask, noneOfMask);
    SignExtendLowByte(flags, allOfMask);
    SignExtendLowByte(flags, noneOfMask);
  }

  /** The single-flag tests (`(flags & X_FLAG) != 0`). */
  predicate HasFlag(flags: uint8, flag: uint8)
  {
    (flags as bv8) & (flag as bv8) != 0
  }

  /** The single-flag tests are hasFlags with one bit required. */
  lemma HasFlagIsHasFlags(flags: uint8)
    ensures HasFlag(flags, SYN_FLAG) <==> HasFlags(flags, SYN_FLAG as bv32, 0)
    ensures HasFlag(flags, ACK_FLAG) <==> HasFlags(flags, ACK_FLAG as bv32, 0)
    ensures HasFlag(flags, FIN_FLAG) <==> HasFlags(flags, FIN_FLAG as bv32, 0)
    ensures HasFlag(flags, PUSH_FLAG) <==> HasFlags(flags, PUSH_FLAG as bv32, 0)
  {
  }

  /** The flag bits are those of section 3.1 of RFC 793 and are distinct. */
  lemma FlagBits()
    ensures HasFlag(SYN_FLAG + ACK_FLAG, SYN_FLAG) && HasFlag(SYN_FLAG + ACK_FLAG, ACK_FLAG)
    ensures !HasFlag(SYN_FLAG + ACK_FLAG, FIN_FLAG) && !HasFlag(SYN_FLAG + ACK_FLAG, PUSH_FLAG)
    ensures !HasFlag(ACK_FLAG, SYN_FLAG) && HasFlag(ACK_FLAG, ACK_FLAG)
    ensures HasFlag(SYN_FLAG, SYN_FLAG) && !HasFlag(SYN_FLAG, ACK_FLAG)
  {
  }

  /** The buffer after a packet of `len` bytes was copied over it by
      fromByteArray: the packet's bytes, then the stale rest. */
  function Overlay(stale: seq<uint8>, data: seq<uint8>, len: nat): (r: seq<uint8>)
    requires len <= |data| && len <= |stale|
    ensures |r| == |stale|
  {
    data[..len] + stale[len..]
  }

  /** A packet that covers the whole header decodes to the header of the
      packet, whatever stale bytes the buffer held. */
  lemma DecodeAgreesOnHeader(stale: seq<uint8>, data: seq<uint8>, len: nat)
    requires TCP_HEADER_LENGTH <= len <= |data| && len <= |stale|
    ensures HeaderOf(Overlay(stale, data, len)) == HeaderOf(data)
  {
    var r := Overlay(stale, data, len);
    assert r[..TCP_HEADER_LENGTH] == data[..TCP_HEADER_LENGTH];
    HeaderOfPrefix(r, data);
  }

  class TcpSegment {
    /** The ByteBuffer's backing array; it is never replaced. */
    const buffer: array<uint8>
    var length: int
    var dataLength: int

    ghost predicate Valid()
    {
      buffer.Length == CAPACITY
    }

    function Fields(): Header
      reads buffer
      requires Valid()
    {
      HeaderOf(buffer[..])
    }

    /** A fresh segment: an all-zero buffer, header length, no data. */
    constructor ()
      ensures Valid() && fresh(buffer)
      ensures length == TCP_HEADER_LENGTH && dataLength == 0
      ensures buffer[..] == Zeros(CAPACITY)
      ensures Fields() == Header(0, 0, 0, 0, 0, 0, 0)
    {
      buffer := new uint8[CAPACITY](_ => 0);
      length := TCP_HEADER_LENGTH;
      dataLength := 0;
    }

    /** fromByteArray: copies the first `len` bytes of `data` unless `data`
        is this segment's own array, and records the lengths. */
    method FromByteArray(data: array<uint8>, len: int)
      requires Valid()
      requires data != buffer ==> 0 <= len <= data.Length && len <= CAPACITY
      modifies this, buffer
      ensures length == len && dataLength == len - TCP_HEADER_LENGTH
      ensures data == buffer ==> buffer[..] == old(buffer[..])
      ensures data != buffer ==> buffer[..] == Overlay(old(buffer[..]), old(data[..]), len)
    {
      if data != buffer {
        forall k | 0 <= k < len {
          buffer[k] := data[k];
        }
        assert buffer[..] == Overlay(old(buffer[..]), old(data[..]), len);
      }
      length := len;
      dataLength := len - TCP_HEADER_LENGTH;
    }

    /** toByteArray: the whole backing array, shared, whatever `length` is. */
    method ToByteArray() returns (a: array<uint8>)
      requires Valid()
      ensures a == buffer && a.Length == CAPACITY
    {
      a := buffer;
    }

    /** Each getter reads one big-endian field; its ensures says the value
        is the one whose write would leave the buffer as it is, which with
        the setters' contracts makes the getter the setter's inverse. */
    function GetFromPort(): (r: uint16)
      reads buffer
      requires Valid()
      ensures PutShort(buffer[..], FROM_PORT_IX, r) == buffer[..]
    {
      PutGetShort(buffer[..], FROM_PORT_IX);
      GetShort(buffer[..], FROM_PORT_IX)
    }

    function GetToPort(): (r: uint16)
      reads buffer
      requires Valid()
      ensures PutShort(buffer[..], TO_PORT_IX, r) == buffer[..]
    {
      PutGetShort(buffer[..], TO_PORT_IX);
      GetShort(buffer[..], TO_PORT_IX)
    }

    function GetSeq(): (r: uint32)
      reads buffer
      requires Valid()
      ensures PutInt(buffer[..], SEQ_IX, r) == buffer[..]
    {
      PutGetInt(buffer[..], SEQ_IX);
      GetInt(buffer[..], SEQ_IX)
    }

    function GetAck(): (r: uint32)
      reads buffer
      requires Valid()
      ensures PutInt(buffer[..], ACK_IX, r) == buffer[..]
    {
      PutGetInt(buffer[..], ACK_IX);
      GetInt(buffer[..], ACK_IX)
    }

    function GetWindow(): (r: uint16)
      reads buffer
      requires Valid()
      ensures PutShort(buffer[..], WINDOW_IX, r) == buffer[..]
    {
      PutGetShort(buffer[..], WINDOW_IX);
      GetShort(buffer[..], WINDOW_IX)
    }

    function GetChecksum(): (r: uint16)
      reads buffer
      requires Valid()
      ensures PutShort(buffer[..], CHECKSUM_IX, r) == buffer[..]
    {
      PutGetShort(buffer[..], CHECKSUM_IX);
      GetShort(buffer[..], CHECKSUM_IX)
    }

    function Flags(): (r: uint8)
      reads buffer
      requires Valid()
      ensures PutByte(buffer[..], FLAGS_IX, r) == buffer[..]
    {
      buffer[FLAGS_IX]
    }

    /** getData: copies `dataLength` bytes from offset 20 into `dst`. */
    method GetData(dst: array<uint8>, dstOffset: int)
      requires Valid()
      requires 0 <= dataLength && DATA_IX + dataLength <= CAPACITY
      requires 0 <= dstOffset && dstOffset + dataLength <= dst.Length
      modifies dst
      ensures dst[..] == old(dst[..dstOffset]) + old(buffer[DATA_IX..DATA_IX + dataLength])
                         + old(dst[dstOffset + dataLength..])
    {
      forall k | 0 <= k < dataLength {
        dst[dstOffset + k] := buffer[DATA_IX + k];
      }
      assert dst[..] == old(dst[..dstOffset]) + old(buffer[DATA_IX..DATA_IX + dataLength])
                        + old(dst[dstOffset + dataLength..]);
    }

    /** setData: copies `n` bytes of `src` to offset 20 and sets the
        lengths; the header and the bytes past the new data stay. */
    method SetData(src: array<uint8>, srcOffset: int, n: int)
      requires Valid()
      requires 0 <= srcOffset && 0 <= n && srcOffset + n <= src.Length
      requires n <= TCP_MAX_DATA_LENGTH
      modifies this, buffer
      ensures length == n + TCP_HEADER_LENGTH && dataLength == n
      ensures buffer[..] == old(buffer[..DATA_IX]) + old(src[srcOffset..srcOffset + n])
                            + old(buffer[DATA_IX + n..])
      ensures Fields() == old(Fields())
    {
      forall k | 0 <= k < n {
        buffer[DATA_IX + k] := src[srcOffset + k];
      }
      length := n + TCP_HEADER_LENGTH;
      dataLength := n;
      assert buffer[..] == old(buffer[..DATA_IX]) + old(src[srcOffset..srcOffset + n])
                           + old(buffer[DATA_IX + n..]);
      HeaderOfPrefix(buffer[..], old(buffer[..]));
    }

    method SetFromPort(from: uint16)
      requires Valid()
      modifies buffer
      ensures buffer[..] == PutShort(old(buffer[..]), FROM_PORT_IX, from)
      ensures Fields() == old(Fields()).(fromPort := from)
    {
      buffer[FROM_PORT_IX], buffer[FROM_PORT_IX + 1] := from / 0x100, from % 0x100;
      assert buffer[..] == PutShort(old(buffer[..]), FROM_PORT_IX, from);
      GetIntFrame(buffer[..], old(buffer[..]), SEQ_IX);
      GetIntFrame(buffer[..], old(buffer[..]), ACK_IX);
    }

    method SetToPort(to: uint16)
      requires Valid()
      modifies buffer
      ensures buffer[..] == PutShort(old(buffer[..]), TO_PORT_IX, to)
      ensures Fields() == old(Fields()).(toPort := to)
    {
      buffer[TO_PORT_IX], buffer[TO_PORT_IX + 1] := to / 0x100, to % 0x100;
      assert buffer[..] == PutShort(old(buffer[..]), TO_PORT_IX, to);
      GetIntFrame(buffer[..], old(buffer[..]), SEQ_IX);
      GetIntFrame(buffer[..], old(buffer[..]), ACK_IX);
    }

    method SetSeq(sequence: uint32)
      requires Valid()
      modifies buffer
      ensures buffer[..] == PutInt(old(buffer[..]), SEQ_IX, sequence)
      ensures Fields() == old(Fields()).(seqNumber := sequence)
    {
      var hi, lo := sequence / 0x1_0000, sequence % 0x1_0000;
      buffer[SEQ_IX], buffer[SEQ_IX + 1], buffer[SEQ_IX + 2], buffer[SEQ_IX + 3] :=
        hi / 0x100, hi % 0x100, lo / 0x100, lo % 0x100;
      assert buffer[..] == PutInt(old(buffer[..]), SEQ_IX, sequence);
      GetPutInt(old(buffer[..]), SEQ_IX, sequence);
      GetIntFrame(buffer[..], old(buffer[..]), ACK_IX);
    }

    method SetAck(ack: uint32)
      requires Valid()
      modifies buffer
      ensures buffer[..] == PutInt(old(buffer[..]), ACK_IX, ack)
      ensures Fields() == old(Fields()).(ackNumber := ack)
    {
      var hi, lo := ack / 0x1_0000, ack % 0x1_0000;
      buffer[ACK_IX], buffer[ACK_IX + 1], buffer[ACK_IX + 2], buffer[ACK_IX + 3] :=
        hi / 0x100, hi % 0x100, lo / 0x100, lo % 0x100;
      assert buffer[..] == PutInt(old(buffer[..]), ACK_IX, ack);
      GetPutInt(old(buffer[..]), ACK_IX, ack);
      GetIntFrame(buffer[..], old(buffer[..]), SEQ_IX);
    }

    method SetFlags(flags: uint8)
      requires Valid()
      modifies buffer
      ensures buffer[..] == PutByte(old(buffer[..]), FLAGS_IX, flags)
      ensures Fields() == old(Fields()).(flags := flags)
    {
      buffer[FLAGS_IX] := flags;
      assert buffer[..] == PutByte(old(buffer[..]), FLAGS_IX, flags);
      GetIntFrame(buffer[..], old(buffer[..]), SEQ_IX);
      GetIntFrame(buffer[..], old(buffer[..]), ACK_IX);
    }

    method SetWindowSize(size: uint16)
      requires Valid()
      modifies buffer
      ensures buffer[..] == PutShort(old(buffer[..]), WINDOW_IX, size)
      ensures Fields() == old(Fields()).(window := size)
    {
      buffer[WINDOW_IX], buffer[WINDOW_IX + 1] := size / 0x100, size % 0x100;
      assert buffer[..] == PutShort(old(buffer[..]), WINDOW_IX, size);
      GetIntFrame(buffer[..], old(buffer[..]), SEQ_IX);
      GetIntFrame(buffer[..], old(buffer[..]), ACK_IX);
    }

    method SetChecksum(checksum: uint16)
      requires Valid()
      modifies buffer
      ensures buffer[..] == PutShort(old(buffer[..]), CHECKSUM_IX, checksum)
      ensures Fields() == old(Fields()).(checksum := checksum)
    {
      buffer[CHECKSUM_IX], buffer[CHECKSUM_IX + 1] := checksum / 0x100, checksum % 0x100;
      assert buffer[..] == PutShort(old(buffer[..]), CHECKSUM_IX, checksum);
      GetIntFrame(buffer[..], old(buffer[..]), SEQ_IX);
      GetIntFrame(buffer[..], old(buffer[..]), ACK_IX);
    }
  }

  /** setData followed by getData on the same segment hands back exactly
      the bytes that were stored, and leaves the rest of `dst` alone. */
  method SetThenGetData(segment: TcpSegment, src: array<uint8>, srcOffset: int, n: int,
                        dst: array<uint8>, dstOffset: int)
    requires segment.Valid() && dst != segment.buffer
    requires 0 <= srcOffset && 0 <= n && srcOffset + n <= src.Length
    requires n <= TCP_MAX_DATA_LENGTH
    requires 0 <= dstOffset && dstOffset + n <= dst.Length
    modifies segment, segment.buffer, dst
    ensures dst[dstOffset..dstOffset + n] == old(src[srcOffset..srcOffset + n])
    ensures dst[..dstOffset] == old(dst[..dstOffset])
    ensures dst[dstOffset + n..] == old(dst[dstOffset + n..])
  {
    ghost var before := dst[..];
    segment.SetData(src, srcOffset, n);
    assert segment.buffer[DATA_IX..DATA_IX + n] == old(src[srcOffset..srcOffset + n]);
    ghost var mid := dst[..];
    assert src == dst ==> mid == before;
    segment.GetData(dst, dstOffset);
    assert dst[..] == mid[..dstOffset] + old(src[srcOffset..srcOffset + n]) + mid[dstOffset + n..];
  }
}
