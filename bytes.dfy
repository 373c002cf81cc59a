/** Fixed-width values and the big-endian accessors of java.nio.ByteBuffer,
    on which the segment codec and the growable buffer are built.  Java's
    signed `byte`, `short` and `int` are represented by their unsigned bit
    patterns.  Equality is the same on either view; where the sign does
    matter the models write Java's widening out: the flag test sign-extends
    the flags byte (`Segments.SignExtend`) and the checksum's odd last
    byte is widened as a signed value (`Checksum.OddTerm`). */
module Bytes {

  type uint8 = x: int | 0 <= x < 0x100
  type uint16 = x: int | 0 <= x < 0x1_0000
  type uint32 = x: int | 0 <= x < 0x1_0000_0000

  /** Java `int` addition on 32-bit patterns (wraps around). */
  function Add32(a: uint32, b: uint32): (r: uint32)
    ensures a + b < 0x1_0000_0000 ==> r == a + b
    ensures a + b >= 0x1_0000_0000 ==> r == a + b - 0x1_0000_0000
  {
    (a + b) % 0x1_0000_0000
  }

  /** Java's `(short) x` narrowing of an `int`: the low 16 bits. */
  function ToShort(x: int): (r: uint16)
    ensures 0 <= x < 0x1_0000 ==> r == x
  {
    x % 0x1_0000
  }

  /** ByteBuffer.getShort(i): two bytes, most significant first. */
  function GetShort(s: seq<uint8>, i: nat): uint16
    requires i + 2 <= |s|
  {
    (s[i] as int) * 0x100 + s[i + 1]
  }

  /** ByteBuffer.getInt(i): four bytes, most significant first. */
  function GetInt(s: seq<uint8>, i: nat): uint32
    requires i + 4 <= |s|
  {
    (s[i] as int) * 0x100_0000 + (s[i + 1] as int) * 0x1_0000
      + (s[i + 2] as int) * 0x100 + s[i + 3]
  }

  /** ByteBuffer.put(i, v). */
  function PutByte(s: seq<uint8>, i: nat, v: uint8): (r: seq<uint8>)
    requires i < |s|
    ensures |r| == |s| && r[i] == v
    ensures forall k :: 0 <= k < |s| && k != i ==> r[k] == s[k]
  {
    s[i := v]
  }

  /** ByteBuffer.putShort(i, v): writes bytes i and i+1 and nothing else;
      getShort at the same index reads v back. */
  function PutShort(s: seq<uint8>, i: nat, v: uint16): (r: seq<uint8>)
    requires i + 2 <= |s|
    ensures |r| == |s|
    ensures GetShort(r, i) == v
    ensures forall k :: 0 <= k < |s| && (k < i || i + 2 <= k) ==> r[k] == s[k]
  {
    s[i := v / 0x100][i + 1 := v % 0x100]
  }

  /** ByteBuffer.putInt(i, v): writes bytes i..i+3 and nothing else. */
  function PutInt(s: seq<uint8>, i: nat, v: uint32): (r: seq<uint8>)
    requires i + 4 <= |s|
    ensures |r| == |s|
    ensures forall k :: 0 <= k < |s| && (k < i || i + 4 <= k) ==> r[k] == s[k]
  {
    var hi, lo := v / 0x1_0000, v % 0x1_0000;
    s[i := hi / 0x100][i + 1 := hi % 0x100][i + 2 := lo / 0x100][i + 3 := lo % 0x100]
  }

  /** The four bytes putInt writes are read back by getInt. */
  lemma GetPutInt(s: seq<uint8>, i: nat, v: uint32)
    requires i + 4 <= |s|
    ensures GetInt(PutInt(s, i, v), i) == v
  {
    var r := PutInt(s, i, v);
    var hi, lo := v / 0x1_0000, v % 0x1_0000;
    assert r[i] == hi / 0x100 && r[i + 1] == hi % 0x100;
    assert r[i + 2] == lo / 0x100 && r[i + 3] == lo % 0x100;
    assert GetInt(r, i) == (hi / 0x100 * 0x100 + hi % 0x100) * 0x1_0000 + lo / 0x100 * 0x100 + lo % 0x100;
  }

  /** Writing back the short just read changes nothing: with the
      ensures of PutShort, getShort and putShort are
      inverse. */
  lemma PutGetShort(s: seq<uint8>, i: nat)
    requires i + 2 <= |s|
    ensures PutShort(s, i, GetShort(s, i)) == s
  {
    var v := GetShort(s, i);
    assert v / 0x100 == s[i] && v % 0x100 == s[i + 1];
  }

  /** Writing back the short a field held before a putShort undoes it. */
  lemma PutShortUndo(s: seq<uint8>, i: nat, v: uint16)
    requires i + 2 <= |s|
    ensures PutShort(PutShort(s, i, v), i, GetShort(s, i)) == s
  {
    var t := PutShort(PutShort(s, i, v), i, GetShort(s, i));
    PutGetShort(s, i);
    assert t == PutShort(s, i, GetShort(s, i));
  }

  /** Writing back the int just read changes nothing. */
  lemma PutGetInt(s: seq<uint8>, i: nat)
    requires i + 4 <= |s|
    ensures PutInt(s, i, GetInt(s, i)) == s
  {
    var v := GetInt(s, i);
    var hi, lo := s[i] as int * 0x100 + s[i + 1], s[i + 2] as int * 0x100 + s[i + 3];
    assert v == hi * 0x1_0000 + lo;
    assert v / 0x1_0000 == hi && v % 0x1_0000 == lo;
    assert hi / 0x100 == s[i] && hi % 0x100 == s[i + 1];
    assert lo / 0x100 == s[i + 2] && lo % 0x100 == s[i + 3];
  }

  /** A getShort depends only on the two bytes it reads. */
  lemma GetShortFrame(s: seq<uint8>, t: seq<uint8>, i: nat)
    requires i + 2 <= |s| && i + 2 <= |t|
    requires s[i] == t[i] && s[i + 1] == t[i + 1]
    ensures GetShort(s, i) == GetShort(t, i)
  {
  }

  /** A getInt depends only on the four bytes it reads. */
  lemma GetIntFrame(s: seq<uint8>, t: seq<uint8>, i: nat)
    requires i + 4 <= |s| && i + 4 <= |t|
    requires forall k :: i <= k < i + 4 ==> s[k] == t[k]
    ensures GetInt(s, i) == GetInt(t, i)
  {
  }

  /** `n` zero bytes, as a freshly allocated Java array holds. */
  function Zeros(n: nat): (r: seq<uint8>)
    ensures |r| == n && forall k :: 0 <= k < n ==> r[k] == 0
  {
    seq(n, _ => 0)
  }
}

/** Java exceptions the modelled code raises on its error paths, as values. */
module Outcomes {

  datatype JavaException =
    | IllegalState       // Preconditions.checkState failed
    | NullPointer        // Preconditions.checkNotNull failed
    | NegativeArraySize  // `new T[n]` with n < 0
    | IndexOutOfBounds   // an array index outside the array

  datatype Result<T> = Success(value: T) | Failure(error: JavaException)
}
