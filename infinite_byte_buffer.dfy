/** InfiniteByteBuffer: a byte buffer addressed by absolute index whose
    bulk write doubles the capacity until the write fits. */
module InfiniteByteBuffers {
  import opened Bytes

  /** `len` doubled `k` times, i.e. `len * 2^k`. */
  function Doubled(len: int, k: nat): (r: int)
    requires len > 0
    ensures len <= r && (k > 0 ==> 2 * len <= r)
    decreases k
  {
    if k == 0 then len else Doubled(2 * len, k - 1)
  }

  /** The length putArray's growth loop ends with, starting from `len`,
      for a write that ends just before index `need` (`index + srcLength`). */
  function Grown(len: int, need: int): (r: int)
    requires len > 0
    ensures need < r && len <= r
    ensures need < len ==> r == len
    decreases need - len
  {
    if need >= len then Grown(2 * len, need) else len
  }

  /** Growth only doubles, and stops at the first doubling past `need`:
      the grown length is `len * 2^k` exactly for the least such `k` that
      exceeds `need`. */
  lemma {:induction false} GrownIsLeastDoubling(len: int, need: int, k: nat)
    requires len > 0
    ensures Grown(len, need) == Doubled(len, k) <==>
      need < Doubled(len, k) && (k == 0 || Doubled(len, k - 1) <= need)
    decreases k
  {
    if need >= len && k > 0 {
      GrownIsLeastDoubling(2 * len, need, k - 1);
    }
  }

  /** Arrays.copyOf(s, n) for n >= |s|: the old bytes, then zeros. */
  function Pad(s: seq<uint8>, n: nat): (r: seq<uint8>)
    requires |s| <= n
    ensures |r| == n
    ensures forall k :: 0 <= k < |s| ==> r[k] == s[k]
    ensures forall k :: |s| <= k < n ==> r[k] == 0
  {
    s + Zeros(n - |s|)
  }

  /** `s` with `d` written over it from index `i` on. */
  function Overwrite(s: seq<uint8>, i: nat, d: seq<uint8>): (r: seq<uint8>)
    requires i + |d| <= |s|
    ensures |r| == |s|
    ensures forall k :: 0 <= k < |d| ==> r[i + k] == d[k]
    ensures forall k :: 0 <= k < |s| && (k < i || i + |d| <= k) ==> r[k] == s[k]
  {
    s[..i] + d + s[i + |d|..]
  }

  class InfiniteByteBuffer {
    var length: int
    var buffer: array<uint8>

    /** `length` always equals the size of the backing array. */
    ghost predicate Valid()
      reads this
    {
      length == buffer.Length
    }

    /** withCapacity(initialSize): a zero-filled buffer of that size. */
    constructor WithCapacity(initialSize: int)
      requires initialSize >= 0
      ensures Valid() && length == initialSize
      ensures fresh(buffer) && buffer[..] == Zeros(initialSize)
    {
      buffer := new uint8[initialSize](_ => 0);
      length := initialSize;
    }

    /** array(): the backing array itself, not a copy. */
    method Array() returns (a: array<uint8>)
      ensures a == buffer
    {
      return buffer;
    }

    /** The getters read absolute indexes; each value is the one whose write
        at the same index would leave the contents as they are. */
    function Get(index: int): (r: uint8)
      reads this, buffer
      requires 0 <= index < buffer.Length
      ensures PutByte(buffer[..], index, r) == buffer[..]
    {
      buffer[index]
    }

    function GetShort(index: int): (r: uint16)
      reads this, buffer
      requires 0 <= index && index + 2 <= buffer.Length
      ensures Bytes.PutShort(buffer[..], index, r) == buffer[..]
    {
      PutGetShort(buffer[..], index);
      Bytes.GetShort(buffer[..], index)
    }

    function GetInt(index: int): (r: uint32)
      reads this, buffer
      requires 0 <= index && index + 4 <= buffer.Length
      ensures Bytes.PutInt(buffer[..], index, r) == buffer[..]
    {
      PutGetInt(buffer[..], index);
      Bytes.GetInt(buffer[..], index)
    }

    /** getArray: copies `dstLength` bytes from `index` into `dst` at
        `dstOffset`; `dst` may be the backing array itself. */
    method GetArray(index: int, dst: array<uint8>, dstOffset: int, dstLength: int)
      requires 0 <= index && 0 <= dstOffset && 0 <= dstLength
      requires index + dstLength <= buffer.Length && dstOffset + dstLength <= dst.Length
      modifies dst
      ensures dst[..] == Overwrite(old(dst[..]), dstOffset, old(buffer[index..index + dstLength]))
    {
      forall k | dstOffset <= k < dstOffset + dstLength {
        dst[k] := buffer[index + k - dstOffset];
      }
    }

    method Put(index: int, value: uint8)
      requires 0 <= index < buffer.Length
      modifies buffer
      ensures buffer[..] == PutByte(old(buffer[..]), index, value)
    {
      buffer[index] := value;
    }

    method PutShort(index: int, value: uint16)
      requires 0 <= index && index + 2 <= buffer.Length
      modifies buffer
      ensures buffer[..] == Bytes.PutShort(old(buffer[..]), index, value)
    {
      buffer[index] := value / 0x100;
      buffer[index + 1] := value % 0x100;
    }

    method PutInt(index: int, value: uint32)
      requires 0 <= index && index + 4 <= buffer.Length
      modifies buffer
      ensures buffer[..] == Bytes.PutInt(old(buffer[..]), index, value)
    {
      var hi, lo := value / 0x1_0000, value % 0x1_0000;
      buffer[index] := hi / 0x100;
      buffer[index + 1] := hi % 0x100;
      buffer[index + 2] := lo / 0x100;
      buffer[index + 3] := lo % 0x100;
    }

    /** putArray: when the write reaches `length`, doubles `length` until
        it no longer does and moves the bytes to a zero-padded copy of that
        size; then copies `src[srcOffset..srcOffset + srcLength)` to
        `index`.  `src` may be the backing array itself. */
    method PutArray(index: int, src: array<uint8>, srcOffset: int, srcLength: int)
      requires Valid() && length > 0
      requires 0 <= index && 0 <= srcOffset && 0 <= srcLength
      requires srcOffset + srcLength <= src.Length
      requires index + srcLength < 0x4000_0000
      modifies this, buffer
      ensures Valid()
      ensures length == Grown(old(length), index + srcLength) && index + srcLength < length
      ensures buffer[..] ==
        Overwrite(Pad(old(buffer[..]), length), index, old(src[srcOffset..srcOffset + srcLength]))
      ensures index + srcLength < old(length) ==> buffer == old(buffer)
      ensures index + srcLength >= old(length) ==> fresh(buffer)
    {
      ghost var data := src[srcOffset..srcOffset + srcLength];
      if index + srcLength >= length {
        Grow(index + srcLength);
      }
      CopyIn(index, src, srcOffset, srcLength);
    }

    /** The System.arraycopy of putArray, once the buffer is large enough. */
    method CopyIn(index: int, src: array<uint8>, srcOffset: int, srcLength: int)
      requires 0 <= index && 0 <= srcOffset && 0 <= srcLength
      requires srcOffset + srcLength <= src.Length && index + srcLength <= buffer.Length
      modifies buffer
      ensures buffer[..] == Overwrite(old(buffer[..]), index, old(src[srcOffset..srcOffset + srcLength]))
    {
      ghost var data := src[srcOffset..srcOffset + srcLength];
      forall k | index <= k < index + srcLength {
        buffer[k] := src[srcOffset + k - index];
      }
      assert buffer[..] == Overwrite(old(buffer[..]), index, data);
    }

    /** The growth step of putArray: doubles `length` until it exceeds
        `need`, then replaces the backing array by a zero-padded copy. */
    method Grow(need: int)
      requires Valid() && 0 < length <= need < 0x4000_0000
      modifies this
      ensures Valid() && fresh(buffer)
      ensures length == Grown(old(length), need)
      ensures buffer[..] == Pad(old(buffer[..]), length)
    {
      while need >= length
        invariant 0 < old(length) <= length && buffer == old(buffer)
        invariant Grown(length, need) == Grown(old(length), need)
        decreases need - length
      {
        length := length * 2;
      }
      var grown := new uint8[length];
      forall k | 0 <= k < length {
        grown[k] := if k < buffer.Length then buffer[k] else 0;
      }
      assert grown[..] == Pad(old(buffer[..]), length);
      buffer := grown;
    }
  }

  /** putShort then getShort at the same index reads the value back. */
  method PutThenGetShort(b: InfiniteByteBuffer, index: int, value: uint16) returns (r: uint16)
    requires 0 <= index && index + 2 <= b.buffer.Length
    modifies b.buffer
    ensures r == value
  {
    b.PutShort(index, value);
    r := b.GetShort(index);
  }

  /** putInt then getInt at the same index reads the value back. */
  method PutThenGetInt(b: InfiniteByteBuffer, index: int, value: uint32) returns (r: uint32)
    requires 0 <= index && index + 4 <= b.buffer.Length
    modifies b.buffer
    ensures r == value
  {
    b.PutInt(index, value);
    GetPutInt(old(b.buffer[..]), index, value);
    r := b.GetInt(index);
  }
}
