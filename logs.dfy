/** Logs.bytesToHex: renders bytes as upper-case hexadecimal pairs
    separated by single spaces. */
module Logs {
  import opened Bytes
  import opened Outcomes

  const HEX_ARRAY: string := "0123456789ABCDEF"

  /** The digit for a nibble, looked up in HEX_ARRAY. */
  function Digit(n: int): char
    requires 0 <= n < 16
  {
    HEX_ARRAY[n]
  }

  /** The two digits of one byte, high nibble first. */
  function HexPair(b: uint8): string
  {
    [Digit(b / 16), Digit(b % 16)]
  }

  /** The intended rendering: pairs joined by single spaces. */
  function Hex(bs: seq<uint8>): string
    requires |bs| >= 1
  {
    if |bs| == 1 then HexPair(bs[0]) else HexPair(bs[0]) + " " + Hex(bs[1..])
  }

  /** Position by position: digits at 3j and 3j+1, a space at 3j+2 between
      two bytes and no trailing separator. */
  lemma {:induction false} HexShape(bs: seq<uint8>)
    requires |bs| >= 1
    ensures |Hex(bs)| == 3 * |bs| - 1
    ensures forall j :: 0 <= j < |bs| ==>
      Hex(bs)[3 * j] == Digit(bs[j] / 16) && Hex(bs)[3 * j + 1] == Digit(bs[j] % 16)
    ensures forall j :: 0 <= j < |bs| - 1 ==> Hex(bs)[3 * j + 2] == ' '
  {
    if |bs| > 1 {
      HexShape(bs[1..]);
      var h := Hex(bs);
      assert h == HexPair(bs[0]) + " " + Hex(bs[1..]);
      forall j | 1 <= j < |bs|
        ensures h[3 * j] == Digit(bs[j] / 16) && h[3 * j + 1] == Digit(bs[j] % 16)
      {
        assert bs[1..][j - 1] == bs[j];
        assert h[3 * j] == Hex(bs[1..])[3 * (j - 1)];
        assert h[3 * j + 1] == Hex(bs[1..])[3 * (j - 1) + 1];
      }
      forall j | 1 <= j < |bs| - 1 ensures h[3 * j + 2] == ' ' {
        assert h[3 * j + 2] == Hex(bs[1..])[3 * (j - 1) + 2];
      }
    }
  }

  /** Every character that is not a separator is a hexadecimal digit. */
  lemma HexDigitsOnly(bs: seq<uint8>)
    requires |bs| >= 1
    ensures forall i :: 0 <= i < |Hex(bs)| && i % 3 != 2 ==> Hex(bs)[i] in HEX_ARRAY
    ensures forall i :: 0 <= i < |Hex(bs)| && i % 3 == 2 ==> Hex(bs)[i] == ' '
  {
    HexShape(bs);
    var h := Hex(bs);
    forall i | 0 <= i < |h|
      ensures i % 3 != 2 ==> h[i] in HEX_ARRAY
      ensures i % 3 == 2 ==> h[i] == ' '
    {
      var j := i / 3;
      if i == 3 * j {
        assert h[i] == Digit(bs[j] / 16);
      } else if i == 3 * j + 1 {
        assert h[i] == Digit(bs[j] % 16);
      } else {
        assert i == 3 * j + 2 && j < |bs| - 1;
      }
    }
  }

  /** Any string laid out as HexShape describes is the rendering. */
  lemma {:induction false} ShapeIsHex(chars: string, bs: seq<uint8>)
    requires |bs| >= 1 && |chars| == 3 * |bs| - 1
    requires forall k :: 0 <= k < |bs| ==>
      chars[3 * k] == Digit(bs[k] / 16) && chars[3 * k + 1] == Digit(bs[k] % 16)
    requires forall k :: 0 <= k < |bs| - 1 ==> chars[3 * k + 2] == ' '
    ensures chars == Hex(bs)
  {
    assert chars[0] == Digit(bs[0] / 16) && chars[1] == Digit(bs[0] % 16);
    if |bs| == 1 {
      assert chars == HexPair(bs[0]);
    } else {
      var rest, tail := chars[3..], bs[1..];
      forall k | 0 <= k < |tail|
        ensures rest[3 * k] == Digit(tail[k] / 16) && rest[3 * k + 1] == Digit(tail[k] % 16)
      {
        assert rest[3 * k] == chars[3 * (k + 1)] && rest[3 * k + 1] == chars[3 * (k + 1) + 1];
      }
      forall k | 0 <= k < |tail| - 1 ensures rest[3 * k + 2] == ' ' {
        assert rest[3 * k + 2] == chars[3 * (k + 1) + 2];
      }
      ShapeIsHex(rest, tail);
      assert chars[2] == ' ';
      assert chars == HexPair(bs[0]) + " " + rest;
    }
  }

  /** bytesToHex as written.  The array has `3 * length - 1` characters,
      so `length == 0` fails to allocate; the loop indexes the output by
      `j * 3` instead of `(j - offset) * 3`, so every `offset` other than 0
      runs past its end (a negative one past the input's). */
  method BytesToHex(bytes: array<uint8>, offset: int, length: int) returns (r: Result<string>)
    ensures length < 1 ==> r == Failure(NegativeArraySize)
    ensures length >= 1 && (offset != 0 || length > bytes.Length) ==> r == Failure(IndexOutOfBounds)
    ensures length >= 1 && offset == 0 && length <= bytes.Length ==>
      r == Success(Hex(bytes[..length])) && |r.value| == 3 * length - 1
  {
    if length < 1 {
      return Failure(NegativeArraySize);
    }
    if offset != 0 || length > bytes.Length {
      return Failure(IndexOutOfBounds);
    }
    var hexChars := new char[length * 3 - 1];
    for j := offset to offset + length
      invariant forall k :: 0 <= k < j ==>
        hexChars[3 * k] == Digit(bytes[k] / 16) && hexChars[3 * k + 1] == Digit(bytes[k] % 16)
      invariant forall k :: 0 <= k < j && k < length - 1 ==> hexChars[3 * k + 2] == ' '
    {
      var v := bytes[j];
      hexChars[j * 3] := Digit(v / 16);
      hexChars[j * 3 + 1] := Digit(v % 16);
      if j < offset + length - 1 {
        hexChars[j * 3 + 2] := ' ';
      }
    }
    var bs := bytes[..length];
    assert forall k :: 0 <= k < length ==> bs[k] == bytes[k];
    ShapeIsHex(hexChars[..], bs);
    return Success(hexChars[..]);
  }
}
