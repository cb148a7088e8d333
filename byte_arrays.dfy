/**
 * The static byte-array helpers of the tag emulation service: slicing
 * (getSliceOfArray), the array copy the response builders rely on
 * (System.arraycopy), hexadecimal formatting (toHex), left zero-padding
 * (fillByteArrayToFixedDimension) and the big-endian two's-complement
 * encoding of a non-negative length (BigInteger.toByteArray).
 */
module ByteArrays {

  /** A Java byte, held by its unsigned value (v & 0xFF in the source). */
  newtype byte = b: int | 0 <= b < 256

  datatype Option<T> = None | Some(value: T)

  /** The unsigned value of a big-endian byte sequence. */
  function BigEndian(s: seq<byte>): nat
  {
    if |s| == 0 then 0 else BigEndian(s[..|s| - 1]) * 256 + s[|s| - 1] as int
  }

  /** 256 to the power k. */
  function Pow256(k: nat): (p: nat)
    ensures p >= 1
  {
    if k == 0 then 1 else 256 * Pow256(k - 1)
  }

  /**
   * The minimal big-endian two's-complement encoding of a non-negative
   * value, as BigInteger.valueOf(v).toByteArray() returns it: the leading
   * byte carries a clear sign bit, and no leading byte can be dropped
   * without changing the value or its sign.
   */
  function ToByteArray(v: nat): (r: seq<byte>)
    ensures |r| >= 1
    ensures r[0] < 0x80
    ensures BigEndian(r) == v
    ensures |r| == 1 || r[0] != 0 || r[1] >= 0x80
    decreases v
  {
    if v < 0x80 then
      [v as byte]
    else
      var q, m := v / 256, v % 256;
      var high := ToByteArray(q);
      var r := high + [m as byte];
      assert r[..|r| - 1] == high;
      assert BigEndian(r) == BigEndian(high) * 256 + m;
      r
  }

  /**
   * A k-byte two's-complement encoding holds exactly the non-negative values
   * below 2^(8k-1): the encoding of v has at most k bytes iff v < 0x80 * 256^(k-1).
   */
  lemma {:induction false} ToByteArrayLength(v: nat, k: nat)
    requires k >= 1
    ensures |ToByteArray(v)| <= k <==> v < 0x80 * Pow256(k - 1)
    decreases k
  {
    if k == 1 {
      if v >= 0x80 {
        assert |ToByteArray(v)| == |ToByteArray(v / 256)| + 1;
      }
    } else if v < 0x80 {
      assert 0x80 <= 0x80 * Pow256(k - 1);
    } else {
      assert |ToByteArray(v)| == |ToByteArray(v / 256)| + 1;
      ToByteArrayLength(v / 256, k - 1);
      assert Pow256(k - 1) == 256 * Pow256(k - 2);
      assert v / 256 < 0x80 * Pow256(k - 2) <==> v < 0x80 * Pow256(k - 1);
    }
  }

  /**
   * The recursion of fillByteArrayToFixedDimension: prepend one zero byte
   * until the array has the requested size. It returns the array itself when
   * it already has that size; on a longer array it never terminates, which
   * is why that case is excluded.
   */
  function PadLeft(a: seq<byte>, size: nat): (r: seq<byte>)
    requires |a| <= size
    ensures |r| == size
    ensures r[size - |a|..] == a
    ensures forall i :: 0 <= i < size - |a| ==> r[i] == 0
    decreases size - |a|
  {
    if |a| == size then a else PadLeft([0] + a, size)
  }

  /** A leading zero byte does not change a big-endian value. */
  lemma {:induction false} BigEndianLeadingZero(a: seq<byte>)
    ensures BigEndian([0] + a) == BigEndian(a)
    decreases |a|
  {
    if |a| > 0 {
      var z := [0 as byte] + a;
      assert z[..|z| - 1] == [0] + a[..|a| - 1];
      BigEndianLeadingZero(a[..|a| - 1]);
    } else {
      assert BigEndian([0 as byte][..0]) == 0;
    }
  }

  /** Left zero-padding keeps the big-endian value. */
  lemma {:induction false} PadLeftValue(a: seq<byte>, size: nat)
    requires |a| <= size
    ensures BigEndian(PadLeft(a, size)) == BigEndian(a)
    decreases size - |a|
  {
    if |a| < size {
      PadLeftValue([0] + a, size);
      BigEndianLeadingZero(a);
    }
  }

  /**
   * getSliceOfArray: a new array of end - start bytes copied from
   * arr[start..end]. Java demands end >= start (a negative array size
   * throws) and, once a byte is copied, indices inside arr.
   */
  method SliceOfArray(arr: array<byte>, start: int, end: int) returns (slice: array<byte>)
    requires start <= end
    requires start < end ==> 0 <= start && end <= arr.Length
    ensures fresh(slice)
    ensures slice.Length == end - start
    ensures forall i :: 0 <= i < slice.Length ==> slice[i] == arr[start + i]
  {
    slice := new byte[end - start];
    var i := 0;
    while i < slice.Length
      invariant 0 <= i <= slice.Length
      invariant forall k :: 0 <= k < i ==> slice[k] == arr[start + k]
    {
      slice[i] := arr[start + i];
      i := i + 1;
    }
  }

  /**
   * System.arraycopy from a source whose bytes are given by value: the
   * length bytes of src from srcPos replace those of dest from destPos, and
   * every other byte of dest is kept.
   */
  method ArrayCopy(src: seq<byte>, srcPos: nat, dest: array<byte>, destPos: nat, length: nat)
    requires srcPos + length <= |src|
    requires destPos + length <= dest.Length
    modifies dest
    ensures dest[..] == old(dest[..destPos]) + src[srcPos..srcPos + length] + old(dest[destPos + length..])
  {
    var i := 0;
    while i < length
      invariant 0 <= i <= length
      invariant forall k :: 0 <= k < dest.Length ==>
        dest[k] == if destPos <= k < destPos + i then src[srcPos + k - destPos] else old(dest[k])
    {
      dest[destPos + i] := src[srcPos + i];
      i := i + 1;
    }
    assert dest[..] == old(dest[..destPos]) + src[srcPos..srcPos + length] + old(dest[destPos + length..]);
  }

  /** The digits toHex writes, indexed by nibble value. */
  const HEX_CHARS: string := "0123456789ABCDEF"

  /** The value of an upper-case hexadecimal digit, or -1 for any other character. */
  function HexDigitValue(c: char): int
  {
    if '0' <= c <= '9' then c as int - '0' as int
    else if 'A' <= c <= 'F' then c as int - 'A' as int + 10
    else -1
  }

  /** Every digit of HEX_CHARS reads back as its own index. */
  lemma HexCharsValues()
    ensures |HEX_CHARS| == 16
    ensures forall k :: 0 <= k < 16 ==> HexDigitValue(HEX_CHARS[k]) == k
  {
  }

  /**
   * toHex: two upper-case digits per byte, the high nibble first, so that
   * the digit pair at 2j, 2j+1 reads back as byte j.
   */
  method ToHex(bytes: seq<byte>) returns (hex: string)
    ensures |hex| == 2 * |bytes|
    ensures forall j :: 0 <= j < |bytes| ==>
      hex[2 * j] == HEX_CHARS[(bytes[j] / 16) as int] && hex[2 * j + 1] == HEX_CHARS[(bytes[j] % 16) as int]
    ensures forall j :: 0 <= j < |bytes| ==>
      HexDigitValue(hex[2 * j]) * 16 + HexDigitValue(hex[2 * j + 1]) == bytes[j] as int
  {
    var hexChars := new char[|bytes| * 2];
    for j := 0 to |bytes|
      invariant forall i :: 0 <= i < j ==>
        hexChars[2 * i] == HEX_CHARS[(bytes[i] / 16) as int] && hexChars[2 * i + 1] == HEX_CHARS[(bytes[i] % 16) as int]
    {
      var v := bytes[j];
      hexChars[j * 2] := HEX_CHARS[(v / 16) as int];
      hexChars[j * 2 + 1] := HEX_CHARS[(v % 16) as int];
    }
    hex := hexChars[..];
    HexCharsValues();
  }
}
