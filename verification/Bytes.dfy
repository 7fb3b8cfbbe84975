/** Bytes and little-endian numbers, shared by the serializers. */
module Bytes {
  type byte = b: int | 0 <= b < 256

  /** The numbers that fit `width` bytes are those below Radix(width). */
  function Radix(width: nat): (r: nat)
    ensures r > 0
  {
    if width == 0 then 1 else 256 * Radix(width - 1)
  }

  lemma RadixOf4()
    ensures Radix(1) == 0x100
    ensures Radix(2) == 0x1_0000
    ensures Radix(4) == 0x1_0000_0000
  {
    assert Radix(1) == 256 * Radix(0);
    assert Radix(2) == 256 * Radix(1);
    assert Radix(3) == 256 * Radix(2);
    assert Radix(4) == 256 * Radix(3);
  }

  function Encode(value: nat, width: nat): (bytes: seq<byte>)
    ensures |bytes| == width
    decreases width
  {
    if width == 0 then [] else [value % 256] + Encode(value / 256, width - 1)
  }

  function Decode(bytes: seq<byte>): (value: nat)
  {
    if bytes == [] then 0 else bytes[0] + 256 * Decode(bytes[1..])
  }

  lemma {:induction false} DecodeEncode(value: nat, width: nat)
    requires value < Radix(width)
    ensures Decode(Encode(value, width)) == value
    decreases width
  {
    if width > 0 {
      DecodeEncode(value / 256, width - 1);
      assert Encode(value, width)[1..] == Encode(value / 256, width - 1);
    }
  }

  lemma {:induction false} EncodeDecode(bytes: seq<byte>)
    ensures Decode(bytes) < Radix(|bytes|)
    ensures Encode(Decode(bytes), |bytes|) == bytes
  {
    if bytes != [] {
      EncodeDecode(bytes[1..]);
      var rest := Decode(bytes[1..]);
      assert Decode(bytes) == bytes[0] + 256 * rest;
      assert Decode(bytes) % 256 == bytes[0] && Decode(bytes) / 256 == rest;
    }
  }

  /** Two's complement of `width` bytes. */
  function ToUnsigned(value: int, width: nat): (u: nat)
    ensures u < Radix(width)
  {
    if value < 0 then Radix(width) - 1 - (-1 - value) % Radix(width) else value % Radix(width)
  }

  function ToSigned(u: nat, width: nat): int {
    if 2 * u < Radix(width) then u else u - Radix(width)
  }

  predicate InSignedRange(value: int, width: nat) {
    0 <= 2 * value + Radix(width) < 2 * Radix(width)
  }

  /** The remainder of a number that exceeds the divisor at most once. */
  lemma OneWrap(k: nat, c: nat)
    requires k < 2 * c
    ensures k % c == if k < c then k else k - c
  {
    QuotientBound(k / c, c, k);
  }

  lemma QuotientBound(q: nat, c: nat, k: nat)
    requires 0 < c && q * c <= k < 2 * c
    ensures q <= 1
  {
    if q >= 2 {
      Growing(2, q, c);
    }
  }

  lemma Growing(a: nat, b: nat, c: nat)
    requires a <= b
    ensures a * c <= b * c
  {
    assert (b - a) * c >= 0;
  }

  lemma ToSignedOfUnsigned(value: int, width: nat)
    requires InSignedRange(value, width)
    ensures ToSigned(ToUnsigned(value, width), width) == value
  {
    OneWrap(if value < 0 then -1 - value else value, Radix(width));
  }

  lemma Associate<T>(a: seq<T>, b: seq<T>, c: seq<T>)
    ensures a + b + c == a + (b + c)
  {
  }

  lemma AssociateFour<T>(a: seq<T>, b: seq<T>, c: seq<T>, d: seq<T>)
    ensures a + b + c + d == a + (b + c + d)
  {
  }

  /** A run of zero bytes. */
  function Zeros(n: nat): (z: seq<byte>)
    ensures |z| == n
  {
    seq(n, _ => 0)
  }

  /** Bytes overwritten in place: memcpy into a buffer, Python's `pack_into`. */
  function Patched(image: seq<byte>, at: nat, bytes: seq<byte>): (after: seq<byte>)
    requires at + |bytes| <= |image|
    ensures |after| == |image|
  {
    image[..at] + bytes + image[at + |bytes|..]
  }

  /** The bytes stored at an offset of a file, or a buffer, are a part of it. */
  ghost predicate StoredAt(image: seq<byte>, offset: nat, part: seq<byte>) {
    offset + |part| <= |image| && image[offset..offset + |part|] == part
  }

  /** Something stored in a stored part is stored in the whole. */
  lemma StoredWithin(image: seq<byte>, offset: nat, part: seq<byte>, inner: nat, piece: seq<byte>)
    requires StoredAt(image, offset, part) && StoredAt(part, inner, piece)
    ensures StoredAt(image, offset + inner, piece)
  {
    assert piece == part[inner..inner + |piece|];
    assert forall i :: 0 <= i < |piece| ==> piece[i] == part[inner + i] == image[offset + inner + i];
  }

  /** Extending an image keeps what it stores. */
  lemma StoredInPrefix(image: seq<byte>, more: seq<byte>, offset: nat, part: seq<byte>)
    requires StoredAt(image, offset, part)
    ensures StoredAt(image + more, offset, part)
  {
    assert (image + more)[offset..offset + |part|] == image[offset..offset + |part|];
  }

  // ---------------------------------------------------------------- NUL-terminated text

  /** The length of the text before the first NUL, or the length of the whole when there is none. */
  function TextLength(bytes: seq<byte>): (n: nat)
    ensures n <= |bytes|
    ensures forall i :: 0 <= i < n ==> bytes[i] != 0
    ensures n < |bytes| ==> bytes[n] == 0
  {
    if bytes == [] || bytes[0] == 0 then 0 else 1 + TextLength(bytes[1..])
  }

  /** The text is determined by where the first NUL is. */
  lemma {:induction false} TextLengthUnique(bytes: seq<byte>, n: nat)
    requires n < |bytes| && bytes[n] == 0 && 0 !in bytes[..n]
    ensures TextLength(bytes) == n
  {
    assert forall i :: 0 <= i < n ==> bytes[i] in bytes[..n];
  }
}
