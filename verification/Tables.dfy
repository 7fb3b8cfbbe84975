/** Tables: byte strings of equal length stored one after the other, and numbers read back from them. */
module Tables {
  import opened Bytes

  function Concat(rows: seq<seq<byte>>): seq<byte> {
    if rows == [] then [] else Concat(rows[..|rows| - 1]) + rows[|rows| - 1]
  }

  ghost predicate RowsOf(rows: seq<seq<byte>>, size: nat) {
    forall row | row in rows :: |row| == size
  }

  lemma OneRowMore(size: nat, n: nat)
    ensures size * (n + 1) == size * n + size
  {
  }

  lemma ConcatMore(rows: seq<seq<byte>>, row: seq<byte>)
    ensures Concat(rows + [row]) == Concat(rows) + row
  {
    assert (rows + [row])[..|rows|] == rows;
  }

  lemma {:induction false} ConcatLength(rows: seq<seq<byte>>, size: nat)
    requires RowsOf(rows, size)
    ensures |Concat(rows)| == size * |rows|
  {
    if rows != [] {
      ConcatLength(rows[..|rows| - 1], size);
      OneRowMore(size, |rows| - 1);
    }
  }

  lemma {:induction false} RowStored(rows: seq<seq<byte>>, size: nat, j: nat)
    requires RowsOf(rows, size) && j < |rows|
    ensures StoredAt(Concat(rows), size * j, rows[j])
  {
    hide StoredAt;
    var most, last := rows[..|rows| - 1], rows[|rows| - 1];
    assert Concat(rows) == Concat(most) + last;
    if j == |rows| - 1 {
      ConcatLength(most, size);
      AppendedStored(Concat(most), last);
    } else {
      RowStored(most, size, j);
      StoredInPrefix(Concat(most), last, size * j, rows[j]);
    }
  }

  lemma AppendedStored(before: seq<byte>, part: seq<byte>)
    ensures StoredAt(before + part, |before|, part)
  {
  }

  /** Numbers packed one after the other, `width` bytes each. */
  function Pack(values: seq<nat>, width: nat): seq<byte> {
    Concat(PackRows(values, width))
  }

  function PackRows(values: seq<nat>, width: nat): (rows: seq<seq<byte>>)
    ensures |rows| == |values| && RowsOf(rows, width)
  {
    seq(|values|, i requires 0 <= i < |values| => Encode(values[i], width))
  }

  lemma PackLength(values: seq<nat>, width: nat)
    ensures |Pack(values, width)| == width * |values|
  {
    ConcatLength(PackRows(values, width), width);
  }

  /** The number a reader finds at an offset; 0 beyond the end. */
  function Number(image: seq<byte>, offset: nat, width: nat): nat {
    if offset + width <= |image| then Decode(image[offset..offset + width]) else 0
  }

  lemma NumberOfPacked(image: seq<byte>, offset: nat, values: seq<nat>, width: nat, j: nat)
    requires StoredAt(image, offset, Pack(values, width)) && j < |values| && values[j] < Radix(width)
    ensures Number(image, offset + width * j, width) == values[j]
  {
    hide Concat;
    hide Encode;
    hide Decode;
    hide Radix;
    RowStored(PackRows(values, width), width, j);
    StoredWithin(image, offset, Pack(values, width), width * j, Encode(values[j], width));
    DecodeEncode(values[j], width);
  }
}
