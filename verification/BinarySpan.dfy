/** The span reader and writer of src/common/binary_reader_writer.h and .cpp: cursors over a byte
    buffer. Numbers are stored little-endian, as a host copy of them is on every supported target. */
module BinarySpan {
  import opened Bytes
  import opened Wrappers

  const MAX_U32 := 0xFFFF_FFFF

  /** A value that one write call stores. Raw is a trivially copyable payload such as a float. */
  datatype Value =
    | Unsigned(width: nat, u: nat)
    | Signed(width: nat, s: int)
    | Raw(bytes: seq<byte>)
    | Boolean(flag: bool)
    | CString(text: seq<byte>)
    | SizedString(text: seq<byte>)
    | Optional(width: nat, content: Option<nat>)
  {
    /** Values that the C++ types hold, and C strings without an embedded NUL. */
    ghost predicate WellFormed() {
      match this
      case Unsigned(w, v) => v < Radix(w)
      case Signed(w, v) => InSignedRange(v, w)
      case Raw(_) => true
      case Boolean(_) => true
      case CString(t) => 0 !in t
      case SizedString(t) => |t| <= MAX_U32
      case Optional(w, c) => c.Some? ==> c.value < Radix(w)
    }

    function Bytes(): (bytes: seq<byte>)
    {
      match this
      case Unsigned(w, v) => Encode(v, w)
      case Signed(w, v) => Encode(ToUnsigned(v, w), w)
      case Raw(b) => b
      case Boolean(b) => [if b then 1 else 0]
      case CString(t) => t + [0]
      case SizedString(t) => Encode(|t|, 4) + t
      case Optional(w, None) => [0]
      case Optional(w, Some(v)) => [1] + Encode(v, w)
    }

    function Schema(): Schema {
      match this
      case Unsigned(w, _) => UnsignedField(w)
      case Signed(w, _) => SignedField(w)
      case Raw(b) => RawField(|b|)
      case Boolean(_) => BooleanField
      case CString(_) => CStringField
      case SizedString(_) => SizedStringField
      case Optional(w, _) => OptionalField(w)
    }
  }

  /** Which read call a reader makes. */
  datatype Schema =
    | UnsignedField(width: nat)
    | SignedField(width: nat)
    | RawField(width: nat)
    | BooleanField
    | CStringField
    | SizedStringField
    | OptionalField(width: nat)

  // ---------------------------------------------------------------- what a read finds

  /** The value and the number of bytes that a read takes from the front of `rest`. */
  function ReadFront(rest: seq<byte>, schema: Schema): (r: Option<(Value, nat)>)
    ensures r.Some? ==> r.value.1 <= |rest|
  {
    match schema
    case UnsignedField(w) =>
      if w <= |rest| then Some((Unsigned(w, Decode(rest[..w])), w)) else None
    case SignedField(w) =>
      if w <= |rest| then Some((Signed(w, ToSigned(Decode(rest[..w]), w)), w)) else None
    case RawField(w) =>
      if w <= |rest| then Some((Raw(rest[..w]), w)) else None
    case BooleanField =>
      if 1 <= |rest| then Some((Boolean(rest[0] != 0), 1)) else None
    case CStringField =>
      var n := TextLength(rest);
      if n < |rest| then Some((CString(rest[..n]), n + 1)) else None
    case SizedStringField =>
      if 4 <= |rest| && 4 + Decode(rest[..4]) <= |rest| then
        Some((SizedString(rest[4..4 + Decode(rest[..4])]), 4 + Decode(rest[..4])))
      else None
    case OptionalField(w) =>
      if |rest| == 0 then None
      else if rest[0] == 0 then Some((Optional(w, None), 1))
      else if 1 + w <= |rest| then Some((Optional(w, Some(Decode(rest[1..1 + w]))), 1 + w))
      else None
  }

  /** A failed read leaves the cursor where it was, except that a present optional with too few bytes
      has already consumed its flag. */
  function FailedReadSkip(rest: seq<byte>, schema: Schema): (n: nat)
    ensures n <= |rest|
  {
    if schema.OptionalField? && |rest| > 0 && rest[0] != 0 then 1 else 0
  }

  /** Reads that stop at the first failure: the values and the number of bytes consumed. */
  function ReadAll(rest: seq<byte>, schemas: seq<Schema>): (r: Option<(seq<Value>, nat)>)
    ensures r.Some? ==> r.value.1 <= |rest| && |r.value.0| == |schemas|
    decreases |schemas|
  {
    if schemas == [] then Some(([], 0))
    else
      match ReadFront(rest, schemas[0])
      case None => None
      case Some((v, n)) =>
        match ReadAll(rest[n..], schemas[1..])
        case None => None
        case Some((vs, m)) => Some(([v] + vs, n + m))
  }

  function BytesOfAll(values: seq<Value>): seq<byte>
  {
    if values == [] then [] else values[0].Bytes() + BytesOfAll(values[1..])
  }

  function SchemaOfAll(values: seq<Value>): (schemas: seq<Schema>)
    ensures |schemas| == |values|
  {
    if values == [] then [] else [values[0].Schema()] + SchemaOfAll(values[1..])
  }

  // ---------------------------------------------------------------- round trips

  /** Reading what was just written gives the value back and stops exactly behind it. */
  lemma ReadFrontOfBytes(value: Value, after: seq<byte>)
    requires value.WellFormed()
    ensures ReadFront(value.Bytes() + after, value.Schema()) == Some((value, |value.Bytes()|))
  {
    var bytes := value.Bytes();
    var rest := bytes + after;
    assert rest[..|bytes|] == bytes;
    match value
    case Unsigned(w, v) => DecodeEncode(v, w);
    case Signed(w, v) =>
      DecodeEncode(ToUnsigned(v, w), w);
      ToSignedOfUnsigned(v, w);
    case Raw(b) =>
    case Boolean(b) =>
    case CString(t) =>
      assert rest[..|t|] == t;
      TextLengthUnique(rest, |t|);
    case SizedString(t) =>
      RadixOf4();
      DecodeEncode(|t|, 4);
      assert rest[..4] == Encode(|t|, 4);
      assert rest[4..4 + |t|] == t;
    case Optional(w, c) =>
      if c.Some? {
        DecodeEncode(c.value, w);
        assert rest[1..1 + w] == Encode(c.value, w);
      }
  }

  lemma OfAllCons(value: Value, more: seq<Value>)
    ensures BytesOfAll([value] + more) == value.Bytes() + BytesOfAll(more)
    ensures SchemaOfAll([value] + more) == [value.Schema()] + SchemaOfAll(more)
  {
    assert ([value] + more)[1..] == more;
  }

  lemma ReadAllCons(rest: seq<byte>, schema: Schema, v: Value, n: nat, schemas: seq<Schema>, vs: seq<Value>, m: nat)
    requires ReadFront(rest, schema) == Some((v, n))
    requires n <= |rest| && ReadAll(rest[n..], schemas) == Some((vs, m))
    ensures ReadAll(rest, [schema] + schemas) == Some(([v] + vs, n + m))
  {
    hide ReadFront;
    assert ([schema] + schemas)[1..] == schemas;
  }

  lemma ReadAllOfBytesStep(value: Value, more: seq<Value>, after: seq<byte>)
    requires value.WellFormed()
    requires ReadAll(BytesOfAll(more) + after, SchemaOfAll(more)) == Some((more, |BytesOfAll(more)|))
    ensures ReadAll(BytesOfAll([value] + more) + after, SchemaOfAll([value] + more))
         == Some(([value] + more, |BytesOfAll([value] + more)|))
  {
    hide *;
    OfAllCons(value, more);
    var rest := value.Bytes() + (BytesOfAll(more) + after);
    assert BytesOfAll([value] + more) + after == rest;
    ReadFrontOfBytes(value, BytesOfAll(more) + after);
    assert rest[|value.Bytes()|..] == BytesOfAll(more) + after;
    ReadAllCons(rest, value.Schema(), value, |value.Bytes()|, SchemaOfAll(more), more, |BytesOfAll(more)|);
  }

  /** The round trip of a whole message, whatever follows it in the buffer. */
  lemma {:induction false} ReadAllOfBytes(values: seq<Value>, after: seq<byte>)
    requires forall v | v in values :: v.WellFormed()
    ensures ReadAll(BytesOfAll(values) + after, SchemaOfAll(values)) == Some((values, |BytesOfAll(values)|))
  {
    if values != [] {
      hide *;
      assert values == [values[0]] + values[1..];
      assert values[0] in values;
      ReadAllOfBytes(values[1..], after);
      ReadAllOfBytesStep(values[0], values[1..], after);
    }
  }

  /** Whatever the buffer holds, a successful read yields a value of the type asked for that would be
      written in as many bytes as were consumed. */
  lemma ReadFrontIsWritable(rest: seq<byte>, schema: Schema)
    requires ReadFront(rest, schema).Some?
    ensures var (v, n) := ReadFront(rest, schema).value;
            v.WellFormed() && v.Schema() == schema && |v.Bytes()| == n
  {
    hide Decode;
    hide Encode;
    hide Radix;
    match schema
    case UnsignedField(w) => EncodeDecode(rest[..w]);
    case SignedField(w) =>
      EncodeDecode(rest[..w]);
      assert InSignedRange(ToSigned(Decode(rest[..w]), w), w);
    case RawField(w) =>
    case BooleanField =>
    case CStringField =>
    case SizedStringField =>
      RadixOf4();
      EncodeDecode(rest[..4]);
    case OptionalField(w) =>
      if rest[0] != 0 {
        EncodeDecode(rest[1..1 + w]);
      }
  }

  lemma {:induction false} ReadAllIsWritable(rest: seq<byte>, schemas: seq<Schema>)
    requires ReadAll(rest, schemas).Some?
    ensures var (vs, n) := ReadAll(rest, schemas).value;
            (forall v | v in vs :: v.WellFormed()) && |BytesOfAll(vs)| == n && SchemaOfAll(vs) == schemas
    decreases |schemas|
  {
    if schemas != [] {
      var (v, k) := ReadFront(rest, schemas[0]).value;
      ReadFrontIsWritable(rest, schemas[0]);
      ReadAllIsWritable(rest[k..], schemas[1..]);
      var (vs, m) := ReadAll(rest[k..], schemas[1..]).value;
      assert ([v] + vs)[1..] == vs;
    }
  }

  /** Whatever the buffer holds, re-encoding what was read from it and reading that again returns the
      same values and consumes as many bytes. */
  lemma ReadEncodeRead(rest: seq<byte>, schemas: seq<Schema>)
    requires ReadAll(rest, schemas).Some?
    ensures ReadAll(BytesOfAll(ReadAll(rest, schemas).value.0), schemas) == ReadAll(rest, schemas)
  {
    var (vs, n) := ReadAll(rest, schemas).value;
    ReadAllIsWritable(rest, schemas);
    ReadAllOfBytes(vs, []);
    assert BytesOfAll(vs) + [] == BytesOfAll(vs);
  }

  // ---------------------------------------------------------------- the writer

  /** The state of a writer after a write: on failure nothing changed, except that an optional whose
      content does not fit has already stored its flag. */
  datatype WriteResult = WriteResult(ok: bool, buffer: seq<byte>, position: nat)

  function WriteOne(buffer: seq<byte>, position: nat, value: Value): (r: WriteResult)
    requires position <= |buffer|
    ensures position <= r.position <= |buffer| == |r.buffer|
  {
    var bytes := value.Bytes();
    if value.SizedString? && |value.text| > MAX_U32 then
      WriteResult(false, buffer, position)
    else if position + |bytes| <= |buffer| then
      WriteResult(true, Patched(buffer, position, bytes), position + |bytes|)
    else if value.Optional? && value.content.Some? && position < |buffer| then
      WriteResult(false, Patched(buffer, position, [1]), position + 1)
    else
      WriteResult(false, buffer, position)
  }

  function WriteAll(buffer: seq<byte>, position: nat, values: seq<Value>): (r: WriteResult)
    requires position <= |buffer|
    ensures position <= r.position <= |buffer| == |r.buffer|
    decreases |values|
  {
    if values == [] then WriteResult(true, buffer, position)
    else
      var r := WriteOne(buffer, position, values[0]);
      if r.ok then WriteAll(r.buffer, r.position, values[1..]) else r
  }

  /** A message list is written exactly if its encoding fits, into exactly its bytes. */
  lemma {:induction false} WriteAllStores(buffer: seq<byte>, position: nat, values: seq<Value>)
    requires position <= |buffer|
    requires forall v | v in values :: v.WellFormed()
    ensures var r := WriteAll(buffer, position, values);
            && (r.ok <==> position + |BytesOfAll(values)| <= |buffer|)
            && (r.ok ==> && r.position == position + |BytesOfAll(values)|
                         && r.buffer == Patched(buffer, position, BytesOfAll(values)))
    decreases |values|
  {
    hide *;
    WriteAllIs(buffer, position, values);
    if values == [] {
      StoredNothing(buffer, position);
    } else {
      var value, more := values[0], values[1..];
      assert values == [value] + more && value in values;
      OfAllCons(value, more);
      WriteOneOutcome(buffer, position, value);
      var r := WriteOne(buffer, position, value);
      if r.ok {
        WriteAllStores(r.buffer, r.position, more);
        if r.position + |BytesOfAll(more)| <= |buffer| {
          StoredTwice(buffer, position, value.Bytes(), BytesOfAll(more));
        }
      }
    }
  }

  lemma WriteAllIs(buffer: seq<byte>, position: nat, values: seq<Value>)
    requires position <= |buffer|
    ensures WriteAll(buffer, position, values) ==
            if values == [] then WriteResult(true, buffer, position)
            else
              var r := WriteOne(buffer, position, values[0]);
              if r.ok then WriteAll(r.buffer, r.position, values[1..]) else r
    ensures values == [] ==> BytesOfAll(values) == []
  {
    hide WriteOne;
  }

  lemma WriteOneOutcome(buffer: seq<byte>, position: nat, value: Value)
    requires position <= |buffer| && value.WellFormed()
    ensures WriteOne(buffer, position, value).ok <==> position + |value.Bytes()| <= |buffer|
    ensures position + |value.Bytes()| <= |buffer| ==>
              WriteOne(buffer, position, value)
                == WriteResult(true, Patched(buffer, position, value.Bytes()), position + |value.Bytes()|)
  {
  }

  /** An optional is its flag, then its content. */
  lemma OptionalInSteps(buffer: seq<byte>, position: nat, width: nat, content: Option<nat>)
    requires position <= |buffer|
    ensures var flag := WriteOne(buffer, position, Boolean(content.Some?));
            WriteOne(buffer, position, Optional(width, content))
              == if flag.ok && content.Some? then WriteOne(flag.buffer, flag.position, Unsigned(width, content.value))
                 else flag
  {
    hide Patched;
    hide Encode;
    if content.Some? && position + 1 + width <= |buffer| {
      StoredTwice(buffer, position, [1], Encode(content.value, width));
    }
  }

  lemma CStringInOne(buffer: seq<byte>, position: nat, text: seq<byte>)
    requires position <= |buffer|
    ensures WriteOne(buffer, position, CString(text))
              == if position + |text| + 1 > |buffer| then WriteResult(false, buffer, position)
                 else WriteResult(true, Patched(buffer, position, text + [0]), position + |text| + 1)
  {
    hide Patched;
  }

  lemma StoredNothing(buffer: seq<byte>, position: nat)
    requires position <= |buffer|
    ensures Patched(buffer, position, []) == buffer
  {
  }

  lemma StoredTwice(buffer: seq<byte>, position: nat, head: seq<byte>, tail: seq<byte>)
    requires position + |head| + |tail| <= |buffer|
    ensures Patched(Patched(buffer, position, head), position + |head|, tail) == Patched(buffer, position, head + tail)
  {
    var once := Patched(buffer, position, head);
    assert once[..position + |head|] == buffer[..position] + head;
    assert once[position + |head| + |tail|..] == buffer[position + |head| + |tail|..];
  }

  /** Writing any message list that fits and reading it back with its schema from the same position
      returns the same values and ends at the same position. */
  lemma WriteThenRead(buffer: seq<byte>, position: nat, values: seq<Value>)
    requires position <= |buffer|
    requires forall v | v in values :: v.WellFormed()
    requires position + |BytesOfAll(values)| <= |buffer|
    ensures var r := WriteAll(buffer, position, values);
            && r.ok
            && ReadAll(r.buffer[position..], SchemaOfAll(values)) == Some((values, r.position - position))
            && r.buffer[..position] == buffer[..position] && r.buffer[r.position..] == buffer[r.position..]
  {
    hide ReadAll;
    hide WriteAll;
    hide BytesOfAll;
    hide SchemaOfAll;
    var bytes := BytesOfAll(values);
    var r := WriteAll(buffer, position, values);
    WriteAllStores(buffer, position, values);
    var after := buffer[position + |bytes|..];
    assert r.buffer[position..] == bytes + after;
    ReadAllOfBytes(values, after);
  }

  class Writer {
    const buffer: array<byte>
    var position: nat

    ghost predicate Valid()
      reads this
    {
      position <= buffer.Length
    }

    /** What the writer holds after a call with outcome `ok`. */
    ghost predicate Is(ok: bool, r: WriteResult)
      reads this, buffer
    {
      r == WriteResult(ok, buffer[..], position)
    }

    constructor (span: array<byte>)
      ensures Valid() && buffer == span && position == 0
    {
      buffer, position := span, 0;
    }

    method Write(bytes: seq<byte>) returns (ok: bool)
      requires Valid()
      modifies this, buffer
      ensures Valid() && Is(ok, WriteOne(old(buffer[..]), old(position), Raw(bytes)))
    {
      if position + |bytes| <= buffer.Length {
        CopyIn(position, bytes);
        position := position + |bytes|;
        return true;
      }
      return false;
    }

    /** memcpy into the buffer. */
    method CopyIn(at: nat, bytes: seq<byte>)
      requires at + |bytes| <= buffer.Length
      modifies buffer
      ensures buffer[..] == Patched(old(buffer[..]), at, bytes)
    {
      for i := 0 to |bytes|
        invariant forall k :: 0 <= k < buffer.Length ==>
                    buffer[k] == if at <= k < at + i then bytes[k - at] else old(buffer[k])
      {
        buffer[at + i] := bytes[i];
      }
    }

    method WriteUnsigned(value: nat, width: nat) returns (ok: bool)
      requires Valid()
      modifies this, buffer
      ensures Valid() && Is(ok, WriteOne(old(buffer[..]), old(position), Unsigned(width, value)))
    {
      ok := Write(Encode(value, width));
    }

    method WriteSigned(value: int, width: nat) returns (ok: bool)
      requires Valid() && InSignedRange(value, width)
      modifies this, buffer
      ensures Valid() && Is(ok, WriteOne(old(buffer[..]), old(position), Signed(width, value)))
    {
      ok := Write(Encode(ToUnsigned(value, width), width));
    }

    method WriteBool(flag: bool) returns (ok: bool)
      requires Valid()
      modifies this, buffer
      ensures Valid() && Is(ok, WriteOne(old(buffer[..]), old(position), Boolean(flag)))
    {
      ok := Write([if flag then 1 else 0]);
    }

    method WriteCString(text: seq<byte>) returns (ok: bool)
      requires Valid()
      modifies this, buffer
      ensures Valid() && Is(ok, WriteOne(old(buffer[..]), old(position), CString(text)))
    {
      hide Patched;
      hide WriteOne;
      CStringInOne(buffer[..], position, text);
      if position + |text| + 1 > buffer.Length {
        return false;
      }
      ghost var before := buffer[..];
      StoredNothing(before, position);
      if text != [] {
        CopyIn(position, text);
      }
      StoredTwice(before, position, text, [0]);
      CopyIn(position + |text|, [0]);
      position := position + |text| + 1;
      return true;
    }

    method WriteSizePrefixedString(text: seq<byte>) returns (ok: bool)
      requires Valid()
      modifies this, buffer
      ensures Valid() && Is(ok, WriteOne(old(buffer[..]), old(position), SizedString(text)))
    {
      hide Encode;
      hide Patched;
      if |text| > MAX_U32 || position + 4 + |text| > buffer.Length {
        return false;
      }
      ghost var before, start := buffer[..], position;
      CopyIn(position, Encode(|text|, 4));
      position := position + 4;
      StoredTwice(before, start, Encode(|text|, 4), text);
      if |text| > 0 {
        CopyIn(position, text);
        position := position + |text|;
      } else {
        StoredNothing(buffer[..], position);
      }
      return true;
    }

    method WriteOptional(content: Option<nat>, width: nat) returns (ok: bool)
      requires Valid()
      modifies this, buffer
      ensures Valid() && Is(ok, WriteOne(old(buffer[..]), old(position), Optional(width, content)))
    {
      hide WriteOne;
      OptionalInSteps(buffer[..], position, width, content);
      ok := WriteBool(content.Some?);
      if ok && content.Some? {
        ok := WriteUnsigned(content.value, width);
      }
    }
  }

  // ---------------------------------------------------------------- the reader

  class Reader {
    const buffer: seq<byte>
    var position: nat

    ghost predicate Valid()
      reads this
    {
      position <= |buffer|
    }

    ghost function Rest(): seq<byte>
      requires Valid()
      reads this
    {
      buffer[position..]
    }

    /** The cursor after a read of `schema` at cursor `start`. */
    ghost predicate Advanced(start: nat, schema: Schema)
      requires start <= |buffer|
      reads this
    {
      position == start + match ReadFront(buffer[start..], schema)
                          case Some((_, n)) => n
                          case None => FailedReadSkip(buffer[start..], schema)
    }

    constructor (span: seq<byte>)
      ensures Valid() && buffer == span && position == 0
    {
      buffer, position := span, 0;
    }

    method Peek(size: nat) returns (r: Option<seq<byte>>)
      requires Valid()
      ensures r == if size <= |Rest()| then Some(Rest()[..size]) else None
    {
      if position + size <= |buffer| {
        assert Rest()[..size] == buffer[position..position + size];
        r := Some(buffer[position..position + size]);
      } else {
        r := None;
      }
    }

    method Read(size: nat) returns (r: Option<seq<byte>>)
      requires Valid()
      modifies this
      ensures Valid() && Advanced(old(position), RawField(size))
      ensures r == if size <= |old(Rest())| then Some(old(Rest())[..size]) else None
    {
      r := Peek(size);
      if r.Some? {
        position := position + size;
      }
    }

    method ReadUnsigned(width: nat) returns (r: Option<nat>)
      requires Valid()
      modifies this
      ensures Valid() && Advanced(old(position), UnsignedField(width))
      ensures match ReadFront(old(Rest()), UnsignedField(width))
              case Some((v, _)) => r == Some(v.u)
              case None => r == None
    {
      var bytes := Read(width);
      r := if bytes.Some? then Some(Decode(bytes.value)) else None;
    }

    method ReadSigned(width: nat) returns (r: Option<int>)
      requires Valid()
      modifies this
      ensures Valid() && Advanced(old(position), SignedField(width))
      ensures match ReadFront(old(Rest()), SignedField(width))
              case Some((v, _)) => r == Some(v.s)
              case None => r == None
    {
      var bytes := Read(width);
      r := if bytes.Some? then Some(ToSigned(Decode(bytes.value), width)) else None;
    }

    method ReadBool() returns (r: Option<bool>)
      requires Valid()
      modifies this
      ensures Valid() && Advanced(old(position), BooleanField)
      ensures match ReadFront(old(Rest()), BooleanField)
              case Some((v, _)) => r == Some(v.flag)
              case None => r == None
    {
      var bytes := Read(1);
      r := if bytes.Some? then Some(bytes.value[0] != 0) else None;
    }

    /** Scans for a NUL; the end of the buffer without one is a failure. */
    method PeekCString() returns (r: Option<seq<byte>>)
      requires Valid()
      ensures r.None? <==> 0 !in Rest()
      ensures r.Some? ==> 0 !in r.value && r.value + [0] <= Rest()
    {
      var pos, size := position, 0;
      while pos < |buffer|
        invariant position <= pos <= |buffer| && size == pos - position
        invariant 0 !in buffer[position..pos]
      {
        if buffer[pos] == 0 {
          break;
        }
        pos := pos + 1;
        size := size + 1;
      }
      if pos == |buffer| {
        assert Rest() == buffer[position..pos];
        return None;
      }
      assert Rest()[size] == 0;
      return Some(buffer[position..position + size]);
    }

    method ReadCString() returns (r: Option<seq<byte>>)
      requires Valid()
      modifies this
      ensures Valid() && Advanced(old(position), CStringField)
      ensures match ReadFront(old(Rest()), CStringField)
              case Some((v, _)) => r == Some(v.text)
              case None => r == None
    {
      r := PeekCString();
      if r.Some? {
        assert Rest()[..|r.value|] == r.value && Rest()[|r.value|] == 0;
        TextLengthUnique(Rest(), |r.value|);
        position := position + |r.value| + 1;
      }
    }

    method PeekSizePrefixedString() returns (r: Option<seq<byte>>)
      requires Valid()
      ensures match ReadFront(Rest(), SizedStringField)
              case Some((v, _)) => r == Some(v.text)
              case None => r == None
    {
      var prefix := Peek(4);
      if prefix.None? || position + 4 + Decode(prefix.value) > |buffer| {
        return None;
      }
      var n := Decode(prefix.value);
      assert Rest()[4..4 + n] == buffer[position + 4..position + 4 + n];
      return Some(buffer[position + 4..position + 4 + n]);
    }

    method ReadSizePrefixedString() returns (r: Option<seq<byte>>)
      requires Valid()
      modifies this
      ensures Valid() && Advanced(old(position), SizedStringField)
      ensures match ReadFront(old(Rest()), SizedStringField)
              case Some((v, _)) => r == Some(v.text)
              case None => r == None
    {
      r := PeekSizePrefixedString();
      if r.Some? {
        position := position + 4 + |r.value|;
      }
    }

    method ReadOptional(width: nat) returns (r: Option<Option<nat>>)
      requires Valid()
      modifies this
      ensures Valid() && Advanced(old(position), OptionalField(width))
      ensures match ReadFront(old(Rest()), OptionalField(width))
              case Some((v, _)) => r == Some(v.content)
              case None => r == None
    {
      ghost var rest := Rest();
      var flag := Read(1);
      if flag.None? {
        return None;
      }
      if flag.value[0] == 0 {
        return Some(None);
      }
      assert Rest() == rest[1..];
      var value := ReadUnsigned(width);
      assert 1 + width <= |rest| ==> rest[1..][..width] == rest[1..1 + width];
      r := if value.Some? then Some(value) else None;
    }
  }
}
