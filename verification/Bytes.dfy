/** Little-endian records: field lists as bytes, and the bounded writer and reader that move through buffers. */
module Bytes {
  import opened Numbers

  type Byte = x: int | 0 <= x < 0x100

  /** A 256-bit digest, its bytes read as one little-endian number. */
  type Digest = x: int
    | 0 <= x < 0x1_0000_0000_0000_0000_0000_0000_0000_0000_0000_0000_0000_0000_0000_0000_0000_0000

  type Hasher = seq<Byte> -> Digest

  function LittleEndian(width: nat, v: nat): (r: seq<Byte>)
    ensures |r| == width
  {
    if width == 0 then [] else [v % 0x100] + LittleEndian(width - 1, v / 0x100)
  }

  function FromLittleEndian(bytes: seq<Byte>): nat {
    if |bytes| == 0 then 0 else bytes[0] + 0x100 * FromLittleEndian(bytes[1..])
  }

  function ByteLimit(width: nat): nat {
    if width == 0 then 1 else 0x100 * ByteLimit(width - 1)
  }

  /** One past the largest value of the widths the formats use. */
  function Limit(width: nat): nat {
    if width == 2 then 0x1_0000
    else if width == 4 then 0x1_0000_0000
    else if width == 8 then 0x1_0000_0000_0000_0000
    else if width == 16 then 0x1_0000_0000_0000_0000_0000_0000_0000_0000
    else if width == 32 then 0x1_0000_0000_0000_0000_0000_0000_0000_0000_0000_0000_0000_0000_0000_0000_0000_0000
    else ByteLimit(width)
  }

  lemma {:induction false} NumberSurvives(width: nat, v: nat)
    requires v < ByteLimit(width)
    ensures FromLittleEndian(LittleEndian(width, v)) == v
  {
    if width > 0 {
      NumberSurvives(width - 1, v / 0x100);
      assert LittleEndian(width, v)[1..] == LittleEndian(width - 1, v / 0x100);
    }
  }

  lemma {:induction false} NumberFits(bytes: seq<Byte>)
    ensures FromLittleEndian(bytes) < ByteLimit(|bytes|)
  {
    if |bytes| > 0 {
      NumberFits(bytes[1..]);
    }
  }

  lemma ByteLimitStep(width: nat)
    ensures ByteLimit(width + 2) == 0x1_0000 * ByteLimit(width)
    ensures ByteLimit(width + 4) == 0x1_0000_0000 * ByteLimit(width)
  {
    assert ByteLimit(width + 2) == 0x100 * ByteLimit(width + 1) == 0x1_0000 * ByteLimit(width);
    assert ByteLimit(width + 4) == 0x100 * ByteLimit(width + 3) == 0x1_0000 * ByteLimit(width + 2);
  }

  lemma LimitIsByteLimit(width: nat)
    ensures Limit(width) == ByteLimit(width)
  {
    if width == 2 || width == 4 || width == 8 || width == 16 || width == 32 {
      ByteLimitStep(0);
      ByteLimitStep(4);
      ByteLimitStep(8);
      ByteLimitStep(12);
      if width == 32 {
        ByteLimitStep(16);
        ByteLimitStep(20);
        ByteLimitStep(24);
        ByteLimitStep(28);
      }
    }
  }

  // ---- Field lists ----

  datatype Field = Field(width: nat, value: nat)

  predicate FitsWidth(f: Field) {
    f.value < Limit(f.width)
  }

  predicate FieldsFit(fields: seq<Field>) {
    forall i :: 0 <= i < |fields| ==> FitsWidth(fields[i])
  }

  function EncodeFields(fields: seq<Field>): seq<Byte> {
    if |fields| == 0 then [] else LittleEndian(fields[0].width, fields[0].value) + EncodeFields(fields[1..])
  }

  function TotalWidth(widths: seq<nat>): nat {
    if |widths| == 0 then 0 else widths[0] + TotalWidth(widths[1..])
  }

  datatype Decoded = Decoded(values: seq<nat>, rest: seq<Byte>)

  /** Values of the given widths from the front of the bytes, with what follows; None when bytes run out. */
  function DecodeFields(widths: seq<nat>, bytes: seq<Byte>): (r: Option<Decoded>)
    ensures r.Some? ==> |r.value.values| == |widths|
    ensures r.Some? ==> forall i :: 0 <= i < |widths| ==> r.value.values[i] < Limit(widths[i])
    decreases |bytes|, |widths|
  {
    if |widths| == 0 then Some(Decoded([], bytes))
    else if |bytes| < widths[0] then None
    else
      NumberFits(bytes[..widths[0]]);
      LimitIsByteLimit(widths[0]);
      var tail := DecodeFields(widths[1..], bytes[widths[0]..]);
      if tail.None? then None
      else Some(Decoded([FromLittleEndian(bytes[..widths[0]])] + tail.value.values, tail.value.rest))
  }

  function WidthsOf(fields: seq<Field>): (r: seq<nat>)
    ensures |r| == |fields|
  {
    seq(|fields|, i requires 0 <= i < |fields| => fields[i].width)
  }

  function ValuesOf(fields: seq<Field>): (r: seq<nat>)
    ensures |r| == |fields|
  {
    seq(|fields|, i requires 0 <= i < |fields| => fields[i].value)
  }

  lemma DecodeFirst(width: nat, v: nat, widths: seq<nat>, tail: seq<Byte>)
    requires v < Limit(width) && DecodeFields(widths, tail).Some?
    ensures
      var d := DecodeFields(widths, tail).value;
      DecodeFields([width] + widths, LittleEndian(width, v) + tail) == Some(Decoded([v] + d.values, d.rest))
  {
    LimitIsByteLimit(width);
    NumberSurvives(width, v);
    var bytes := LittleEndian(width, v) + tail;
    assert bytes[..width] == LittleEndian(width, v) && bytes[width..] == tail;
    assert ([width] + widths)[1..] == widths;
  }

  lemma FirstField(fields: seq<Field>)
    requires |fields| > 0
    ensures WidthsOf(fields) == [fields[0].width] + WidthsOf(fields[1..])
    ensures ValuesOf(fields) == [fields[0].value] + ValuesOf(fields[1..])
  {}

  lemma FirstBytes(fields: seq<Field>, rest: seq<Byte>)
    requires |fields| > 0
    ensures EncodeFields(fields) + rest
         == LittleEndian(fields[0].width, fields[0].value) + (EncodeFields(fields[1..]) + rest)
  {
    hide LittleEndian;
    Associative(LittleEndian(fields[0].width, fields[0].value), EncodeFields(fields[1..]), rest);
  }

  lemma Associative(a: seq<Byte>, b: seq<Byte>, c: seq<Byte>)
    ensures a + b + c == a + (b + c)
  {}

  /** Reading back a written record gives its values and leaves exactly what followed it. */
  lemma {:induction false} FieldsSurvive(fields: seq<Field>, rest: seq<Byte>)
    requires FieldsFit(fields)
    ensures DecodeFields(WidthsOf(fields), EncodeFields(fields) + rest) == Some(Decoded(ValuesOf(fields), rest))
    decreases |fields|
  {
    if |fields| == 0 {
      assert EncodeFields(fields) + rest == rest;
    } else {
      hide LittleEndian, WidthsOf, ValuesOf;
      FieldsSurvive(fields[1..], rest);
      FirstField(fields);
      FirstBytes(fields, rest);
      assert FitsWidth(fields[0]);
      DecodeFirst(fields[0].width, fields[0].value, WidthsOf(fields[1..]), EncodeFields(fields[1..]) + rest);
    }
  }

  lemma {:induction false} NumberRewrites(bytes: seq<Byte>)
    ensures LittleEndian(|bytes|, FromLittleEndian(bytes)) == bytes
  {
    if |bytes| > 0 {
      NumberRewrites(bytes[1..]);
      assert bytes == [bytes[0]] + bytes[1..];
    }
  }

  function FieldsFrom(widths: seq<nat>, values: seq<nat>): (r: seq<Field>)
    requires |values| == |widths|
    ensures |r| == |widths|
  {
    seq(|widths|, i requires 0 <= i < |widths| => Field(widths[i], values[i]))
  }

  /** Writing back what was read gives the bytes it was read from. */
  lemma {:induction false} FieldsRewrite(widths: seq<nat>, bytes: seq<Byte>)
    requires DecodeFields(widths, bytes).Some?
    ensures
      var d := DecodeFields(widths, bytes).value;
      bytes == EncodeFields(FieldsFrom(widths, d.values)) + d.rest
    decreases |widths|
  {
    if |widths| > 0 {
      var d := DecodeFields(widths, bytes).value;
      var w := widths[0];
      FieldsRewrite(widths[1..], bytes[w..]);
      NumberRewrites(bytes[..w]);
      assert FieldsFrom(widths, d.values)[1..] == FieldsFrom(widths[1..], d.values[1..]);
      FirstBytes(FieldsFrom(widths, d.values), d.rest);
      assert bytes == bytes[..w] + bytes[w..];
    }
  }

  lemma {:induction false} EncodedSize(fields: seq<Field>)
    ensures |EncodeFields(fields)| == TotalWidth(WidthsOf(fields))
    decreases |fields|
  {
    if |fields| > 0 {
      EncodedSize(fields[1..]);
      assert WidthsOf(fields)[1..] == WidthsOf(fields[1..]);
    }
  }

  /** Too few bytes for the record are noticed, whatever they hold. */
  lemma {:induction false} ShortRecordIsRefused(widths: seq<nat>, bytes: seq<Byte>)
    ensures DecodeFields(widths, bytes).Some? <==> |bytes| >= TotalWidth(widths)
    ensures DecodeFields(widths, bytes).Some? ==> DecodeFields(widths, bytes).value.rest == bytes[TotalWidth(widths)..]
    decreases |widths|
  {
    if |widths| > 0 && |bytes| >= widths[0] {
      ShortRecordIsRefused(widths[1..], bytes[widths[0]..]);
      if |bytes| >= TotalWidth(widths) {
        assert bytes[widths[0]..][TotalWidth(widths[1..])..] == bytes[TotalWidth(widths)..];
      }
    }
  }

  /** A signed 64-bit value reinterpreted as unsigned, and back. */
  function Unsigned64(v: int): (r: nat)
    ensures r < U64_COUNT
  {
    v % U64_COUNT
  }

  function Signed64(v: U64): (r: I64) {
    if v <= I64_MAX then v else v - U64_COUNT
  }

  lemma SignSurvives(v: I64)
    ensures Signed64(Unsigned64(v)) == v
  {
    assert v % U64_COUNT == (if v >= 0 then v else v + U64_COUNT);
  }

  lemma SignRewrites(v: U64)
    ensures Unsigned64(Signed64(v)) == v
  {}

  // ---- Buffers with a cursor ----

  /** Appends to a buffer that never grows past its capacity. */
  class Writer {
    const capacity: nat
    var bytes: seq<Byte>

    constructor (capacity: nat)
      ensures this.capacity == capacity && bytes == []
    {
      this.capacity := capacity;
      bytes := [];
    }

    method WriteBytes(data: seq<Byte>) returns (ok: bool)
      modifies this
      ensures ok <==> data == [] || old(|bytes|) + |data| <= capacity
      ensures bytes == if ok then old(bytes) + data else old(bytes)
    {
      if |data| == 0 {
        return true;
      }
      if |bytes| > capacity || |data| > capacity - |bytes| {
        return false;
      }
      bytes := bytes + data;
      return true;
    }

    /** A chain of writes that stops at the first one refused. */
    method WriteFields(fields: seq<Field>) returns (ok: bool)
      modifies this
      ensures old(|bytes|) + |EncodeFields(fields)| <= capacity ==> ok
      ensures ok ==> bytes == old(bytes) + EncodeFields(fields)
    {
      var i := 0;
      while i < |fields|
        invariant 0 <= i <= |fields|
        invariant bytes + EncodeFields(fields[i..]) == old(bytes) + EncodeFields(fields)
      {
        var data := LittleEndian(fields[i].width, fields[i].value);
        assert EncodeFields(fields[i..]) == data + EncodeFields(fields[i..][1..]);
        assert fields[i..][1..] == fields[i + 1..];
        assert bytes + (data + EncodeFields(fields[i + 1..])) == bytes + data + EncodeFields(fields[i + 1..]);
        assert |bytes + EncodeFields(fields[i..])| == |old(bytes) + EncodeFields(fields)|;
        ok := WriteBytes(data);
        if !ok {
          return;
        }
        i := i + 1;
      }
      return true;
    }
  }

  /** Moves forward through bytes it never reads past. */
  class Reader {
    const bytes: seq<Byte>
    var position: nat

    ghost predicate Valid()
      reads this
    {
      position <= |bytes|
    }

    constructor (bytes: seq<Byte>)
      ensures Valid() && this.bytes == bytes && position == 0
    {
      this.bytes := bytes;
      position := 0;
    }

    function Remaining(): nat
      requires Valid()
      reads this
    {
      |bytes| - position
    }

    method Seek(offset: nat) returns (ok: bool)
      requires Valid()
      modifies this
      ensures Valid() && (ok <==> offset <= |bytes|)
      ensures position == if ok then offset else old(position)
    {
      if offset > |bytes| {
        return false;
      }
      position := offset;
      return true;
    }

    method ReadBytes(size: nat) returns (r: Option<seq<Byte>>)
      requires Valid()
      modifies this
      ensures Valid() && (r.Some? <==> old(position) + size <= |bytes|)
      ensures r.Some? ==> position == old(position) + size && r.value == bytes[old(position)..position]
      ensures r.None? ==> position == old(position)
    {
      if size > |bytes| - position {
        return None;
      }
      position := position + size;
      return Some(bytes[position - size..position]);
    }

    /** A chain of number reads that stops at the first one past the end. */
    method ReadFields(widths: seq<nat>) returns (r: Option<seq<nat>>)
      requires Valid()
      modifies this
      ensures Valid() && position >= old(position)
      ensures r.Some? <==> DecodeFields(widths, bytes[old(position)..]).Some?
      ensures r.Some? ==>
        DecodeFields(widths, bytes[old(position)..]) == Some(Decoded(r.value, bytes[position..]))
    {
      hide DecodeFields, Prepended, FromLittleEndian;
      var values: seq<nat> := [];
      ghost var start := bytes[position..];
      assert widths[0..] == widths;
      NothingPrepended(DecodeFields(widths, start));
      var i := 0;
      while i < |widths|
        invariant 0 <= i <= |widths| && Valid() && |values| == i && position >= old(position)
        invariant Prepended(values, DecodeFields(widths[i..], bytes[position..])) == DecodeFields(widths, start)
      {
        ghost var rest := bytes[position..];
        var data := ReadBytes(widths[i]);
        if data.None? {
          NothingMore(values, widths[i..], rest);
          return None;
        }
        TakenFrom(bytes, position - widths[i], widths[i]);
        ReadOne(values, widths[i..], rest);
        assert widths[i..][1..] == widths[i + 1..];
        values := values + [FromLittleEndian(data.value)];
        i := i + 1;
      }
      NothingLeft(values, widths[i..], bytes[position..]);
      return Some(values);
    }
  }

  lemma NothingPrepended(d: Option<Decoded>)
    ensures Prepended([], d) == d
  {
    if d.Some? {
      assert [] + d.value.values == d.value.values;
    }
  }

  lemma TakenFrom(bytes: seq<Byte>, from: nat, size: nat)
    requires from + size <= |bytes|
    ensures bytes[from..][..size] == bytes[from..from + size] && bytes[from..][size..] == bytes[from + size..]
  {}

  lemma NothingMore(values: seq<nat>, widths: seq<nat>, rest: seq<Byte>)
    requires |widths| > 0 && |rest| < widths[0]
    ensures Prepended(values, DecodeFields(widths, rest)).None?
  {}

  lemma NothingLeft(values: seq<nat>, widths: seq<nat>, rest: seq<Byte>)
    requires |widths| == 0
    ensures Prepended(values, DecodeFields(widths, rest)) == Some(Decoded(values, rest))
  {
    assert values + [] == values;
  }

  lemma ReadOne(values: seq<nat>, widths: seq<nat>, rest: seq<Byte>)
    requires |widths| > 0 && |rest| >= widths[0]
    ensures Prepended(values, DecodeFields(widths, rest))
         == Prepended(values + [FromLittleEndian(rest[..widths[0]])], DecodeFields(widths[1..], rest[widths[0]..]))
  {
    var tail := DecodeFields(widths[1..], rest[widths[0]..]);
    if tail.Some? {
      var v := FromLittleEndian(rest[..widths[0]]);
      assert values + ([v] + tail.value.values) == values + [v] + tail.value.values;
    }
  }

  ghost function Prepended(values: seq<nat>, d: Option<Decoded>): Option<Decoded> {
    if d.None? then None else Some(Decoded(values + d.value.values, d.value.rest))
  }
}
