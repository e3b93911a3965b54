/** A decoded record: its key, its raw value, and the raw value split into
    fields on 0xFE, each field into values on 0xFD and each value into
    subvalues on 0xFC. */
module Records {
  import opened Wrappers
  import opened Bytes

  const FIELD_MARK: byte := 0xFE
  const VALUE_MARK: byte := 0xFD
  const SUBVALUE_MARK: byte := 0xFC

  datatype Value = Value(subvalues: seq<seq<byte>>)
  datatype Field = Field(values: seq<Value>)
  datatype Record = Record(key: seq<byte>, fields: seq<Field>, raw: seq<byte>)

  // ---------------------------------------------------------------- construction

  /** `Value(bytes)` */
  function MakeValue(b: seq<byte>): (v: Value)
    ensures |v.subvalues| == Count(b, SUBVALUE_MARK) + 1
    ensures Join(v.subvalues, SUBVALUE_MARK) == b
    ensures forall i :: 0 <= i < |v.subvalues| ==> SUBVALUE_MARK !in v.subvalues[i]
  {
    SplitJoin(b, SUBVALUE_MARK);
    Value(Split(b, SUBVALUE_MARK))
  }

  /** `Field(bytes)` */
  function MakeField(b: seq<byte>): (f: Field)
    ensures |f.values| == |Split(b, VALUE_MARK)| == Count(b, VALUE_MARK) + 1
    ensures forall i :: 0 <= i < |f.values| ==> f.values[i] == MakeValue(Split(b, VALUE_MARK)[i])
  {
    SplitJoin(b, VALUE_MARK);
    var parts := Split(b, VALUE_MARK);
    Field(seq(|parts|, i requires 0 <= i < |parts| => MakeValue(parts[i])))
  }

  /** `Record(key, raw)`: key and raw are kept as given. */
  function MakeRecord(key: seq<byte>, raw: seq<byte>): (r: Record)
    ensures r.key == key && r.raw == raw
    ensures |r.fields| == |Split(raw, FIELD_MARK)| == Count(raw, FIELD_MARK) + 1
    ensures forall i :: 0 <= i < |r.fields| ==> r.fields[i] == MakeField(Split(raw, FIELD_MARK)[i])
  {
    SplitJoin(raw, FIELD_MARK);
    var parts := Split(raw, FIELD_MARK);
    Record(key, seq(|parts|, i requires 0 <= i < |parts| => MakeField(parts[i])), raw)
  }

  // ---------------------------------------------------------------- the inverse

  /** The bytes a value is made of: its subvalues joined with 0xFC. */
  function ValueBytes(v: Value): seq<byte>
  {
    Join(v.subvalues, SUBVALUE_MARK)
  }

  function ValuesBytes(vs: seq<Value>): (r: seq<seq<byte>>)
    ensures |r| == |vs|
    ensures forall i :: 0 <= i < |vs| ==> r[i] == ValueBytes(vs[i])
  {
    seq(|vs|, i requires 0 <= i < |vs| => ValueBytes(vs[i]))
  }

  /** The bytes a field is made of: its values joined with 0xFD. */
  function FieldBytes(f: Field): seq<byte>
  {
    Join(ValuesBytes(f.values), VALUE_MARK)
  }

  function FieldsBytes(fs: seq<Field>): (r: seq<seq<byte>>)
    ensures |r| == |fs|
    ensures forall i :: 0 <= i < |fs| ==> r[i] == FieldBytes(fs[i])
  {
    seq(|fs|, i requires 0 <= i < |fs| => FieldBytes(fs[i]))
  }

  /** The bytes a record's fields are made of: the fields joined with 0xFE. */
  function RecordBytes(r: Record): seq<byte>
  {
    Join(FieldsBytes(r.fields), FIELD_MARK)
  }

  lemma FieldRoundTrip(b: seq<byte>)
    ensures FieldBytes(MakeField(b)) == b
  {
    var parts := Split(b, VALUE_MARK);
    var f := MakeField(b);
    SplitJoin(b, VALUE_MARK);
    assert ValuesBytes(f.values) == parts by {
      forall i | 0 <= i < |parts|
        ensures ValuesBytes(f.values)[i] == parts[i]
      {
        assert ValueBytes(MakeValue(parts[i])) == parts[i];
      }
    }
  }

  /** Splitting loses nothing: joining the subvalues, values and fields back
      with their marks gives the raw bytes of the record. */
  lemma RecordRoundTrip(key: seq<byte>, raw: seq<byte>)
    ensures RecordBytes(MakeRecord(key, raw)) == raw
  {
    var parts := Split(raw, FIELD_MARK);
    var r := MakeRecord(key, raw);
    SplitJoin(raw, FIELD_MARK);
    assert FieldsBytes(r.fields) == parts by {
      forall i | 0 <= i < |parts|
        ensures FieldsBytes(r.fields)[i] == parts[i]
      {
        FieldRoundTrip(parts[i]);
      }
    }
  }

  /** A field with no value mark holds one value; a value with no subvalue mark
      holds the field's bytes as its one subvalue. */
  lemma PlainField(b: seq<byte>)
    requires VALUE_MARK !in b && SUBVALUE_MARK !in b
    ensures MakeField(b) == Field([Value([b])])
  {
    NoMarkSplit(b, VALUE_MARK);
    NoMarkSplit(b, SUBVALUE_MARK);
  }

  lemma {:induction false} NoMarkSplit(b: seq<byte>, d: byte)
    requires d !in b
    ensures Split(b, d) == [b]
  {
    if b != [] {
      assert d !in b[1..];
      NoMarkSplit(b[1..], d);
      var none: seq<seq<byte>> := [];
      assert none == Split(b[1..], d)[1..];
      assert [b[0]] + b[1..] == b;
    }
  }

  // ---------------------------------------------------------------- access

  /** `Value.get(s)`: None when `s` is not below the number of subvalues. */
  function ValueGet(v: Value, s: int): (r: Result<Option<seq<byte>>>)
    ensures r.Success? <==> s >= -|v.subvalues|
    ensures 0 <= s < |v.subvalues| ==> r == Success(Some(v.subvalues[s]))
    ensures -|v.subvalues| <= s < 0 ==> r == Success(Some(v.subvalues[|v.subvalues| + s]))
    ensures s >= |v.subvalues| ==> r == Success(None)
  {
    if s < |v.subvalues| then
      var x :- At(v.subvalues, s);
      Success(Some(x))
    else Success(None)
  }

  /** `Field.get(v, s)` */
  function FieldGet(f: Field, v: int, s: int): (r: Result<Option<seq<byte>>>)
    ensures v >= |f.values| ==> r == Success(None)
    ensures v < -|f.values| ==> r.Failure?
    ensures 0 <= v < |f.values| ==> r == ValueGet(f.values[v], s)
    ensures -|f.values| <= v < 0 ==> r == ValueGet(f.values[|f.values| + v], s)
  {
    if v < |f.values| then
      var x :- At(f.values, v);
      ValueGet(x, s)
    else Success(None)
  }

  /** `Record.get(f, v, s)` */
  function RecordGet(r: Record, f: int, v: int, s: int): (res: Result<Option<seq<byte>>>)
    ensures f >= |r.fields| ==> res == Success(None)
    ensures f < -|r.fields| ==> res.Failure?
    ensures 0 <= f < |r.fields| ==> res == FieldGet(r.fields[f], v, s)
    ensures -|r.fields| <= f < 0 ==> res == FieldGet(r.fields[|r.fields| + f], v, s)
  {
    if f < |r.fields| then
      var x :- At(r.fields, f);
      FieldGet(x, v, s)
    else Success(None)
  }

  /** With non-negative positions, `get` finds the addressed subvalue exactly
      when every position is in range at its level, and is None otherwise. */
  lemma GetInRange(r: Record, f: nat, v: nat, s: nat)
    ensures RecordGet(r, f, v, s).Success?
    ensures RecordGet(r, f, v, s).value.Some? <==>
      f < |r.fields| && v < |r.fields[f].values| && s < |r.fields[f].values[v].subvalues|
    ensures RecordGet(r, f, v, s).value.Some? ==>
      RecordGet(r, f, v, s).value.value == r.fields[f].values[v].subvalues[s]
  {
  }

  /** A negative position reaches from the end of its level. */
  lemma GetFromEnd(r: Record)
    requires |r.fields| > 0
    ensures RecordGet(r, -1, 0, 0) == FieldGet(r.fields[|r.fields| - 1], 0, 0)
  {
  }

  // ---------------------------------------------------------------- to_list

  function ValueList(v: Value): (l: seq<seq<byte>>)
    ensures l == v.subvalues
  {
    v.subvalues
  }

  function FieldList(f: Field): (l: seq<seq<seq<byte>>>)
    ensures |l| == |f.values|
    ensures forall i :: 0 <= i < |l| ==> l[i] == ValueList(f.values[i])
  {
    seq(|f.values|, i requires 0 <= i < |f.values| => ValueList(f.values[i]))
  }

  /** `Record.to_list()`: the same nesting as fields, values and subvalues. */
  function RecordList(r: Record): (l: seq<seq<seq<seq<byte>>>>)
    ensures |l| == |r.fields|
    ensures forall i :: 0 <= i < |l| ==> l[i] == FieldList(r.fields[i])
  {
    seq(|r.fields|, i requires 0 <= i < |r.fields| => FieldList(r.fields[i]))
  }

  /** Every position `get` can reach holds the same bytes in `to_list`. */
  lemma ListAgreesWithGet(r: Record, f: nat, v: nat, s: nat)
    requires RecordGet(r, f, v, s).Success? && RecordGet(r, f, v, s).value.Some?
    ensures f < |RecordList(r)| && v < |RecordList(r)[f]| && s < |RecordList(r)[f][v]|
    ensures RecordList(r)[f][v][s] == RecordGet(r, f, v, s).value.value
  {
    GetInRange(r, f, v, s);
  }
}
