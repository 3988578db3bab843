/**
 The read and write functions that the Thrift compiler generates, with the fields of a class as a table: which ids it
 knows, of which types, in which order they are written, and which only when set.
 */
module ThriftStructs {
  import opened MachineInts
  import opened Options
  import opened BinaryProtocol

  datatype FieldType =
    | ByteType
    | I32Type
    | I64Type
    | StringType
    | StructType(fields: seq<Field>)

  datatype Field = Field(id: i16, fieldType: FieldType, optional: bool)

  /** The TType constants T_BYTE, T_I32, T_I64, T_STRING and T_STRUCT. */
  function Code(t: FieldType): i8 {
    match t
    case ByteType => 3
    case I32Type => 8
    case I64Type => 10
    case StringType => 11
    case StructType(_) => 12
  }

  datatype FieldValue =
    | ByteValue(b: i8)
    | I32Value(i: i32)
    | I64Value(l: i64)
    | StringValue(str: seq<byte>)
    | StructValue(s: Struct)

  /** An object: its members by field id, and the ids whose __isset flag is up. */
  datatype Struct = Struct(values: map<i16, FieldValue>, isset: set<i16>)

  predicate DistinctIds(fields: seq<Field>) {
    forall i, j | 0 <= i < j < |fields| :: fields[i].id != fields[j].id
  }

  /** A member of the type, with strings of at most maxSize bytes when that is not negative. */
  predicate Fits(t: FieldType, v: FieldValue, maxSize: int)
    decreases t
  {
    match t
    case ByteType => v.ByteValue?
    case I32Type => v.I32Value?
    case I64Type => v.I64Value?
    case StringType => v.StringValue? && (maxSize >= 0 ==> |v.str| <= maxSize)
    case StructType(fields) => v.StructValue? && DistinctIds(fields) && AllFit(fields, v.s, maxSize)
  }

  predicate AllFit(fields: seq<Field>, s: Struct, maxSize: int)
    decreases fields
  {
    if fields == [] then true else MemberFits(fields[0], s, maxSize) && AllFit(fields[1..], s, maxSize)
  }

  predicate MemberFits(f: Field, s: Struct, maxSize: int)
    decreases f
  {
    f.id in s.values && Fits(f.fieldType, s.values[f.id], maxSize)
  }

  /**
   What a generated read takes from its protocol: the string limit, and TProtocol::skip, which says how many bytes a
   value of some type code takes at the front of the input, or throws.
   */
  datatype Reader = Reader(stringLimit: i32, skip: (i8, seq<byte>) -> Option<nat>)

  /** The sizes a reader accepts. */
  function MaxSize(rd: Reader): (m: i32)
    ensures m > 0
  {
    if rd.stringLimit > 0 then rd.stringLimit else 0x7FFF_FFFF
  }

  /** What the default constructor leaves. */
  function Default(t: FieldType): FieldValue
    decreases t
  {
    match t
    case ByteType => ByteValue(0)
    case I32Type => I32Value(0)
    case I64Type => I64Value(0)
    case StringType => StringValue([])
    case StructType(fields) => StructValue(Fresh(fields))
  }

  function Fresh(fields: seq<Field>): Struct
    decreases fields
  {
    if fields == [] then Struct(map[], {})
    else Struct(Fresh(fields[1..]).values[fields[0].id := DefaultMember(fields[0])], {})
  }

  function DefaultMember(f: Field): FieldValue
    decreases f
  {
    Default(f.fieldType)
  }

  /** operator ==: a member that is not optional counts whether set or not, an optional one only when set. */
  predicate Equal(t: FieldType, v: FieldValue, w: FieldValue)
    decreases t
  {
    match t
    case StructType(fields) => v.StructValue? && w.StructValue? && AllEqual(fields, v.s, w.s)
    case _ => v == w
  }

  predicate AllEqual(fields: seq<Field>, s: Struct, o: Struct)
    decreases fields
  {
    fields == [] || (MemberEqual(fields[0], s, o) && AllEqual(fields[1..], s, o))
  }

  predicate MemberEqual(f: Field, s: Struct, o: Struct)
    decreases f
  {
    && (f.optional ==> (f.id in s.isset <==> f.id in o.isset))
    && (!f.optional || f.id in s.isset ==>
          f.id in s.values && f.id in o.values && Equal(f.fieldType, s.values[f.id], o.values[f.id]))
  }

  // ----- writing -----

  function ValueText(t: FieldType, v: FieldValue): seq<byte>
    requires Fits(t, v, -1)
    decreases t
  {
    match t
    case ByteType => ByteText(v.b)
    case I32Type => Network32(v.i)
    case I64Type => Network64(v.l)
    case StringType => StringText(v.str)
    case StructType(fields) => FieldsText(fields, v.s) + ByteText(T_STOP)
  }

  function FieldText(f: Field, s: Struct): seq<byte>
    requires MemberFits(f, s, -1)
    decreases f
  {
    ByteText(Code(f.fieldType)) + I16Text(f.id) + ValueText(f.fieldType, s.values[f.id])
  }

  predicate Written(f: Field, s: Struct) { !f.optional || f.id in s.isset }

  function FieldsText(fields: seq<Field>, s: Struct): seq<byte>
    requires AllFit(fields, s, -1)
    decreases fields
  {
    if fields == [] then []
    else
      (if Written(fields[0], s) then FieldText(fields[0], s) else []) + FieldsText(fields[1..], s)
  }

  // ----- reading -----

  function FieldIndex(fields: seq<Field>, id: i16): (i: nat)
    ensures i <= |fields| && (i < |fields| ==> fields[i].id == id)
    ensures forall j | 0 <= j < i :: fields[j].id != id
  {
    if fields == [] || fields[0].id == id then 0 else 1 + FieldIndex(fields[1..], id)
  }

  /** The branch of the switch that takes a field with this id and type code. */
  predicate Known(fields: seq<Field>, id: i16, code: i8) {
    var i := FieldIndex(fields, id);
    i < |fields| && Code(fields[i].fieldType) == code
  }

  /** The member a struct is read into. */
  function Nested(cur: Struct, id: i16): Struct {
    if id in cur.values && cur.values[id].StructValue? then cur.values[id].s else Struct(map[], {})
  }

  function Assigned(cur: Struct, id: i16, v: FieldValue): Struct {
    Struct(cur.values[id := v], cur.isset + {id})
  }

  function ParseValue(t: FieldType, nested: Struct, s: seq<byte>, rd: Reader): (r: Read<FieldValue>)
    ensures r.Value? ==> |r.rest| < |s|
    decreases |s|, 1
  {
    match t
    case ByteType => var (v, rest) :- ParseByte(s); Value(ByteValue(v), rest)
    case I32Type => var (v, rest) :- ParseI32(s); Value(I32Value(v), rest)
    case I64Type => var (v, rest) :- ParseI64(s); Value(I64Value(v), rest)
    case StringType => var (v, rest) :- ParseString(s, rd.stringLimit); Value(StringValue(v), rest)
    case StructType(fields) => var (v, rest) :- ParseFields(fields, nested, s, rd); Value(StructValue(v), rest)
  }

  /** The loop of a generated read, into the object cur. */
  function ParseFields(fields: seq<Field>, cur: Struct, s: seq<byte>, rd: Reader): (r: Read<Struct>)
    ensures r.Value? ==> |r.rest| < |s|
    decreases |s|, 0
  {
    var ((code, id), s1) :- ParseFieldBegin(s);
    if code == T_STOP then Value(cur, s1)
    else if !Known(fields, id, code) then
      match rd.skip(code, s1)
      case None => Throws(SkipThrows)
      case Some(n) => if n > |s1| then Throws(EndOfFile) else ParseFields(fields, cur, s1[n..], rd)
    else
      var (v, s2) :- ParseValue(fields[FieldIndex(fields, id)].fieldType, Nested(cur, id), s1, rd);
      ParseFields(fields, Assigned(cur, id, v), s2, rd)
  }

  // ----- what is read back -----

  /** The member that a reader makes of a written one; a struct is read into the nested object. */
  function ReadValue(t: FieldType, nested: Struct, v: FieldValue): FieldValue
    requires Fits(t, v, -1)
    decreases t
  {
    if t.StructType? then StructValue(ReadFields(t.fields, nested, v.s)) else v
  }

  function ReadMember(f: Field, cur: Struct, s: Struct): Struct
    requires MemberFits(f, s, -1)
    decreases f
  {
    Assigned(cur, f.id, ReadValue(f.fieldType, Nested(cur, f.id), s.values[f.id]))
  }

  function ReadFields(fields: seq<Field>, cur: Struct, s: Struct): Struct
    requires AllFit(fields, s, -1)
    decreases fields
  {
    if fields == [] then cur
    else ReadFields(fields[1..], if Written(fields[0], s) then ReadMember(fields[0], cur, s) else cur, s)
  }

  lemma FitsAny(t: FieldType, v: FieldValue, maxSize: int)
    requires Fits(t, v, maxSize)
    ensures Fits(t, v, -1)
    decreases t
  {
    if t.StructType? {
      AllFitAny(t.fields, v.s, maxSize);
    }
  }

  lemma MemberFitsAny(f: Field, s: Struct, maxSize: int)
    requires MemberFits(f, s, maxSize)
    ensures MemberFits(f, s, -1)
    decreases f
  {
    FitsAny(f.fieldType, s.values[f.id], maxSize);
  }

  lemma AllFitAny(fields: seq<Field>, s: Struct, maxSize: int)
    requires AllFit(fields, s, maxSize)
    ensures AllFit(fields, s, -1)
    decreases fields
  {
    if fields != [] {
      MemberFitsAny(fields[0], s, maxSize);
      AllFitAny(fields[1..], s, maxSize);
    }
  }

  lemma IndexOf(fields: seq<Field>, f: Field)
    requires DistinctIds(fields) && f in fields
    ensures var i := FieldIndex(fields, f.id); i < |fields| && fields[i] == f
    ensures Known(fields, f.id, Code(f.fieldType))
  {
    var j :| 0 <= j < |fields| && fields[j] == f;
  }

  lemma FieldBeginReadBack(code: i8, id: i16, rest: seq<byte>)
    requires code != T_STOP
    ensures ParseFieldBegin(ByteText(code) + I16Text(id) + rest) == Value((code, id), rest)
  {
    hide ParseByte, ParseI16, ByteText, I16Text;
    ByteReadBack(code, I16Text(id) + rest);
    I16ReadBack(id, rest);
    assert ByteText(code) + I16Text(id) + rest == ByteText(code) + (I16Text(id) + rest);
  }

  lemma StopReadBack(rest: seq<byte>)
    ensures ParseFieldBegin(ByteText(T_STOP) + rest) == Value((T_STOP, 0), rest)
  {
    ByteReadBack(T_STOP, rest);
  }

  /** Reading undoes writing, member by member. */
  lemma {:induction false} ValueReadBack(t: FieldType, nested: Struct, v: FieldValue, rest: seq<byte>, rd: Reader)
    requires Fits(t, v, MaxSize(rd))
    ensures Fits(t, v, -1)
    ensures ParseValue(t, nested, ValueText(t, v) + rest, rd) == Value(ReadValue(t, nested, v), rest)
    decreases t
  {
    FitsAny(t, v, MaxSize(rd));
    hide ParseByte, ParseI32, ParseI64, ParseString, ByteText, Network32, Network64, StringText;
    match t
    case ByteType => ByteReadBack(v.b, rest);
    case I32Type => I32ReadBack(v.i, rest);
    case I64Type => I64ReadBack(v.l, rest);
    case StringType => StringReadBack(v.str, rest, rd.stringLimit);
    case StructType(fields) =>
      FieldsReadBack(fields, fields, nested, v.s, rest, rd);
      assert FieldsText(fields, v.s) + ByteText(T_STOP) + rest == FieldsText(fields, v.s) + (ByteText(T_STOP) + rest);
  }

  lemma {:induction false} MemberReadBack(
    all: seq<Field>, f: Field, cur: Struct, s: Struct, rest: seq<byte>, rd: Reader
  )
    requires DistinctIds(all) && f in all && MemberFits(f, s, MaxSize(rd))
    ensures MemberFits(f, s, -1)
    ensures ParseFields(all, cur, FieldText(f, s) + rest, rd)
         == ParseFields(all, ReadMember(f, cur, s), rest, rd)
    decreases f
  {
    MemberFitsAny(f, s, MaxSize(rd));
    var v := s.values[f.id];
    ValueReadBack(f.fieldType, Nested(cur, f.id), v, rest, rd);
    MemberParsed(all, f, cur, s, ValueText(f.fieldType, v), rest, rd);
    assert FieldText(f, s) + rest
        == ByteText(Code(f.fieldType)) + I16Text(f.id) + (ValueText(f.fieldType, v) + rest);
  }

  lemma {:induction false} FieldsReadBack(
    all: seq<Field>, fields: seq<Field>, cur: Struct, s: Struct, rest: seq<byte>, rd: Reader
  )
    requires DistinctIds(all) && (forall f | f in fields :: f in all) && AllFit(fields, s, MaxSize(rd))
    ensures AllFit(fields, s, -1)
    ensures ParseFields(all, cur, FieldsText(fields, s) + (ByteText(T_STOP) + rest), rd)
         == Value(ReadFields(fields, cur, s), rest)
    decreases fields
  {
    hide *;
    AllFitAny(fields, s, MaxSize(rd));
    var stop := ByteText(T_STOP) + rest;
    if fields == [] {
      NoFieldsReadBack(all, fields, cur, s, rest, rd);
    } else {
      var f := fields[0];
      FieldsStep(fields, cur, s, stop, MaxSize(rd));
      if Written(f, s) {
        MemberReadBack(all, f, cur, s, FieldsText(fields[1..], s) + stop, rd);
        FieldsReadBack(all, fields[1..], ReadMember(f, cur, s), s, rest, rd);
      } else {
        FieldsReadBack(all, fields[1..], cur, s, rest, rd);
      }
    }
  }

  lemma NoFieldsReadBack(all: seq<Field>, none: seq<Field>, cur: Struct, s: Struct, rest: seq<byte>, rd: Reader)
    requires none == []
    ensures ParseFields(all, cur, FieldsText(none, s) + (ByteText(T_STOP) + rest), rd)
         == Value(ReadFields(none, cur, s), rest)
  {
    StopReadBack(rest);
    assert FieldsText(none, s) + (ByteText(T_STOP) + rest) == ByteText(T_STOP) + rest;
  }

  lemma FieldsStep(fields: seq<Field>, cur: Struct, s: Struct, tail: seq<byte>, maxSize: int)
    requires fields != [] && AllFit(fields, s, maxSize)
    ensures AllFit(fields, s, -1) && AllFit(fields[1..], s, maxSize) && AllFit(fields[1..], s, -1)
    ensures MemberFits(fields[0], s, maxSize) && MemberFits(fields[0], s, -1)
    ensures FieldsText(fields, s) + tail
         == if Written(fields[0], s) then FieldText(fields[0], s) + (FieldsText(fields[1..], s) + tail)
            else FieldsText(fields[1..], s) + tail
    ensures ReadFields(fields, cur, s)
         == ReadFields(fields[1..], if Written(fields[0], s) then ReadMember(fields[0], cur, s) else cur, s)
  {
    AllFitAny(fields, s, maxSize);
    hide FieldText, Written;
    assert [] + FieldsText(fields[1..], s) == FieldsText(fields[1..], s);
  }

  // ----- any order of the fields -----

  function ReadOrder(order: seq<Field>, cur: Struct, s: Struct): Struct
    requires forall f | f in order :: MemberFits(f, s, -1)
  {
    if order == [] then cur else ReadOrder(order[1..], ReadMember(order[0], cur, s), s)
  }

  /** The fields that are written, in the writer's order. */
  function WrittenFields(fields: seq<Field>, s: Struct): seq<Field> {
    if fields == [] then []
    else (if Written(fields[0], s) then [fields[0]] else []) + WrittenFields(fields[1..], s)
  }

  /** Under ids that an order does not name, nothing changes. */
  lemma {:induction false} OrderLacks(order: seq<Field>, cur: Struct, s: Struct, id: i16)
    requires forall f | f in order :: MemberFits(f, s, -1) && f.id != id
    ensures var r := ReadOrder(order, cur, s);
            && (id in r.isset <==> id in cur.isset) && (id in r.values <==> id in cur.values)
            && (id in r.values ==> r.values[id] == cur.values[id])
  {
    if order != [] {
      OrderLacks(order[1..], ReadMember(order[0], cur, s), s, id);
    }
  }

  /** Each field of an order leaves its own member and flag. */
  lemma {:induction false} OrderHas(order: seq<Field>, cur: Struct, s: Struct, f: Field)
    requires DistinctIds(order) && f in order && forall g | g in order :: MemberFits(g, s, -1)
    ensures var r := ReadOrder(order, cur, s);
            && f.id in r.isset && f.id in r.values
            && r.values[f.id] == ReadValue(f.fieldType, Nested(cur, f.id), s.values[f.id])
  {
    var g, rest := order[0], order[1..];
    if f == g {
      assert forall h | h in rest :: h.id != f.id;
      OrderLacks(rest, ReadMember(g, cur, s), s, f.id);
    } else {
      OrderHas(rest, ReadMember(g, cur, s), s, f);
    }
  }

  /** The order of the fields does not matter. */
  lemma OrderIrrelevant(order: seq<Field>, other: seq<Field>, cur: Struct, s: Struct)
    requires DistinctIds(order) && DistinctIds(other) && forall f :: f in order <==> f in other
    requires forall f | f in order :: MemberFits(f, s, -1)
    ensures ReadOrder(order, cur, s) == ReadOrder(other, cur, s)
  {
    var r, o := ReadOrder(order, cur, s), ReadOrder(other, cur, s);
    forall id
      ensures (id in r.isset <==> id in o.isset) && (id in r.values <==> id in o.values)
      ensures id in r.values ==> r.values[id] == o.values[id]
    {
      hide *;
      if f :| f in order && f.id == id {
        OrderHas(order, cur, s, f);
        OrderHas(other, cur, s, f);
      } else {
        OrderLacks(order, cur, s, id);
        OrderLacks(other, cur, s, id);
      }
    }
    assert r.values == o.values && r.isset == o.isset;
  }

  lemma {:induction false} WrittenMembers(fields: seq<Field>, s: Struct, f: Field)
    ensures f in WrittenFields(fields, s) <==> f in fields && Written(f, s)
  {
    if fields != [] {
      hide Written;
      assert f in fields <==> f == fields[0] || f in fields[1..];
      WrittenMembers(fields[1..], s, f);
    }
  }

  lemma {:induction false} WrittenDistinct(fields: seq<Field>, s: Struct)
    requires DistinctIds(fields)
    ensures DistinctIds(WrittenFields(fields, s))
  {
    if fields != [] {
      hide Written;
      WrittenDistinct(fields[1..], s);
      var rest := WrittenFields(fields[1..], s);
      forall f | f in rest
        ensures f.id != fields[0].id
      {
        WrittenMembers(fields[1..], s, f);
      }
      assert forall i | 0 <= i < |rest| :: rest[i] in rest;
    }
  }

  lemma {:induction false} AllFitMember(fields: seq<Field>, s: Struct, f: Field, maxSize: int)
    requires AllFit(fields, s, maxSize) && f in fields
    ensures MemberFits(f, s, maxSize)
  {
    if f != fields[0] {
      AllFitMember(fields[1..], s, f, maxSize);
    }
  }

  lemma WrittenFit(fields: seq<Field>, s: Struct, maxSize: int)
    requires AllFit(fields, s, maxSize)
    ensures forall f | f in WrittenFields(fields, s) :: MemberFits(f, s, maxSize) && MemberFits(f, s, -1)
  {
    forall f | f in WrittenFields(fields, s)
      ensures MemberFits(f, s, maxSize) && MemberFits(f, s, -1)
    {
      WrittenMembers(fields, s, f);
      AllFitMember(fields, s, f, maxSize);
      MemberFitsAny(f, s, maxSize);
    }
  }

  /** The writer's order is one of the orders. */
  lemma {:induction false} WriterOrder(fields: seq<Field>, cur: Struct, s: Struct)
    requires AllFit(fields, s, -1)
    ensures forall f | f in WrittenFields(fields, s) :: MemberFits(f, s, -1)
    ensures ReadFields(fields, cur, s) == ReadOrder(WrittenFields(fields, s), cur, s)
  {
    WrittenFit(fields, s, -1);
    if fields != [] {
      var f := fields[0];
      var next := if Written(f, s) then ReadMember(f, cur, s) else cur;
      WriterOrder(fields[1..], next, s);
      if Written(f, s) {
        assert WrittenFields(fields, s)[1..] == WrittenFields(fields[1..], s);
      } else {
        assert WrittenFields(fields, s) == WrittenFields(fields[1..], s);
      }
    }
  }

  // ----- what is read equals what was written -----

  lemma {:induction false} FreshNested(fields: seq<Field>, f: Field)
    requires DistinctIds(fields) && f in fields
    ensures f.id in Fresh(fields).values && Fresh(fields).values[f.id] == Default(f.fieldType)
    ensures Fresh(fields).isset == {}
  {
    if f != fields[0] {
      FreshNested(fields[1..], f);
    }
  }

  lemma {:induction false} ValueEqual(t: FieldType, v: FieldValue)
    requires Fits(t, v, -1)
    ensures Equal(t, ReadValue(t, if t.StructType? then Fresh(t.fields) else Struct(map[], {}), v), v)
    decreases t
  {
    if t.StructType? {
      FieldsEqual(t.fields, t.fields, v.s);
    }
  }

  lemma {:induction false} MemberIsEqual(all: seq<Field>, f: Field, s: Struct)
    requires DistinctIds(all) && AllFit(all, s, -1) && f in all
    ensures MemberEqual(f, ReadFields(all, Fresh(all), s), s)
    ensures Written(f, s) <==> f.id in ReadFields(all, Fresh(all), s).isset
    decreases f
  {
    var fresh', order := Fresh(all), WrittenFields(all, s);
    AllFitMember(all, s, f, -1);
    ValueEqual(f.fieldType, s.values[f.id]);
    FreshNested(all, f);
    WriterOrder(all, fresh', s);
    WrittenDistinct(all, s);
    WrittenMembers(all, s, f);
    NestedDefault(fresh', f);
    if Written(f, s) {
      hide ReadFields, ReadOrder, WrittenFields, Fresh, AllFit, Equal, ReadValue, Nested;
      OrderHas(order, fresh', s, f);
    } else {
      forall g | g in order
        ensures g.id != f.id
      {
        WrittenMembers(all, s, g);
      }
      OrderLacks(order, fresh', s, f.id);
    }
  }

  lemma NestedDefault(cur: Struct, f: Field)
    requires f.id in cur.values && cur.values[f.id] == Default(f.fieldType)
    ensures forall v | Fits(f.fieldType, v, -1) ::
              ReadValue(f.fieldType, Nested(cur, f.id), v)
              == ReadValue(f.fieldType, if f.fieldType.StructType? then Fresh(f.fieldType.fields) else Struct(map[], {}), v)
  {
  }

  lemma {:induction false} FieldsEqual(all: seq<Field>, fields: seq<Field>, s: Struct)
    requires DistinctIds(all) && AllFit(all, s, -1) && forall f | f in fields :: f in all
    ensures AllEqual(fields, ReadFields(all, Fresh(all), s), s)
    decreases fields
  {
    if fields != [] {
      hide ReadFields, Fresh, AllFit, MemberEqual;
      MemberIsEqual(all, fields[0], s);
      FieldsEqual(all, fields[1..], s);
    }
  }

  /**
   Reading what was written, followed by anything, into a fresh object gives an object equal to the written one, with
   the flags of the written fields up, and takes the written bytes and no more.
   */
  lemma StructReadBack(fields: seq<Field>, s: Struct, rest: seq<byte>, rd: Reader)
    requires DistinctIds(fields) && AllFit(fields, s, MaxSize(rd))
    ensures AllFit(fields, s, -1)
    ensures var r := ReadFields(fields, Fresh(fields), s);
            && ParseFields(fields, Fresh(fields), FieldsText(fields, s) + ByteText(T_STOP) + rest, rd) == Value(r, rest)
            && AllEqual(fields, r, s) && forall f | f in fields :: Written(f, s) <==> f.id in r.isset
  {
    FieldsReadBack(fields, fields, Fresh(fields), s, rest, rd);
    FieldsEqual(fields, fields, s);
    forall f | f in fields {
      MemberIsEqual(fields, f, s);
    }
    assert FieldsText(fields, s) + (ByteText(T_STOP) + rest) == FieldsText(fields, s) + ByteText(T_STOP) + rest;
  }

  // ----- any arrangement of the text -----

  /** What may stand between two field headers: a written member, or a field that the class does not know. */
  datatype Placed =
    | Member(field: Field, inner: seq<Placed>)
    | Foreign(code: i8, id: i16, content: seq<byte>)

  function MembersOf(order: seq<Placed>): seq<Field> {
    if order == [] then []
    else (if order[0].Member? then [order[0].field] else []) + MembersOf(order[1..])
  }

  /** A struct member's own text is arranged by inner; any other member has only one text. */
  function PlacedText(p: Placed, s: Struct): seq<byte>
    decreases p
  {
    match p
    case Foreign(code, id, content) => ByteText(code) + I16Text(id) + content
    case Member(f, inner) =>
      if !MemberFits(f, s, -1) then []
      else if f.fieldType.StructType? && s.values[f.id].StructValue? then
        ByteText(Code(f.fieldType)) + I16Text(f.id) + (ArrangedText(inner, s.values[f.id].s) + ByteText(T_STOP))
      else FieldText(f, s)
  }

  function ArrangedText(order: seq<Placed>, s: Struct): seq<byte>
    decreases order
  {
    if order == [] then [] else PlacedText(order[0], s) + ArrangedText(order[1..], s)
  }

  /** A written member, arranged in turn, or a field of unknown id or other type whose content skip passes over. */
  ghost predicate Fitting(p: Placed, fields: seq<Field>, s: Struct, rd: Reader)
    decreases p
  {
    match p
    case Foreign(code, id, content) =>
      && code != T_STOP && !Known(fields, id, code)
      && forall tail :: rd.skip(code, content + tail) == Some(|content|)
    case Member(f, inner) =>
      && f in fields && Written(f, s)
      && (f.fieldType.StructType? ==>
            && f.id in s.values && s.values[f.id].StructValue?
            && Arranges(inner, f.fieldType.fields, s.values[f.id].s, rd))
  }

  ghost predicate AllFitting(order: seq<Placed>, fields: seq<Field>, s: Struct, rd: Reader)
    decreases order, 0
  {
    if order == [] then true else Fitting(order[0], fields, s, rd) && AllFitting(order[1..], fields, s, rd)
  }

  /** Every written member stands in the order exactly once, at every depth, with foreign fields anywhere between. */
  ghost predicate Arranges(order: seq<Placed>, fields: seq<Field>, s: Struct, rd: Reader)
    decreases order, 1
  {
    && AllFitting(order, fields, s, rd) && DistinctIds(MembersOf(order))
    && forall f | f in fields && Written(f, s) :: f in MembersOf(order)
  }

  lemma {:induction false} FittingMembers(order: seq<Placed>, fields: seq<Field>, s: Struct, rd: Reader, f: Field)
    requires AllFitting(order, fields, s, rd) && f in MembersOf(order)
    ensures f in fields && Written(f, s)
  {
    if !(order[0].Member? && order[0].field == f) {
      FittingMembers(order[1..], fields, s, rd, f);
    }
  }

  lemma ForeignReadBack(
    all: seq<Field>, p: Placed, cur: Struct, s: Struct, rest: seq<byte>, rd: Reader
  )
    requires p.Foreign? && Fitting(p, all, s, rd)
    ensures ParseFields(all, cur, PlacedText(p, s) + rest, rd) == ParseFields(all, cur, rest, rd)
  {
    var text := p.content + rest;
    FieldBeginReadBack(p.code, p.id, text);
    assert PlacedText(p, s) + rest == ByteText(p.code) + I16Text(p.id) + text;
    assert text[|p.content|..] == rest;
    hide ParseFieldBegin, PlacedText, Known;
    assert rd.skip(p.code, text) == Some(|p.content|);
    ParseStep(all, cur, ByteText(p.code) + I16Text(p.id) + text, rd);
  }

  /** A struct member arranged anyhow reads as the same member. */
  lemma {:induction false} NestedReadBack(
    all: seq<Field>, p: Placed, cur: Struct, s: Struct, rest: seq<byte>, rd: Reader
  )
    requires DistinctIds(all) && p.Member? && Fitting(p, all, s, rd)
    requires MemberFits(p.field, s, MaxSize(rd)) && p.field.fieldType.StructType?
    ensures MemberFits(p.field, s, -1)
    ensures ParseFields(all, cur, PlacedText(p, s) + rest, rd) == ParseFields(all, ReadMember(p.field, cur, s), rest, rd)
    decreases p
  {
    hide *;
    NestedUnfolded(all, p, s, rd);
    var f := p.field;
    var v, nested := s.values[f.id], Nested(cur, f.id);
    var text := ArrangedText(p.inner, v.s) + ByteText(T_STOP);
    ArrangedReadBack(f.fieldType.fields, p.inner, nested, v.s, rest, rd);
    assert text + rest == ArrangedText(p.inner, v.s) + (ByteText(T_STOP) + rest);
    StructParsed(f.fieldType, nested, v, text + rest, rest, rd);
    MemberParsed(all, f, cur, s, text, rest, rd);
    assert PlacedText(p, s) + rest == ByteText(Code(f.fieldType)) + I16Text(f.id) + (text + rest);
  }

  lemma NestedUnfolded(all: seq<Field>, p: Placed, s: Struct, rd: Reader)
    requires p.Member? && Fitting(p, all, s, rd) && MemberFits(p.field, s, MaxSize(rd)) && p.field.fieldType.StructType?
    ensures var f, t := p.field, p.field.fieldType;
            && f in all && MemberFits(f, s, -1) && f.id in s.values && s.values[f.id].StructValue?
            && Fits(t, s.values[f.id], -1)
            && DistinctIds(t.fields) && AllFit(t.fields, s.values[f.id].s, MaxSize(rd))
            && Arranges(p.inner, t.fields, s.values[f.id].s, rd)
            && PlacedText(p, s)
               == ByteText(Code(t)) + I16Text(f.id) + (ArrangedText(p.inner, s.values[f.id].s) + ByteText(T_STOP))
  {
    MemberFitsAny(p.field, s, MaxSize(rd));
  }

  lemma StructParsed(t: FieldType, nested: Struct, v: FieldValue, text: seq<byte>, rest: seq<byte>, rd: Reader)
    requires t.StructType? && Fits(t, v, -1)
    requires ParseFields(t.fields, nested, text, rd) == Value(ReadFields(t.fields, nested, v.s), rest)
    ensures ParseValue(t, nested, text, rd) == Value(ReadValue(t, nested, v), rest)
  {
  }

  /** A field header and a text that parses as the member. */
  lemma MemberParsed(all: seq<Field>, f: Field, cur: Struct, s: Struct, text: seq<byte>, rest: seq<byte>, rd: Reader)
    requires DistinctIds(all) && f in all && MemberFits(f, s, -1)
    requires ParseValue(f.fieldType, Nested(cur, f.id), text + rest, rd)
          == Value(ReadValue(f.fieldType, Nested(cur, f.id), s.values[f.id]), rest)
    ensures ParseFields(all, cur, ByteText(Code(f.fieldType)) + I16Text(f.id) + (text + rest), rd)
         == ParseFields(all, ReadMember(f, cur, s), rest, rd)
  {
    FieldBeginReadBack(Code(f.fieldType), f.id, text + rest);
    IndexOf(all, f);
    hide ParseFieldBegin, ParseFields, ParseValue, ReadValue, Known, FieldIndex, Nested;
    ParseStep(all, cur, ByteText(Code(f.fieldType)) + I16Text(f.id) + (text + rest), rd);
  }

  /** Any arrangement of the written members reads as the writer's own. */
  lemma {:induction false} ArrangedReadBack(
    all: seq<Field>, order: seq<Placed>, cur: Struct, s: Struct, rest: seq<byte>, rd: Reader
  )
    requires DistinctIds(all) && AllFit(all, s, MaxSize(rd)) && Arranges(order, all, s, rd)
    ensures AllFit(all, s, -1)
    ensures ParseFields(all, cur, ArrangedText(order, s) + (ByteText(T_STOP) + rest), rd)
         == Value(ReadFields(all, cur, s), rest)
    decreases order, 1
  {
    AllFitAny(all, s, MaxSize(rd));
    WrittenFit(all, s, MaxSize(rd));
    WrittenDistinct(all, s);
    forall f
      ensures f in WrittenFields(all, s) <==> f in MembersOf(order)
    {
      WrittenMembers(all, s, f);
      if f in MembersOf(order) {
        FittingMembers(order, all, s, rd, f);
      }
    }
    hide Written, WrittenFields;
    FittingReadBack(all, order, cur, s, rest, rd);
    WriterOrder(all, cur, s);
    OrderIrrelevant(MembersOf(order), WrittenFields(all, s), cur, s);
  }

  lemma {:induction false} FittingReadBack(
    all: seq<Field>, order: seq<Placed>, cur: Struct, s: Struct, rest: seq<byte>, rd: Reader
  )
    requires DistinctIds(all) && AllFit(all, s, MaxSize(rd)) && AllFitting(order, all, s, rd)
    ensures forall f | f in MembersOf(order) :: MemberFits(f, s, -1)
    ensures ParseFields(all, cur, ArrangedText(order, s) + (ByteText(T_STOP) + rest), rd)
         == Value(ReadOrder(MembersOf(order), cur, s), rest)
    decreases order, 0
  {
    MembersFit(all, order, s, rd);
    var stop := ByteText(T_STOP) + rest;
    if order == [] {
      StopReadBack(rest);
      assert ArrangedText(order, s) + stop == stop;
    } else {
      var p, tail := order[0], ArrangedText(order[1..], s) + stop;
      assert ArrangedText(order, s) + stop == PlacedText(p, s) + tail;
      assert Fitting(p, all, s, rd) && AllFitting(order[1..], all, s, rd);
      match p
      case Foreign(_, _, _) =>
        assert MembersOf(order) == MembersOf(order[1..]);
        hide *;
        ForeignReadBack(all, p, cur, s, tail, rd);
        FittingReadBack(all, order[1..], cur, s, rest, rd);
      case Member(f, inner) =>
        assert MembersOf(order) == [f] + MembersOf(order[1..]) && MembersOf(order)[1..] == MembersOf(order[1..]);
        AllFitMember(all, s, f, MaxSize(rd));
        MemberFitsAny(f, s, MaxSize(rd));
        if f.fieldType.StructType? {
          NestedReadBack(all, p, cur, s, tail, rd);
        } else {
          MemberReadBack(all, f, cur, s, tail, rd);
        }
        FittingReadBack(all, order[1..], ReadMember(f, cur, s), s, rest, rd);
    }
  }

  /** The writer's own arrangement. */
  function OwnOrder(fields: seq<Field>, s: Struct): seq<Placed>
    decreases fields
  {
    if fields == [] then []
    else (if Written(fields[0], s) then [Member(fields[0], OwnInner(fields[0], s))] else []) + OwnOrder(fields[1..], s)
  }

  function OwnInner(f: Field, s: Struct): seq<Placed>
    decreases f
  {
    if f.fieldType.StructType? && f.id in s.values && s.values[f.id].StructValue? then
      OwnOrder(f.fieldType.fields, s.values[f.id].s)
    else []
  }

  lemma {:induction false} OwnFitting(all: seq<Field>, fields: seq<Field>, s: Struct, rd: Reader)
    requires AllFit(fields, s, -1) && forall f | f in fields :: f in all
    ensures MembersOf(OwnOrder(fields, s)) == WrittenFields(fields, s)
    ensures AllFitting(OwnOrder(fields, s), all, s, rd)
    ensures ArrangedText(OwnOrder(fields, s), s) == FieldsText(fields, s)
    decreases fields, 0
  {
    if fields != [] {
      var f, rest := fields[0], OwnOrder(fields[1..], s);
      OwnFitting(all, fields[1..], s, rd);
      OwnMember(all, f, s, rd);
      if Written(f, s) {
        assert OwnOrder(fields, s)[0] == Member(f, OwnInner(f, s)) && OwnOrder(fields, s)[1..] == rest;
      } else {
        assert OwnOrder(fields, s) == rest && WrittenFields(fields, s) == WrittenFields(fields[1..], s);
        assert [] + FieldsText(fields[1..], s) == FieldsText(fields[1..], s);
      }
    }
  }

  lemma {:induction false} OwnMember(all: seq<Field>, f: Field, s: Struct, rd: Reader)
    requires MemberFits(f, s, -1) && f in all
    ensures Written(f, s) ==> Fitting(Member(f, OwnInner(f, s)), all, s, rd)
    ensures PlacedText(Member(f, OwnInner(f, s)), s) == FieldText(f, s)
    decreases f
  {
    if f.fieldType.StructType? {
      WriterArranges(f.fieldType.fields, s.values[f.id].s, rd);
    }
  }

  /** The writer's text is one of the arrangements. */
  lemma {:induction false} WriterArranges(fields: seq<Field>, s: Struct, rd: Reader)
    requires DistinctIds(fields) && AllFit(fields, s, -1)
    ensures Arranges(OwnOrder(fields, s), fields, s, rd)
    ensures ArrangedText(OwnOrder(fields, s), s) == FieldsText(fields, s)
    decreases fields, 1
  {
    OwnFitting(fields, fields, s, rd);
    WrittenDistinct(fields, s);
    forall f | f in fields && Written(f, s)
      ensures f in WrittenFields(fields, s)
    {
      WrittenMembers(fields, s, f);
    }
  }

  lemma MembersFit(all: seq<Field>, order: seq<Placed>, s: Struct, rd: Reader)
    requires AllFit(all, s, MaxSize(rd)) && AllFitting(order, all, s, rd)
    ensures forall f | f in MembersOf(order) :: MemberFits(f, s, -1)
  {
    forall f | f in MembersOf(order)
      ensures MemberFits(f, s, -1)
    {
      FittingMembers(order, all, s, rd, f);
      AllFitMember(all, s, f, MaxSize(rd));
      MemberFitsAny(f, s, MaxSize(rd));
    }
  }

  /**
   The same object is read when the written fields stand in any other order, those of nested objects too, and when
   fields that the classes do not know stand between them.
   */
  lemma AnyOrderReadBack(fields: seq<Field>, order: seq<Placed>, s: Struct, rest: seq<byte>, rd: Reader)
    requires DistinctIds(fields) && AllFit(fields, s, MaxSize(rd)) && Arranges(order, fields, s, rd)
    ensures AllFit(fields, s, -1)
    ensures ParseFields(fields, Fresh(fields), ArrangedText(order, s) + ByteText(T_STOP) + rest, rd)
         == Value(ReadFields(fields, Fresh(fields), s), rest)
  {
    hide *;
    ArrangedReadBack(fields, order, Fresh(fields), s, rest, rd);
    assert ArrangedText(order, s) + (ByteText(T_STOP) + rest) == ArrangedText(order, s) + ByteText(T_STOP) + rest;
  }

  /** Equality and fitting are member by member. */
  lemma {:induction false} AllEqualMembers(fields: seq<Field>, s: Struct, o: Struct)
    ensures AllEqual(fields, s, o) <==> forall f | f in fields :: MemberEqual(f, s, o)
  {
    if fields != [] {
      AllEqualMembers(fields[1..], s, o);
      assert fields[0] in fields && forall f | f in fields[1..] :: f in fields;
      assert AllEqual(fields, s, o) <==> MemberEqual(fields[0], s, o) && AllEqual(fields[1..], s, o);
    }
  }

  lemma {:induction false} AllFitMembers(fields: seq<Field>, s: Struct, maxSize: int)
    ensures AllFit(fields, s, maxSize) <==> forall f | f in fields :: MemberFits(f, s, maxSize)
  {
    if fields != [] {
      AllFitMembers(fields[1..], s, maxSize);
      assert fields[0] in fields && forall f | f in fields[1..] :: f in fields;
      assert AllFit(fields, s, maxSize) <==> MemberFits(fields[0], s, maxSize) && AllFit(fields[1..], s, maxSize);
    }
  }

  // ----- the generated functions -----

  class Record {
    const fields: seq<Field>
    var values: map<i16, FieldValue>
    var isset: set<i16>

    ghost function State(): Struct
      reads this
    {
      Struct(values, isset)
    }

    constructor (fields: seq<Field>, s: Struct)
      ensures this.fields == fields && State() == s
    {
      this.fields, values, isset := fields, s.values, s.isset;
    }

    method Write(oprot: Protocol) returns (xfer: u32)
      requires AllFit(fields, State(), -1)
      modifies oprot`data
      ensures oprot.data == old(oprot.data) + (FieldsText(fields, State()) + ByteText(T_STOP))
      ensures xfer == Low32(|FieldsText(fields, State()) + ByteText(T_STOP)|)
      decreases fields, 1
    {
      var s := Struct(values, isset);
      xfer := WriteFields(fields, s, oprot);
      ghost var text := FieldsText(fields, s);
      var n := oprot.WriteFieldStop();
      LowSum(|text|, 1);
      xfer := Low32(xfer as int + n);
    }

    /** The loop of a generated read. */
    method Read(iprot: Protocol, skip: (i8, seq<byte>) -> Option<nat>) returns (xfer: u32, r: Option<Error>)
      modifies this, iprot`data
      decreases |iprot.data|, 0
      ensures match ParseFields(fields, old(State()), old(iprot.data), Reader(iprot.stringLimit, skip))
              case Throws(error) => r == Some(error)
              case Value(s, rest) =>
                r == None && State() == s && iprot.data == rest && xfer == Low32(|old(iprot.data)| - |rest|)
    {
      hide ParseFields, ParseFieldBegin, ParseValue, FieldIndex, Known, Nested, Low32;
      xfer := 0;
      NoCarry(0);
      while true
        invariant ParseFields(fields, old(State()), old(iprot.data), Reader(iprot.stringLimit, skip))
               == ParseFields(fields, State(), iprot.data, Reader(iprot.stringLimit, skip))
        invariant |iprot.data| <= |old(iprot.data)| && xfer == Low32(|old(iprot.data)| - |iprot.data|)
        decreases |iprot.data|
      {
        ParseStep(fields, Struct(values, isset), iprot.data, Reader(iprot.stringLimit, skip));
        ghost var read := |old(iprot.data)| - |iprot.data|;
        var n, begin := iprot.ReadFieldBegin();
        if begin.Throws? {
          return xfer, Some(begin.error);
        }
        LowSum(read, n);
        xfer := Low32(xfer as int + n);
        read := read + n;
        var (code, id) := begin.value;
        if code == T_STOP {
          return xfer, None;
        }
        KnownIndex(fields, id, code);
        if !Known(fields, id, code) {
          var m, error := SkipFrom(code, iprot, skip);
          if error.Some? {
            return xfer, error;
          }
          LowSum(read, |begin.rest| - |iprot.data|);
          xfer := Low32(xfer as int + m);
        } else {
          var m, v := ReadValueFrom(fields[FieldIndex(fields, id)].fieldType, Nested(Struct(values, isset), id), iprot, skip);
          if v.Throws? {
            return xfer, Some(v.error);
          }
          LowSum(read, |begin.rest| - |v.rest|);
          xfer := Low32(xfer as int + m);
          values, isset := values[id := v.value], isset + {id};
        }
      }
    }
  }

  lemma KnownIndex(fields: seq<Field>, id: i16, code: i8)
    ensures Known(fields, id, code) ==> FieldIndex(fields, id) < |fields|
  {
  }

  lemma ParseStep(fields: seq<Field>, cur: Struct, s: seq<byte>, rd: Reader)
    ensures var begin, all := ParseFieldBegin(s), ParseFields(fields, cur, s, rd);
            if begin.Throws? then all == Throws(begin.error)
            else if begin.value.0 == T_STOP then all == Value(cur, begin.rest)
            else if !Known(fields, begin.value.1, begin.value.0) then
              var taken := rd.skip(begin.value.0, begin.rest);
              if taken.None? then all == Throws(SkipThrows)
              else if taken.value > |begin.rest| then all == Throws(EndOfFile)
              else all == ParseFields(fields, cur, begin.rest[taken.value..], rd)
            else
              var id := begin.value.1;
              var v := ParseValue(fields[FieldIndex(fields, id)].fieldType, Nested(cur, id), begin.rest, rd);
              if v.Throws? then all == Throws(v.error)
              else all == ParseFields(fields, Assigned(cur, id, v.value), v.rest, rd)
  {
  }

  /** The call of skip. */
  method SkipFrom(code: i8, iprot: Protocol, skip: (i8, seq<byte>) -> Option<nat>) returns (xfer: u32, error: Option<Error>)
    modifies iprot`data
    ensures var taken := skip(code, old(iprot.data));
            if taken.None? then error == Some(SkipThrows)
            else if taken.value > |old(iprot.data)| then error == Some(EndOfFile)
            else error == None && iprot.data == old(iprot.data)[taken.value..] && xfer == Low32(taken.value)
  {
    var taken := skip(code, iprot.data);
    if taken.None? {
      return 0, Some(SkipThrows);
    }
    if taken.value > |iprot.data| {
      return 0, Some(EndOfFile);
    }
    iprot.data := iprot.data[taken.value..];
    return Low32(taken.value), None;
  }

  /** The reader call of one case. */
  method ReadValueFrom(t: FieldType, nested: Struct, iprot: Protocol, skip: (i8, seq<byte>) -> Option<nat>)
    returns (xfer: u32, r: Read<FieldValue>)
    modifies iprot`data
    decreases |iprot.data|, 1
    ensures r == ParseValue(t, nested, old(iprot.data), Reader(iprot.stringLimit, skip))
    ensures r.Value? ==> iprot.data == r.rest && xfer == Low32(|old(iprot.data)| - |r.rest|)
  {
    hide ParseByte, ParseI32, ParseI64, ParseString;
    var n := 0;
    match t {
      case ByteType =>
        var v;
        n, v := iprot.ReadByte();
        r := if v.Throws? then Throws(v.error) else Value(ByteValue(v.value), v.rest);
      case I32Type =>
        var v;
        n, v := iprot.ReadI32();
        r := if v.Throws? then Throws(v.error) else Value(I32Value(v.value), v.rest);
      case I64Type =>
        var v;
        n, v := iprot.ReadI64();
        r := if v.Throws? then Throws(v.error) else Value(I64Value(v.value), v.rest);
      case StringType =>
        var v;
        n, v := iprot.ReadString();
        r := if v.Throws? then Throws(v.error) else Value(StringValue(v.value), v.rest);
      case StructType(fields) =>
        var record := new Record(fields, nested);
        var m, error := record.Read(iprot, skip);
        return m, if error.Some? then Throws(error.value)
                  else Value(StructValue(Struct(record.values, record.isset)), iprot.data);
    }
    xfer := Low32(n);
  }

  /** The blocks of a generated write, one for each field. */
  method WriteFields(fields: seq<Field>, s: Struct, oprot: Protocol) returns (xfer: u32)
    requires AllFit(fields, s, -1)
    modifies oprot`data
    ensures oprot.data == old(oprot.data) + FieldsText(fields, s) && xfer == Low32(|FieldsText(fields, s)|)
    decreases fields, 0
  {
    xfer := 0;
    if fields != [] {
      var f := fields[0];
      if Written(f, s) {
        xfer := WriteField(f, s, oprot);
      }
      var n := WriteFields(fields[1..], s, oprot);
      LowSum(if Written(f, s) then |FieldText(f, s)| else 0, |FieldsText(fields[1..], s)|);
      xfer := Low32(xfer as int + n);
    }
  }

  method WriteField(f: Field, s: Struct, oprot: Protocol) returns (xfer: u32)
    requires MemberFits(f, s, -1)
    modifies oprot`data
    ensures oprot.data == old(oprot.data) + FieldText(f, s) && xfer == Low32(|FieldText(f, s)|)
    decreases f
  {
    xfer := oprot.WriteFieldBegin(Code(f.fieldType), f.id);
    var n := WriteValue(f.fieldType, s.values[f.id], oprot);
    LowSum(3, |ValueText(f.fieldType, s.values[f.id])|);
    xfer := Low32(xfer as int + n);
  }

  method WriteValue(t: FieldType, v: FieldValue, oprot: Protocol) returns (xfer: u32)
    requires Fits(t, v, -1)
    modifies oprot`data
    ensures oprot.data == old(oprot.data) + ValueText(t, v) && xfer == Low32(|ValueText(t, v)|)
    decreases t
  {
    match t
    case ByteType => xfer := oprot.WriteByte(v.b);
    case I32Type => xfer := oprot.WriteI32(v.i);
    case I64Type => xfer := oprot.WriteI64(v.l);
    case StringType => xfer := oprot.WriteString(v.str);
    case StructType(fields) =>
      var nested := new Record(fields, v.s);
      xfer := nested.Write(oprot);
  }
}
