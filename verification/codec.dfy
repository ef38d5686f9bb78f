/** The table-driven protobuf codec: what the generated serializers write and what the
    parser reads back from a message's field table. */
module Codec {
  import opened Wire
  import opened Utf8

  /** Field kinds; Int32 also stands for an open enum, Raw for bytes, Text for a UTF-8 checked string. */
  datatype Kind = UInt32 | UInt64 | Int32 | Text | Raw

  datatype Field = Field(number: nat, kind: Kind)

  datatype Value = Num(n: int) | Data(b: bytes)

  /** Fields are listed, as the serializers write them, in ascending order of their numbers. */
  predicate GoodTable(fs: seq<Field>)
  {
    && (forall i | 0 <= i < |fs| :: 1 <= fs[i].number < 0x2000_0000)
    && (forall i, j | 0 <= i < j < |fs| :: fs[i].number < fs[j].number)
  }

  type Table = fs: seq<Field> | GoodTable(fs) witness []

  type Record = seq<Value>

  predicate TypedValue(k: Kind, v: Value)
  {
    match k
    case UInt32 => v.Num? && 0 <= v.n < 0x1_0000_0000
    case UInt64 => v.Num? && 0 <= v.n < 0x1_0000_0000_0000_0000
    case Int32 => v.Num? && -0x8000_0000 <= v.n < 0x8000_0000
    case Text => v.Data?
    case Raw => v.Data?
  }

  predicate Typed(fs: Table, r: Record)
  {
    |r| == |fs| && forall i | 0 <= i < |fs| :: TypedValue(fs[i].kind, r[i])
  }

  /** The proto3 default: zero, or the empty string. */
  function Default(k: Kind): (v: Value)
    ensures TypedValue(k, v)
  {
    if k.Text? || k.Raw? then Data([]) else Num(0)
  }

  function Defaults(fs: Table): (r: Record)
    ensures Typed(fs, r)
    ensures forall i | 0 <= i < |fs| :: r[i] == Default(fs[i].kind)
  {
    seq(|fs|, i requires 0 <= i < |fs| => Default(fs[i].kind))
  }

  // ---------- Serialization ----------

  function WireType(k: Kind): (w: nat)
    ensures w == 0 || w == 2
  {
    if k.Text? || k.Raw? then 2 else 0
  }

  function Tag(f: Field): nat { 8 * f.number + WireType(f.kind) }

  /** The varint payload of a number; a negative int32 is sign-extended to 64 bits. */
  function ToWire(n: int): nat
    requires n >= -0x8000_0000
  {
    if n < 0 then n + 0x1_0000_0000_0000_0000 else n
  }

  function EncodePresent(f: Field, v: Value): bytes
    requires TypedValue(f.kind, v)
  {
    Varint(Tag(f)) + match v
      case Num(n) => Varint(ToWire(n))
      case Data(b) => Varint(|b|) + b
  }

  /** A field holding its default is not written at all. */
  function EncodeField(f: Field, v: Value): bytes
    requires TypedValue(f.kind, v)
  {
    if v == Default(f.kind) then [] else EncodePresent(f, v)
  }

  /** The fields from position i on. */
  function EncodeFrom(fs: Table, r: Record, i: nat): bytes
    requires Typed(fs, r) && i <= |fs|
    decreases |fs| - i
  {
    if i == |fs| then [] else EncodeField(fs[i], r[i]) + EncodeFrom(fs, r, i + 1)
  }

  function Encode(fs: Table, r: Record): bytes
    requires Typed(fs, r)
  {
    EncodeFrom(fs, r, 0)
  }

  lemma {:induction false} EmptyFieldIsDefault(f: Field, v: Value)
    requires TypedValue(f.kind, v)
    ensures EncodeField(f, v) == [] <==> v == Default(f.kind)
  {
  }

  /** Only all-default messages serialize to nothing. */
  lemma {:induction false} EmptyEncodingIsDefault(fs: Table, r: Record, i: nat)
    requires Typed(fs, r) && i <= |fs|
    ensures EncodeFrom(fs, r, i) == [] <==> forall j | i <= j < |fs| :: r[j] == Default(fs[j].kind)
    decreases |fs| - i
  {
    hide EncodeField;
    if i < |fs| {
      EmptyFieldIsDefault(fs[i], r[i]);
      EmptyEncodingIsDefault(fs, r, i + 1);
    }
  }

  // ---------- Parsing ----------

  /** The number a varint payload denotes for a field of kind k: the low 32 or 64 bits. */
  function FromWire(k: Kind, v: nat): (n: int)
    requires !k.Text? && !k.Raw?
    ensures TypedValue(k, Num(n))
  {
    match k
    case UInt64 => v % 0x1_0000_0000_0000_0000
    case UInt32 => v % 0x1_0000_0000
    case Int32 => AsInt32(v % 0x1_0000_0000)
  }

  /** A length-delimited record at the front of s: where its content starts, and its length. */
  function ReadDelimited(s: bytes): (r: Option<(nat, nat)>)
    ensures r.Some? ==> r.value.0 > 0 && r.value.0 + r.value.1 <= |s|
  {
    match ReadVarint(s, 5)
    case Stuck => None
    case Got(len, k) => if len <= MAX_LENGTH && k + len <= |s| then Some((k, len)) else None
  }

  datatype FieldScan = Bad | Skipped(size: nat) | Set(index: nat, value: Value, size: nat)
  {
    function Shift(k: nat): FieldScan
    {
      match this
      case Bad => Bad
      case Skipped(n) => Skipped(k + n)
      case Set(i, v, n) => Set(i, v, k + n)
    }
  }

  /** Position of the field with this number, or |fs|. */
  function Find(fs: seq<Field>, number: nat): (i: nat)
    ensures i <= |fs|
    ensures i < |fs| ==> fs[i].number == number
    ensures forall j | 0 <= j < i :: fs[j].number != number
  {
    if fs == [] || fs[0].number == number then 0 else 1 + Find(fs[1..], number)
  }

  /** Passes over the value of an unknown field. */
  function SkipValue(wireType: nat, s: bytes): (r: FieldScan)
    ensures !r.Set? && (r.Skipped? ==> 0 < r.size <= |s|)
  {
    if wireType == 0 then
      match ReadVarint(s, 10) case Stuck => Bad case Got(_, k) => Skipped(k)
    else if wireType == 1 then (if |s| >= 8 then Skipped(8) else Bad)
    else if wireType == 2 then
      match ReadDelimited(s) case None => Bad case Some((k, len)) => Skipped(k + len)
    else if wireType == 5 then (if |s| >= 4 then Skipped(4) else Bad)
    else Bad
  }

  /** Reads the value of field i. A Text value must be UTF-8. */
  function ReadValue(k: Kind, i: nat, s: bytes): (r: FieldScan)
    ensures r.Set? ==> r.index == i && TypedValue(k, r.value) && 0 < r.size <= |s|
    ensures !r.Skipped?
  {
    if WireType(k) == 0 then
      match ReadVarint(s, 10) case Stuck => Bad case Got(v, n) => Set(i, Num(FromWire(k, v)), n)
    else
      match ReadDelimited(s)
      case None => Bad
      case Some((n, len)) =>
        if k.Text? && !ValidUtf8(s[n..n + len]) then Bad else Set(i, Data(s[n..n + len]), n + len)
  }

  /** One turn of the tag loop. A known number under another wire type counts as unknown. */
  function ReadField(fs: Table, s: bytes): (r: FieldScan)
    ensures !r.Bad? ==> 0 < r.size <= |s|
    ensures r.Set? ==> r.index < |fs| && TypedValue(fs[r.index].kind, r.value)
  {
    match ReadVarint(s, 5)
    case Stuck => Bad
    case Got(t, k) =>
      var tag := t % 0x1_0000_0000;
      var number, wireType, i := tag / 8, tag % 8, Find(fs, tag / 8);
      if number == 0 then Bad
      else if i < |fs| && WireType(fs[i].kind) == wireType then ReadValue(fs[i].kind, i, s[k..]).Shift(k)
      else SkipValue(wireType, s[k..]).Shift(k)
  }

  /** Parses s on top of r: each field read overwrites what r held. */
  function ParseInto(fs: Table, r: Record, s: bytes): (p: Option<Record>)
    requires Typed(fs, r)
    ensures p.Some? ==> Typed(fs, p.value)
    decreases |s|
  {
    if s == [] then Some(r)
    else match ReadField(fs, s)
      case Bad => None
      case Skipped(n) => ParseInto(fs, r, s[n..])
      case Set(i, v, n) => ParseInto(fs, r[i := v], s[n..])
  }

  function Parse(fs: Table, s: bytes): (p: Option<Record>)
    ensures p.Some? ==> Typed(fs, p.value)
  {
    ParseInto(fs, Defaults(fs), s)
  }

  // ---------- Parsing and concatenation ----------

  lemma {:induction false} ReadDelimitedIsPrefixStable(s: bytes, t: bytes)
    requires ReadDelimited(s).Some?
    ensures ReadDelimited(s + t) == ReadDelimited(s)
  {
    ReadVarintIsPrefixStable(s, t, 5);
  }

  lemma {:induction false} SkipValueIsPrefixStable(wireType: nat, s: bytes, t: bytes)
    requires !SkipValue(wireType, s).Bad?
    ensures SkipValue(wireType, s + t) == SkipValue(wireType, s)
  {
    if wireType == 0 {
      ReadVarintIsPrefixStable(s, t, 10);
    } else if wireType == 2 {
      ReadDelimitedIsPrefixStable(s, t);
    }
  }

  lemma {:induction false} ReadValueIsPrefixStable(k: Kind, i: nat, s: bytes, t: bytes)
    requires ReadValue(k, i, s).Set?
    ensures ReadValue(k, i, s + t) == ReadValue(k, i, s)
  {
    if WireType(k) == 0 {
      ReadVarintIsPrefixStable(s, t, 10);
    } else {
      ReadDelimitedIsPrefixStable(s, t);
      var (n, len) := ReadDelimited(s).value;
      assert (s + t)[n..n + len] == s[n..n + len];
    }
  }

  lemma {:induction false} ReadFieldIsPrefixStable(fs: Table, s: bytes, t: bytes)
    requires !ReadField(fs, s).Bad?
    ensures ReadField(fs, s + t) == ReadField(fs, s)
  {
    ReadVarintIsPrefixStable(s, t, 5);
    var Got(v, k) := ReadVarint(s, 5);
    var tag := v % 0x1_0000_0000;
    var i := Find(fs, tag / 8);
    assert (s + t)[k..] == s[k..] + t;
    if i < |fs| && WireType(fs[i].kind) == tag % 8 {
      ReadValueIsPrefixStable(fs[i].kind, i, s[k..], t);
    } else {
      SkipValueIsPrefixStable(tag % 8, s[k..], t);
    }
  }

  /** Parsing is an action of concatenation: reading s + t is reading s and then t. */
  lemma {:induction false} ParseConcat(fs: Table, r: Record, s: bytes, t: bytes)
    requires Typed(fs, r) && ParseInto(fs, r, s).Some?
    ensures ParseInto(fs, r, s + t) == ParseInto(fs, ParseInto(fs, r, s).value, t)
    decreases |s|
  {
    hide ReadField;
    if s == [] {
      assert s + t == t;
    } else {
      ReadFieldIsPrefixStable(fs, s, t);
      var n := ReadField(fs, s).size;
      assert (s + t)[n..] == s[n..] + t;
      match ReadField(fs, s)
      case Skipped(_) => ParseConcat(fs, r, s[n..], t);
      case Set(i, v, _) => ParseConcat(fs, r[i := v], s[n..], t);
    }
  }

  // ---------- Parse undoes serialize ----------

  /** Can this value be read back? Strings must be UTF-8, and no longer than a length prefix may say. */
  predicate Readable(k: Kind, v: Value)
  {
    v.Data? ==> |v.b| <= MAX_LENGTH && (k.Text? ==> ValidUtf8(v.b))
  }

  predicate ReadableFrom(fs: Table, r: Record, i: nat)
    requires Typed(fs, r)
  {
    forall j | i <= j < |fs| :: Readable(fs[j].kind, r[j])
  }

  predicate AllReadable(fs: Table, r: Record)
    requires Typed(fs, r)
  {
    ReadableFrom(fs, r, 0)
  }

  lemma {:induction false} FindIsExact(fs: Table, i: nat)
    requires i < |fs|
    ensures Find(fs, fs[i].number) == i
  {
  }

  lemma {:induction false} FromWireUndoesToWire(k: Kind, n: int)
    requires !k.Text? && !k.Raw? && TypedValue(k, Num(n))
    ensures FromWire(k, ToWire(n)) == n
    ensures |Varint(ToWire(n))| <= 10
  {
    match k {
      case UInt64 =>
      case UInt32 => LowHalf(0, n);
      case Int32 => LowHalf(if n < 0 then 0xFFFF_FFFF else 0, FromInt32(n));
    }
    assert |Varint(ToWire(n))| <= 10 by { VarintWidths(ToWire(n)); }
  }

  lemma {:induction false} LowHalf(high: nat, low: uint32)
    ensures (high * 0x1_0000_0000 + low) % 0x1_0000_0000 == low
  {
  }

  lemma {:induction false} ReadDelimitedUndoes(b: bytes, rest: bytes)
    ensures var k := |Varint(|b|)|;
            ReadDelimited(Varint(|b|) + b + rest) == if |b| <= MAX_LENGTH then Some((k, |b|)) else None
  {
    assert Varint(|b|) + b + rest == Varint(|b|) + (b + rest);
    if |b| <= MAX_LENGTH {
      VarintWidths(|b|);
      ReadVarintUndoesVarint(|b|, 5, b + rest);
    } else if |Varint(|b|)| <= 5 {
      ReadVarintUndoesVarint(|b|, 5, b + rest);
    } else {
      ReadVarintTooLong(|b|, 5, b + rest);
    }
  }

  /** A varint longer than the limit is refused. */
  lemma {:induction false} ReadVarintTooLong(n: nat, limit: nat, rest: bytes)
    requires |Varint(n)| > limit
    ensures ReadVarint(Varint(n) + rest, limit) == Stuck
  {
    if n >= 0x80 && limit > 0 {
      ReadVarintTooLong(n / 0x80, limit - 1, rest);
      assert (Varint(n) + rest)[1..] == Varint(n / 0x80) + rest;
    }
  }

  /** A tag selects its own field. */
  lemma {:induction false} ReadFieldAfterTag(fs: Table, i: nat, s: bytes)
    requires i < |fs|
    ensures var tag := Varint(Tag(fs[i]));
            ReadField(fs, tag + s) == ReadValue(fs[i].kind, i, s).Shift(|tag|)
  {
    hide Varint, ReadVarint, ReadValue, SkipValue, Find;
    var tag := Varint(Tag(fs[i]));
    VarintWidths(Tag(fs[i]));
    ReadVarintUndoesVarint(Tag(fs[i]), 5, s);
    FindIsExact(fs, i);
    assert (tag + s)[|tag|..] == s;
    assert Tag(fs[i]) / 8 == fs[i].number && Tag(fs[i]) % 8 == WireType(fs[i].kind);
  }

  lemma {:induction false} ReadNumberUndoes(k: Kind, i: nat, n: int, rest: bytes)
    requires !k.Text? && !k.Raw? && TypedValue(k, Num(n))
    ensures ReadValue(k, i, Varint(ToWire(n)) + rest) == Set(i, Num(n), |Varint(ToWire(n))|)
  {
    FromWireUndoesToWire(k, n);
    ReadVarintUndoesVarint(ToWire(n), 10, rest);
  }

  lemma {:induction false} ReadStringUndoes(k: Kind, i: nat, b: bytes, rest: bytes)
    requires k.Text? || k.Raw?
    ensures ReadValue(k, i, Varint(|b|) + b + rest)
         == if Readable(k, Data(b)) then Set(i, Data(b), |Varint(|b|)| + |b|) else Bad
  {
    ReadDelimitedUndoes(b, rest);
    var n := |Varint(|b|)|;
    assert (Varint(|b|) + b + rest)[n..n + |b|] == b;
  }

  lemma {:induction false} ReadFieldUndoes(fs: Table, i: nat, v: Value, rest: bytes)
    requires i < |fs| && TypedValue(fs[i].kind, v)
    ensures ReadField(fs, EncodePresent(fs[i], v) + rest)
         == if Readable(fs[i].kind, v) then Set(i, v, |EncodePresent(fs[i], v)|) else Bad
  {
    hide Varint, ReadField, ReadValue;
    var f := fs[i];
    var tag := Varint(Tag(f));
    var body := match v case Num(n) => Varint(ToWire(n)) case Data(b) => Varint(|b|) + b;
    assert EncodePresent(f, v) + rest == tag + (body + rest);
    ReadFieldAfterTag(fs, i, body + rest);
    match v
    case Num(n) => ReadNumberUndoes(f.kind, i, n, rest);
    case Data(b) => ReadStringUndoes(f.kind, i, b, rest);
  }

  /** MergeImpl, field by field: a default in the source leaves the target alone. */
  function MergeValue(k: Kind, to: Value, from: Value): Value
  {
    if from == Default(k) then to else from
  }

  /** Merging the fields of from at positions i and up into to. */
  function MergeFrom(fs: Table, to: Record, from: Record, i: nat): (r: Record)
    requires Typed(fs, to) && Typed(fs, from)
    ensures Typed(fs, r)
  {
    seq(|fs|, j requires 0 <= j < |fs| => if j < i then to[j] else MergeValue(fs[j].kind, to[j], from[j]))
  }

  function Merge(fs: Table, to: Record, from: Record): (r: Record)
    requires Typed(fs, to) && Typed(fs, from)
    ensures Typed(fs, r)
  {
    MergeFrom(fs, to, from, 0)
  }

  lemma {:induction false} MergeFromStep(fs: Table, to: Record, from: Record, i: nat)
    requires Typed(fs, to) && Typed(fs, from) && i < |fs|
    ensures var merged := to[i := MergeValue(fs[i].kind, to[i], from[i])];
            Typed(fs, merged) && MergeFrom(fs, to, from, i) == MergeFrom(fs, merged, from, i + 1)
  {
  }

  lemma {:induction false} ReadableFromStep(fs: Table, r: Record, i: nat)
    requires Typed(fs, r) && i < |fs|
    ensures ReadableFrom(fs, r, i) == (Readable(fs[i].kind, r[i]) && ReadableFrom(fs, r, i + 1))
  {
  }

  /** Reading back one serialized field, elided or not, merges it. */
  lemma {:induction false} ParseOfField(fs: Table, to: Record, v: Value, i: nat, rest: bytes)
    requires Typed(fs, to) && i < |fs| && TypedValue(fs[i].kind, v)
    ensures var merged := to[i := MergeValue(fs[i].kind, to[i], v)];
            && Typed(fs, merged)
            && ParseInto(fs, to, EncodeField(fs[i], v) + rest)
               == if Readable(fs[i].kind, v) then ParseInto(fs, merged, rest) else None
  {
    var head := EncodeField(fs[i], v);
    if v == Default(fs[i].kind) {
      assert to[i := to[i]] == to && head + rest == rest;
    } else {
      ReadFieldUndoes(fs, i, v, rest);
      assert (head + rest)[|head|..] == rest;
    }
  }

  /** Parsing a serialized record, and then rest, on top of another one is merging the record and then
      parsing rest, unless a string is unreadable. */
  lemma {:induction false} ParseOfEncodeFrom(fs: Table, to: Record, r: Record, i: nat, rest: bytes)
    requires Typed(fs, to) && Typed(fs, r) && i <= |fs|
    ensures ParseInto(fs, to, EncodeFrom(fs, r, i) + rest)
         == if ReadableFrom(fs, r, i) then ParseInto(fs, MergeFrom(fs, to, r, i), rest) else None
    decreases |fs| - i
  {
    hide ReadField, EncodeField, ParseInto;
    if i == |fs| {
      assert MergeFrom(fs, to, r, i) == to && EncodeFrom(fs, r, i) + rest == rest;
    } else {
      var merged := to[i := MergeValue(fs[i].kind, to[i], r[i])];
      var tail := EncodeFrom(fs, r, i + 1) + rest;
      MergeFromStep(fs, to, r, i);
      ReadableFromStep(fs, r, i);
      ParseOfField(fs, to, r[i], i, tail);
      ParseOfEncodeFrom(fs, merged, r, i + 1, rest);
      assert EncodeFrom(fs, r, i) + rest == EncodeField(fs[i], r[i]) + tail;
    }
  }

  /** The codec's round trip, over every record of every table: parsing gives the record back
      exactly when each of its strings can be read, and fails otherwise. */
  lemma {:induction false} ParseUndoesEncode(fs: Table, r: Record)
    requires Typed(fs, r)
    ensures Parse(fs, Encode(fs, r)) == if AllReadable(fs, r) then Some(r) else None
  {
    ParseOfEncodeFrom(fs, Defaults(fs), r, 0, []);
    assert Encode(fs, r) + [] == Encode(fs, r);
    assert MergeFrom(fs, Defaults(fs), r, 0) == r;
  }

  /** Parsing two serialized records one after the other merges the second into the first; it fails
      exactly when a string of either is unreadable. */
  lemma {:induction false} ParseOfConcatIsMerge(fs: Table, a: Record, b: Record)
    requires Typed(fs, a) && Typed(fs, b)
    ensures Parse(fs, Encode(fs, a) + Encode(fs, b))
         == if AllReadable(fs, a) && AllReadable(fs, b) then Some(Merge(fs, a, b)) else None
  {
    ParseOfEncodeFrom(fs, Defaults(fs), a, 0, Encode(fs, b));
    assert MergeFrom(fs, Defaults(fs), a, 0) == a;
    ParseOfEncodeFrom(fs, a, b, 0, []);
    assert Encode(fs, b) + [] == Encode(fs, b);
  }

  // ---------- What the parser accepts, for input from any writer ----------

  /** A field as any writer may spell it: a tag, a length in front of length-delimited content, and
      the content itself, which for a number is a varint. */
  datatype Spelled = Spelled(tag: bytes, length: bytes, content: bytes)
  {
    function Number(): nat { Groups(tag) % 0x1_0000_0000 / 8 }

    function Wire(): nat { Groups(tag) % 8 }

    function Text(): bytes { tag + length + content }
  }

  /** The four wire types there are. Tags and lengths take at most five bytes, numbers at most ten. */
  predicate WellSpelled(f: Spelled)
  {
    && IsVarint(f.tag) && |f.tag| <= 5 && f.Number() != 0
    && match f.Wire()
       case 0 => f.length == [] && IsVarint(f.content) && |f.content| <= 10
       case 1 => f.length == [] && |f.content| == 8
       case 2 => IsVarint(f.length) && |f.length| <= 5 && Groups(f.length) == |f.content| <= 0x7FFF_FFEF
       case 5 => f.length == [] && |f.content| == 4
       case _ => false
  }

  /** Is this the field of a number under the wire type that its kind has? */
  predicate Matches(field: Field, f: Spelled)
  {
    field.number == f.Number() && f.Wire() == match field.kind
      case UInt32 => 0 case UInt64 => 0 case Int32 => 0 case Text => 2 case Raw => 2
  }

  /** Is v a number of this kind with the low bits of n? */
  predicate LowBits(k: Kind, n: nat, v: int)
  {
    match k
    case UInt32 => 0 <= v < 0x1_0000_0000 && (n - v) % 0x1_0000_0000 == 0
    case UInt64 => 0 <= v < 0x1_0000_0000_0000_0000 && (n - v) % 0x1_0000_0000_0000_0000 == 0
    case Int32 => -0x8000_0000 <= v < 0x8000_0000 && (n - v) % 0x1_0000_0000 == 0
    case _ => false
  }

  /** The value that a matching field of this kind takes on: the low bits of a number, or the content. */
  predicate TakesOn(k: Kind, f: Spelled, v: Value)
  {
    if k.Text? || k.Raw? then v == Data(f.content) else v.Num? && LowBits(k, Groups(f.content), v.n)
  }

  lemma {:induction false} ReadTagOf(f: Spelled, rest: bytes)
    requires WellSpelled(f)
    ensures ReadVarint(f.Text() + rest, 5) == Got(Groups(f.tag), |f.tag|)
    ensures (f.Text() + rest)[|f.tag|..] == f.length + f.content + rest
  {
    assert f.Text() + rest == f.tag + (f.length + f.content + rest);
    ReadVarintOfAny(f.tag, 5, f.length + f.content + rest);
  }

  lemma {:induction false} ReadContentOf(f: Spelled, rest: bytes)
    requires WellSpelled(f)
    ensures f.Wire() == 0 ==> ReadVarint(f.length + f.content + rest, 10) == Got(Groups(f.content), |f.content|)
    ensures f.Wire() == 2 ==> ReadDelimited(f.length + f.content + rest) == Some((|f.length|, |f.content|))
    ensures (f.length + f.content + rest)[|f.length|..|f.length| + |f.content|] == f.content
  {
    assert f.length + f.content + rest == f.length + (f.content + rest);
    if f.Wire() == 0 {
      assert f.length + f.content == f.content;
      ReadVarintOfAny(f.content, 10, rest);
    } else if f.Wire() == 2 {
      ReadVarintOfAny(f.length, 5, f.content + rest);
    }
  }

  lemma {:induction false} ContentIsSkipped(f: Spelled, rest: bytes)
    requires WellSpelled(f)
    ensures SkipValue(f.Wire(), f.length + f.content + rest) == Skipped(|f.length| + |f.content|)
  {
    hide ReadVarint, ReadDelimited, Groups, IsVarint;
    ReadContentOf(f, rest);
  }

  /** How the parser goes on behind a tag. */
  lemma {:induction false} ReadFieldBehindTag(fs: Table, s: bytes, t: nat, k: nat)
    requires k <= |s| && ReadVarint(s, 5) == Got(t, k) && t % 0x1_0000_0000 / 8 != 0
    ensures var i := Find(fs, t % 0x1_0000_0000 / 8);
            ReadField(fs, s) ==
            if i < |fs| && WireType(fs[i].kind) == t % 8 then ReadValue(fs[i].kind, i, s[k..]).Shift(k)
            else SkipValue(t % 8, s[k..]).Shift(k)
  {
    hide ReadVarint, Find, ReadValue, SkipValue, WireType;
    assert t % 0x1_0000_0000 % 8 == t % 8;
  }

  lemma {:induction false} NumberIsNotZero(f: Spelled)
    requires WellSpelled(f)
    ensures f.Number() != 0
  {
  }

  lemma {:induction false} MatchesTheFound(fs: Table, f: Spelled)
    ensures var i := Find(fs, f.Number()); i < |fs| ==> (Matches(fs[i], f) <==> WireType(fs[i].kind) == f.Wire())
  {
    hide Find, Groups;
  }

  /** A field that the table does not have, or has under another wire type, is passed over whole. */
  lemma {:induction false} UnknownFieldIsSkipped(fs: Table, f: Spelled, rest: bytes)
    requires WellSpelled(f) && forall i | 0 <= i < |fs| :: !Matches(fs[i], f)
    ensures ReadField(fs, f.Text() + rest) == Skipped(|f.Text()|)
  {
    hide ReadField, ReadVarint, Groups, SkipValue, ReadValue, Find, WellSpelled, Matches, WireType;
    ReadTagOf(f, rest);
    ContentIsSkipped(f, rest);
    NumberIsNotZero(f);
    MatchesTheFound(fs, f);
    ReadFieldBehindTag(fs, f.Text() + rest, Groups(f.tag), |f.tag|);
  }

  /** So it leaves no trace, whatever its content looks like. */
  lemma {:induction false} UnknownFieldLeavesNoTrace(fs: Table, r: Record, f: Spelled, rest: bytes)
    requires Typed(fs, r) && WellSpelled(f) && forall i | 0 <= i < |fs| :: !Matches(fs[i], f)
    ensures ParseInto(fs, r, f.Text() + rest) == ParseInto(fs, r, rest)
  {
    hide ReadField, Matches;
    UnknownFieldIsSkipped(fs, f, rest);
    assert (f.Text() + rest)[|f.Text()|..] == rest;
  }

  lemma {:induction false} FromWireKeepsLowBits(k: Kind, n: nat)
    requires !k.Text? && !k.Raw?
    ensures LowBits(k, n, FromWire(k, n))
  {
    var q, low: nat := n / 0x1_0000_0000, n % 0x1_0000_0000;
    assert n == 0x1_0000_0000 * q + low;
    match k {
      case UInt64 =>
      case UInt32 => MultipleOfWord(q);
      case Int32 =>
        if low < 0x8000_0000 {
          MultipleOfWord(q);
        } else {
          MultipleOfWord(q + 1);
        }
    }
  }

  lemma {:induction false} MultipleOfWord(q: nat)
    ensures (0x1_0000_0000 * q) % 0x1_0000_0000 == 0
  {
  }

  lemma {:induction false} ContentIsRead(k: Kind, i: nat, f: Spelled, rest: bytes)
    requires WellSpelled(f) && WireType(k) == f.Wire()
    ensures var r := ReadValue(k, i, f.length + f.content + rest);
            if k.Text? && !ValidUtf8(f.content) then r == Bad
            else r.Set? && r.index == i && r.size == |f.length| + |f.content| && TakesOn(k, f, r.value)
  {
    hide ReadVarint, ReadDelimited, Groups, IsVarint, ValidUtf8, FromWire, LowBits;
    ReadContentOf(f, rest);
    if f.Wire() == 0 {
      FromWireKeepsLowBits(k, Groups(f.content));
    }
  }

  /** A field of the table is read for its value, and text that is not UTF-8 is refused. */
  lemma {:induction false} KnownFieldIsRead(fs: Table, i: nat, f: Spelled, rest: bytes)
    requires WellSpelled(f) && i < |fs| && Matches(fs[i], f)
    ensures var r := ReadField(fs, f.Text() + rest);
            if fs[i].kind.Text? && !ValidUtf8(f.content) then r == Bad
            else r.Set? && r.index == i && r.size == |f.Text()| && TakesOn(fs[i].kind, f, r.value)
  {
    FindIsExact(fs, i);
    assert fs[i].number == f.Number();
    hide ReadField, ReadVarint, Groups, SkipValue, ReadValue, Find, WellSpelled, Matches, WireType, TakesOn, ValidUtf8;
    ReadTagOf(f, rest);
    NumberIsNotZero(f);
    MatchesTheFound(fs, f);
    ContentIsRead(fs[i].kind, i, f, rest);
    ReadFieldBehindTag(fs, f.Text() + rest, Groups(f.tag), |f.tag|);
  }

  /** What the parser has found when it accepts a field, by wire type. */
  lemma {:induction false} AcceptedField(fs: Table, s: bytes)
    requires !ReadField(fs, s).Bad?
    ensures ReadVarint(s, 5).Got?
    ensures var Got(t, k) := ReadVarint(s, 5); var rest, n := s[k..], ReadField(fs, s).size - k;
            && t % 0x1_0000_0000 / 8 != 0 && 0 <= n <= |rest|
            && match t % 8
               case 0 => ReadVarint(rest, 10).Got? && ReadVarint(rest, 10).size == n
               case 1 => n == 8
               case 2 => ReadDelimited(rest).Some? && ReadDelimited(rest).value.0 + ReadDelimited(rest).value.1 == n
               case 5 => n == 4
               case _ => false
  {
    hide ReadVarint, ReadDelimited, ValidUtf8, Find, FromWire;
    var Got(t, k) := ReadVarint(s, 5);
    assert t % 0x1_0000_0000 % 8 == t % 8;
  }

  /** Is this the tag of a nonzero field number with the given wire type? */
  predicate IsTag(tag: bytes, wire: nat)
  {
    IsVarint(tag) && |tag| <= 5 && Groups(tag) % 0x1_0000_0000 / 8 != 0 && Groups(tag) % 8 == wire
  }

  lemma {:induction false} SpelledNumber(tag: bytes, content: bytes)
    requires IsTag(tag, 0) && IsVarint(content) && |content| <= 10
    ensures var f := Spelled(tag, [], content); WellSpelled(f) && f.Text() == tag + content
  {
    assert tag + [] == tag;
  }

  lemma {:induction false} SpelledFixed(tag: bytes, content: bytes)
    requires (IsTag(tag, 1) && |content| == 8) || (IsTag(tag, 5) && |content| == 4)
    ensures var f := Spelled(tag, [], content); WellSpelled(f) && f.Text() == tag + content
  {
    assert tag + [] == tag;
  }

  lemma {:induction false} SpelledDelimited(tag: bytes, length: bytes, content: bytes)
    requires IsTag(tag, 2) && IsVarint(length) && |length| <= 5 && Groups(length) == |content| <= 0x7FFF_FFEF
    ensures var f := Spelled(tag, length, content); WellSpelled(f) && f.Text() == tag + (length + content)
  {
    assert tag + length + content == tag + (length + content);
  }

  lemma {:induction false} AcceptedTag(fs: Table, s: bytes)
    requires !ReadField(fs, s).Bad?
    ensures ReadVarint(s, 5).Got? && IsTag(s[..ReadVarint(s, 5).size], ReadVarint(s, 5).value % 8)
  {
    hide ReadField, ReadVarint, IsVarint, Groups;
    AcceptedField(fs, s);
    ReadVarintTakesOnlyVarints(s, 5);
  }

  lemma {:induction false} AcceptedLength(s: bytes)
    requires ReadDelimited(s).Some?
    ensures var (size, len) := ReadDelimited(s).value;
            && size + len <= |s| && IsVarint(s[..size]) && size <= 5 && Groups(s[..size]) == len <= 0x7FFF_FFEF
  {
    hide ReadVarint, IsVarint, Groups;
    ReadVarintTakesOnlyVarints(s, 5);
  }

  /** Nothing else is accepted: whatever is read or passed over is a well spelled field. */
  lemma {:induction false} OnlyFieldsAreRead(fs: Table, s: bytes) returns (f: Spelled)
    requires !ReadField(fs, s).Bad?
    ensures WellSpelled(f) && f.Text() == s[..ReadField(fs, s).size]
  {
    hide ReadField, ReadVarint, ReadDelimited, IsVarint, Groups, WellSpelled, IsTag, Spelled.Text;
    AcceptedField(fs, s);
    AcceptedTag(fs, s);
    var Got(t, k) := ReadVarint(s, 5);
    var tag, rest, n := s[..k], s[k..], ReadField(fs, s).size - k;
    if t % 8 == 0 {
      ReadVarintTakesOnlyVarints(rest, 10);
      SpelledNumber(tag, rest[..n]);
      f := Spelled(tag, [], rest[..n]);
    } else if t % 8 == 2 {
      AcceptedLength(rest);
      var size := ReadDelimited(rest).value.0;
      SpelledDelimited(tag, rest[..size], rest[size..n]);
      f := Spelled(tag, rest[..size], rest[size..n]);
      Rejoined(s, k, size, n);
    } else {
      SpelledFixed(tag, rest[..n]);
      f := Spelled(tag, [], rest[..n]);
    }
    Rejoined(s, k, 0, n);
  }

  lemma {:induction false} Rejoined(s: bytes, k: nat, size: nat, n: nat)
    requires size <= n && k + n <= |s|
    ensures s[..k] + s[k..][..n] == s[..k + n]
    ensures s[..k] + (s[k..][..size] + s[k..][size..n]) == s[..k + n]
  {
    assert s[k..][..size] + s[k..][size..n] == s[k..][..n];
  }

  function TextOf(fields: seq<Spelled>): bytes
  {
    if fields == [] then [] else fields[0].Text() + TextOf(fields[1..])
  }

  /** A well spelled field whose content is UTF-8 if the table has it as text. */
  ghost predicate Acceptable(fs: Table, f: Spelled)
  {
    WellSpelled(f) && forall i | 0 <= i < |fs| :: Matches(fs[i], f) && fs[i].kind.Text? ==> ValidUtf8(f.content)
  }

  lemma {:induction false} FieldIsAcceptedExactly(fs: Table, f: Spelled, rest: bytes)
    requires WellSpelled(f)
    ensures var r := ReadField(fs, f.Text() + rest);
            && (Acceptable(fs, f) <==> !r.Bad?)
            && (!r.Bad? ==> r.size == |f.Text()| && (f.Text() + rest)[r.size..] == rest)
  {
    hide ReadField, WellSpelled, TakesOn, ValidUtf8, Spelled.Text;
    if i: nat :| i < |fs| && Matches(fs[i], f) {
      KnownFieldIsRead(fs, i, f, rest);
      forall j | 0 <= j < |fs| && Matches(fs[j], f) ensures j == i {
        FindIsExact(fs, i);
        FindIsExact(fs, j);
      }
    } else {
      UnknownFieldIsSkipped(fs, f, rest);
    }
    assert (f.Text() + rest)[|f.Text()|..] == rest;
  }

  /** Any sequence of acceptable fields is parsed, and a sequence with another one in it is refused. */
  lemma {:induction false} FieldsAreParsedExactly(fs: Table, r: Record, fields: seq<Spelled>)
    requires Typed(fs, r) && forall f | f in fields :: WellSpelled(f)
    ensures ParseInto(fs, r, TextOf(fields)).Some? <==> forall f | f in fields :: Acceptable(fs, f)
    decreases |fields|
  {
    hide ReadField, WellSpelled, Acceptable, Spelled.Text;
    if fields != [] {
      var f, rest := fields[0], TextOf(fields[1..]);
      assert fields == [f] + fields[1..];
      TextIsNotEmpty(f);
      FieldIsAcceptedExactly(fs, f, rest);
      match ReadField(fs, f.Text() + rest)
      case Bad =>
      case Skipped(_) => FieldsAreParsedExactly(fs, r, fields[1..]);
      case Set(i, v, _) => FieldsAreParsedExactly(fs, r[i := v], fields[1..]);
    }
  }

  lemma {:induction false} TextIsNotEmpty(f: Spelled)
    requires WellSpelled(f)
    ensures f.Text() != []
  {
  }

  /** And whatever is parsed is such a sequence. */
  lemma {:induction false} OnlyFieldsAreParsed(fs: Table, r: Record, s: bytes) returns (fields: seq<Spelled>)
    requires Typed(fs, r) && ParseInto(fs, r, s).Some?
    ensures TextOf(fields) == s && forall f | f in fields :: Acceptable(fs, f)
    decreases |s|
  {
    hide ReadField, WellSpelled, Acceptable, Spelled.Text;
    if s == [] {
      fields := [];
    } else {
      var n := ReadField(fs, s).size;
      var f := OnlyFieldsAreRead(fs, s);
      var more: seq<Spelled>;
      match ReadField(fs, s) {
        case Skipped(_) => more := OnlyFieldsAreParsed(fs, r, s[n..]);
        case Set(i, v, _) => more := OnlyFieldsAreParsed(fs, r[i := v], s[n..]);
      }
      fields := [f] + more;
      assert s == f.Text() + s[n..] && fields[1..] == more;
      FieldIsAcceptedExactly(fs, f, s[n..]);
    }
  }

  // ---------- Forward compatibility ----------

  lemma {:induction false} WrittenTag(field: Field)
    requires 1 <= field.number < 0x2000_0000
    ensures var tag := Varint(Tag(field));
            && IsTag(tag, WireType(field.kind)) && Groups(tag) == 8 * field.number + WireType(field.kind)
            && Groups(tag) % 0x1_0000_0000 / 8 == field.number
  {
    hide IsVarint, Groups, Varint;
    VarintIsShortest(Tag(field));
    VarintWidths(Tag(field));
  }

  /** A written field is well spelled, unless its string is too long for a length prefix. */
  lemma {:induction false} EncodedIsSpelled(field: Field, v: Value) returns (f: Spelled)
    requires TypedValue(field.kind, v) && 1 <= field.number < 0x2000_0000
    requires v.Data? ==> |v.b| <= 0x7FFF_FFEF
    ensures WellSpelled(f) && f.Text() == EncodePresent(field, v)
    ensures f.Number() == field.number && f.Wire() == WireType(field.kind)
  {
    hide IsVarint, Groups, Varint, WellSpelled, IsTag;
    WrittenTag(field);
    var tag := Varint(Tag(field));
    match v {
      case Num(n) =>
        VarintIsShortest(ToWire(n));
        VarintWidths(ToWire(n));
        SpelledNumber(tag, Varint(ToWire(n)));
        f := Spelled(tag, [], Varint(ToWire(n)));
      case Data(b) =>
        VarintIsShortest(|b|);
        VarintWidths(|b|);
        SpelledDelimited(tag, Varint(|b|), b);
        f := Spelled(tag, Varint(|b|), b);
    }
  }

  /** Every field of fs is a field of the larger table. */
  predicate Extends(larger: Table, fs: Table)
  {
    forall k | 0 <= k < |fs| :: Find(larger, fs[k].number) < |larger| && larger[Find(larger, fs[k].number)] == fs[k]
  }

  /** Can a parser for fs get past the value of this field of a larger table? */
  predicate Passable(fs: Table, field: Field, v: Value)
  {
    if Find(fs, field.number) < |fs| then Readable(field.kind, v) else v.Data? ==> |v.b| <= 0x7FFF_FFEF
  }

  ghost predicate PassableFrom(fs: Table, larger: Table, r: Record, i: nat)
    requires Typed(larger, r)
  {
    forall j | i <= j < |larger| :: Passable(fs, larger[j], r[j])
  }

  /** The fields of fs with the values of the larger record at positions i and up merged in. */
  function ProjectFrom(fs: Table, larger: Table, to: Record, r: Record, i: nat): (p: Record)
    requires Typed(fs, to) && Typed(larger, r) && Extends(larger, fs)
    ensures Typed(fs, p)
  {
    seq(|fs|, k requires 0 <= k < |fs| =>
      var j := Find(larger, fs[k].number); if j < i then to[k] else MergeValue(fs[k].kind, to[k], r[j]))
  }

  lemma {:induction false} ProjectStep(fs: Table, larger: Table, to: Record, r: Record, i: nat)
    requires Typed(fs, to) && Typed(larger, r) && Extends(larger, fs) && i < |larger|
    ensures var k := Find(fs, larger[i].number);
            if k < |fs| then
              var merged := to[k := MergeValue(fs[k].kind, to[k], r[i])];
              && fs[k] == larger[i] && Typed(fs, merged)
              && ProjectFrom(fs, larger, to, r, i) == ProjectFrom(fs, larger, merged, r, i + 1)
            else ProjectFrom(fs, larger, to, r, i) == ProjectFrom(fs, larger, to, r, i + 1)
  {
    var k := Find(fs, larger[i].number);
    FindIsExact(larger, i);
    if k < |fs| {
      var merged := to[k := MergeValue(fs[k].kind, to[k], r[i])];
      forall m | 0 <= m < |fs|
        ensures ProjectFrom(fs, larger, to, r, i)[m] == ProjectFrom(fs, larger, merged, r, i + 1)[m]
      {
        assert Find(larger, fs[m].number) == i ==> fs[m].number == larger[i].number;
      }
    } else {
      forall m | 0 <= m < |fs| ensures Find(larger, fs[m].number) != i {
        assert fs[m].number != larger[i].number;
      }
    }
  }

  /** One field of a larger record, in front of anything. */
  lemma {:induction false} ParseOfLargerField(fs: Table, larger: Table, to: Record, v: Value, i: nat, rest: bytes)
    requires Typed(fs, to) && Extends(larger, fs) && i < |larger| && TypedValue(larger[i].kind, v)
    requires Find(fs, larger[i].number) == |fs|
    ensures ParseInto(fs, to, EncodeField(larger[i], v) + rest)
         == if Passable(fs, larger[i], v) then ParseInto(fs, to, rest) else None
  {
    hide ParseInto, ReadField;
    if v == Default(larger[i].kind) {
      assert EncodeField(larger[i], v) + rest == rest;
    } else if Passable(fs, larger[i], v) {
      var f := EncodedIsSpelled(larger[i], v);
      assert forall k | 0 <= k < |fs| :: !Matches(fs[k], f);
      UnknownFieldLeavesNoTrace(fs, to, f, rest);
    } else {
      LongFieldIsRefused(fs, larger[i], v.b, rest);
      ParseOfBad(fs, to, EncodeField(larger[i], v) + rest);
    }
  }

  lemma {:induction false} ParseOfBad(fs: Table, to: Record, s: bytes)
    requires Typed(fs, to) && s != [] && ReadField(fs, s).Bad?
    ensures ParseInto(fs, to, s) == None
  {
  }

  /** A length prefix above the parser's limit is refused, also in an unknown field. */
  lemma {:induction false} LongFieldIsRefused(fs: Table, field: Field, b: bytes, rest: bytes)
    requires TypedValue(field.kind, Data(b)) && 1 <= field.number < 0x2000_0000 && |b| > 0x7FFF_FFEF
    requires Find(fs, field.number) == |fs|
    ensures ReadField(fs, EncodePresent(field, Data(b)) + rest) == Bad
  {
    hide ReadVarint, Varint, ReadDelimited;
    var tag := Varint(Tag(field));
    var body := Varint(|b|) + b;
    VarintWidths(Tag(field));
    assert EncodePresent(field, Data(b)) + rest == tag + (body + rest);
    ReadVarintUndoesVarint(Tag(field), 5, body + rest);
    assert (tag + (body + rest))[|tag|..] == body + rest;
    assert Tag(field) / 8 == field.number && Tag(field) % 8 == 2;
    ReadDelimitedUndoes(b, rest);
  }

  /** Forward compatibility: a reader with a smaller table gets the projection of what a writer with a larger
      one wrote, unless a string that it has to read cannot be read or one that it passes over is too
      long for a length prefix. */
  lemma {:induction false} ParseOfLargerFrom(fs: Table, larger: Table, to: Record, r: Record, i: nat)
    requires Typed(fs, to) && Typed(larger, r) && Extends(larger, fs) && i <= |larger|
    ensures ParseInto(fs, to, EncodeFrom(larger, r, i))
         == if PassableFrom(fs, larger, r, i) then Some(ProjectFrom(fs, larger, to, r, i)) else None
    decreases |larger| - i
  {
    hide ReadField, EncodeField, Passable, Extends;
    if i == |larger| {
      ProjectNothing(fs, larger, to, r);
    } else {
      hide ParseInto, ProjectFrom;
      var k, tail := Find(fs, larger[i].number), EncodeFrom(larger, r, i + 1);
      assert PassableFrom(fs, larger, r, i) == (Passable(fs, larger[i], r[i]) && PassableFrom(fs, larger, r, i + 1));
      ProjectStep(fs, larger, to, r, i);
      if k < |fs| {
        var merged := to[k := MergeValue(fs[k].kind, to[k], r[i])];
        PassableIsReadable(fs, larger[i], r[i]);
        ParseOfField(fs, to, r[i], k, tail);
        ParseOfLargerFrom(fs, larger, merged, r, i + 1);
      } else {
        ParseOfLargerField(fs, larger, to, r[i], i, tail);
        ParseOfLargerFrom(fs, larger, to, r, i + 1);
      }
    }
  }

  lemma {:induction false} ProjectNothing(fs: Table, larger: Table, to: Record, r: Record)
    requires Typed(fs, to) && Typed(larger, r) && Extends(larger, fs)
    ensures ProjectFrom(fs, larger, to, r, |larger|) == to
  {
  }

  lemma {:induction false} PassableIsReadable(fs: Table, field: Field, v: Value)
    requires Find(fs, field.number) < |fs|
    ensures Passable(fs, field, v) == Readable(field.kind, v)
  {
  }

  lemma {:induction false} ParseOfLarger(fs: Table, larger: Table, r: Record)
    requires Typed(larger, r) && Extends(larger, fs)
    ensures Parse(fs, Encode(larger, r)).Some? <==> forall j | 0 <= j < |larger| :: Passable(fs, larger[j], r[j])
    ensures var p := Parse(fs, Encode(larger, r)); p.Some? ==> forall k, j | 0 <= k < |fs| && 0 <= j < |larger| ::
              larger[j].number == fs[k].number ==> p.value[k] == r[j]
  {
    hide ParseInto, Passable;
    ParseOfLargerFrom(fs, larger, Defaults(fs), r, 0);
    forall k, j | 0 <= k < |fs| && 0 <= j < |larger| && larger[j].number == fs[k].number
      ensures ProjectFrom(fs, larger, Defaults(fs), r, 0)[k] == r[j]
    {
      FindIsExact(larger, j);
    }
  }

  // ---------- Last one wins, for input from any writer ----------

  /** Does s hold a value for field i? */
  predicate Touches(fs: Table, s: bytes, i: nat)
    decreases |s|
  {
    s != [] && match ReadField(fs, s)
      case Bad => false
      case Skipped(n) => Touches(fs, s[n..], i)
      case Set(j, _, n) => i == j || Touches(fs, s[n..], i)
  }

  /** What is parsed onto decides neither success nor the value of any field that s holds. */
  lemma {:induction false} LastOneWins(fs: Table, a: Record, b: Record, s: bytes)
    requires Typed(fs, a) && Typed(fs, b)
    ensures ParseInto(fs, a, s).Some? <==> ParseInto(fs, b, s).Some?
    ensures ParseInto(fs, a, s).Some? ==> forall i | 0 <= i < |fs| ::
              if Touches(fs, s, i) then ParseInto(fs, a, s).value[i] == ParseInto(fs, b, s).value[i]
              else ParseInto(fs, a, s).value[i] == a[i]
    decreases |s|
  {
    if s != [] {
      match ReadField(fs, s)
      case Bad =>
      case Skipped(n) => LastOneWins(fs, a, b, s[n..]);
      case Set(j, v, n) =>
        LastOneWins(fs, a[j := v], b[j := v], s[n..]);
        LastOneWins(fs, b[j := v], a[j := v], s[n..]);
    }
  }

  /** Concatenated encodings from any writer parse to the merged message exactly when no field that
      the second one spells out as its default is set by the first. */
  lemma {:induction false} ConcatIsMergeExactly(fs: Table, x: bytes, y: bytes)
    requires Parse(fs, x).Some? && Parse(fs, y).Some?
    ensures var a, b := Parse(fs, x).value, Parse(fs, y).value;
            Parse(fs, x + y) == Some(Merge(fs, a, b)) <==>
            forall i | 0 <= i < |fs| :: Touches(fs, y, i) && b[i] == Default(fs[i].kind) ==> a[i] == Default(fs[i].kind)
  {
    var a, b := Parse(fs, x).value, Parse(fs, y).value;
    ParseConcat(fs, Defaults(fs), x, y);
    LastOneWins(fs, a, Defaults(fs), y);
    LastOneWins(fs, Defaults(fs), a, y);
    var c, m := ParseInto(fs, a, y).value, Merge(fs, a, b);
    if forall i | 0 <= i < |fs| :: Touches(fs, y, i) && b[i] == Default(fs[i].kind) ==> a[i] == Default(fs[i].kind) {
      forall i | 0 <= i < |fs| ensures c[i] == m[i] {}
      assert c == m;
    } else {
      var i :| 0 <= i < |fs| && Touches(fs, y, i) && b[i] == Default(fs[i].kind) && a[i] != Default(fs[i].kind);
      assert c[i] == b[i] && m[i] == a[i];
    }
  }

  /** An encoding that spells out a zero breaks the merge law: the bytes 8 0 reset the field. */
  lemma {:induction false} SpelledOutDefaultOverwrites()
    ensures var fs: Table := [Field(1, UInt32)];
            Parse(fs, [8, 5]) == Some([Num(5)]) && Parse(fs, [8, 0]) == Some([Num(0)])
            && Parse(fs, [8, 5] + [8, 0]) == Some([Num(0)]) && Merge(fs, [Num(5)], [Num(0)]) == [Num(5)]
  {
    hide ParseInto;
    var fs: Table := [Field(1, UInt32)];
    ParseOneNumber(fs, Defaults(fs), 5);
    ParseOneNumber(fs, Defaults(fs), 0);
    ParseOneNumber(fs, [Num(5)], 0);
    ParseConcat(fs, Defaults(fs), [8, 5], [8, 0]);
  }

  lemma {:induction false} ParseOneNumber(fs: Table, r: Record, n: byte)
    requires fs == [Field(1, UInt32)] && Typed(fs, r) && n < 0x80
    ensures ParseInto(fs, r, [8, n]) == Some([Num(n)])
  {
    hide ReadField;
    ReadOneNumber(fs, n);
    assert [8, n][2..] == [];
    assert r[0 := Num(n)] == [Num(n)];
  }

  lemma {:induction false} ReadOneNumber(fs: Table, n: byte)
    requires fs == [Field(1, UInt32)] && n < 0x80
    ensures ReadField(fs, [8, n]) == Set(0, Num(n), 2)
  {
    assert [8, n][1..] == [n];
    assert Find(fs, 1) == 0;
  }

  // ---------- Messages ----------

  /** A message type: its name and its field table. It stands for a type_index and its factory. */
  datatype MsgType = MsgType(name: string, fields: Table)

  datatype RawMessage = RawMessage(ty: MsgType, rec: Record)

  predicate WellTyped(m: RawMessage) { Typed(m.ty.fields, m.rec) }

  type Message = m: RawMessage | WellTyped(m) witness RawMessage(MsgType("", []), [])

  function Bytes(m: Message): bytes { Encode(m.ty.fields, m.rec) }

  /** Does m survive the wire? */
  predicate Sendable(m: Message) { AllReadable(m.ty.fields, m.rec) }

  /** ParseFromArray into a new message of the given type. */
  function ParseAs(ty: MsgType, s: bytes): (r: Option<Message>)
    ensures r.Some? ==> r.value.ty == ty
  {
    match Parse(ty.fields, s)
    case None => None
    case Some(rec) => Some(RawMessage(ty, rec))
  }

  lemma {:induction false} ParseAsUndoesBytes(m: Message)
    ensures ParseAs(m.ty, Bytes(m)) == if Sendable(m) then Some(m) else None
  {
    ParseUndoesEncode(m.ty.fields, m.rec);
  }

  /** No two sendable messages of a type share an encoding. */
  lemma {:induction false} BytesIsInjective(m: Message, n: Message)
    requires m.ty == n.ty && Sendable(m) && Bytes(m) == Bytes(n)
    ensures m == n
  {
    ParseAsUndoesBytes(m);
    ParseAsUndoesBytes(n);
  }
}
