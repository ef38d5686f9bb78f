/** In-place serialization: the primitive writers that advance through a byte array, and
    SerializeToArray for a message of any type. */
module Writer {
  import opened Wire
  import opened Codec

  /** s with the bytes from position at on overwritten by x. */
  function Splice(s: bytes, at: nat, x: bytes): (t: bytes)
    requires at + |x| <= |s|
    ensures |t| == |s|
  {
    s[..at] + x + s[at + |x|..]
  }

  lemma {:induction false} SpliceAt(s: bytes, at: nat, x: bytes, i: nat)
    requires at + |x| <= |s| && i < |s|
    ensures Splice(s, at, x)[i] == if at <= i < at + |x| then x[i - at] else s[i]
  {
  }

  /** Two adjacent writes are one write. */
  lemma {:induction false} SpliceAdjacent(s: bytes, at: nat, x: bytes, y: bytes)
    requires at + |x| + |y| <= |s|
    ensures Splice(Splice(s, at, x), at + |x|, y) == Splice(s, at, x + y)
  {
  }

  lemma {:induction false} SpliceNothing(s: bytes, at: nat)
    requires at <= |s|
    ensures Splice(s, at, []) == s
  {
  }

  lemma {:induction false} SpliceUpdate(s: bytes, at: nat, x: bytes, b: byte)
    requires at + |x| < |s|
    ensures Splice(s, at, x)[at + |x| := b] == Splice(s, at, x + [b])
  {
  }

  lemma {:induction false} SpliceThree(s: bytes, at: nat, x: bytes, y: bytes, z: bytes)
    requires at + |x| + |y| + |z| <= |s|
    ensures Splice(Splice(Splice(s, at, x), at + |x|, y), at + |x| + |y|, z) == Splice(s, at, x + y + z)
  {
    SpliceAdjacent(s, at, x, y);
    SpliceAdjacent(s, at, x + y, z);
  }

  method WriteVarintToArray(value: nat, target: array<byte>, at: nat) returns (end: nat)
    requires at + |Varint(value)| <= target.Length
    modifies target
    ensures end == at + |Varint(value)|
    ensures target[..] == Splice(old(target[..]), at, Varint(value))
  {
    hide Splice;
    var v := value;
    end := at;
    ghost var base, done: bytes := target[..], [];
    SpliceNothing(base, at);
    while v >= 0x80
      invariant done + Varint(v) == Varint(value)
      invariant end == at + |done|
      invariant target[..] == Splice(base, at, done)
    {
      var b: byte := 0x80 + v % 0x80;
      SpliceUpdate(base, at, done, b);
      assert done + ([b] + Varint(v / 0x80)) == done + [b] + Varint(v / 0x80);
      target[end] := b;
      done := done + [b];
      v, end := v / 0x80, end + 1;
    }
    SpliceUpdate(base, at, done, v);
    target[end] := v;
    end := end + 1;
  }

  method WriteRaw(b: bytes, target: array<byte>, at: nat) returns (end: nat)
    requires at + |b| <= target.Length
    modifies target
    ensures end == at + |b| && target[..] == Splice(old(target[..]), at, b)
  {
    forall i | 0 <= i < |b| {
      target[at + i] := b[i];
    }
    end := at + |b|;
  }

  /** WriteUInt32ToArray, WriteUInt64ToArray and their kin: a tag and a varint. */
  method WriteNumberToArray(f: Field, n: int, target: array<byte>, at: nat) returns (end: nat)
    requires TypedValue(f.kind, Num(n)) && at + |EncodePresent(f, Num(n))| <= target.Length
    modifies target
    ensures end == at + |EncodePresent(f, Num(n))|
    ensures target[..] == Splice(old(target[..]), at, EncodePresent(f, Num(n)))
  {
    hide Splice;
    end := WriteVarintToArray(Tag(f), target, at);
    end := WriteVarintToArray(ToWire(n), target, end);
    SpliceAdjacent(old(target[..]), at, Varint(Tag(f)), Varint(ToWire(n)));
  }

  /** WriteStringMaybeAliased: a tag, a length and the bytes, whether or not they are UTF-8. */
  method WriteStringToArray(f: Field, b: bytes, target: array<byte>, at: nat) returns (end: nat)
    requires TypedValue(f.kind, Data(b)) && at + |EncodePresent(f, Data(b))| <= target.Length
    modifies target
    ensures end == at + |EncodePresent(f, Data(b))|
    ensures target[..] == Splice(old(target[..]), at, EncodePresent(f, Data(b)))
  {
    hide Splice;
    ghost var tag, len := Varint(Tag(f)), Varint(|b|);
    assert EncodePresent(f, Data(b)) == tag + len + b;
    end := WriteVarintToArray(Tag(f), target, at);
    end := WriteVarintToArray(|b|, target, end);
    SpliceAdjacent(old(target[..]), at, tag, len);
    end := WriteRaw(b, target, end);
    SpliceAdjacent(old(target[..]), at, tag + len, b);
  }

  /** A number field as the generated serializers emit it: nothing at all for zero. */
  method EmitNumber(f: Field, n: int, target: array<byte>, at: nat) returns (end: nat)
    requires TypedValue(f.kind, Num(n)) && at + |EncodeField(f, Num(n))| <= target.Length
    modifies target
    ensures end == at + |EncodeField(f, Num(n))|
    ensures target[..] == Splice(old(target[..]), at, EncodeField(f, Num(n)))
  {
    end := at;
    if n != 0 {
      end := WriteNumberToArray(f, n, target, end);
    }
  }

  /** A string field as the generated serializers emit it: nothing at all when empty. */
  method EmitString(f: Field, b: bytes, target: array<byte>, at: nat) returns (end: nat)
    requires TypedValue(f.kind, Data(b)) && at + |EncodeField(f, Data(b))| <= target.Length
    modifies target
    ensures end == at + |EncodeField(f, Data(b))|
    ensures target[..] == Splice(old(target[..]), at, EncodeField(f, Data(b)))
  {
    end := at;
    if b != [] {
      end := WriteStringToArray(f, b, target, end);
    }
  }

  method EmitField(f: Field, v: Value, target: array<byte>, at: nat) returns (end: nat)
    requires TypedValue(f.kind, v) && at + |EncodeField(f, v)| <= target.Length
    modifies target
    ensures end == at + |EncodeField(f, v)|
    ensures target[..] == Splice(old(target[..]), at, EncodeField(f, v))
  {
    match v {
      case Num(n) => end := EmitNumber(f, n, target, at);
      case Data(b) => end := EmitString(f, b, target, at);
    }
  }

  /** The field loop: emits every field of m in table order. */
  method SerializeFields(m: Message, target: array<byte>, at: nat) returns (end: nat)
    requires at + |Bytes(m)| <= target.Length
    modifies target
    ensures end == at + |Bytes(m)|
    ensures target[..] == Splice(old(target[..]), at, Bytes(m))
  {
    hide Splice, EncodeField;
    var fs := m.ty.fields;
    end := at;
    ghost var base, done: bytes := target[..], [];
    SpliceNothing(base, at);
    for i := 0 to |fs|
      invariant done + EncodeFrom(fs, m.rec, i) == Bytes(m)
      invariant end == at + |done|
      invariant target[..] == Splice(base, at, done)
    {
      ghost var next, rest := EncodeField(fs[i], m.rec[i]), EncodeFrom(fs, m.rec, i + 1);
      assert Bytes(m) == (done + next) + rest by { assert EncodeFrom(fs, m.rec, i) == next + rest; }
      SpliceAdjacent(base, at, done, next);
      end := EmitField(fs[i], m.rec[i], target, end);
      done := done + next;
    }
    assert done == done + [] == Bytes(m);
  }

  /** The serialized size of fields i and up. */
  function SizeFrom(fs: Table, r: Record, i: nat): (n: nat)
    requires Typed(fs, r) && i <= |fs|
    ensures n == |EncodeFrom(fs, r, i)|
    decreases |fs| - i
  {
    if i == |fs| then 0
    else if r[i] == Default(fs[i].kind) then SizeFrom(fs, r, i + 1)
    else
      (VarintSize(Tag(fs[i])) + match r[i]
        case Num(n) => VarintSize(ToWire(n))
        case Data(b) => VarintSize(|b|) + |b|)
      + SizeFrom(fs, r, i + 1)
  }

  /** ByteSizeLong, for a message of any type. */
  function ByteSize(m: Message): (n: nat)
    ensures n == |Bytes(m)|
  {
    SizeFrom(m.ty.fields, m.rec, 0)
  }

  /** MessageLite::SerializeToArray: writes m at the given position, or reports that size bytes
      cannot hold it and writes nothing. Size may be negative. */
  method SerializeToArray(m: Message, target: array<byte>, at: nat, size: int) returns (ok: bool)
    requires at + size <= target.Length
    modifies target
    ensures ok <==> |Bytes(m)| <= INT_MAX && |Bytes(m)| <= size
    ensures ok ==> target[..] == Splice(old(target[..]), at, Bytes(m))
    ensures !ok ==> target[..] == old(target[..])
  {
    var byteSize := ByteSize(m);
    if byteSize > INT_MAX || size < byteSize {
      return false;
    }
    var _ := SerializeFields(m, target, at);
    ok := true;
  }
}
