/** The four generated messages of cqrs.proto: their parse tables, and the generated methods
    that serialize, measure, merge, clear and copy them. */
module Cqrs {
  import opened Wire
  import opened Codec
  import opened Writer

  // ---------- Parse tables ----------

  const COMMAND_HEADER := MsgType("cppplumberd.CommandHeader", [Field(1, UInt32), Field(2, Text)])
  const COMMAND_RESPONSE := MsgType("cppplumberd.CommandResponse", [Field(1, UInt32), Field(2, Text), Field(3, UInt32)])
  const CREATE_STREAM := MsgType("cppplumberd.CreateStream", [Field(1, Text)])
  const EVENT_HEADER := MsgType("cppplumberd.EventHeader", [Field(1, UInt64), Field(2, UInt32)])

  function CommandHeaderMsg(commandType: uint32, recipient: bytes): Message
  {
    RawMessage(COMMAND_HEADER, [Num(commandType), Data(recipient)])
  }

  function CommandResponseMsg(statusCode: uint32, errorMessage: bytes, responseType: uint32): Message
  {
    RawMessage(COMMAND_RESPONSE, [Num(statusCode), Data(errorMessage), Num(responseType)])
  }

  function CreateStreamMsg(name: bytes): Message
  {
    RawMessage(CREATE_STREAM, [Data(name)])
  }

  function EventHeaderMsg(timestamp: uint64, eventType: uint32): Message
  {
    RawMessage(EVENT_HEADER, [Num(timestamp), Num(eventType)])
  }

  lemma {:induction false} EncodeOne(fs: Table, r: Record)
    requires Typed(fs, r) && |fs| == 1
    ensures Encode(fs, r) == EncodeField(fs[0], r[0])
  {
    hide EncodeField;
    assert EncodeFrom(fs, r, 1) == [];
  }

  lemma {:induction false} EncodeTwo(fs: Table, r: Record)
    requires Typed(fs, r) && |fs| == 2
    ensures Encode(fs, r) == EncodeField(fs[0], r[0]) + EncodeField(fs[1], r[1])
  {
    hide EncodeField;
    assert EncodeFrom(fs, r, 2) == [];
    assert EncodeFrom(fs, r, 1) == EncodeField(fs[1], r[1]);
  }

  lemma {:induction false} EncodeThree(fs: Table, r: Record)
    requires Typed(fs, r) && |fs| == 3
    ensures Encode(fs, r) == EncodeField(fs[0], r[0]) + EncodeField(fs[1], r[1]) + EncodeField(fs[2], r[2])
  {
    hide EncodeField;
    assert EncodeFrom(fs, r, 3) == [];
    assert EncodeFrom(fs, r, 2) == EncodeField(fs[2], r[2]);
    assert EncodeFrom(fs, r, 1) == EncodeField(fs[1], r[1]) + EncodeField(fs[2], r[2]);
  }

  /** StringSize and UInt32SizePlusOne for the one-byte tags used here. */
  function StringSizePlusOne(b: bytes): nat { 1 + VarintSize(|b|) + |b| }

  function NumberSizePlusOne(n: nat): nat { 1 + VarintSize(n) }

  /** A number under a one-byte tag, as it stands on the wire: nothing at all for zero. */
  function NumberOnWire(tag: byte, n: nat): bytes { if n == 0 then [] else [tag] + Varint(n) }

  /** A string under a one-byte tag, as it stands on the wire: nothing at all when empty. */
  function StringOnWire(tag: byte, b: bytes): bytes { if b == [] then [] else [tag] + Varint(|b|) + b }

  lemma {:induction false} NumberFieldOnWire(f: Field, n: uint64)
    requires f.number < 16 && TypedValue(f.kind, Num(n)) && f.kind != Int32
    ensures EncodeField(f, Num(n)) == NumberOnWire(Tag(f), n)
  {
  }

  /** A negative int32 is written as the 64-bit number with its low bits, in ten bytes. */
  lemma {:induction false} SignedFieldOnWire(f: Field, n: int)
    requires f.number < 16 && TypedValue(f.kind, Num(n)) && f.kind == Int32
    ensures EncodeField(f, Num(n)) == NumberOnWire(Tag(f), if n < 0 then 0x1_0000_0000_0000_0000 + n else n)
  {
  }

  lemma {:induction false} StringFieldOnWire(f: Field, b: bytes)
    requires f.number < 16 && TypedValue(f.kind, Data(b))
    ensures EncodeField(f, Data(b)) == StringOnWire(Tag(f), b)
  {
    assert Varint(Tag(f)) == [Tag(f)];
    assert [Tag(f)] + (Varint(|b|) + b) == [Tag(f)] + Varint(|b|) + b;
  }

  /** The wire layouts of the four messages, for all values: which tags, in which order. */
  lemma {:induction false} CommandHeaderLayout(commandType: uint32, recipient: bytes)
    ensures Bytes(CommandHeaderMsg(commandType, recipient))
         == NumberOnWire(8, commandType) + StringOnWire(18, recipient)
  {
    hide EncodeField, NumberOnWire, StringOnWire, Encode;
    var m := CommandHeaderMsg(commandType, recipient);
    EncodeTwo(m.ty.fields, m.rec);
    NumberFieldOnWire(m.ty.fields[0], commandType);
    StringFieldOnWire(m.ty.fields[1], recipient);
  }

  lemma {:induction false} CommandResponseLayout(statusCode: uint32, errorMessage: bytes, responseType: uint32)
    ensures Bytes(CommandResponseMsg(statusCode, errorMessage, responseType))
         == NumberOnWire(8, statusCode) + StringOnWire(18, errorMessage) + NumberOnWire(24, responseType)
  {
    hide EncodeField, NumberOnWire, StringOnWire, Encode;
    var m := CommandResponseMsg(statusCode, errorMessage, responseType);
    EncodeThree(m.ty.fields, m.rec);
    NumberFieldOnWire(m.ty.fields[0], statusCode);
    StringFieldOnWire(m.ty.fields[1], errorMessage);
    NumberFieldOnWire(m.ty.fields[2], responseType);
  }

  lemma {:induction false} CreateStreamLayout(name: bytes)
    ensures Bytes(CreateStreamMsg(name)) == StringOnWire(10, name)
  {
    hide EncodeField, StringOnWire, Encode;
    var m := CreateStreamMsg(name);
    EncodeOne(m.ty.fields, m.rec);
    StringFieldOnWire(m.ty.fields[0], name);
  }

  lemma {:induction false} EventHeaderLayout(timestamp: uint64, eventType: uint32)
    ensures Bytes(EventHeaderMsg(timestamp, eventType)) == NumberOnWire(8, timestamp) + NumberOnWire(16, eventType)
  {
    hide EncodeField, NumberOnWire, Encode;
    var m := EventHeaderMsg(timestamp, eventType);
    EncodeTwo(m.ty.fields, m.rec);
    NumberFieldOnWire(m.ty.fields[0], timestamp);
    NumberFieldOnWire(m.ty.fields[1], eventType);
  }

  /** An event header takes at most 17 bytes: a tag and ten bytes, a tag and five. */
  lemma {:induction false} EventHeaderIsSmall(timestamp: uint64, eventType: uint32)
    ensures |Bytes(EventHeaderMsg(timestamp, eventType))| <= 17
  {
    EventHeaderLayout(timestamp, eventType);
    VarintWidths(timestamp);
    VarintWidths(eventType);
  }

  // ---------- Generated methods ----------

  class CommandHeader {
    var commandType: uint32
    var recipient: bytes

    constructor ()
      ensures Msg() == CommandHeaderMsg(0, [])
    {
      commandType, recipient := 0, [];
    }

    function Msg(): Message reads this { CommandHeaderMsg(commandType, recipient) }

    method Clear()
      modifies this
      ensures Msg().rec == Defaults(COMMAND_HEADER.fields)
    {
      recipient := [];
      commandType := 0;
    }

    method InternalSerialize(target: array<byte>, at: nat) returns (end: nat)
      requires at + |Bytes(Msg())| <= target.Length
      modifies target
      ensures end == at + |Bytes(Msg())|
      ensures target[..] == Splice(old(target[..]), at, Bytes(Msg()))
    {
      hide Splice, EncodeField;
      EncodeTwo(COMMAND_HEADER.fields, Msg().rec);
      ghost var first := EncodeField(Field(1, UInt32), Num(commandType));
      ghost var second := EncodeField(Field(2, Text), Data(recipient));
      end := EmitNumber(Field(1, UInt32), commandType, target, at);
      end := EmitString(Field(2, Text), recipient, target, end);
      SpliceAdjacent(old(target[..]), at, first, second);
    }

    method ByteSizeLong() returns (size: nat)
      ensures size == |Bytes(Msg())|
    {
      EncodeTwo(COMMAND_HEADER.fields, Msg().rec);
      size := 0;
      if recipient != [] {
        size := size + StringSizePlusOne(recipient);
      }
      if commandType != 0 {
        size := size + NumberSizePlusOne(commandType);
      }
    }

    method MergeImpl(from: CommandHeader)
      modifies this
      ensures Msg().rec == Merge(COMMAND_HEADER.fields, old(Msg().rec), old(from.Msg().rec))
    {
      if from.recipient != [] {
        recipient := from.recipient;
      }
      if from.commandType != 0 {
        commandType := from.commandType;
      }
    }

    method CopyFrom(from: CommandHeader)
      modifies this
      ensures Msg() == old(from.Msg())
    {
      if from == this {
        return;
      }
      Clear();
      MergeImpl(from);
    }
  }

  class CommandResponse {
    var statusCode: uint32
    var errorMessage: bytes
    var responseType: uint32

    constructor ()
      ensures Msg() == CommandResponseMsg(0, [], 0)
    {
      statusCode, errorMessage, responseType := 0, [], 0;
    }

    function Msg(): Message reads this { CommandResponseMsg(statusCode, errorMessage, responseType) }

    method Clear()
      modifies this
      ensures Msg().rec == Defaults(COMMAND_RESPONSE.fields)
    {
      errorMessage := [];
      statusCode, responseType := 0, 0;
    }

    method InternalSerialize(target: array<byte>, at: nat) returns (end: nat)
      requires at + |Bytes(Msg())| <= target.Length
      modifies target
      ensures end == at + |Bytes(Msg())|
      ensures target[..] == Splice(old(target[..]), at, Bytes(Msg()))
    {
      hide Splice, EncodeField;
      EncodeThree(COMMAND_RESPONSE.fields, Msg().rec);
      ghost var first := EncodeField(Field(1, UInt32), Num(statusCode));
      ghost var second := EncodeField(Field(2, Text), Data(errorMessage));
      ghost var third := EncodeField(Field(3, UInt32), Num(responseType));
      assert |Bytes(Msg())| == |first| + |second| + |third|;
      SpliceThree(target[..], at, first, second, third);
      end := EmitNumber(Field(1, UInt32), statusCode, target, at);
      end := EmitString(Field(2, Text), errorMessage, target, end);
      end := EmitNumber(Field(3, UInt32), responseType, target, end);
    }

    method ByteSizeLong() returns (size: nat)
      ensures size == |Bytes(Msg())|
    {
      EncodeThree(COMMAND_RESPONSE.fields, Msg().rec);
      size := 0;
      if errorMessage != [] {
        size := size + StringSizePlusOne(errorMessage);
      }
      if statusCode != 0 {
        size := size + NumberSizePlusOne(statusCode);
      }
      if responseType != 0 {
        size := size + NumberSizePlusOne(responseType);
      }
    }

    method MergeImpl(from: CommandResponse)
      modifies this
      ensures Msg().rec == Merge(COMMAND_RESPONSE.fields, old(Msg().rec), old(from.Msg().rec))
    {
      if from.errorMessage != [] {
        errorMessage := from.errorMessage;
      }
      if from.statusCode != 0 {
        statusCode := from.statusCode;
      }
      if from.responseType != 0 {
        responseType := from.responseType;
      }
    }

    method CopyFrom(from: CommandResponse)
      modifies this
      ensures Msg() == old(from.Msg())
    {
      if from == this {
        return;
      }
      Clear();
      MergeImpl(from);
    }
  }

  class CreateStream {
    var name: bytes

    constructor ()
      ensures Msg() == CreateStreamMsg([])
    {
      name := [];
    }

    function Msg(): Message reads this { CreateStreamMsg(name) }

    method Clear()
      modifies this
      ensures Msg().rec == Defaults(CREATE_STREAM.fields)
    {
      name := [];
    }

    method InternalSerialize(target: array<byte>, at: nat) returns (end: nat)
      requires at + |Bytes(Msg())| <= target.Length
      modifies target
      ensures end == at + |Bytes(Msg())|
      ensures target[..] == Splice(old(target[..]), at, Bytes(Msg()))
    {
      EncodeOne(CREATE_STREAM.fields, Msg().rec);
      end := EmitString(Field(1, Text), name, target, at);
    }

    method ByteSizeLong() returns (size: nat)
      ensures size == |Bytes(Msg())|
    {
      EncodeOne(CREATE_STREAM.fields, Msg().rec);
      size := 0;
      if name != [] {
        size := size + StringSizePlusOne(name);
      }
    }

    method MergeImpl(from: CreateStream)
      modifies this
      ensures Msg().rec == Merge(CREATE_STREAM.fields, old(Msg().rec), old(from.Msg().rec))
    {
      if from.name != [] {
        name := from.name;
      }
    }

    method CopyFrom(from: CreateStream)
      modifies this
      ensures Msg() == old(from.Msg())
    {
      if from == this {
        return;
      }
      Clear();
      MergeImpl(from);
    }
  }

  class EventHeader {
    var timestamp: uint64
    var eventType: uint32

    constructor ()
      ensures Msg() == EventHeaderMsg(0, 0)
    {
      timestamp, eventType := 0, 0;
    }

    function Msg(): Message reads this { EventHeaderMsg(timestamp, eventType) }

    method Clear()
      modifies this
      ensures Msg().rec == Defaults(EVENT_HEADER.fields)
    {
      timestamp, eventType := 0, 0;
    }

    method InternalSerialize(target: array<byte>, at: nat) returns (end: nat)
      requires at + |Bytes(Msg())| <= target.Length
      modifies target
      ensures end == at + |Bytes(Msg())|
      ensures target[..] == Splice(old(target[..]), at, Bytes(Msg()))
    {
      hide Splice, EncodeField;
      EncodeTwo(EVENT_HEADER.fields, Msg().rec);
      ghost var first := EncodeField(Field(1, UInt64), Num(timestamp));
      ghost var second := EncodeField(Field(2, UInt32), Num(eventType));
      end := EmitNumber(Field(1, UInt64), timestamp, target, at);
      end := EmitNumber(Field(2, UInt32), eventType, target, end);
      SpliceAdjacent(old(target[..]), at, first, second);
    }

    method ByteSizeLong() returns (size: nat)
      ensures size == |Bytes(Msg())|
    {
      EncodeTwo(EVENT_HEADER.fields, Msg().rec);
      size := 0;
      if timestamp != 0 {
        size := size + NumberSizePlusOne(timestamp);
      }
      if eventType != 0 {
        size := size + NumberSizePlusOne(eventType);
      }
    }

    method MergeImpl(from: EventHeader)
      modifies this
      ensures Msg().rec == Merge(EVENT_HEADER.fields, old(Msg().rec), old(from.Msg().rec))
    {
      if from.timestamp != 0 {
        timestamp := from.timestamp;
      }
      if from.eventType != 0 {
        eventType := from.eventType;
      }
    }

    method CopyFrom(from: EventHeader)
      modifies this
      ensures Msg() == old(from.Msg())
    {
      if from == this {
        return;
      }
      Clear();
      MergeImpl(from);
    }
  }
}
