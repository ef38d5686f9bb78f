/** The frame buffer: two 32-bit size words, a header and a payload in one reused byte array. */
module Frame {
  import opened Wire
  import opened Codec
  import opened Writer
  import opened Registry
  import opened Cqrs

  /** A header type and the uint32 field that selects the payload's message id. */
  datatype RawHeaderSpec = HeaderSpec(ty: MsgType, selector: nat)

  type HeaderSpec = k: RawHeaderSpec
    | k.selector < |k.ty.fields| && k.ty.fields[k.selector].kind == UInt32
    witness HeaderSpec(COMMAND_HEADER, 0)

  const COMMANDS: HeaderSpec := HeaderSpec(COMMAND_HEADER, 0)
  const RESPONSES: HeaderSpec := HeaderSpec(COMMAND_RESPONSE, 2)
  const EVENTS: HeaderSpec := HeaderSpec(EVENT_HEADER, 1)

  function Selected(spec: HeaderSpec, header: Message): uint32
    requires header.ty == spec.ty
  {
    header.rec[spec.selector].n
  }

  /** A frame on the wire. */
  function FrameOf(header: bytes, payload: bytes): (f: bytes)
    requires |header| <= INT_MAX && |payload| <= INT_MAX
    ensures |f| == 8 + |header| + |payload|
  {
    Le32(|header|) + Le32(|payload|) + header + payload
  }

  /** Buffer s after a write at offset w: data goes behind w, the size words to the very front. */
  function Framed(s: bytes, w: nat, header: bytes, payload: bytes): (t: bytes)
    requires w + 8 + |header| + |payload| <= |s| <= INT_MAX
    ensures |t| == |s|
  {
    Splice(Splice(s, w + 8, header + payload), 0, Le32(|header|) + Le32(|payload|))
  }

  /** Wherever the write starts, the size words stand in the first eight bytes, the two parts behind the
      start, and every other byte is as it was. */
  lemma {:induction false} FramedEverywhere(s: bytes, w: nat, header: bytes, payload: bytes)
    requires w + 8 + |header| + |payload| <= |s| <= INT_MAX
    ensures var t := Framed(s, w, header, payload); var end := w + 8 + |header| + |payload|;
            && t[..4] == Le32(|header|) && t[4..8] == Le32(|payload|) && t[w + 8..end] == header + payload
            && forall i | 8 <= i < |s| && !(w + 8 <= i < end) :: t[i] == s[i]
  {
    hide Le32;
    var parts, end := header + payload, w + 8 + |header| + |payload|;
    var u, sizes := Splice(s, w + 8, parts), Le32(|header|) + Le32(|payload|);
    var t := Framed(s, w, header, payload);
    assert t == sizes + u[8..];
    assert t[..4] == sizes[..4] && t[4..8] == sizes[4..];
    forall i | 8 <= i < |s| ensures t[i] == u[i] {}
    forall i | w + 8 <= i < end ensures u[i] == parts[i - (w + 8)] {}
    assert t[w + 8..end] == parts;
  }

  /** From a reset buffer the write leaves a frame in front and every byte behind it alone. */
  lemma {:induction false} FramedAtZero(s: bytes, header: bytes, payload: bytes)
    requires 8 + |header| + |payload| <= |s| <= INT_MAX
    ensures var f := FrameOf(header, payload); Framed(s, 0, header, payload) == f + s[|f|..]
  {
  }

  // ---------- Reading ----------

  datatype ReadResult =
    | TooSmall | TooSmallForParts | BadHeader | Unregistered | BadPayload | SizeTypeMismatch
    | PastBuffer  // the parser would be handed memory outside the buffer
    | Read(header: Message, payload: Option<Message>)

  function HeaderSize(buf: bytes): uint32 requires |buf| >= 8 { UnLe32(buf) }

  function PayloadSize(buf: bytes): uint32 requires |buf| >= 8 { UnLe32(buf[4..]) }

  /** 8 + headerSize + payloadSize as the code adds it up, in 32 bits. */
  function ExpectedSize(headerSize: uint32, payloadSize: uint32): uint32
  {
    (8 + headerSize + payloadSize) % 0x1_0000_0000
  }

  function TrueSize(buf: bytes): nat requires |buf| >= 8 { 8 + HeaderSize(buf) + PayloadSize(buf) }

  /** Reading the size payload bytes at position from, which header h announces; the payload is
      None when nothing is announced or present. */
  function ReadPayload(buf: bytes, from: nat, size: uint32, ids: IdMap, spec: HeaderSpec, h: Message): ReadResult
    requires h.ty == spec.ty
  {
    var id := Selected(spec, h);
    if size > 0 && id > 0 then
      if id !in ids then Unregistered
      else if from + size > |buf| then PastBuffer
      else match Deserialize(ids, buf[from..from + size], id)
        case Parsed(m) => Read(h, Some(m))
        case _ => BadPayload
    else if (size == 0) != (id == 0) then SizeTypeMismatch
    else Read(h, None)
  }

  /** Reading both parts, once the size words are known. */
  function ReadParts(buf: bytes, written: nat, headerSize: uint32, payloadSize: uint32, ids: IdMap,
      spec: HeaderSpec): (r: ReadResult)
    requires written <= |buf|
    ensures r.Read? ==> r.header.ty == spec.ty
  {
    if written < ExpectedSize(headerSize, payloadSize) then TooSmallForParts
    else if 8 + headerSize > |buf| then PastBuffer
    else match ParseAs(spec.ty, buf[8..8 + headerSize])
      case None => BadHeader
      case Some(h) => ReadPayload(buf, 8 + headerSize, payloadSize, ids, spec, h)
  }

  /** Read, on the buffer's contents and the number of bytes acknowledged as written. */
  function ReadFrame(buf: bytes, written: nat, ids: IdMap, spec: HeaderSpec): (r: ReadResult)
    requires written <= |buf|
    ensures r.Read? ==> r.header.ty == spec.ty
  {
    if written < 8 then TooSmall
    else ReadParts(buf, written, HeaderSize(buf), PayloadSize(buf), ids, spec)
  }

  /** Reading exactly the received bytes. */
  function ReadExactly(frame: bytes, ids: IdMap, spec: HeaderSpec): ReadResult
  {
    ReadFrame(frame, |frame|, ids, spec)
  }

  /** As long as the sizes add up in 32 bits, the length check is exact, the parsers stay inside
      the received bytes, and nothing behind those bytes matters. */
  lemma {:induction false} ReadStaysInsideReceived(buf: bytes, written: nat, ids: IdMap, spec: HeaderSpec)
    requires written <= |buf| <= INT_MAX
    requires written >= 8 ==> TrueSize(buf) < 0x1_0000_0000
    ensures ReadFrame(buf, written, ids, spec) == ReadExactly(buf[..written], ids, spec)
    ensures ReadFrame(buf, written, ids, spec) != PastBuffer
    ensures written >= 8 ==> (ReadFrame(buf, written, ids, spec) == TooSmallForParts <==> written < TrueSize(buf))
  {
    if written >= 8 {
      SizesOfPrefix(buf, written);
      ReadPartsOfPrefix(buf, written, HeaderSize(buf), PayloadSize(buf), ids, spec);
    }
  }

  lemma {:induction false} ReadPartsOfPrefix(buf: bytes, n: nat, headerSize: uint32, payloadSize: uint32, ids: IdMap,
      spec: HeaderSpec)
    requires 8 <= n <= |buf| && 8 + headerSize + payloadSize < 0x1_0000_0000
    ensures var r := ReadParts(buf, n, headerSize, payloadSize, ids, spec);
            && ReadParts(buf[..n], n, headerSize, payloadSize, ids, spec) == r != PastBuffer
            && (r == TooSmallForParts <==> n < 8 + headerSize + payloadSize)
  {
    hide ParseAs;
    var from, end := 8 + headerSize, 8 + headerSize + payloadSize;
    assert ExpectedSize(headerSize, payloadSize) == end;
    if end <= n {
      assert buf[..n][8..from] == buf[8..from];
      assert buf[..n][from..end] == buf[from..end];
    }
  }

  lemma {:induction false} SizesOfPrefix(buf: bytes, n: nat)
    requires 8 <= n <= |buf|
    ensures HeaderSize(buf[..n]) == HeaderSize(buf) && PayloadSize(buf[..n]) == PayloadSize(buf)
  {
    assert buf[..n][4..][..4] == buf[4..][..4];
    forall i | 0 <= i < 4 ensures buf[..n][4..][i] == buf[4..][i] {}
  }

  /** The length check is not a bounds check. With at least eight bytes received, it lets a frame pass
      whose parts reach beyond the received bytes exactly when the sizes add up to 2^32 or more and
      their 32-bit remainder does not exceed what was received. */
  lemma {:induction false} LengthCheckMissesExactly(buf: bytes, written: nat, ids: IdMap, spec: HeaderSpec)
    requires 8 <= written <= |buf| <= INT_MAX
    ensures ReadFrame(buf, written, ids, spec) != TooSmallForParts && written < TrueSize(buf)
        <==> TrueSize(buf) >= 0x1_0000_0000 && (8 + UnLe32(buf) + UnLe32(buf[4..])) % 0x1_0000_0000 <= written
  {
    hide ParseAs;
    assert TrueSize(buf) < 0x1_0000_0000 ==> ExpectedSize(HeaderSize(buf), PayloadSize(buf)) == TrueSize(buf);
  }

  /** Eight received bytes do it: they announce two parts of 0x7FFF_FFFC bytes each, a positive int, and
      pass the length check, so the header parser is pointed at memory outside the buffer. */
  lemma {:induction false} EightBytesReachOutside(ids: IdMap, spec: HeaderSpec)
    ensures var buf: bytes := [0xFC, 0xFF, 0xFF, 0x7F, 0xFC, 0xFF, 0xFF, 0x7F];
            && HeaderSize(buf) == PayloadSize(buf) == 0x7FFF_FFFC <= INT_MAX
            && TrueSize(buf) == 0x1_0000_0000 && ReadFrame(buf, 8, ids, spec) == PastBuffer
  {
    hide ParseAs;
    var buf: bytes := [0xFC, 0xFF, 0xFF, 0x7F, 0xFC, 0xFF, 0xFF, 0x7F];
    assert buf[4..] == [0xFC, 0xFF, 0xFF, 0x7F];
  }

  /** When the 32-bit sum wraps, the payload cannot lie inside the buffer, so no read completes. */
  lemma {:induction false} WrappedSizesNeverRead(buf: bytes, written: nat, ids: IdMap, spec: HeaderSpec)
    requires 8 <= written <= |buf| <= INT_MAX && TrueSize(buf) >= 0x1_0000_0000
    ensures !ReadFrame(buf, written, ids, spec).Read?
  {
  }

  /** What a completed read returns is decided by the received bytes alone. */
  lemma {:induction false} ReadIgnoresStaleBytes(buf: bytes, written: nat, ids: IdMap, spec: HeaderSpec)
    requires written <= |buf| <= INT_MAX
    ensures var r, s := ReadFrame(buf, written, ids, spec), ReadExactly(buf[..written], ids, spec);
            && (r.Read? <==> s.Read?) && (r.Read? ==> r == s)
            && ((written >= 8 ==> TrueSize(buf) < 0x1_0000_0000) ==> r == s)
  {
    if written >= 8 {
      SizesOfPrefix(buf, written);
      if TrueSize(buf) < 0x1_0000_0000 {
        ReadStaysInsideReceived(buf, written, ids, spec);
      } else {
        WrappedSizesNeverRead(buf, written, ids, spec);
        WrappedSizesNeverRead(buf[..written], written, ids, spec);
      }
    }
  }

  // ---------- Round trip ----------

  lemma {:induction false} SizesOfFrame(header: bytes, payload: bytes, rest: bytes)
    requires |header| <= INT_MAX && |payload| <= INT_MAX
    ensures var f := FrameOf(header, payload) + rest;
            && HeaderSize(f) == |header| && PayloadSize(f) == |payload|
            && f[8..8 + |header|] == header && f[8 + |header|..8 + |header| + |payload|] == payload
  {
    hide Le32, UnLe32;
    var f := FrameOf(header, payload) + rest;
    var sizes := Le32(|header|) + Le32(|payload|);
    assert f == sizes + header + payload + rest;
    assert f == Le32(|header|) + (Le32(|payload|) + header + payload + rest);
    UnLe32UndoesLe32(|header|, Le32(|payload|) + header + payload + rest);
    assert f[4..] == Le32(|payload|) + (header + payload + rest);
    UnLe32UndoesLe32(|payload|, header + payload + rest);
  }

  /** What reading a written frame yields, whatever lies behind the frame. */
  lemma {:induction false} ReadOfFrame(ids: IdMap, spec: HeaderSpec, h: Message, payload: bytes, rest: bytes)
    requires h.ty == spec.ty && |Bytes(h)| + |payload| + 8 <= INT_MAX
    ensures var f := FrameOf(Bytes(h), payload); var id := Selected(spec, h);
            ReadFrame(f + rest, |f|, ids, spec) ==
            if !Sendable(h) then BadHeader
            else if payload != [] && id > 0 then
              match Deserialize(ids, payload, id)
              case NotRegistered => Unregistered
              case Malformed => BadPayload
              case Parsed(m) => Read(h, Some(m))
            else if (payload == []) != (id == 0) then SizeTypeMismatch
            else Read(h, None)
  {
    hide ParseAs, UnLe32;
    SizesOfFrame(Bytes(h), payload, rest);
    ParseAsUndoesBytes(h);
  }

  /** Reading, exactly: for any received bytes, a header and a payload come out if and only if the bytes
      begin with a frame of two parts that parse to them, where the payload part is empty just when
      the header selects no type and otherwise has the type registered under the selected id. */
  lemma {:induction false} ReadsExactlyFrames(buf: bytes, written: nat, ids: IdMap, spec: HeaderSpec, h: Message,
      m: Option<Message>)
    requires written <= |buf| <= INT_MAX && h.ty == spec.ty
    ensures ReadFrame(buf, written, ids, spec) == Read(h, m) <==>
            exists n, k :: 0 <= n && 0 <= k && IsFrameOf(buf, written, n, k, ids, spec, h, m)
  {
    hide ReadFrame, IsFrameOf;
    if ReadFrame(buf, written, ids, spec) == Read(h, m) {
      ReadIsFrame(buf, written, ids, spec, h, m);
    }
    forall n: nat, k: nat | IsFrameOf(buf, written, n, k, ids, spec, h, m)
      ensures ReadFrame(buf, written, ids, spec) == Read(h, m)
    {
      FrameIsRead(buf, written, n, k, ids, spec, h, m);
    }
  }

  /** Do the received bytes begin with a frame of n header bytes for h and k payload bytes for m? */
  ghost predicate IsFrameOf(buf: bytes, written: nat, n: nat, k: nat, ids: IdMap, spec: HeaderSpec, h: Message,
      m: Option<Message>)
    requires written <= |buf| && h.ty == spec.ty
  {
    && 8 + n + k <= written && n < 0x1_0000_0000 && k < 0x1_0000_0000
    && buf[..4] == Le32(n) && buf[4..8] == Le32(k)
    && Parse(h.ty.fields, buf[8..8 + n]) == Some(h.rec)
    && var id := h.rec[spec.selector].n;
       if m == None then k == 0 && id == 0
       else k != 0 && id != 0 && id in ids && ids[id] == m.value.ty
            && Parse(m.value.ty.fields, buf[8 + n..8 + n + k]) == Some(m.value.rec)
  }

  lemma {:induction false} WordBytes(a: int, b: int, c: int, d: int)
    requires 0 <= a < 0x100 && 0 <= b < 0x100 && 0 <= c < 0x100 && 0 <= d < 0x100
    ensures var n := a + 0x100 * b + 0x1_0000 * c + 0x100_0000 * d;
            n % 0x100 == a && n / 0x100 % 0x100 == b && n / 0x1_0000 % 0x100 == c && n / 0x100_0000 == d
  {
    var n := a + 0x100 * b + 0x1_0000 * c + 0x100_0000 * d;
    assert n / 0x100 == b + 0x100 * c + 0x1_0000 * d;
    assert n / 0x1_0000 == c + 0x100 * d;
    assert n / 0x100_0000 == d;
  }

  lemma {:induction false} Le32UndoesUnLe32(s: bytes)
    requires |s| >= 4
    ensures Le32(UnLe32(s)) == s[..4]
  {
    WordBytes(s[0], s[1], s[2], s[3]);
  }

  lemma {:induction false} SizesOfWords(buf: bytes, n: uint32, k: uint32)
    requires |buf| >= 8
    ensures buf[..4] == Le32(n) && buf[4..8] == Le32(k) <==> HeaderSize(buf) == n && PayloadSize(buf) == k
  {
    hide Le32, UnLe32;
    assert buf[4..][..4] == buf[4..8];
    Le32UndoesUnLe32(buf);
    Le32UndoesUnLe32(buf[4..]);
    if buf[..4] == Le32(n) {
      UnLe32UndoesLe32(n, buf[4..]);
      assert buf == buf[..4] + buf[4..];
    }
    if buf[4..8] == Le32(k) {
      UnLe32UndoesLe32(k, buf[8..]);
      assert buf[4..] == buf[4..8] + buf[8..];
    }
  }

  lemma {:induction false} ReadIsFrame(buf: bytes, written: nat, ids: IdMap, spec: HeaderSpec, h: Message,
      m: Option<Message>)
    requires written <= |buf| <= INT_MAX && h.ty == spec.ty && ReadFrame(buf, written, ids, spec) == Read(h, m)
    ensures written >= 8 && IsFrameOf(buf, written, HeaderSize(buf), PayloadSize(buf), ids, spec, h, m)
  {
    hide Parse, Le32, UnLe32;
    SizesOfWords(buf, HeaderSize(buf), PayloadSize(buf));
    if TrueSize(buf) >= 0x1_0000_0000 {
      WrappedSizesNeverRead(buf, written, ids, spec);
    }
  }

  lemma {:induction false} FrameIsRead(buf: bytes, written: nat, n: nat, k: nat, ids: IdMap, spec: HeaderSpec,
      h: Message, m: Option<Message>)
    requires written <= |buf| <= INT_MAX && h.ty == spec.ty && IsFrameOf(buf, written, n, k, ids, spec, h, m)
    ensures ReadFrame(buf, written, ids, spec) == Read(h, m)
  {
    hide Parse, Le32, UnLe32;
    SizesOfWords(buf, n, k);
  }

  /** The frame round trip, exactly: header and payload come back if and only if all their strings
      are readable and the payload's encoding is empty just when no payload type is selected. */
  lemma {:induction false} FrameRoundTripExactly(ids: IdMap, spec: HeaderSpec, h: Message, m: Message, rest: bytes)
    requires h.ty == spec.ty && |Bytes(h)| + |Bytes(m)| + 8 <= INT_MAX
    requires Selected(spec, h) > 0 ==> Selected(spec, h) in ids && ids[Selected(spec, h)] == m.ty
    ensures var f := FrameOf(Bytes(h), Bytes(m)); var id := Selected(spec, h);
            ReadFrame(f + rest, |f|, ids, spec) == Read(h, if id > 0 then Some(m) else None)
            <==> Sendable(h) && (Bytes(m) == [] <==> id == 0) && (id > 0 ==> Sendable(m))
  {
    ReadOfFrame(ids, spec, h, Bytes(m), rest);
    ParseAsUndoesBytes(m);
  }

  /** An all-default payload of a registered type is written without complaint and then refused. */
  lemma {:induction false} DefaultPayloadIsRefused(ids: IdMap, spec: HeaderSpec, h: Message, m: Message)
    requires h.ty == spec.ty && Sendable(h) && Selected(spec, h) > 0
    requires m.rec == Defaults(m.ty.fields) && |Bytes(h)| + 8 <= INT_MAX
    ensures Bytes(m) == [] && ReadExactly(FrameOf(Bytes(h), Bytes(m)), ids, spec) == SizeTypeMismatch
  {
    EmptyEncodingIsDefault(m.ty.fields, m.rec, 0);
    ReadOfFrame(ids, spec, h, Bytes(m), []);
    var f := FrameOf(Bytes(h), Bytes(m));
    assert f + [] == f;
  }

  // ---------- The buffer ----------

  /** Buffer s with part x serialized at position at and its size stored in a slot in front. */
  function PartPut(s: bytes, at: nat, x: bytes, slot: nat): (t: bytes)
    requires 8 <= at && at + |x| <= |s| <= INT_MAX && slot < 2
    ensures |t| == |s|
  {
    Splice(Splice(s, at, x), 4 * slot, Le32(|x|))
  }

  datatype WriteResult = Wrote(size: nat) | HeaderTooLarge | PayloadTooLarge

  class ProtoFrameBufferView {
    const buffer: array<byte>
    const serializer: MessageSerializer
    var written: nat

    ghost predicate Valid() reads this { written <= buffer.Length <= INT_MAX }

    constructor (s: MessageSerializer, b: array<byte>)
      requires b.Length <= INT_MAX
      ensures Valid() && buffer == b && serializer == s && written == 0
    {
      serializer, buffer, written := s, b, 0;
    }

    method FreeBytes() returns (n: nat)
      requires Valid()
      ensures written + n == buffer.Length
    {
      n := buffer.Length - written;
    }

    method AckWritten(size: nat)
      requires size <= buffer.Length <= INT_MAX
      modifies this`written
      ensures Valid() && written == size
    {
      written := size;
    }

    method Reset()
      requires buffer.Length <= INT_MAX
      modifies this`written
      ensures Valid() && written == 0
    {
      written := 0;
    }

    /** ProtoFrameBuffer::Clear. */
    method Clear()
      modifies buffer
      ensures forall i | 0 <= i < buffer.Length :: buffer[i] == 0
    {
      forall i | 0 <= i < buffer.Length {
        buffer[i] := 0;
      }
    }

    /** sizePtr[slot] = n */
    method PutSize(slot: nat, n: uint32)
      requires 4 * slot + 4 <= buffer.Length
      modifies buffer
      ensures buffer[..] == Splice(old(buffer[..]), 4 * slot, Le32(n))
    {
      var _ := WriteRaw(Le32(n), buffer, 4 * slot);
    }

    /** Serializes one part of a frame at offset and stores its size. */
    method PutPart(m: Message, slot: nat, offset: nat) returns (ok: bool)
      requires slot < 2 && 8 <= offset && buffer.Length <= INT_MAX
      modifies buffer
      ensures ok <==> offset + |Bytes(m)| <= buffer.Length
      ensures ok ==> buffer[..] == PartPut(old(buffer[..]), offset, Bytes(m), slot)
      ensures !ok ==> buffer[..] == old(buffer[..])
    {
      ok := SerializeToArray(m, buffer, offset, buffer.Length - offset);
      if ok {
        PutSize(slot, ByteSize(m));
      }
    }

    /** Write(header, payload). */
    method Write(header: Message, payload: Message) returns (r: WriteResult)
      requires Valid()
      modifies this`written, buffer
      ensures Valid()
      ensures r.Wrote? <==> old(written) + 8 + |Bytes(header)| + |Bytes(payload)| <= buffer.Length
      ensures if r.Wrote? then r.size == written == old(written) + 8 + |Bytes(header)| + |Bytes(payload)|
              else written == old(written)
      ensures WriteSpec(old(buffer[..]), old(written), Bytes(header), Bytes(payload), r, buffer[..], written)
    {
      hide PartPut, Splice, Bytes, Framed, Le32, WriteSpec, ByteSize, WellTyped, Typed;
      ghost var s, w, h, p := buffer[..], written, Bytes(header), Bytes(payload);
      var offset := written + 8;
      var ok := PutPart(header, 0, offset);
      if !ok {
        HeaderDoesNotFit(s, w, h, p);
        return HeaderTooLarge;
      }
      offset := offset + ByteSize(header);
      ok := PutPart(payload, 1, offset);
      if !ok {
        PayloadDoesNotFit(s, w, h, p);
        return PayloadTooLarge;
      }
      written := offset + ByteSize(payload);
      FrameFits(s, w, h, p);
      if written > buffer.Length {
        assert false;
      }
      r := Wrote(written);
    }

    /** Write(header, ptr), where ptr may be null. */
    method WritePtr(header: Message, ptr: Option<Message>) returns (r: WriteResult)
      requires Valid()
      modifies this`written, buffer
      ensures Valid()
      ensures r.Wrote? <==> old(written) + 8 + |Bytes(header)| + |PtrBytes(ptr)| <= buffer.Length
      ensures if r.Wrote? then r.size == written == old(written) + 8 + |Bytes(header)| + |PtrBytes(ptr)|
              else written == old(written)
      ensures WriteSpec(old(buffer[..]), old(written), Bytes(header), PtrBytes(ptr), r, buffer[..], written)
    {
      hide PartPut, Splice, Bytes, Framed, Le32, WriteSpec, ByteSize, WellTyped, Typed;
      ghost var s, w, h, p := buffer[..], written, Bytes(header), PtrBytes(ptr);
      var offset := written + 8;
      var ok := PutPart(header, 0, offset);
      if !ok {
        HeaderDoesNotFit(s, w, h, p);
        return HeaderTooLarge;
      }
      offset := offset + ByteSize(header);
      if ptr == None {
        PutSize(1, 0);
        written := offset;
        HeaderFitsAlone(s, w, h);
        return Wrote(written);
      }
      ok := PutPart(ptr.value, 1, offset);
      if !ok {
        PayloadDoesNotFit(s, w, h, p);
        return PayloadTooLarge;
      }
      written := offset + ByteSize(ptr.value);
      FrameFits(s, w, h, p);
      if written > buffer.Length {
        assert false;
      }
      r := Wrote(written);
    }

    /** Write(header). */
    method WriteHeader(header: Message) returns (r: WriteResult)
      requires Valid()
      modifies this`written, buffer
      ensures Valid()
      ensures WriteSpec(old(buffer[..]), old(written), Bytes(header), [], r, buffer[..], written)
    {
      r := WritePtr(header, None);
    }

    /** Read at offset 0; a payload of None is a message pointer left as it was. */
    method Read(spec: HeaderSpec) returns (r: ReadResult)
      requires Valid()
      ensures r == ReadFrame(buffer[..], written, serializer.messageIdMap, spec)
    {
      hide ParseAs, UnLe32;
      if written < 8 {
        return TooSmall;
      }
      var headerSize, payloadSize := UnLe32(buffer[..]), UnLe32(buffer[4..]);
      assert buffer[4..] == buffer[..][4..];
      var totalExpectedSize := (8 + headerSize + payloadSize) % 0x1_0000_0000;
      if written < totalExpectedSize {
        return TooSmallForParts;
      }
      if 8 + headerSize > buffer.Length {
        return PastBuffer;
      }
      assert buffer[8..8 + headerSize] == buffer[..][8..8 + headerSize];
      var header := ParseAs(spec.ty, buffer[8..8 + headerSize]);
      if header == None {
        return BadHeader;
      }
      var payloadType := Selected(spec, header.value);
      var payload := None;
      if payloadSize > 0 && payloadType > 0 {
        if payloadType !in serializer.messageIdMap {
          return Unregistered;
        }
        var from := 8 + headerSize;
        if from + payloadSize > buffer.Length {
          return PastBuffer;
        }
        assert buffer[from..from + payloadSize] == buffer[..][from..from + payloadSize];
        var m := Deserialize(serializer.messageIdMap, buffer[from..from + payloadSize], payloadType);
        if !m.Parsed? {
          return BadPayload;
        }
        payload := Some(m.m);
      }
      if (payloadSize == 0) != (payloadType == 0) {
        return SizeTypeMismatch;
      }
      r := ReadResult.Read(header.value, payload);
    }
  }

  function PtrBytes(ptr: Option<Message>): bytes
  {
    match ptr case None => [] case Some(m) => Bytes(m)
  }

  /** What a write of header h and payload p does to buffer s with w bytes written: it succeeds
      exactly when everything fits, and otherwise leaves the count of written bytes alone. */
  ghost predicate WriteSpec(s: bytes, w: nat, h: bytes, p: bytes, r: WriteResult, s': bytes, w': nat)
  {
    && (r.Wrote? <==> w + 8 + |h| + |p| <= |s| <= INT_MAX)
    && (r == HeaderTooLarge <==> w + 8 + |h| > |s|)
    && match r
       case Wrote(size) => w' == size == w + 8 + |h| + |p| && s' == Framed(s, w, h, p)
       case HeaderTooLarge => w' == w && s' == s
       case PayloadTooLarge =>
         w + 8 + |h| <= |s| <= INT_MAX && w' == w && s' == PartPut(s, w + 8, h, 0)
  }

  /** Two parts, in the order the code puts them, amount to one frame. */
  lemma {:induction false} FramedInSteps(s: bytes, w: nat, h: bytes, p: bytes)
    requires w + 8 + |h| + |p| <= |s| <= INT_MAX
    ensures PartPut(PartPut(s, w + 8, h, 0), w + 8 + |h|, p, 1) == Framed(s, w, h, p)
  {
    hide Splice, Le32;
    SplicesCommute(Splice(s, w + 8, h), 0, Le32(|h|), w + 8 + |h|, p);
    SpliceAdjacent(s, w + 8, h, p);
    SpliceAdjacent(Splice(s, w + 8, h + p), 0, Le32(|h|), Le32(|p|));
  }

  lemma {:induction false} HeaderDoesNotFit(s: bytes, w: nat, h: bytes, p: bytes)
    requires w + 8 + |h| > |s|
    ensures WriteSpec(s, w, h, p, HeaderTooLarge, s, w)
  {
  }

  lemma {:induction false} PayloadDoesNotFit(s: bytes, w: nat, h: bytes, p: bytes)
    requires w + 8 + |h| <= |s| < w + 8 + |h| + |p| && |s| <= INT_MAX
    ensures WriteSpec(s, w, h, p, PayloadTooLarge, PartPut(s, w + 8, h, 0), w)
  {
    hide PartPut;
  }

  lemma {:induction false} FrameFits(s: bytes, w: nat, h: bytes, p: bytes)
    requires w + 8 + |h| + |p| <= |s| <= INT_MAX
    ensures WriteSpec(s, w, h, p, Wrote(w + 8 + |h| + |p|), PartPut(PartPut(s, w + 8, h, 0), w + 8 + |h|, p, 1),
                      w + 8 + |h| + |p|)
  {
    hide PartPut, Framed;
    FramedInSteps(s, w, h, p);
  }

  lemma {:induction false} HeaderFitsAlone(s: bytes, w: nat, h: bytes)
    requires w + 8 + |h| <= |s| <= INT_MAX
    ensures WriteSpec(s, w, h, [], Wrote(w + 8 + |h|), Splice(PartPut(s, w + 8, h, 0), 4, Le32(0)), w + 8 + |h|)
  {
    hide Splice, Le32, Framed, WriteSpec;
    SpliceNothing(PartPut(s, w + 8, h, 0), w + 8 + |h|);
    FrameFits(s, w, h, []);
  }

  lemma {:induction false} SplicesCommute(s: bytes, i: nat, x: bytes, j: nat, y: bytes)
    requires i + |x| <= j && j + |y| <= |s|
    ensures Splice(Splice(s, i, x), j, y) == Splice(Splice(s, j, y), i, x)
  {
  }
}
