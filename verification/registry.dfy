/** The message serializer: two maps that tie message types to message ids. */
module Registry {
  import opened Wire
  import opened Codec

  type TypeMap = map<MsgType, uint32>

  type IdMap = map<uint32, MsgType>

  /** The value of the two maps. */
  datatype Maps = Maps(types: TypeMap, ids: IdMap)

  const EMPTY := Maps(map[], map[])

  /** RegisterMessage on values. A known type keeps its id, and asking for another one fails;
      a new type takes over an id even when another type holds it. */
  function Register(m: Maps, ty: MsgType, id: uint32): (Maps, bool)
  {
    if ty in m.types then (m, m.types[ty] == id)
    else (Maps(m.types[ty := id], m.ids[id := ty]), true)
  }

  datatype Deserialized = NotRegistered | Malformed | Parsed(m: Message)

  function Deserialize(ids: IdMap, data: bytes, id: uint32): (r: Deserialized)
    ensures r.Parsed? ==> id in ids && r.m.ty == ids[id]
  {
    if id !in ids then NotRegistered
    else match ParseAs(ids[id], data)
      case None => Malformed
      case Some(m) => Parsed(m)
  }

  /** What comes out is the message of the id's type that the bytes parse to, and nothing else. */
  lemma {:induction false} DeserializesExactly(ids: IdMap, data: bytes, id: uint32, m: Message)
    ensures Deserialize(ids, data, id) == Parsed(m)
       <==> id in ids && ids[id] == m.ty && Parse(m.ty.fields, data) == Some(m.rec)
    ensures Deserialize(ids, data, id).Parsed? <==> id in ids && Parse(ids[id].fields, data).Some?
  {
    hide Parse;
  }

  class MessageSerializer {
    var messageIdMap: IdMap
    var typeIdMap: TypeMap

    constructor ()
      ensures Value() == EMPTY
    {
      messageIdMap, typeIdMap := map[], map[];
    }

    function Value(): Maps reads this { Maps(typeIdMap, messageIdMap) }

    /** Returns false where the original throws "Message ID already registered". */
    method RegisterMessage(ty: MsgType, id: uint32) returns (ok: bool)
      modifies this
      ensures (Value(), ok) == Register(old(Value()), ty, id)
    {
      if ty in typeIdMap {
        return typeIdMap[ty] == id;
      }
      typeIdMap := typeIdMap[ty := id];
      messageIdMap := messageIdMap[id := ty];
      ok := true;
    }

    method GetMessageId(ty: MsgType) returns (id: Option<uint32>)
      ensures id == if ty in typeIdMap then Some(typeIdMap[ty]) else None
    {
      id := if ty in typeIdMap then Some(typeIdMap[ty]) else None;
    }

    method GetMessageName(id: uint32) returns (name: Option<string>)
      ensures name == if id in messageIdMap then Some(messageIdMap[id].name) else None
    {
      name := if id in messageIdMap then Some(messageIdMap[id].name) else None;
    }
  }

  // ---------- Every registration sequence ----------

  datatype Registration = Registration(ty: MsgType, id: uint32)

  /** The maps after a sequence of registrations, the failed ones included. */
  function RegisterAll(regs: seq<Registration>): Maps
  {
    if regs == [] then EMPTY
    else var last := regs[|regs| - 1];
      Register(RegisterAll(regs[..|regs| - 1]), last.ty, last.id).0
  }

  /** Position of the first registration of a type, or the length. */
  function FirstIndex(regs: seq<Registration>, ty: MsgType): (i: nat)
    ensures i <= |regs|
    ensures i < |regs| ==> regs[i].ty == ty
    ensures forall j | 0 <= j < i :: regs[j].ty != ty
  {
    if regs == [] || regs[0].ty == ty then 0 else 1 + FirstIndex(regs[1..], ty)
  }

  lemma {:induction false} FirstIndexOfPrefix(regs: seq<Registration>, n: nat, ty: MsgType)
    requires n <= |regs|
    ensures FirstIndex(regs, ty) < n ==> FirstIndex(regs[..n], ty) == FirstIndex(regs, ty)
    ensures FirstIndex(regs, ty) >= n ==> FirstIndex(regs[..n], ty) == n
  {
    var i, j := FirstIndex(regs, ty), FirstIndex(regs[..n], ty);
    assert j < n ==> regs[j].ty == ty;
    assert i < n ==> regs[..n][i].ty == ty;
  }

  /** Of the types first registered under id, is ty the one registered last? */
  ghost predicate LatestUnder(regs: seq<Registration>, ty: MsgType, id: uint32)
  {
    var i := FirstIndex(regs, ty);
    && i < |regs| && regs[i].id == id
    && forall other :: var j := FirstIndex(regs, other); j < |regs| && regs[j].id == id ==> j <= i
  }

  lemma {:induction false} FirstIndexStep(regs: seq<Registration>, ty: MsgType)
    requires regs != []
    ensures var n := |regs| - 1; var i := FirstIndex(regs[..n], ty);
            FirstIndex(regs, ty) == if i < n then i else if ty == regs[n].ty then n else n + 1
  {
    FirstIndexOfPrefix(regs, |regs| - 1, ty);
  }

  lemma {:induction false} TypeAfterRegistrations(regs: seq<Registration>, ty: MsgType)
    ensures var m := RegisterAll(regs); var i := FirstIndex(regs, ty);
            (ty in m.types <==> i < |regs|) && (i < |regs| ==> m.types[ty] == regs[i].id)
  {
    hide FirstIndex;
    if regs != [] {
      var n := |regs| - 1;
      TypeAfterRegistrations(regs[..n], ty);
      TypeAfterRegistrations(regs[..n], regs[n].ty);
      FirstIndexStep(regs, ty);
    }
  }

  lemma {:induction false} OwnerAfterRegistrations(regs: seq<Registration>, ty: MsgType, id: uint32)
    ensures var m := RegisterAll(regs); id in m.ids && m.ids[id] == ty <==> LatestUnder(regs, ty, id)
  {
    if regs != [] {
      hide FirstIndex, LatestUnder;
      var n := |regs| - 1;
      OwnerAfterRegistrations(regs[..n], ty, id);
      TypeAfterRegistrations(regs[..n], regs[n].ty);
      LatestUnderStep(regs, ty, id);
    }
  }

  lemma {:induction false} LatestUnderStep(regs: seq<Registration>, ty: MsgType, id: uint32)
    requires regs != []
    ensures var n := |regs| - 1; var last := regs[n];
            LatestUnder(regs, ty, id) <==>
            if FirstIndex(regs[..n], last.ty) == n && id == last.id then ty == last.ty
            else LatestUnder(regs[..n], ty, id)
  {
    hide FirstIndex;
    var n := |regs| - 1;
    var before, last := regs[..n], regs[n];
    FirstIndexStep(regs, ty);
    FirstIndexStep(regs, last.ty);
    if FirstIndex(before, last.ty) == n && id == last.id {
      assert LatestUnder(regs, ty, id) ==> n <= FirstIndex(regs, ty);
    } else if LatestUnder(before, ty, id) {
      forall other | FirstIndex(regs, other) < |regs| && regs[FirstIndex(regs, other)].id == id
        ensures FirstIndex(regs, other) <= FirstIndex(regs, ty)
      {
        FirstIndexStep(regs, other);
      }
    } else if LatestUnder(regs, ty, id) {
      forall other | FirstIndex(before, other) < n && before[FirstIndex(before, other)].id == id
        ensures FirstIndex(before, other) <= FirstIndex(before, ty)
      {
        FirstIndexStep(regs, other);
        assert FirstIndex(regs, other) <= FirstIndex(regs, ty);
      }
    }
  }

  /** A type is registered exactly when the sequence names it, forever under the id it was first
      given, and an id belongs exactly to the latest type first registered under it. */
  lemma {:induction false} MapsAfterRegistrations(regs: seq<Registration>)
    ensures var m := RegisterAll(regs);
            && (forall ty :: ty in m.types <==> FirstIndex(regs, ty) < |regs|)
            && (forall ty | ty in m.types :: m.types[ty] == regs[FirstIndex(regs, ty)].id)
            && (forall ty, id :: id in m.ids && m.ids[id] == ty <==> LatestUnder(regs, ty, id))
  {
    hide FirstIndex, LatestUnder, RegisterAll;
    forall ty {
      TypeAfterRegistrations(regs, ty);
    }
    forall ty, id {
      OwnerAfterRegistrations(regs, ty, id);
    }
  }

  /** The next registration succeeds exactly if it is the first of its type or repeats the first one's id. */
  lemma {:induction false} RegistrationSucceedsExactly(regs: seq<Registration>, ty: MsgType, id: uint32)
    ensures Register(RegisterAll(regs), ty, id).1
       <==> forall i | 0 <= i < |regs| && regs[i].ty == ty && (forall j | 0 <= j < i :: regs[j].ty != ty) ::
              regs[i].id == id
  {
    hide RegisterAll;
    TypeAfterRegistrations(regs, ty);
    var i := FirstIndex(regs, ty);
    assert i < |regs| ==> forall j | 0 <= j < i :: regs[j].ty != ty;
  }

  /** The maps agree: each id's type carries that id, and the ids in use are those of the types. */
  ghost predicate Consistent(m: Maps)
  {
    && (forall id | id in m.ids :: m.ids[id] in m.types && m.types[m.ids[id]] == id)
    && m.ids.Keys == m.types.Values
  }

  lemma {:induction false} RegisterKeepsConsistent(m: Maps, ty: MsgType, id: uint32)
    requires Consistent(m)
    ensures Consistent(Register(m, ty, id).0)
    ensures forall t | t in m.types :: t in Register(m, ty, id).0.types && Register(m, ty, id).0.types[t] == m.types[t]
  {
    if ty !in m.types {
      var n := Register(m, ty, id).0;
      forall i ensures i in n.types.Values <==> i == id || i in m.types.Values {
        assert n.types[ty] == id;
        if i in m.types.Values {
          var t :| t in m.types && m.types[t] == i;
          assert n.types[t] == i;
        }
      }
      assert n.ids.Keys == n.types.Values;
    }
  }

  lemma {:induction false} AlwaysConsistent(regs: seq<Registration>)
    ensures Consistent(RegisterAll(regs))
  {
    if regs != [] {
      var last := regs[|regs| - 1];
      AlwaysConsistent(regs[..|regs| - 1]);
      RegisterKeepsConsistent(RegisterAll(regs[..|regs| - 1]), last.ty, last.id);
    }
  }

  /** A registered message comes back from its own id and encoding exactly when its strings are
      readable and no other type was first registered under that id later. */
  lemma {:induction false} DeserializeUndoesSerializeExactly(regs: seq<Registration>, m: Message)
    requires m.ty in RegisterAll(regs).types
    ensures var maps := RegisterAll(regs); var id := maps.types[m.ty];
            Deserialize(maps.ids, Bytes(m), id) == Parsed(m) <==> Sendable(m) && LatestUnder(regs, m.ty, id)
  {
    MapsAfterRegistrations(regs);
    ParseAsUndoesBytes(m);
  }

  /** Two types under one id: the first can be serialized, but no longer read back. */
  lemma {:induction false} CollidingIdShadowsEarlierType(a: MsgType, b: MsgType, id: uint32, m: Message)
    requires a != b && m.ty == a
    ensures var maps := RegisterAll([Registration(a, id), Registration(b, id)]);
            a in maps.types && maps.types[a] == id && Deserialize(maps.ids, Bytes(m), id) != Parsed(m)
  {
    var regs := [Registration(a, id), Registration(b, id)];
    assert regs[..1] == [Registration(a, id)];
    assert RegisterAll([Registration(a, id)]) == Maps(map[a := id], map[id := a]) by {
      assert [Registration(a, id)][..0] == [];
    }
  }
}
