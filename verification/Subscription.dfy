/** The two conversions of authentication subscription documents in
    onvm_test/mongodb.go: to the form the database holds, when one is put,
    and back, when one is read. */
module Subscription {
  import opened Bytes

  /** A value of a document; Other stands for every kind the conversions do not
      look into. */
  datatype Value = Null | Str(s: string) | Obj(fields: Doc) | Other(token: int)

  type Doc = map<string, Value>

  // ---------- The conversions on values ----------

  predicate HasString(d: Doc, key: string) {
    key in d && d[key].Str?
  }

  predicate HasNested(d: Doc, key: string, inner: string) {
    key in d && d[key].Obj? && HasString(d[key].fields, inner)
  }

  /** A string becomes an object with one field. */
  function WrapSqn(d: Doc): Doc {
    if HasString(d, "sequenceNumber") then d["sequenceNumber" := Obj(map["sqn" := d["sequenceNumber"]])] else d
  }

  /** sprint is how a value that is no string is formatted. */
  function UnwrapSqn(sprint: Value -> string, d: Doc): Doc {
    if "sequenceNumber" in d && d["sequenceNumber"].Obj? && "sqn" in d["sequenceNumber"].fields then
      var sqn := d["sequenceNumber"].fields["sqn"];
      d["sequenceNumber" := if sqn.Str? then sqn else Str(sprint(sqn))]
    else d
  }

  /** The string nested in the object at key moves to enc; the object goes. */
  function Flatten(d: Doc, key: string, inner: string, enc: string): Doc {
    if HasNested(d, key, inner) then d[enc := d[key].fields[inner]] - {key} else d
  }

  /** The string at enc moves into a new object at key. */
  function Nest(d: Doc, key: string, inner: string, enc: string): Doc {
    if HasString(d, enc) then d[key := Obj(map[inner := d[enc]])] - {enc} else d
  }

  function FlattenPermanent(d: Doc): Doc {
    Flatten(d, "permanentKey", "permanentKeyValue", "encPermanentKey")
  }

  function FlattenOpc(d: Doc): Doc {
    Flatten(d, "opc", "opcValue", "encOpcKey")
  }

  function NestPermanent(d: Doc): Doc {
    Nest(d, "permanentKey", "permanentKeyValue", "encPermanentKey")
  }

  function NestOpc(d: Doc): Doc {
    Nest(d, "opc", "opcValue", "encOpcKey")
  }

  function ToStored(d: Doc, ueId: string): Doc {
    FlattenOpc(FlattenPermanent(WrapSqn(d["ueId" := Str(ueId)])))
  }

  function ToRead(sprint: Value -> string, d: Doc): Doc {
    NestOpc(NestPermanent(UnwrapSqn(sprint, d)))
  }

  // ---------- What the conversions come to, field by field ----------

  /** The two documents say the same at key k. */
  predicate Agree(d: Doc, e: Doc, k: string) {
    (k in d <==> k in e) && (k in d ==> d[k] == e[k])
  }

  /** A stored document s: ueId is set; a sequence number that is a string has
      become an object with that sqn; a key object with a string value has
      become that string under the new name; nothing else differs from d. */
  ghost predicate StoredAs(s: Doc, d: Doc, ueId: string) {
    && "ueId" in s && s["ueId"] == Str(ueId)
    && (if "sequenceNumber" in d && d["sequenceNumber"].Str? then
          "sequenceNumber" in s && s["sequenceNumber"] == Obj(map["sqn" := d["sequenceNumber"]])
        else Agree(s, d, "sequenceNumber"))
    && (if && "permanentKey" in d && d["permanentKey"].Obj?
           && "permanentKeyValue" in d["permanentKey"].fields && d["permanentKey"].fields["permanentKeyValue"].Str? then
          && "permanentKey" !in s && "encPermanentKey" in s
          && s["encPermanentKey"] == d["permanentKey"].fields["permanentKeyValue"]
        else Agree(s, d, "permanentKey") && Agree(s, d, "encPermanentKey"))
    && (if && "opc" in d && d["opc"].Obj?
           && "opcValue" in d["opc"].fields && d["opc"].fields["opcValue"].Str? then
          "opc" !in s && "encOpcKey" in s && s["encOpcKey"] == d["opc"].fields["opcValue"]
        else Agree(s, d, "opc") && Agree(s, d, "encOpcKey"))
    && forall k | k !in {"ueId", "sequenceNumber", "permanentKey", "encPermanentKey", "opc", "encOpcKey"} ::
         Agree(s, d, k)
  }

  /** A document r read back: a sequence number that is an object with an sqn has
      become that string, or the text of what is no string; a string under a new
      name has become a key object with that value alone; nothing else differs
      from d. */
  ghost predicate ReadAs(r: Doc, sprint: Value -> string, d: Doc) {
    && (if && "sequenceNumber" in d && d["sequenceNumber"].Obj? && "sqn" in d["sequenceNumber"].fields then
          var sqn := d["sequenceNumber"].fields["sqn"];
          "sequenceNumber" in r && r["sequenceNumber"] == if sqn.Str? then sqn else Str(sprint(sqn))
        else Agree(r, d, "sequenceNumber"))
    && (if "encPermanentKey" in d && d["encPermanentKey"].Str? then
          && "encPermanentKey" !in r && "permanentKey" in r
          && r["permanentKey"] == Obj(map["permanentKeyValue" := d["encPermanentKey"]])
        else Agree(r, d, "permanentKey") && Agree(r, d, "encPermanentKey"))
    && (if "encOpcKey" in d && d["encOpcKey"].Str? then
          && "encOpcKey" !in r && "opc" in r && r["opc"] == Obj(map["opcValue" := d["encOpcKey"]])
        else Agree(r, d, "opc") && Agree(r, d, "encOpcKey"))
    && forall k | k !in {"sequenceNumber", "permanentKey", "encPermanentKey", "opc", "encOpcKey"} ::
         Agree(r, d, k)
  }

  // ---------- The conversions in place ----------

  class Document {
    var data: Doc

    constructor (data: Doc)
      ensures this.data == data
    {
      this.data := data;
    }

    method ConvertToStored(ueId: string)
      modifies this
      ensures data == ToStored(old(data), ueId)
      ensures StoredAs(data, old(data), ueId)
    {
      StoredExactly(data, ueId);
      data := data["ueId" := Str(ueId)];
      if "sequenceNumber" in data && data["sequenceNumber"].Str? {
        data := data["sequenceNumber" := Obj(map["sqn" := data["sequenceNumber"]])];
      }
      MoveNested("permanentKey", "permanentKeyValue", "encPermanentKey");
      MoveNested("opc", "opcValue", "encOpcKey");
    }

    method MoveNested(key: string, inner: string, enc: string)
      modifies this
      ensures data == Flatten(old(data), key, inner, enc)
    {
      if key in data && data[key] != Null {
        var keyObj := match data[key] case Obj(o) => Some(o) case _ => None;
        if keyObj.Some? && inner in keyObj.value && keyObj.value[inner].Str? {
          data := data[enc := keyObj.value[inner]];
          data := data - {key};
        }
      }
    }

    method ConvertToRead(sprint: Value -> string)
      modifies this
      ensures data == ToRead(sprint, old(data))
      ensures ReadAs(data, sprint, old(data))
    {
      ReadExactly(sprint, data);
      if "sequenceNumber" in data && data["sequenceNumber"] != Null {
        var seqNumRaw := data["sequenceNumber"];
        if !seqNumRaw.Str? {
          var obj := match seqNumRaw case Obj(o) => Some(o) case _ => None;
          if obj.Some? {
            if "sqn" in obj.value && obj.value["sqn"].Str? {
              data := data["sequenceNumber" := obj.value["sqn"]];
            } else if "sqn" in obj.value {
              data := data["sequenceNumber" := Str(sprint(obj.value["sqn"]))];
            }
          }
        }
      }
      if "encPermanentKey" in data && data["encPermanentKey"].Str? {
        data := data["permanentKey" := Obj(map["permanentKeyValue" := data["encPermanentKey"]])];
        data := data - {"encPermanentKey"};
      }
      if "encOpcKey" in data && data["encOpcKey"].Str? {
        data := data["opc" := Obj(map["opcValue" := data["encOpcKey"]])];
        data := data - {"encOpcKey"};
      }
    }
  }

  // ---------- One lane at a time ----------

  lemma AgreeEverywhere(d: Doc, e: Doc)
    requires forall k :: Agree(d, e, k)
    ensures d == e
  {
    assert d.Keys == e.Keys by {
      forall k ensures k in d.Keys <==> k in e.Keys {
        assert Agree(d, e, k);
      }
    }
    forall k | k in d ensures d[k] == e[k] {
      assert Agree(d, e, k);
    }
  }

  ghost predicate Distinct(k1: string, e1: string, k2: string, e2: string) {
    k1 != e1 && k1 != k2 && k1 != e2 && e1 != k2 && e1 != e2 && k2 != e2
  }

  /** Two moves over different keys do not disturb each other. */
  lemma TwoFlattens(d: Doc, p: Doc, q: Doc, k1: string, i1: string, e1: string, k2: string, i2: string, e2: string)
    requires Distinct(k1, e1, k2, e2)
    requires Agree(d, p, k1) && Agree(d, p, e1) && Agree(d, q, k2) && Agree(d, q, e2)
    ensures
      var s := Flatten(Flatten(d, k1, i1, e1), k2, i2, e2);
      && Agree(s, Flatten(p, k1, i1, e1), k1) && Agree(s, Flatten(p, k1, i1, e1), e1)
      && Agree(s, Flatten(q, k2, i2, e2), k2) && Agree(s, Flatten(q, k2, i2, e2), e2)
      && forall k | k !in {k1, e1, k2, e2} :: Agree(s, d, k)
  {
  }

  lemma TwoNests(d: Doc, p: Doc, q: Doc, k1: string, i1: string, e1: string, k2: string, i2: string, e2: string)
    requires Distinct(k1, e1, k2, e2)
    requires Agree(d, p, k1) && Agree(d, p, e1) && Agree(d, q, k2) && Agree(d, q, e2)
    ensures
      var s := Nest(Nest(d, k1, i1, e1), k2, i2, e2);
      && Agree(s, Nest(p, k1, i1, e1), k1) && Agree(s, Nest(p, k1, i1, e1), e1)
      && Agree(s, Nest(q, k2, i2, e2), k2) && Agree(s, Nest(q, k2, i2, e2), e2)
      && forall k | k !in {k1, e1, k2, e2} :: Agree(s, d, k)
  {
  }

  lemma KeysDiffer()
    ensures Distinct("permanentKey", "encPermanentKey", "opc", "encOpcKey")
    ensures "ueId" !in Keys() && "sequenceNumber" !in LaneKeys()
  {
    assert |"ueId"| == 4 && |"sequenceNumber"| == 14 && |"permanentKey"| == 12 && |"encPermanentKey"| == 15;
    assert |"opc"| == 3 && |"encOpcKey"| == 9;
  }

  function LaneKeys(): set<string> {
    {"permanentKey", "encPermanentKey", "opc", "encOpcKey"}
  }

  function Keys(): set<string> {
    LaneKeys() + {"sequenceNumber"}
  }

  /** s says at the sequence number what sqn says, and so for the other keys. */
  ghost predicate Lanes(s: Doc, sqn: Doc, permanent: Doc, opc: Doc) {
    && Agree(s, sqn, "sequenceNumber")
    && Agree(s, permanent, "permanentKey") && Agree(s, permanent, "encPermanentKey")
    && Agree(s, opc, "opc") && Agree(s, opc, "encOpcKey")
  }

  lemma WrappedLanes(e: Doc, ueId: string, sqn: Doc, permanent: Doc, opc: Doc)
    requires Lanes(e, sqn, permanent, opc)
    ensures
      var w := WrapSqn(e["ueId" := Str(ueId)]);
      && Lanes(w, WrapSqn(sqn), permanent, opc)
      && HasString(w, "ueId") && w["ueId"].s == ueId
      && forall k | k != "ueId" && k !in Keys() :: Agree(w, e, k)
  {
    KeysDiffer();
  }

  lemma FlattenedLanes(w: Doc, sqn: Doc, permanent: Doc, opc: Doc)
    requires Lanes(w, sqn, permanent, opc)
    ensures Lanes(FlattenOpc(FlattenPermanent(w)), sqn, FlattenPermanent(permanent), FlattenOpc(opc))
    ensures forall k | k !in LaneKeys() :: Agree(FlattenOpc(FlattenPermanent(w)), w, k)
  {
    KeysDiffer();
    TwoFlattens(w, permanent, opc,
      "permanentKey", "permanentKeyValue", "encPermanentKey", "opc", "opcValue", "encOpcKey");
  }

  /** What ToStored leaves at each key. */
  lemma StoredLanes(e: Doc, ueId: string, sqn: Doc, permanent: Doc, opc: Doc)
    requires Lanes(e, sqn, permanent, opc)
    ensures Lanes(ToStored(e, ueId), WrapSqn(sqn), FlattenPermanent(permanent), FlattenOpc(opc))
    ensures HasString(ToStored(e, ueId), "ueId") && ToStored(e, ueId)["ueId"].s == ueId
    ensures forall k | k != "ueId" && k !in Keys() :: Agree(ToStored(e, ueId), e, k)
  {
    KeysDiffer();
    var w := WrapSqn(e["ueId" := Str(ueId)]);
    WrappedLanes(e, ueId, sqn, permanent, opc);
    FlattenedLanes(w, WrapSqn(sqn), permanent, opc);
    assert Agree(ToStored(e, ueId), w, "ueId");
  }

  /** What ToRead leaves at each key. */
  lemma ReadLanes(sprint: Value -> string, e: Doc, sqn: Doc, permanent: Doc, opc: Doc)
    requires Lanes(e, sqn, permanent, opc)
    ensures Lanes(ToRead(sprint, e), UnwrapSqn(sprint, sqn), NestPermanent(permanent), NestOpc(opc))
    ensures forall k | k !in Keys() :: Agree(ToRead(sprint, e), e, k)
  {
    KeysDiffer();
    var d1 := UnwrapSqn(sprint, e);
    assert Agree(d1, UnwrapSqn(sprint, sqn), "sequenceNumber");
    assert forall k | k in LaneKeys() :: Agree(d1, e, k);
    TwoNests(d1, permanent, opc,
      "permanentKey", "permanentKeyValue", "encPermanentKey", "opc", "opcValue", "encOpcKey");
  }

  lemma StoredExactly(d: Doc, ueId: string)
    ensures StoredAs(ToStored(d, ueId), d, ueId)
  {
    StoredLanes(d, ueId, d, d, d);
    KeysDiffer();
  }

  lemma ReadExactly(sprint: Value -> string, d: Doc)
    ensures ReadAs(ToRead(sprint, d), sprint, d)
  {
    ReadLanes(sprint, d, d, d, d);
    KeysDiffer();
  }

  // ---------- Both ways, and twice ----------

  /** What the two forms keep of a key and where writing then reading returns
      it: the object held nothing but the string and enc was free, or there was
      no such object and enc held no string. */
  predicate LaneReturns(d: Doc, key: string, inner: string, enc: string) {
    if HasNested(d, key, inner) then d[key].fields.Keys == {inner} && enc !in d else !HasString(d, enc)
  }

  /** The same for reading then writing. */
  predicate LaneReturnsBack(d: Doc, key: string, inner: string, enc: string) {
    if HasString(d, enc) then key !in d else !HasNested(d, key, inner)
  }

  lemma LaneRoundTrips(d: Doc, key: string, inner: string, enc: string)
    requires key != enc
    ensures
      var e := Nest(Flatten(d, key, inner, enc), key, inner, enc);
      Agree(e, d, key) && Agree(e, d, enc) <==> LaneReturns(d, key, inner, enc)
    ensures
      var e := Flatten(Nest(d, key, inner, enc), key, inner, enc);
      Agree(e, d, key) && Agree(e, d, enc) <==> LaneReturnsBack(d, key, inner, enc)
  {
    if HasNested(d, key, inner) {
      var fields := d[key].fields;
      assert fields == map[inner := fields[inner]] <==> fields.Keys == {inner};
    }
  }

  /** Both keys, both ways. */
  lemma KeysRoundTrip(d: Doc)
    ensures
      var e := NestPermanent(FlattenPermanent(d));
      Agree(e, d, "permanentKey") && Agree(e, d, "encPermanentKey")
      <==> LaneReturns(d, "permanentKey", "permanentKeyValue", "encPermanentKey")
    ensures
      var e := NestOpc(FlattenOpc(d));
      Agree(e, d, "opc") && Agree(e, d, "encOpcKey") <==> LaneReturns(d, "opc", "opcValue", "encOpcKey")
    ensures
      var e := FlattenPermanent(NestPermanent(d));
      Agree(e, d, "permanentKey") && Agree(e, d, "encPermanentKey")
      <==> LaneReturnsBack(d, "permanentKey", "permanentKeyValue", "encPermanentKey")
    ensures
      var e := FlattenOpc(NestOpc(d));
      Agree(e, d, "opc") && Agree(e, d, "encOpcKey") <==> LaneReturnsBack(d, "opc", "opcValue", "encOpcKey")
  {
    KeysDiffer();
    LaneRoundTrips(d, "permanentKey", "permanentKeyValue", "encPermanentKey");
    LaneRoundTrips(d, "opc", "opcValue", "encOpcKey");
  }

  /** The sequence number is no object with an sqn already. */
  predicate SqnReturns(d: Doc) {
    !("sequenceNumber" in d && d["sequenceNumber"].Obj? && "sqn" in d["sequenceNumber"].fields)
  }

  /** The sequence number is no string and, if an object with an sqn, one of a
      single string. */
  predicate SqnReturnsBack(d: Doc) {
    && !HasString(d, "sequenceNumber")
    && (!SqnReturns(d)
        ==> d["sequenceNumber"].fields.Keys == {"sqn"} && HasString(d["sequenceNumber"].fields, "sqn"))
  }

  lemma SqnRoundTrips(sprint: Value -> string, d: Doc)
    ensures Agree(UnwrapSqn(sprint, WrapSqn(d)), d, "sequenceNumber") <==> SqnReturns(d)
    ensures Agree(WrapSqn(UnwrapSqn(sprint, d)), d, "sequenceNumber") <==> SqnReturnsBack(d)
  {
    if !SqnReturns(d) {
      var fields := d["sequenceNumber"].fields;
      assert fields == map["sqn" := fields["sqn"]] <==> fields.Keys == {"sqn"};
    }
  }

  function WithoutUeId(d: Doc): Doc {
    d - {"ueId"}
  }

  lemma SameWithoutUeId(s: Doc, d: Doc, sqn: Doc, permanent: Doc, opc: Doc)
    requires Lanes(s, sqn, permanent, opc)
    requires forall k | k != "ueId" && k !in Keys() :: Agree(s, d, k)
    ensures WithoutUeId(s) == WithoutUeId(d) <==> Lanes(d, sqn, permanent, opc)
  {
    KeysDiffer();
    if forall k | k in Keys() :: Agree(s, d, k) {
      forall k ensures Agree(WithoutUeId(s), WithoutUeId(d), k) {
        assert k != "ueId" ==> Agree(s, d, k);
      }
      AgreeEverywhere(WithoutUeId(s), WithoutUeId(d));
    } else {
      var k :| k in Keys() && !Agree(s, d, k);
      assert !Agree(WithoutUeId(s), WithoutUeId(d), k);
    }
  }

  /** A document comes back from the database as it was put, up to ueId,
      exactly when its sequence number and both its keys return. */
  lemma StoredThenRead(sprint: Value -> string, d: Doc, ueId: string)
    ensures
      WithoutUeId(ToRead(sprint, ToStored(d, ueId))) == WithoutUeId(d)
      <==> && SqnReturns(d)
           && LaneReturns(d, "permanentKey", "permanentKeyValue", "encPermanentKey")
           && LaneReturns(d, "opc", "opcValue", "encOpcKey")
  {
    var s := ToStored(d, ueId);
    var sqn, permanent, opc := WrapSqn(d), FlattenPermanent(d), FlattenOpc(d);
    StoredLanes(d, ueId, d, d, d);
    ReadLanes(sprint, s, sqn, permanent, opc);
    SqnRoundTrips(sprint, d);
    KeysRoundTrip(d);
    SameWithoutUeId(ToRead(sprint, s), d, UnwrapSqn(sprint, sqn), NestPermanent(permanent), NestOpc(opc));
  }

  /** A stored document survives being read and put again, up to ueId, exactly
      when its sequence number and both its keys return that way round. */
  lemma ReadThenStored(sprint: Value -> string, d: Doc, ueId: string)
    ensures
      WithoutUeId(ToStored(ToRead(sprint, d), ueId)) == WithoutUeId(d)
      <==> && SqnReturnsBack(d)
           && LaneReturnsBack(d, "permanentKey", "permanentKeyValue", "encPermanentKey")
           && LaneReturnsBack(d, "opc", "opcValue", "encOpcKey")
  {
    var r := ToRead(sprint, d);
    var sqn, permanent, opc := UnwrapSqn(sprint, d), NestPermanent(d), NestOpc(d);
    ReadLanes(sprint, d, d, d, d);
    StoredLanes(r, ueId, sqn, permanent, opc);
    SqnRoundTrips(sprint, d);
    KeysRoundTrip(d);
    SameWithoutUeId(ToStored(r, ueId), d, WrapSqn(sqn), FlattenPermanent(permanent), FlattenOpc(opc));
  }

  /** Each single move, done twice, is done once. */
  lemma MovesAreIdempotent(sprint: Value -> string, d: Doc, key: string, inner: string, enc: string)
    requires key != enc
    ensures WrapSqn(WrapSqn(d)) == WrapSqn(d)
    ensures UnwrapSqn(sprint, UnwrapSqn(sprint, d)) == UnwrapSqn(sprint, d)
    ensures Flatten(Flatten(d, key, inner, enc), key, inner, enc) == Flatten(d, key, inner, enc)
    ensures Nest(Nest(d, key, inner, enc), key, inner, enc) == Nest(d, key, inner, enc)
  {
  }

  /** Putting what was put, or reading what was read, changes nothing, whatever
      the document. */
  lemma ConversionsAreIdempotent(sprint: Value -> string, d: Doc, ueId: string)
    ensures ToStored(ToStored(d, ueId), ueId) == ToStored(d, ueId)
    ensures ToRead(sprint, ToRead(sprint, d)) == ToRead(sprint, d)
  {
    KeysDiffer();
    var s, r := ToStored(d, ueId), ToRead(sprint, d);
    MovesAreIdempotent(sprint, d, "permanentKey", "permanentKeyValue", "encPermanentKey");
    MovesAreIdempotent(sprint, d, "opc", "opcValue", "encOpcKey");
    StoredLanes(d, ueId, d, d, d);
    StoredLanes(s, ueId, WrapSqn(d), FlattenPermanent(d), FlattenOpc(d));
    AgreeEverywhere(ToStored(s, ueId), s);
    ReadLanes(sprint, d, d, d, d);
    ReadLanes(sprint, r, UnwrapSqn(sprint, d), NestPermanent(d), NestOpc(d));
    AgreeEverywhere(ToRead(sprint, r), r);
  }
}
