/**
 The access-record envelope and its JSON form.

 The producer library that declares the envelope is not part of this model: its
 fields are those the seal projects, plus the two chain fields the seal leaves
 out. Its JSON form is assumed to keep each of them under the names the seal uses,
 and to omit the same empty ones.
 */
module Envelopes {
  import opened Wrappers
  import opened Text
  import opened JsonText
  import opened JsonValue
  import opened Rfc3339

  datatype Actor = Actor(id: string, kind: string)

  datatype Resource = Resource(kind: string, id: string)

  datatype Envelope = Envelope(
    eventId: string,
    occurredAt: Time,
    categories: seq<string>,
    eventType: string,
    actor: Option<Actor>,
    dataSubjects: seq<string>,
    resource: Option<Resource>,
    operation: string,
    lawfulBasis: string,
    purpose: string,
    outcome: string,
    ip: string,
    device: string,
    attributes: map<string, Json>,
    prevHash: string,
    hash: string)

  const VIEW_NAMES: seq<string> := [
    "event_id", "occurred_at", "category", "event_type", "actor", "data_subjects", "resource",
    "operation", "lawful_basis", "purpose", "outcome", "ip", "device", "attributes"]

  const ENVELOPE_NAMES: seq<string> := VIEW_NAMES + ["prev_hash", "hash"]

  lemma NamesDistinct()
    ensures Distinct(ENVELOPE_NAMES) && |ENVELOPE_NAMES| == 16
    ensures Distinct(VIEW_NAMES) && |VIEW_NAMES| == 14
  {
    var n := ENVELOPE_NAMES;
    // Length and first letter tell the names apart.
    assert |n[0]| == 8 && |n[1]| == 11 && |n[2]| == 8 && |n[3]| == 10 && |n[4]| == 5 && |n[5]| == 13;
    assert |n[6]| == 8 && |n[7]| == 9 && |n[8]| == 12 && |n[9]| == 7 && |n[10]| == 7 && |n[11]| == 2;
    assert |n[12]| == 6 && |n[13]| == 10 && |n[14]| == 9 && |n[15]| == 4;
    assert n[0][0] == 'e' && n[2][0] == 'c' && n[6][0] == 'r' && n[3][0] == 'e' && n[13][0] == 'a';
    assert n[7][0] == 'o' && n[14][0] == 'p' && n[9][0] == 'p' && n[10][0] == 'o';
    assert VIEW_NAMES == n[..14];
  }

  // ---- Parts of the JSON form ----

  /** A string field marked `omitempty`. */
  function NonEmpty(s: string): Option<Doc>
  {
    if s == "" then None else Some(Str(s))
  }

  function StringDocs(ss: seq<string>): (r: seq<Doc>)
    ensures |r| == |ss| && forall i :: 0 <= i < |ss| ==> r[i] == Str(ss[i])
  {
    if ss == [] then [] else [Str(ss[0])] + StringDocs(ss[1..])
  }

  function ListDoc(ss: seq<string>): Doc
  {
    Arr(StringDocs(ss))
  }

  function NonEmptyList(ss: seq<string>): Option<Doc>
  {
    if ss == [] then None else Some(ListDoc(ss))
  }

  function ActorDoc(a: Option<Actor>): Option<Doc>
  {
    if a.None? then None
    else Some(Obj([Member("id", Str(a.value.id)), Member("type", Str(a.value.kind))]))
  }

  function ResourceDoc(r: Option<Resource>): Option<Doc>
  {
    if r.None? then None
    else Some(Obj([Member("type", Str(r.value.kind)), Member("id", Str(r.value.id))]))
  }

  function AttributesDoc(m: map<string, Json>): Option<Doc>
  {
    if m == map[] then None else Some(DocOf(JObj(m)))
  }

  lemma StringDocsInjective(a: seq<string>, b: seq<string>)
    requires StringDocs(a) == StringDocs(b)
    ensures a == b
  {
    forall i | 0 <= i < |a| ensures a[i] == b[i] {
      assert StringDocs(a)[i] == Str(a[i]) && StringDocs(b)[i] == Str(b[i]);
    }
  }

  lemma ActorDocInjective(a: Option<Actor>, b: Option<Actor>)
    requires ActorDoc(a) == ActorDoc(b)
    ensures a == b
  {
    if a.Some? && b.Some? {
      var x, y := ActorDoc(a).value.members, ActorDoc(b).value.members;
      assert x[0].value.s == a.value.id && y[0].value.s == b.value.id;
      assert x[1].value.s == a.value.kind && y[1].value.s == b.value.kind;
    }
  }

  lemma ResourceDocInjective(a: Option<Resource>, b: Option<Resource>)
    requires ResourceDoc(a) == ResourceDoc(b)
    ensures a == b
  {
    if a.Some? && b.Some? {
      var x, y := ResourceDoc(a).value.members, ResourceDoc(b).value.members;
      assert x[0].value.s == a.value.kind && y[0].value.s == b.value.kind;
      assert x[1].value.s == a.value.id && y[1].value.s == b.value.id;
    }
  }

  lemma AttributesDocInjective(a: map<string, Json>, b: map<string, Json>)
    requires AttributesDoc(a) == AttributesDoc(b)
    ensures a == b
  {
    if a != map[] && b != map[] {
      DocOfInjective(JObj(a), JObj(b));
    }
  }

  // ---- The stored form and its decoding ----

  function EnvelopeValues(e: Envelope, at: string): seq<Option<Doc>>
  {
    [Some(Str(e.eventId)), Some(Str(at)), Some(ListDoc(e.categories)), Some(Str(e.eventType)),
     ActorDoc(e.actor), NonEmptyList(e.dataSubjects), ResourceDoc(e.resource),
     NonEmpty(e.operation), NonEmpty(e.lawfulBasis), NonEmpty(e.purpose), Some(Str(e.outcome)),
     NonEmpty(e.ip), NonEmpty(e.device), AttributesDoc(e.attributes), NonEmpty(e.prevHash), NonEmpty(e.hash)]
  }

  /** The envelope as JSON; the time keeps the zone it was given in. */
  function EnvelopeDoc(e: Envelope): Doc
  {
    Obj(Compact(ENVELOPE_NAMES, EnvelopeValues(e, Rfc3339Nano(e.occurredAt))))
  }

  function StringField(f: map<string, Json>, name: string): Option<string>
  {
    if name !in f || f[name].JNull? then Some("")
    else if f[name].JStr? then Some(f[name].s)
    else None
  }

  function Strings(items: seq<Json>): Option<seq<string>>
  {
    if items == [] then Some([])
    else if items[0].JStr? || items[0].JNull? then
      var rest :- Strings(items[1..]);
      // A null leaves the element as it is in a new slice, empty.
      Some([if items[0].JStr? then items[0].s else ""] + rest)
    else None
  }

  function ListField(f: map<string, Json>, name: string): Option<seq<string>>
  {
    if name !in f || f[name].JNull? then Some([])
    else if f[name].JArr? then Strings(f[name].items)
    else None
  }

  function TimeField(f: map<string, Json>, name: string): Option<Time>
  {
    if name !in f || f[name].JNull? then Some(Time(0, 0))
    else if f[name].JStr? then ParseTime(f[name].s)
    else None
  }

  function ActorField(f: map<string, Json>, name: string): Option<Option<Actor>>
  {
    if name !in f || f[name].JNull? then Some(None)
    else if f[name].JObj? then
      var id :- StringField(f[name].fields, "id");
      var kind :- StringField(f[name].fields, "type");
      Some(Some(Actor(id, kind)))
    else None
  }

  function ResourceField(f: map<string, Json>, name: string): Option<Option<Resource>>
  {
    if name !in f || f[name].JNull? then Some(None)
    else if f[name].JObj? then
      var kind :- StringField(f[name].fields, "type");
      var id :- StringField(f[name].fields, "id");
      Some(Some(Resource(kind, id)))
    else None
  }

  function AttributesField(f: map<string, Json>, name: string): Option<map<string, Json>>
  {
    if name !in f || f[name].JNull? then Some(map[])
    else if f[name].JObj? then Some(f[name].fields)
    else None
  }

  /** `json.Unmarshal` into an envelope, from the fields of the decoded object. */
  function DecodeFields(f: map<string, Json>): Option<Envelope>
  {
    var eventId :- StringField(f, "event_id");
    var occurredAt :- TimeField(f, "occurred_at");
    var categories :- ListField(f, "category");
    var eventType :- StringField(f, "event_type");
    var actor :- ActorField(f, "actor");
    var dataSubjects :- ListField(f, "data_subjects");
    var resource :- ResourceField(f, "resource");
    var operation :- StringField(f, "operation");
    var lawfulBasis :- StringField(f, "lawful_basis");
    var purpose :- StringField(f, "purpose");
    var outcome :- StringField(f, "outcome");
    var ip :- StringField(f, "ip");
    var device :- StringField(f, "device");
    var attributes :- AttributesField(f, "attributes");
    var prevHash :- StringField(f, "prev_hash");
    var hash :- StringField(f, "hash");
    Some(Envelope(eventId, occurredAt, categories, eventType, actor, dataSubjects, resource, operation,
                  lawfulBasis, purpose, outcome, ip, device, attributes, prevHash, hash))
  }

  function Unmarshal(text: string): Option<Envelope>
  {
    var d :- Parse(text);
    var v := ValueOf(d);
    if v.JObj? then DecodeFields(v.fields) else None
  }

  lemma ValuesCons(d: Doc, rest: seq<Doc>)
    ensures ValuesOf([d] + rest) == [ValueOf(d)] + ValuesOf(rest)
  {
    hide ValueOf;
    assert ([d] + rest)[1..] == rest;
  }

  lemma StringsCons(x: string, rest: seq<Json>)
    requires Strings(rest).Some?
    ensures Strings([JStr(x)] + rest) == Some([x] + Strings(rest).value)
  {
    assert ([JStr(x)] + rest)[1..] == rest;
  }

  lemma {:induction false} StringsOfDocs(ss: seq<string>)
    ensures Strings(ValuesOf(StringDocs(ss))) == Some(ss)
  {
    if ss != [] {
      assert StringDocs(ss) == [Str(ss[0])] + StringDocs(ss[1..]);
      assert ValueOf(Str(ss[0])) == JStr(ss[0]);
      hide StringDocs, ValuesOf, ValueOf, Strings;
      StringsOfDocs(ss[1..]);
      ValuesCons(Str(ss[0]), StringDocs(ss[1..]));
      StringsCons(ss[0], ValuesOf(StringDocs(ss[1..])));
      assert ss == [ss[0]] + ss[1..];
    }
  }

  /** In a list of strings a null reads as an empty one, and anything else is refused. */
  lemma NullsInLists(a: string, b: string, v: Json)
    ensures Strings([JStr(a), JNull, JStr(b)]) == Some([a, "", b])
    ensures !v.JStr? && !v.JNull? ==> Strings([JStr(a), v]) == None
  {
    var none: seq<string> := [];
    assert [JStr(b)][1..] == [] && [b] + none == [b];
    assert Strings([JStr(b)]) == Some([b]);
    assert [JNull, JStr(b)][1..] == [JStr(b)] && [""] + [b] == ["", b];
    assert Strings([JNull, JStr(b)]) == Some(["", b]);
    assert [JStr(a), JNull, JStr(b)] == [JStr(a)] + [JNull, JStr(b)];
    StringsCons(a, [JNull, JStr(b)]);
    assert [a] + ["", b] == [a, "", b];
    assert [JStr(a), v][1..] == [v];
  }

  lemma ListRead(f: map<string, Json>, name: string, ss: seq<string>)
    requires Holds(f, name, Some(ListDoc(ss))) || Holds(f, name, NonEmptyList(ss))
    ensures ListField(f, name) == Some(ss)
  {
    StringsOfDocs(ss);
  }

  lemma PairFields(k: string, v: string, l: string, w: string)
    requires k != l
    ensures FieldsOf([Member(k, Str(v)), Member(l, Str(w))]) == map[k := JStr(v), l := JStr(w)]
  {
    var ms := [Member(k, Str(v)), Member(l, Str(w))];
    assert ms[1..] == [Member(l, Str(w))] && ms[1..][1..] == [];
    assert FieldsOf(ms[1..]) == map[l := JStr(w)];
  }

  lemma ActorRead(f: map<string, Json>, name: string, a: Option<Actor>)
    requires Holds(f, name, ActorDoc(a))
    ensures ActorField(f, name) == Some(a)
  {
    if a.Some? {
      assert "id" != "type" by { assert |"id"| == 2; }
      PairFields("id", a.value.id, "type", a.value.kind);
    }
  }

  lemma ResourceRead(f: map<string, Json>, name: string, r: Option<Resource>)
    requires Holds(f, name, ResourceDoc(r))
    ensures ResourceField(f, name) == Some(r)
  {
    if r.Some? {
      assert "id" != "type" by { assert |"id"| == 2; }
      PairFields("type", r.value.kind, "id", r.value.id);
    }
  }

  lemma AttributesRead(f: map<string, Json>, name: string, m: map<string, Json>)
    requires Holds(f, name, AttributesDoc(m))
    ensures AttributesField(f, name) == Some(m)
  {
    ValueOfDocOf(JObj(m));
  }

  /** `f` holds a struct's values under its names. */
  predicate HoldsAll(f: map<string, Json>, names: seq<string>, values: seq<Option<Doc>>)
    requires |names| == |values|
  {
    forall i :: 0 <= i < |names| ==> Holds(f, names[i], values[i])
  }

  lemma HoldsNamed(f: map<string, Json>, e: Envelope, at: string)
    requires HoldsAll(f, ENVELOPE_NAMES, EnvelopeValues(e, at))
    ensures Holds(f, "event_id", Some(Str(e.eventId))) && Holds(f, "occurred_at", Some(Str(at)))
    ensures Holds(f, "category", Some(ListDoc(e.categories))) && Holds(f, "event_type", Some(Str(e.eventType)))
    ensures Holds(f, "actor", ActorDoc(e.actor)) && Holds(f, "data_subjects", NonEmptyList(e.dataSubjects))
    ensures Holds(f, "resource", ResourceDoc(e.resource)) && Holds(f, "operation", NonEmpty(e.operation))
    ensures Holds(f, "lawful_basis", NonEmpty(e.lawfulBasis)) && Holds(f, "purpose", NonEmpty(e.purpose))
    ensures Holds(f, "outcome", Some(Str(e.outcome))) && Holds(f, "ip", NonEmpty(e.ip))
    ensures Holds(f, "device", NonEmpty(e.device)) && Holds(f, "attributes", AttributesDoc(e.attributes))
    ensures Holds(f, "prev_hash", NonEmpty(e.prevHash)) && Holds(f, "hash", NonEmpty(e.hash))
  {
    hide Holds, ActorDoc, ResourceDoc, AttributesDoc, NonEmpty, NonEmptyList, ListDoc;
    var n, v := ENVELOPE_NAMES, EnvelopeValues(e, at);
    assert Holds(f, n[0], v[0]) && Holds(f, n[1], v[1]) && Holds(f, n[2], v[2]) && Holds(f, n[3], v[3]);
    assert Holds(f, n[4], v[4]) && Holds(f, n[5], v[5]) && Holds(f, n[6], v[6]) && Holds(f, n[7], v[7]);
    assert Holds(f, n[8], v[8]) && Holds(f, n[9], v[9]) && Holds(f, n[10], v[10]) && Holds(f, n[11], v[11]);
    assert Holds(f, n[12], v[12]) && Holds(f, n[13], v[13]) && Holds(f, n[14], v[14]) && Holds(f, n[15], v[15]);
  }

  lemma StringRead(f: map<string, Json>, name: string, s: string)
    requires Holds(f, name, Some(Str(s))) || Holds(f, name, NonEmpty(s))
    ensures StringField(f, name) == Some(s)
  {
  }

  lemma StringsRead(f: map<string, Json>, e: Envelope, at: string)
    requires HoldsAll(f, ENVELOPE_NAMES, EnvelopeValues(e, at))
    ensures StringField(f, "event_id") == Some(e.eventId) && StringField(f, "event_type") == Some(e.eventType)
    ensures StringField(f, "operation") == Some(e.operation)
    ensures StringField(f, "lawful_basis") == Some(e.lawfulBasis)
    ensures StringField(f, "purpose") == Some(e.purpose) && StringField(f, "outcome") == Some(e.outcome)
    ensures StringField(f, "ip") == Some(e.ip) && StringField(f, "device") == Some(e.device)
    ensures StringField(f, "prev_hash") == Some(e.prevHash) && StringField(f, "hash") == Some(e.hash)
  {
    hide StringField, HoldsAll, Holds, NonEmpty;
    HoldsNamed(f, e, at);
    StringRead(f, "event_id", e.eventId);
    StringRead(f, "event_type", e.eventType);
    StringRead(f, "operation", e.operation);
    StringRead(f, "lawful_basis", e.lawfulBasis);
    StringRead(f, "purpose", e.purpose);
    StringRead(f, "outcome", e.outcome);
    StringRead(f, "ip", e.ip);
    StringRead(f, "device", e.device);
    StringRead(f, "prev_hash", e.prevHash);
    StringRead(f, "hash", e.hash);
  }

  lemma DecodeHeld(f: map<string, Json>, e: Envelope, at: string)
    requires HoldsAll(f, ENVELOPE_NAMES, EnvelopeValues(e, at)) && ParseTime(at) == Some(e.occurredAt)
    ensures DecodeFields(f) == Some(e)
  {
    hide HoldsAll, StringField, ListField, ActorField, ResourceField, AttributesField, ParseTime;
    hide ListDoc, ActorDoc, ResourceDoc, AttributesDoc, NonEmptyList, NonEmpty, EnvelopeValues;
    HoldsNamed(f, e, at);
    StringsRead(f, e, at);
    ListRead(f, "category", e.categories);
    ListRead(f, "data_subjects", e.dataSubjects);
    ActorRead(f, "actor", e.actor);
    ResourceRead(f, "resource", e.resource);
    AttributesRead(f, "attributes", e.attributes);
  }

  lemma CompactHolds(names: seq<string>, values: seq<Option<Doc>>)
    requires |names| == |values| && Distinct(names)
    ensures HoldsAll(FieldsOf(Compact(names, values)), names, values)
  {
    hide Holds;
    forall i | 0 <= i < |names| ensures Holds(FieldsOf(Compact(names, values)), names[i], values[i]) {
      CompactFields(names, values, i);
    }
  }

  /**
   Storage gives back the envelope it was given: whatever order the members of any
   object come back in, and whatever white space separates them, decoding the text
   yields the same envelope.
   */
  lemma EnvelopeSurvivesStorage(e: Envelope, stored: Doc, gap: string)
    requires e.occurredAt.Printable() && AllSpace(gap)
    requires ValueOf(stored) == ValueOf(EnvelopeDoc(e))
    ensures Unmarshal(Write(stored, gap, "")) == Some(e)
  {
    hide Parse, Write, Rfc3339Nano, ParseTime, AllSpace, EnvelopeValues, DecodeFields, Compact, HoldsAll;
    ParseWritten(stored, gap);
    NamesDistinct();
    var at := Rfc3339Nano(e.occurredAt);
    hide Distinct;
    ParseTimeText(e.occurredAt);
    EnvelopeValuesCount(e, at);
    CompactHolds(ENVELOPE_NAMES, EnvelopeValues(e, at));
    DecodeHeld(ValueOf(stored).fields, e, at);
  }

  /** Fields that are missing decode as Go's zero values; so does an object of nulls. */
  lemma AbsentFieldsDecode(f: map<string, Json>)
    requires forall k :: k in f ==> f[k].JNull?
    ensures DecodeFields(f)
         == Some(Envelope("", Time(0, 0), [], "", None, [], None, "", "", "", "", "", "", map[], "", ""))
  {
  }

  /** Every envelope that is decoded has a time that storage can print. */
  lemma DecodedIsPrintable(text: string)
    requires Unmarshal(text).Some?
    ensures Unmarshal(text).value.occurredAt.Printable()
  {
    hide Parse, ValueOf, StringField, ListField, ActorField, ResourceField, AttributesField, ParseTime, Time.Printable;
    ZeroTimePrintable();
    var f := ValueOf(Parse(text).value).fields;
    assert TimeField(f, "occurred_at") == Some(Unmarshal(text).value.occurredAt);
    if "occurred_at" in f && f["occurred_at"].JStr? {
      ParsedIsPrintable(f["occurred_at"].s);
    }
  }

  lemma EnvelopeValuesCount(e: Envelope, at: string)
    ensures |EnvelopeValues(e, at)| == 16
  {
  }
}
