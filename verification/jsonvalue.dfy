/**
 What JSON texts mean to Go: objects are maps, so member order is forgotten and
 the last of several members with one key wins.
 */
module JsonValue {
  import opened Wrappers
  import opened Text
  import opened JsonText

  datatype Json =
    | JNull
    | JBool(b: bool)
    | JNum(n: Number)
    | JStr(s: string)
    | JArr(items: seq<Json>)
    | JObj(fields: map<string, Json>)

  function ValueOf(d: Doc): Json
    decreases d
  {
    match d
    case Null => JNull
    case Bool(b) => JBool(b)
    case Num(n) => JNum(n)
    case Str(s) => JStr(s)
    case Arr(items) => JArr(ValuesOf(items))
    case Obj(members) => JObj(FieldsOf(members))
  }

  function ValuesOf(items: seq<Doc>): seq<Json>
    decreases items
  {
    if items == [] then [] else [ValueOf(items[0])] + ValuesOf(items[1..])
  }

  function FieldsOf(members: seq<Member>): map<string, Json>
    decreases members
  {
    if members == [] then map[]
    else map[members[0].key := ValueOf(members[0].value)] + FieldsOf(members[1..])
  }

  /** `json.Marshal` of a value: object keys come out in ascending order. */
  /** Of several members with one key the last one counts. */
  lemma LastMemberWins(k: string, v: Doc, w: Doc)
    ensures ValueOf(Obj([Member(k, v), Member(k, w)])) == JObj(map[k := ValueOf(w)])
  {
    var ms := [Member(k, v), Member(k, w)];
    assert ms[1..] == [Member(k, w)] && ms[1..][1..] == [];
    assert FieldsOf(ms[1..]) == map[k := ValueOf(w)];
  }

  function DocOf(v: Json): Doc
    decreases v, 0
  {
    match v
    case JNull => Null
    case JBool(b) => Bool(b)
    case JNum(n) => Num(n)
    case JStr(s) => Str(s)
    case JArr(items) => Arr(DocsOf(items))
    case JObj(fields) =>
      SortedListsSet(fields.Keys);
      Obj(MembersOf(v, Sorted(fields.Keys)))
  }

  function DocsOf(items: seq<Json>): seq<Doc>
    decreases items
  {
    if items == [] then [] else [DocOf(items[0])] + DocsOf(items[1..])
  }

  function MembersOf(v: Json, keys: seq<string>): seq<Member>
    requires v.JObj? && forall k :: k in keys ==> k in v.fields
    decreases v, 0, keys
  {
    if keys == [] then []
    else
      assert keys[0] in v.fields;
      [Member(keys[0], DocOf(v.fields[keys[0]]))] + MembersOf(v, keys[1..])
  }

  /** Printing a value loses nothing of it. */
  lemma {:induction false} ValueOfDocOf(v: Json)
    ensures ValueOf(DocOf(v)) == v
    decreases v, 1
  {
    hide Sorted, Distinct, Ascending;
    match v
    case JArr(items) => ValuesOfDocsOf(items);
    case JObj(fields) =>
      SortedListsSet(fields.Keys);
      FieldsOfMembersOf(v, Sorted(fields.Keys));
    case _ =>
  }

  lemma {:induction false} ValuesOfDocsOf(items: seq<Json>)
    ensures ValuesOf(DocsOf(items)) == items
    decreases items
  {
    if items != [] {
      hide DocOf, ValueOf;
      ValueOfDocOf(items[0]);
      ValuesOfDocsOf(items[1..]);
      assert DocsOf(items)[1..] == DocsOf(items[1..]);
      assert items == [items[0]] + items[1..];
    }
  }

  lemma {:induction false} FieldsOfMembersOf(v: Json, keys: seq<string>)
    requires v.JObj? && forall k :: k in keys ==> k in v.fields
    ensures FieldsOf(MembersOf(v, keys)) == map k | k in keys :: v.fields[k]
    decreases v, 0, keys
  {
    if keys != [] {
      assert keys[0] in v.fields;
      ValueOfDocOf(v.fields[keys[0]]);
      FieldsOfMembersOf(v, keys[1..]);
      var first := Member(keys[0], DocOf(v.fields[keys[0]]));
      assert MembersOf(v, keys) == [first] + MembersOf(v, keys[1..]);
      hide DocOf, ValueOf, MembersOf, FieldsOf;
      FieldsOfCons(first, MembersOf(v, keys[1..]));
      OneMoreKey(v.fields, keys);
    }
  }

  lemma FieldsOfCons(m: Member, rest: seq<Member>)
    ensures FieldsOf([m] + rest) == map[m.key := ValueOf(m.value)] + FieldsOf(rest)
  {
    hide ValueOf;
    assert ([m] + rest)[1..] == rest;
  }

  lemma OneMoreKey(m: map<string, Json>, keys: seq<string>)
    requires keys != [] && forall k :: k in keys ==> k in m
    ensures map[keys[0] := m[keys[0]]] + (map k | k in keys[1..] :: m[k]) == map k | k in keys :: m[k]
  {
    assert keys == [keys[0]] + keys[1..];
  }

  lemma {:induction false} MembersInOrder(v: Json, keys: seq<string>)
    requires v.JObj? && forall k :: k in keys ==> k in v.fields
    ensures |MembersOf(v, keys)| == |keys|
    ensures forall i :: 0 <= i < |keys| ==> keys[i] in keys && MembersOf(v, keys)[i] == Member(keys[i], DocOf(v.fields[keys[i]]))
  {
    if keys != [] {
      assert keys[0] in keys;
      hide DocOf;
      MembersInOrder(v, keys[1..]);
      forall i | 0 <= i < |keys| ensures keys[i] in keys && MembersOf(v, keys)[i] == Member(keys[i], DocOf(v.fields[keys[i]])) {
        assert i > 0 ==> keys[i] == keys[1..][i - 1];
      }
    }
  }

  /** The members of a printed map are in ascending order of their keys. */
  lemma KeysPrintSorted(m: map<string, Json>, i: nat, j: nat)
    requires i < j < |DocOf(JObj(m)).members|
    ensures var ms := DocOf(JObj(m)).members; Lt(ms[i].key, ms[j].key)
  {
    hide Sorted, Le;
    SortedListsSet(m.Keys);
    MembersInOrder(JObj(m), Sorted(m.Keys));
  }

  lemma DocOfInjective(v: Json, w: Json)
    requires DocOf(v) == DocOf(w)
    ensures v == w
  {
    ValueOfDocOf(v);
    ValueOfDocOf(w);
  }

  // ---- Structs: named fields in a fixed order, some of them omitted ----

  function Compact(names: seq<string>, values: seq<Option<Doc>>): seq<Member>
    requires |names| == |values|
  {
    if names == [] then []
    else
      var rest := Compact(names[1..], values[1..]);
      if values[0].Some? then [Member(names[0], values[0].value)] + rest else rest
  }

  lemma {:induction false} CompactOmits(names: seq<string>, values: seq<Option<Doc>>, n: string)
    requires |names| == |values|
    ensures Compact(names + [n], values + [None]) == Compact(names, values)
  {
    if names == [] {
      assert (names + [n])[1..] == [] && (values + [None])[1..] == [];
    } else {
      CompactOmits(names[1..], values[1..], n);
      assert (names + [n])[1..] == names[1..] + [n] && (values + [None])[1..] == values[1..] + [None];
    }
  }

  /** With nothing omitted, every name has its member, in order. */
  lemma {:induction false} CompactAll(names: seq<string>, values: seq<Option<Doc>>)
    requires |names| == |values| && forall i :: 0 <= i < |values| ==> values[i].Some?
    ensures |Compact(names, values)| == |names|
    ensures forall i :: 0 <= i < |names| ==> Compact(names, values)[i] == Member(names[i], values[i].value)
  {
    if names != [] {
      CompactAll(names[1..], values[1..]);
    }
  }

  lemma {:induction false} CompactNames(names: seq<string>, values: seq<Option<Doc>>)
    requires |names| == |values|
    ensures forall m :: m in Compact(names, values) ==> m.key in names
  {
    if names != [] {
      CompactNames(names[1..], values[1..]);
    }
  }

  /** With distinct names, what was omitted can be told from what was written. */
  lemma {:induction false} CompactInjective(names: seq<string>, a: seq<Option<Doc>>, b: seq<Option<Doc>>)
    requires |names| == |a| == |b| && Distinct(names)
    requires Compact(names, a) == Compact(names, b)
    ensures a == b
  {
    if names != [] {
      var x, y := Compact(names[1..], a[1..]), Compact(names[1..], b[1..]);
      CompactNames(names[1..], a[1..]);
      CompactNames(names[1..], b[1..]);
      var m := Compact(names, a);
      assert forall k: Member :: k in x + y ==> k.key != names[0];
      assert a[0].Some? <==> m != [] && m[0].key == names[0];
      assert b[0].Some? <==> m != [] && m[0].key == names[0];
      assert a[0].Some? ==> m[1..] == x && m[1..] == y && m[0].value == a[0].value == b[0].value;
      CompactInjective(names[1..], a[1..], b[1..]);
      assert a == [a[0]] + a[1..] && b == [b[0]] + b[1..];
    }
  }

  predicate Holds(fields: map<string, Json>, name: string, value: Option<Doc>)
  {
    if value.Some? then name in fields && fields[name] == ValueOf(value.value) else name !in fields
  }

  lemma {:induction false} CompactDomain(names: seq<string>, values: seq<Option<Doc>>)
    requires |names| == |values|
    ensures forall k :: k in FieldsOf(Compact(names, values)) ==> k in names
  {
    if names != [] {
      CompactDomain(names[1..], values[1..]);
      var rest := Compact(names[1..], values[1..]);
      if values[0].Some? {
        assert Compact(names, values)[1..] == rest;
      }
    }
  }

  /** Each field of a struct is found under its name in the decoded object. */
  lemma {:induction false} CompactFields(names: seq<string>, values: seq<Option<Doc>>, i: nat)
    requires |names| == |values| && Distinct(names) && i < |names|
    ensures Holds(FieldsOf(Compact(names, values)), names[i], values[i])
  {
    var rest := Compact(names[1..], values[1..]);
    CompactDomain(names[1..], values[1..]);
    if values[0].Some? {
      assert Compact(names, values)[1..] == rest;
    }
    if i == 0 {
      assert names[0] !in names[1..];
    } else {
      CompactFields(names[1..], values[1..], i - 1);
      assert names[i] == names[1..][i - 1] && values[i] == values[1..][i - 1];
    }
  }
}
