/** Worked examples: what the texts of the service look like, letter by letter. */
module Examples {
  import opened Wrappers
  import opened Text
  import opened Decimal
  import opened Calendar
  import opened Rfc3339
  import opened JsonText
  import opened JsonValue
  import opened Envelopes
  import opened Seals

  // ---- Dates and times ----

  lemma OneDigit(n: nat)
    requires n < 10
    ensures Fixed(n, 1) == [Digit(n)]
  {
    assert Fixed(n / 10, 0) == "" && n % 10 == n;
  }

  lemma TwoDigits(n: nat)
    requires n < 100
    ensures Fixed(n, 2) == [Digit(n / 10), Digit(n % 10)]
  {
    OneDigit(n / 10);
    hide Digit;
  }

  lemma Year2023()
    ensures YearText(2023) == "2023"
  {
    TwoDigits(20);
    assert Fixed(202, 3) == "202";
  }

  lemma Year9999()
    ensures YearText(9999) == "9999"
  {
    TwoDigits(99);
    assert Fixed(999, 3) == "999";
  }

  lemma MiddleOfMay()
    ensures ValidDate(Date(2023, 5, 17)) && DaysOf(Date(2023, 5, 17)) == 738656
  {
  }

  lemma FirstOfMay()
    ensures ValidDate(Date(2023, 5, 1)) && DateText(Date(2023, 5, 1)) == "2023-05-01"
  {
    Year2023();
    TwoDigits(5);
    TwoDigits(1);
    hide Fixed, YearText;
  }

  /** The last instant of a day in May lies in the bucket of the first of May. */
  lemma PeriodExample()
    ensures Period(738656 * DAY + DAY - 1) == "2023-05-01"
  {
    MiddleOfMay();
    FirstOfMay();
    hide DaysOf, DateOf, DayOf, ValidDate, DateText;
    DayOfDate(Date(2023, 5, 17), DAY - 1);
    assert DaysOf(Date(2023, 5, 17)) * DAY + (DAY - 1) == 738656 * DAY + DAY - 1;
    FirstDayMonth(Date(2023, 5, 17));
  }

  lemma ClockParts(h: nat, m: nat, sec: nat)
    requires h <= 23 && m <= 59 && sec <= 59
    ensures var n := 3600 * h + 60 * m + sec; n / 3600 == h && n / 60 % 60 == m && n % 60 == sec
  {
    var n := 3600 * h + 60 * m + sec;
    assert n / 60 == 60 * h + m;
  }

  lemma WholeSeconds(n: nat)
    ensures n * SECOND / SECOND == n && n * SECOND % SECOND == 0
  {
  }

  lemma ClockLooks(h: nat, m: nat, sec: nat, offset: int)
    requires h <= 23 && m <= 59 && sec <= 59
    ensures ClockText((3600 * h + 60 * m + sec) * SECOND, offset) == TimeOfDayText(h, m, sec, ZoneText(offset))
  {
    hide TimeOfDayText, ZoneText;
    ClockParts(h, m, sec);
    WholeSeconds(3600 * h + 60 * m + sec);
    assert "" + ZoneText(offset) == ZoneText(offset);
  }

  const MORNING: Instant := 738656 * DAY + 29103 * SECOND

  lemma InDay(d: int, ns: nat)
    requires ns < DAY
    ensures (d * DAY + ns) % DAY == ns
  {
  }

  lemma MorningLooks(offset: int, h: nat, m: nat)
    requires h <= 23 && m <= 59 && 29103 + 60 * offset == 3600 * h + 60 * m + 3
    ensures Rfc3339Nano(Time(MORNING, offset)) == Stamp(2023, 5, 17, TimeOfDayText(h, m, 3, ZoneText(offset)))
  {
    MiddleOfMay();
    hide DaysOf, DateOf, ValidDate, ClockText, TimeOfDayText, ZoneText, Stamp;
    var ns: nat := (3600 * h + 60 * m + 3) * SECOND;
    assert Time(MORNING, offset).Local() == 738656 * DAY + ns && ns < DAY;
    DayOfDate(Date(2023, 5, 17), ns);
    InDay(738656, ns);
    ClockLooks(h, m, 3, offset);
  }

  /** A time of that morning as a text. */
  function Morning(h: string, m: string, zone: string): string
  {
    "2023-05-17T" + (h + (":" + (m + (":03" + zone))))
  }

  lemma MorningDate(x: string)
    ensures "2023" + ("-" + ("05" + ("-" + ("17" + ("T" + x))))) == "2023-05-17T" + x
  {
  }

  lemma StampLooks(h: nat, m: nat, zone: string)
    requires h < 100 && m < 100
    ensures Stamp(2023, 5, 17, TimeOfDayText(h, m, 3, zone)) == Morning(Fixed(h, 2), Fixed(m, 2), zone)
  {
    Year2023();
    TwoDigits(5);
    TwoDigits(17);
    TwoDigits(3);
    assert [Digit(0), Digit(5)] == "05" && [Digit(1), Digit(7)] == "17" && [Digit(0), Digit(3)] == "03";
    hide Fixed, YearText, Digit;
    assert ":" + ("03" + zone) == ":03" + zone;
    MorningDate(Fixed(h, 2) + (":" + (Fixed(m, 2) + (":03" + zone))));
  }

  lemma Zones()
    ensures ZoneText(0) == "Z" && ZoneText(120) == "+02:00" && ZoneText(-30) == "-00:30"
  {
    TwoDigits(0);
    TwoDigits(2);
    TwoDigits(30);
    hide Fixed;
  }

  lemma Numerals()
    ensures Fixed(5, 2) == "05" && Fixed(7, 2) == "07" && Fixed(8, 2) == "08"
    ensures Fixed(10, 2) == "10" && Fixed(35, 2) == "35"
  {
    TwoDigits(5);
    TwoDigits(7);
    TwoDigits(8);
    TwoDigits(10);
    TwoDigits(35);
    hide Fixed;
  }

  lemma MorningText(offset: int, h: nat, m: nat)
    requires h <= 23 && m <= 59 && 29103 + 60 * offset == 3600 * h + 60 * m + 3
    ensures Rfc3339Nano(Time(MORNING, offset)) == Morning(Fixed(h, 2), Fixed(m, 2), ZoneText(offset))
  {
    MorningLooks(offset, h, m);
    StampLooks(h, m, ZoneText(offset));
  }

  /** 08:05:03 in UTC, and the same instant two hours east and half an hour west of it. */
  lemma TimeExamples()
    ensures Rfc3339Nano(Time(MORNING, 0)) == Morning("08", "05", "Z")
    ensures Rfc3339Nano(Time(MORNING, 120)) == Morning("10", "05", "+02:00")
    ensures Rfc3339Nano(Time(MORNING, -30)) == Morning("07", "35", "-00:30")
  {
    hide Rfc3339Nano, Morning, ZoneText, Fixed;
    MorningText(0, 8, 5);
    MorningText(120, 10, 5);
    MorningText(-30, 7, 35);
    Zones();
    Numerals();
  }

  // ---- The canonical text ----

  predicate AllPlain(s: string)
  {
    forall i :: 0 <= i < |s| ==> IsPlain(s[i])
  }

  // JSON as a reader writes it down, each form with the text that follows it.

  function Quoted(s: string, rest: string): string
  {
    "\"" + s + "\"" + rest
  }

  function Field(k: string, v: string, rest: string): string
  {
    Quoted(k, ":" + Quoted(v, rest))
  }

  function PairField(k: string, a: string, x: string, b: string, y: string, rest: string): string
  {
    Quoted(k, ":{" + Field(a, x, "," + Field(b, y, "}" + rest)))
  }

  function ListField(k: string, x: string, y: string, rest: string): string
  {
    Quoted(k, ":[" + Quoted(x, "," + Quoted(y, "]" + rest)))
  }

  lemma PlainQuoted(s: string, rest: string)
    requires AllPlain(s)
    ensures WriteString(s, rest) == Quoted(s, rest)
  {
    PlainText(s, rest);
  }

  lemma MemberText(k: string, v: Doc, rest: seq<Member>, tail: string)
    requires AllPlain(k) && rest != []
    ensures WriteMembers([Member(k, v)] + rest, "", tail)
         == Quoted(k, ":" + Write(v, "", "," + WriteMembers(rest, "", tail)))
  {
    hide WriteString, WriteMembers, Write, AllPlain, Quoted;
    var more := WriteMembers(rest, "", tail);
    var text := Write(v, "", "," + more);
    MoreMembers(k, v, rest, "", tail);
    assert "" + more == more && "" + text == text;
    PlainQuoted(k, ":" + text);
  }

  /** A member with a plain string, before others. */
  lemma StringMember(k: string, v: string, rest: seq<Member>, tail: string)
    requires AllPlain(k) && AllPlain(v) && rest != []
    ensures WriteMembers([Member(k, Str(v))] + rest, "", tail) == Field(k, v, "," + WriteMembers(rest, "", tail))
  {
    hide WriteString, WriteMembers, AllPlain, Quoted;
    MemberText(k, Str(v), rest, tail);
    PlainQuoted(v, "," + WriteMembers(rest, "", tail));
  }

  lemma LastStringMember(k: string, v: string, tail: string)
    requires AllPlain(k) && AllPlain(v)
    ensures WriteMembers([Member(k, Str(v))], "", tail) == Field(k, v, "}" + tail)
  {
    hide WriteString, WriteMembers, AllPlain, Quoted;
    OneMember(k, Str(v), "", tail);
    assert "" + Write(Str(v), "", "}" + tail) == Write(Str(v), "", "}" + tail);
    PlainQuoted(v, "}" + tail);
    PlainQuoted(k, ":" + Quoted(v, "}" + tail));
  }

  /** A member with an object of two plain strings, before others. */
  lemma PairMember(k: string, a: string, x: string, b: string, y: string, rest: seq<Member>, tail: string)
    requires AllPlain(k) && AllPlain(a) && AllPlain(x) && AllPlain(b) && AllPlain(y) && rest != []
    ensures WriteMembers([Member(k, Obj([Member(a, Str(x)), Member(b, Str(y))]))] + rest, "", tail)
         == PairField(k, a, x, b, y, "," + WriteMembers(rest, "", tail))
  {
    hide WriteString, WriteMembers, AllPlain, Quoted;
    var more := "," + WriteMembers(rest, "", tail);
    MemberText(k, Obj([Member(a, Str(x)), Member(b, Str(y))]), rest, tail);
    TwoMembers(a, x, b, y, more);
    Merge(":", "{", Field(a, x, "," + Field(b, y, "}" + more)));
    assert ":" + "{" == ":{";
  }

  lemma TwoMembers(a: string, x: string, b: string, y: string, more: string)
    requires AllPlain(a) && AllPlain(x) && AllPlain(b) && AllPlain(y)
    ensures Write(Obj([Member(a, Str(x)), Member(b, Str(y))]), "", more)
         == "{" + Field(a, x, "," + Field(b, y, "}" + more))
  {
    hide WriteString, WriteMembers, AllPlain, Field;
    var pair := [Member(a, Str(x)), Member(b, Str(y))];
    assert pair == [Member(a, Str(x))] + [Member(b, Str(y))];
    StringMember(a, x, [Member(b, Str(y))], more);
    LastStringMember(b, y, more);
  }

  lemma Merge(a: string, b: string, c: string)
    ensures a + (b + c) == (a + b) + c
  {
  }

  /** A member with a list of two plain strings, before others. */
  lemma ListMember(k: string, x: string, y: string, rest: seq<Member>, tail: string)
    requires AllPlain(k) && AllPlain(x) && AllPlain(y) && rest != []
    ensures WriteMembers([Member(k, ListDoc([x, y]))] + rest, "", tail)
         == ListField(k, x, y, "," + WriteMembers(rest, "", tail))
  {
    assert ListDoc([x, y]) == Arr([Str(x), Str(y)]);
    hide WriteMembers, Write, AllPlain, ListDoc, Quoted;
    var more := "," + WriteMembers(rest, "", tail);
    MemberText(k, Arr([Str(x), Str(y)]), rest, tail);
    TwoItems(x, y, more);
    Merge(":", "[", Quoted(x, "," + Quoted(y, "]" + more)));
    assert ":" + "[" == ":[";
  }

  lemma TwoItems(x: string, y: string, more: string)
    requires AllPlain(x) && AllPlain(y)
    ensures Write(Arr([Str(x), Str(y)]), "", more) == "[" + Quoted(x, "," + Quoted(y, "]" + more))
  {
    hide WriteString, WriteItems, AllPlain, Quoted;
    assert [Str(x), Str(y)] == [Str(x)] + [Str(y)];
    MoreItems(Str(x), [Str(y)], "", more);
    OneItem(Str(y), "", more);
    var last := WriteItems([Str(y)], "", more);
    assert "" + last == last;
    PlainQuoted(y, "]" + more);
    PlainQuoted(x, "," + last);
  }

  const EXAMPLE: Envelope := Envelope(
    "e1", Time(MORNING, 120), ["gdpr_access", "b"], "t", Some(Actor("a", "user")), ["s2", "s1"],
    Some(Resource("doc", "7")), "read", "consent", "p", "ok", "ip", "d", map[], "x", "y")

  /** The canonical text of the example, member by member. */
  function ExampleText(): string
  {
    "{" + Field("event_id", "e1",
    "," + Field("occurred_at", Morning("08", "05", "Z"),
    "," + ListField("category", "b", "gdpr_access",
    "," + Field("event_type", "t",
    "," + PairField("actor", "id", "a", "type", "user",
    "," + ListField("data_subjects", "s1", "s2",
    "," + PairField("resource", "type", "doc", "id", "7",
    "," + Field("operation", "read",
    "," + Field("lawful_basis", "consent",
    "," + Field("purpose", "p",
    "," + Field("outcome", "ok",
    "," + Field("ip", "ip",
    "," + Field("device", "d", "}" + "")))))))))))))
  }

  function ExampleMembers(): seq<Member>
  {
    [Member("event_id", Str("e1"))]
    + ([Member("occurred_at", Str(Morning("08", "05", "Z")))]
    + ([Member("category", ListDoc(["b", "gdpr_access"]))]
    + ([Member("event_type", Str("t"))]
    + ([Member("actor", Obj([Member("id", Str("a")), Member("type", Str("user"))]))]
    + ExampleTail()))))
  }

  function ExampleTail(): seq<Member>
  {
    [Member("data_subjects", ListDoc(["s1", "s2"]))]
    + ([Member("resource", Obj([Member("type", Str("doc")), Member("id", Str("7"))]))]
    + ([Member("operation", Str("read"))]
    + ([Member("lawful_basis", Str("consent"))]
    + ([Member("purpose", Str("p"))]
    + ([Member("outcome", Str("ok"))]
    + ([Member("ip", Str("ip"))]
    + [Member("device", Str("d"))]))))))
  }

  lemma PairSorts(x: string, y: string)
    requires Le(x, y)
    ensures Sort([y, x]) == [x, y]
  {
    hide Le, Sort;
    AscendingIsSort([x, y], [y, x]);
  }

  lemma ExampleOrder()
    ensures Le("b", "gdpr_access") && Le("s1", "s2")
  {
    assert "s1"[1..] == "1" && "s2"[1..] == "2";
  }

  lemma ExampleSorts()
    ensures Sort(EXAMPLE.categories) == ["b", "gdpr_access"] && Sort(EXAMPLE.dataSubjects) == ["s1", "s2"]
  {
    ExampleOrder();
    hide Le, Sort;
    PairSorts("b", "gdpr_access");
    PairSorts("s1", "s2");
  }

  lemma ViewLooks()
    ensures var v := ViewOf(EXAMPLE, Morning("08", "05", "Z"));
      && v[0] == Some(Str("e1")) && v[1] == Some(Str(Morning("08", "05", "Z")))
      && v[2] == Some(ListDoc(["b", "gdpr_access"])) && v[3] == Some(Str("t"))
      && v[4] == Some(Obj([Member("id", Str("a")), Member("type", Str("user"))]))
      && v[5] == Some(ListDoc(["s1", "s2"]))
      && v[6] == Some(Obj([Member("type", Str("doc")), Member("id", Str("7"))]))
      && v[7] == Some(Str("read")) && v[8] == Some(Str("consent")) && v[9] == Some(Str("p"))
      && v[10] == Some(Str("ok")) && v[11] == Some(Str("ip")) && v[12] == Some(Str("d")) && v[13] == None
  {
    ExampleSorts();
    hide Sort, ListDoc, Morning;
  }

  lemma TailAt()
    ensures var m := ExampleTail();
      && |m| == 8
      && m[0] == Member("data_subjects", ListDoc(["s1", "s2"]))
      && m[1] == Member("resource", Obj([Member("type", Str("doc")), Member("id", Str("7"))]))
      && m[2] == Member("operation", Str("read")) && m[3] == Member("lawful_basis", Str("consent"))
      && m[4] == Member("purpose", Str("p")) && m[5] == Member("outcome", Str("ok"))
      && m[6] == Member("ip", Str("ip")) && m[7] == Member("device", Str("d"))
  {
    hide ListDoc;
  }

  lemma MembersAt()
    ensures var m := ExampleMembers();
      && |m| == 13
      && m[0] == Member("event_id", Str("e1")) && m[1] == Member("occurred_at", Str(Morning("08", "05", "Z")))
      && m[2] == Member("category", ListDoc(["b", "gdpr_access"])) && m[3] == Member("event_type", Str("t"))
      && m[4] == Member("actor", Obj([Member("id", Str("a")), Member("type", Str("user"))]))
      && m[5..] == ExampleTail()
  {
    TailAt();
    hide ExampleTail, ListDoc, Morning;
  }

  lemma NamesLook()
    ensures var n := VIEW_NAMES;
      && |n| == 14 && n[0] == "event_id" && n[1] == "occurred_at" && n[2] == "category" && n[3] == "event_type"
      && n[4] == "actor" && n[5] == "data_subjects" && n[6] == "resource" && n[7] == "operation"
      && n[8] == "lawful_basis" && n[9] == "purpose" && n[10] == "outcome" && n[11] == "ip" && n[12] == "device"
      && n[13] == "attributes"
  {
  }

  /** The members with nothing omitted but the last, one by one. */
  lemma MembersOfView(names: seq<string>, view: seq<Option<Doc>>)
    requires |names| == |view| == 14 && view[13] == None && forall i :: 0 <= i < 13 ==> view[i].Some?
    ensures var m := Compact(names, view);
      |m| == 13 && forall i :: 0 <= i < 13 ==> m[i] == Member(names[i], view[i].value)
  {
    CompactOmits(names[..13], view[..13], names[13]);
    assert names == names[..13] + [names[13]] && view == view[..13] + [None];
    CompactAll(names[..13], view[..13]);
  }

  lemma ExampleHead(m: seq<Member>)
    requires |m| == 13
    requires m[0] == Member("event_id", Str("e1")) && m[1] == Member("occurred_at", Str(Morning("08", "05", "Z")))
    requires m[2] == Member("category", ListDoc(["b", "gdpr_access"])) && m[3] == Member("event_type", Str("t"))
    requires m[4] == Member("actor", Obj([Member("id", Str("a")), Member("type", Str("user"))]))
    requires m[5..] == ExampleTail()
    ensures m == ExampleMembers()
  {
    MembersAt();
    hide ExampleTail, ExampleMembers, ListDoc, Morning;
    var e := ExampleMembers();
    assert m == m[..5] + m[5..] && e == e[..5] + e[5..];
    assert m[..5] == e[..5];
  }

  lemma ExampleRest(m: seq<Member>)
    requires |m| == 8
    requires m[0] == Member("data_subjects", ListDoc(["s1", "s2"]))
    requires m[1] == Member("resource", Obj([Member("type", Str("doc")), Member("id", Str("7"))]))
    requires m[2] == Member("operation", Str("read")) && m[3] == Member("lawful_basis", Str("consent"))
    requires m[4] == Member("purpose", Str("p")) && m[5] == Member("outcome", Str("ok"))
    requires m[6] == Member("ip", Str("ip")) && m[7] == Member("device", Str("d"))
    ensures m == ExampleTail()
  {
    TailAt();
    hide ExampleTail, ListDoc;
  }

  lemma ExampleView()
    ensures Compact(VIEW_NAMES, ViewOf(EXAMPLE, Morning("08", "05", "Z"))) == ExampleMembers()
  {
    ViewLooks();
    NamesLook();
    hide ViewOf, ListDoc, Morning, ExampleMembers, ExampleTail, Compact;
    var view := ViewOf(EXAMPLE, Morning("08", "05", "Z"));
    MembersOfView(VIEW_NAMES, view);
    var m := Compact(VIEW_NAMES, view);
    ExampleRest(m[5..]);
    ExampleHead(m);
  }

  lemma KeysPlain()
    ensures AllPlain("event_id") && AllPlain("occurred_at") && AllPlain("category") && AllPlain("event_type")
    ensures AllPlain("actor") && AllPlain("id") && AllPlain("type") && AllPlain("data_subjects") && AllPlain("resource")
  {
  }

  lemma MoreKeysPlain()
    ensures AllPlain("operation") && AllPlain("lawful_basis") && AllPlain("purpose") && AllPlain("outcome")
    ensures AllPlain("ip") && AllPlain("device")
  {
  }

  lemma ValuesPlain()
    ensures AllPlain("e1") && AllPlain("b") && AllPlain("gdpr_access") && AllPlain("t") && AllPlain("a")
    ensures AllPlain("user") && AllPlain("s1") && AllPlain("s2") && AllPlain("doc") && AllPlain("7")
    ensures AllPlain("read") && AllPlain("consent") && AllPlain("p") && AllPlain("ok") && AllPlain("d")
  {
  }

  lemma BothPlain(a: string, b: string)
    requires AllPlain(a) && AllPlain(b)
    ensures AllPlain(a + b)
  {
  }

  lemma MorningPlain(h: string, m: string, zone: string)
    requires AllPlain(h) && AllPlain(m) && AllPlain(zone)
    ensures AllPlain(Morning(h, m, zone))
  {
    assert AllPlain("2023-05-17T") && AllPlain(":") && AllPlain(":03");
    hide AllPlain;
    BothPlain(":03", zone);
    BothPlain(m, ":03" + zone);
    BothPlain(":", m + (":03" + zone));
    BothPlain(h, ":" + (m + (":03" + zone)));
    BothPlain("2023-05-17T", h + (":" + (m + (":03" + zone))));
  }

  lemma ExamplePlain()
    ensures AllPlain(Morning("08", "05", "Z"))
  {
    assert AllPlain("08") && AllPlain("05") && AllPlain("Z");
    hide AllPlain, Morning;
    MorningPlain("08", "05", "Z");
  }

  lemma ExampleTailText()
    ensures WriteMembers(ExampleTail(), "", "")
      == ListField("data_subjects", "s1", "s2",
         "," + PairField("resource", "type", "doc", "id", "7",
         "," + Field("operation", "read",
         "," + Field("lawful_basis", "consent",
         "," + Field("purpose", "p",
         "," + Field("outcome", "ok",
         "," + Field("ip", "ip",
         "," + Field("device", "d", "}" + ""))))))))
  {
    KeysPlain();
    MoreKeysPlain();
    ValuesPlain();
    ExamplePlain();
    hide WriteMembers, AllPlain, Morning, ListDoc, Field, PairField, ListField;
    LastStringMember("device", "d", "");
    var m7 := [Member("device", Str("d"))];
    StringMember("ip", "ip", m7, "");
    var m6 := [Member("ip", Str("ip"))] + m7;
    StringMember("outcome", "ok", m6, "");
    var m5 := [Member("outcome", Str("ok"))] + m6;
    StringMember("purpose", "p", m5, "");
    var m4 := [Member("purpose", Str("p"))] + m5;
    StringMember("lawful_basis", "consent", m4, "");
    var m3 := [Member("lawful_basis", Str("consent"))] + m4;
    StringMember("operation", "read", m3, "");
    var m2 := [Member("operation", Str("read"))] + m3;
    PairMember("resource", "type", "doc", "id", "7", m2, "");
    var m1 := [Member("resource", Obj([Member("type", Str("doc")), Member("id", Str("7"))]))] + m2;
    ListMember("data_subjects", "s1", "s2", m1, "");
  }

  lemma ExampleMembersText()
    ensures "{" + WriteMembers(ExampleMembers(), "", "") == ExampleText()
  {
    ExampleTailText();
    TailNotEmpty();
    KeysPlain();
    MoreKeysPlain();
    ValuesPlain();
    ExamplePlain();
    hide WriteMembers, AllPlain, Morning, ListDoc, ExampleTail, Field, PairField, ListField;
    var tail := ExampleTail();
    PairMember("actor", "id", "a", "type", "user", tail, "");
    var m3 := [Member("actor", Obj([Member("id", Str("a")), Member("type", Str("user"))]))] + tail;
    StringMember("event_type", "t", m3, "");
    var m2 := [Member("event_type", Str("t"))] + m3;
    ListMember("category", "b", "gdpr_access", m2, "");
    var m1 := [Member("category", ListDoc(["b", "gdpr_access"]))] + m2;
    StringMember("occurred_at", Morning("08", "05", "Z"), m1, "");
    var m0 := [Member("occurred_at", Str(Morning("08", "05", "Z")))] + m1;
    StringMember("event_id", "e1", m0, "");
  }

  lemma TailNotEmpty()
    ensures ExampleTail() != []
  {
  }

  /** The bytes that are sealed for the example. */
  lemma CanonicalExample()
    ensures Canonical(EXAMPLE) == ExampleText()
  {
    TimeExamples();
    ExampleView();
    ExampleMembersText();
    hide WriteMembers, Compact, ViewOf, Rfc3339Nano, ExampleMembers, ExampleText;
    assert EXAMPLE.occurredAt.Utc() == Time(MORNING, 0);
    var members := Compact(VIEW_NAMES, ViewOf(EXAMPLE, Morning("08", "05", "Z")));
    assert members != [] by { MembersNotEmpty(); }
  }

  lemma MembersNotEmpty()
    ensures ExampleMembers() != []
  {
  }
}
