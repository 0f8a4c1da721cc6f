/**
 Tamper evidence: the canonical text of an envelope, row seals over it, and
 checkpoints over a period's seals.

 HMAC-SHA256 (section 2 of RFC 2104) is an arbitrary function here; nothing is
 assumed of it. A soundness result says that contents agree or names two texts
 with one digest. Texts stand for their UTF-8 bytes.
 */
module Seals {
  import opened Wrappers
  import opened Text
  import opened Decimal
  import opened JsonText
  import opened JsonValue
  import opened Calendar
  import opened Rfc3339
  import opened Envelopes

  type Byte = b: nat | b < 256

  type Digest = d: seq<Byte> | |d| == 32 witness seq(32, _ => 0)

  // ---- Hexadecimal ----

  /** `hex.EncodeToString`. */
  function Hex(d: seq<Byte>): string
  {
    if d == [] then "" else [HexDigit(d[0] / 16), HexDigit(d[0] % 16)] + Hex(d[1..])
  }

  predicate IsLowerHex(c: char)
  {
    '0' <= c <= '9' || 'a' <= c <= 'f'
  }

  lemma {:induction false} HexShape(d: seq<Byte>)
    ensures |Hex(d)| == 2 * |d| && forall i :: 0 <= i < |Hex(d)| ==> IsLowerHex(Hex(d)[i])
  {
    if d != [] {
      HexShape(d[1..]);
    }
  }

  /** Each byte is written as its high digit and then its low one. */
  lemma {:induction false} HexReads(d: seq<Byte>, i: nat)
    requires i < |d|
    ensures |Hex(d)| == 2 * |d|
    ensures HexValue(Hex(d)[2 * i]) == Some(d[i] / 16) && HexValue(Hex(d)[2 * i + 1]) == Some(d[i] % 16)
  {
    HexShape(d);
    HexRoundTrip(d[0] / 16);
    HexRoundTrip(d[0] % 16);
    hide HexDigit, HexValue;
    if i > 0 {
      HexReads(d[1..], i - 1);
      assert Hex(d)[2..] == Hex(d[1..]);
      assert Hex(d)[2 * i] == Hex(d[1..])[2 * i - 2] && Hex(d)[2 * i + 1] == Hex(d[1..])[2 * i - 1];
    }
  }

  lemma {:induction false} HexInjective(a: seq<Byte>, b: seq<Byte>)
    requires Hex(a) == Hex(b)
    ensures a == b
  {
    HexShape(a);
    HexShape(b);
    if a != [] {
      HexRoundTrip(a[0] / 16);
      HexRoundTrip(a[0] % 16);
      HexRoundTrip(b[0] / 16);
      HexRoundTrip(b[0] % 16);
      hide HexDigit, HexValue;
      var s := Hex(a);
      assert s[0] == HexDigit(a[0] / 16) == HexDigit(b[0] / 16);
      assert s[1] == HexDigit(a[0] % 16) == HexDigit(b[0] % 16);
      assert s[2..] == Hex(a[1..]) == Hex(b[1..]);
      HexInjective(a[1..], b[1..]);
      assert a == [a[0]] + a[1..] && b == [b[0]] + b[1..];
    }
  }

  predicate NewlineFree(s: string)
  {
    '\n' !in s
  }

  lemma HexNewlineFree(d: seq<Byte>)
    ensures NewlineFree(Hex(d))
  {
    HexShape(d);
  }

  // ---- The canonical text ----

  /** The projection the seal covers: sets sorted, the time as `at`, the chain fields left out. */
  function ViewOf(e: Envelope, at: string): (v: seq<Option<Doc>>)
    ensures |v| == 14
  {
    [Some(Str(e.eventId)), Some(Str(at)), Some(ListDoc(Sort(e.categories))), Some(Str(e.eventType)),
     ActorDoc(e.actor), NonEmptyList(Sort(e.dataSubjects)), ResourceDoc(e.resource),
     NonEmpty(e.operation), NonEmpty(e.lawfulBasis), NonEmpty(e.purpose), Some(Str(e.outcome)),
     NonEmpty(e.ip), NonEmpty(e.device), AttributesDoc(e.attributes)]
  }

  function ViewText(e: Envelope, at: string): string
  {
    Write(Obj(Compact(VIEW_NAMES, ViewOf(e, at))), "", "")
  }

  function Canonical(e: Envelope): string
  {
    ViewText(e, Rfc3339Nano(e.occurredAt.Utc()))
  }

  /** Agreement on all content but the time; subjects and categories count as multisets. */
  predicate SameContent(a: Envelope, b: Envelope)
  {
    && a.eventId == b.eventId
    && multiset(a.categories) == multiset(b.categories)
    && a.eventType == b.eventType
    && a.actor == b.actor
    && multiset(a.dataSubjects) == multiset(b.dataSubjects)
    && a.resource == b.resource
    && a.operation == b.operation
    && a.lawfulBasis == b.lawfulBasis
    && a.purpose == b.purpose
    && a.outcome == b.outcome
    && a.ip == b.ip
    && a.device == b.device
    && a.attributes == b.attributes
  }

  /** The same access record: the zone a time was given in does not matter, nor do the chain fields. */
  predicate SameRecord(a: Envelope, b: Envelope)
  {
    a.occurredAt.instant == b.occurredAt.instant && SameContent(a, b)
  }

  lemma NonEmptyInjective(s: string, t: string)
    requires NonEmpty(s) == NonEmpty(t)
    ensures s == t
  {
  }

  lemma ListInjective(a: seq<string>, b: seq<string>)
    requires ListDoc(Sort(a)) == ListDoc(Sort(b)) || NonEmptyList(Sort(a)) == NonEmptyList(Sort(b))
    ensures multiset(a) == multiset(b)
  {
    SortedAlike(a, b);
    if Sort(a) != [] && Sort(b) != [] {
      StringDocsInjective(Sort(a), Sort(b));
    } else {
      assert ListDoc(Sort(a)).items == StringDocs(Sort(a)) && ListDoc(Sort(b)).items == StringDocs(Sort(b));
      assert |Sort(a)| == |Sort(b)|;
    }
  }

  lemma ViewSlots(a: Envelope, at: string, b: Envelope, bt: string)
    requires ViewOf(a, at) == ViewOf(b, bt)
    ensures at == bt && a.eventId == b.eventId && a.eventType == b.eventType && a.outcome == b.outcome
    ensures ListDoc(Sort(a.categories)) == ListDoc(Sort(b.categories))
    ensures NonEmptyList(Sort(a.dataSubjects)) == NonEmptyList(Sort(b.dataSubjects))
    ensures ActorDoc(a.actor) == ActorDoc(b.actor) && ResourceDoc(a.resource) == ResourceDoc(b.resource)
    ensures NonEmpty(a.operation) == NonEmpty(b.operation) && NonEmpty(a.lawfulBasis) == NonEmpty(b.lawfulBasis)
    ensures NonEmpty(a.purpose) == NonEmpty(b.purpose) && NonEmpty(a.ip) == NonEmpty(b.ip)
    ensures NonEmpty(a.device) == NonEmpty(b.device) && AttributesDoc(a.attributes) == AttributesDoc(b.attributes)
  {
    hide ListDoc, NonEmptyList, ActorDoc, ResourceDoc, AttributesDoc, NonEmpty, Sort;
    var v, w := ViewOf(a, at), ViewOf(b, bt);
    assert v[0] == w[0] && v[1] == w[1] && v[2] == w[2] && v[3] == w[3] && v[4] == w[4];
    assert v[5] == w[5] && v[6] == w[6] && v[7] == w[7] && v[8] == w[8] && v[9] == w[9];
    assert v[10] == w[10] && v[11] == w[11] && v[12] == w[12] && v[13] == w[13];
  }

  lemma ViewContent(a: Envelope, at: string, b: Envelope, bt: string)
    requires ViewOf(a, at) == ViewOf(b, bt)
    ensures at == bt && SameContent(a, b)
  {
    hide ViewOf, ListDoc, NonEmptyList, ActorDoc, ResourceDoc, AttributesDoc, NonEmpty, Sort;
    ViewSlots(a, at, b, bt);
    ListInjective(a.categories, b.categories);
    ListInjective(a.dataSubjects, b.dataSubjects);
    ActorDocInjective(a.actor, b.actor);
    ResourceDocInjective(a.resource, b.resource);
    AttributesDocInjective(a.attributes, b.attributes);
    NonEmptyInjective(a.operation, b.operation);
    NonEmptyInjective(a.lawfulBasis, b.lawfulBasis);
    NonEmptyInjective(a.purpose, b.purpose);
    NonEmptyInjective(a.ip, b.ip);
    NonEmptyInjective(a.device, b.device);
  }

  /** The text determines the content and the content the text. */
  lemma ViewIdentity(a: Envelope, at: string, b: Envelope, bt: string)
    ensures ViewText(a, at) == ViewText(b, bt) <==> at == bt && SameContent(a, b)
  {
    hide Write, Compact, Sort, Distinct;
    if ViewText(a, at) == ViewText(b, bt) {
      hide ViewOf;
      WriteInjective(Obj(Compact(VIEW_NAMES, ViewOf(a, at))), Obj(Compact(VIEW_NAMES, ViewOf(b, bt))));
      NamesDistinct();
      CompactInjective(VIEW_NAMES, ViewOf(a, at), ViewOf(b, bt));
      ViewContent(a, at, b, bt);
    }
    if at == bt && SameContent(a, b) {
      SortedAlike(a.categories, b.categories);
      SortedAlike(a.dataSubjects, b.dataSubjects);
    }
  }

  /** Canonical texts are equal exactly for envelopes that record the same access. */
  lemma CanonicalIdentity(a: Envelope, b: Envelope)
    ensures Canonical(a) == Canonical(b) <==> SameRecord(a, b)
  {
    hide ViewText, SameContent, Rfc3339Nano;
    ViewIdentity(a, Rfc3339Nano(a.occurredAt.Utc()), b, Rfc3339Nano(b.occurredAt.Utc()));
    if Rfc3339Nano(a.occurredAt.Utc()) == Rfc3339Nano(b.occurredAt.Utc()) {
      UtcTextInjective(a.occurredAt.instant, b.occurredAt.instant);
    }
  }

  // ---- What the canonical text says ----

  /** The envelope as the text presents it: time in UTC, lists sorted, no chain fields. */
  function AsSealed(e: Envelope): Envelope
  {
    e.(occurredAt := Time(e.occurredAt.instant, 0), categories := Sort(e.categories),
       dataSubjects := Sort(e.dataSubjects), prevHash := "", hash := "")
  }

  /** The canonical text is the JSON form of that envelope. */
  lemma CanonicalIsItsJson(e: Envelope)
    ensures Canonical(e) == Write(EnvelopeDoc(AsSealed(e)), "", "")
  {
    hide Write, Compact, Sort, Rfc3339Nano, ListDoc, NonEmptyList, ActorDoc, ResourceDoc, AttributesDoc;
    var at := Rfc3339Nano(Time(e.occurredAt.instant, 0));
    var view := ViewOf(e, at);
    assert EnvelopeValues(AsSealed(e), at) == view + [None] + [None];
    NamesDistinct();
    hide Distinct;
    CompactOmits(VIEW_NAMES, view, "prev_hash");
    CompactOmits(VIEW_NAMES + ["prev_hash"], view + [None], "hash");
    assert ENVELOPE_NAMES == VIEW_NAMES + ["prev_hash"] + ["hash"];
  }

  /**
   What is sealed is the record: read as the envelope's JSON, the canonical text gives
   every field under its own name, the time in UTC, subjects and categories in ascending
   order and as often as they occur, and no chain fields.
   */
  lemma CanonicalReads(e: Envelope)
    requires FourDigitYear(e.occurredAt.instant)
    ensures var back := Unmarshal(Canonical(e));
      && back.Some?
      && back.value == e.(occurredAt := Time(e.occurredAt.instant, 0), categories := back.value.categories,
                          dataSubjects := back.value.dataSubjects, prevHash := "", hash := "")
      && Ascending(back.value.categories) && multiset(back.value.categories) == multiset(e.categories)
      && Ascending(back.value.dataSubjects) && multiset(back.value.dataSubjects) == multiset(e.dataSubjects)
  {
    SortSorts(e.categories);
    SortSorts(e.dataSubjects);
    hide Canonical, Write, EnvelopeDoc, Unmarshal, Sort, Ascending, FourDigitYear;
    CanonicalIsItsJson(e);
    assert Time(e.occurredAt.instant, 0).Printable();
    EnvelopeSurvivesStorage(AsSealed(e), EnvelopeDoc(AsSealed(e)), "");
  }

  lemma ViewTextStarts(e: Envelope, at: string)
    ensures ViewText(e, at) != [] && ViewText(e, at)[0] == '{'
  {
    hide WriteMembers, Compact, ViewOf;
  }

  // ---- The checkpoint text ----

  function Lines(seals: seq<string>, tail: string): string
  {
    if seals == [] then tail else seals[0] + ("\n" + Lines(seals[1..], tail))
  }

  /** `n=<count>` and then the seals, each on a line of its own. */
  function CheckpointText(seals: seq<string>, count: nat): string
  {
    "n=" + (Digits(count) + ("\n" + Lines(seals, "")))
  }

  /** How a checkpoint text looks. */
  lemma CheckpointLooks(a: string, b: string)
    ensures CheckpointText([], 0) == "n=0\n"
    ensures CheckpointText([a, b], 2) == "n=2\n" + (a + ("\n" + (b + "\n")))
  {
    assert Lines([a, b], "") == a + ("\n" + (b + "\n")) by {
      assert [a, b][1..] == [b] && [b][1..] == [];
      assert Lines([b], "") == b + ("\n" + "");
      assert "\n" + "" == "\n";
    }
    hide Lines;
    assert Digits(0) == "0" && Digits(2) == "2";
    var rest := a + ("\n" + (b + "\n"));
    assert "n=" + ("2" + ("\n" + rest)) == "n=2\n" + rest;
    assert "n=" + ("0" + ("\n" + "")) == "n=0\n";
  }

  /** Splits off the text before the first newline. */
  function ReadLine(s: string): (r: Option<(string, string)>)
    ensures r.Some? ==> |r.value.1| < |s|
  {
    if s == [] then None
    else if s[0] == '\n' then Some(("", s[1..]))
    else
      var (line, rest) :- ReadLine(s[1..]);
      Some(([s[0]] + line, rest))
  }

  function ReadLines(s: string): Option<seq<string>>
    decreases |s|
  {
    if s == [] then Some([])
    else
      var (line, rest) :- ReadLine(s);
      var lines :- ReadLines(rest);
      Some([line] + lines)
  }

  function ReadCheckpoint(s: string): Option<(nat, seq<string>)>
  {
    if |s| < 2 || s[..2] != "n=" then None
    else
      var (d, rest) := Span(s[2..]);
      if rest == [] || rest[0] != '\n' then None
      else
        var lines :- ReadLines(rest[1..]);
        Some((Value(d), lines))
  }

  predicate AllNewlineFree(seals: seq<string>)
  {
    forall i :: 0 <= i < |seals| ==> NewlineFree(seals[i])
  }

  lemma {:induction false} ReadLineWritten(line: string, rest: string)
    requires NewlineFree(line)
    ensures ReadLine(line + ("\n" + rest)) == Some((line, rest))
  {
    var s := line + ("\n" + rest);
    if line == [] {
      assert s == "\n" + rest && s[1..] == rest;
    } else {
      assert s[0] == line[0] && s[1..] == line[1..] + ("\n" + rest);
      assert line[0] in line && forall c :: c in line[1..] ==> c in line;
      ReadLineWritten(line[1..], rest);
      assert [line[0]] + line[1..] == line;
    }
  }

  lemma {:induction false} ReadLinesWritten(seals: seq<string>)
    requires AllNewlineFree(seals)
    ensures ReadLines(Lines(seals, "")) == Some(seals)
  {
    if seals != [] {
      hide NewlineFree, ReadLine;
      ReadLineWritten(seals[0], Lines(seals[1..], ""));
      ReadLinesWritten(seals[1..]);
      assert seals == [seals[0]] + seals[1..];
    }
  }

  /** A checkpoint text is uniquely decodable when the seals hold no newline. */
  lemma ReadCheckpointWritten(seals: seq<string>, count: nat)
    requires AllNewlineFree(seals)
    ensures ReadCheckpoint(CheckpointText(seals, count)) == Some((count, seals))
  {
    hide ReadLines, Lines, AllNewlineFree, Digits, Value;
    var rest := "\n" + Lines(seals, "");
    var s := CheckpointText(seals, count);
    assert s[..2] == "n=" && s[2..] == Digits(count) + rest;
    SpanSplits(Digits(count), rest);
    DigitsValue(count);
    assert rest[1..] == Lines(seals, "");
    ReadLinesWritten(seals);
  }

  function Newlines(s: string): nat
  {
    if s == [] then 0 else (if s[0] == '\n' then 1 else 0) + Newlines(s[1..])
  }

  lemma {:induction false} NewlinesAddUp(a: string, b: string)
    ensures Newlines(a + b) == Newlines(a) + Newlines(b)
  {
    if a == [] {
      assert a + b == b;
    } else {
      NewlinesAddUp(a[1..], b);
      assert (a + b)[1..] == a[1..] + b;
    }
  }

  lemma {:induction false} NoNewlines(s: string)
    ensures Newlines(s) == 0 <==> NewlineFree(s)
  {
    if s != [] {
      NoNewlines(s[1..]);
      assert s == [s[0]] + s[1..];
    }
  }

  lemma AllFreeSplit(seals: seq<string>)
    requires seals != []
    ensures AllNewlineFree(seals) <==> NewlineFree(seals[0]) && AllNewlineFree(seals[1..])
  {
    hide NewlineFree;
    if NewlineFree(seals[0]) && AllNewlineFree(seals[1..]) {
      forall i | 0 <= i < |seals| ensures NewlineFree(seals[i]) {
        assert i > 0 ==> seals[i] == seals[1..][i - 1];
      }
    }
  }

  /** A list has as many newlines as seals exactly if no seal holds one. */
  lemma {:induction false} LinesNewlines(seals: seq<string>)
    ensures Newlines(Lines(seals, "")) >= |seals|
    ensures Newlines(Lines(seals, "")) == |seals| <==> AllNewlineFree(seals)
  {
    if seals != [] {
      var rest := Lines(seals[1..], "");
      LinesNewlines(seals[1..]);
      AllFreeSplit(seals);
      NoNewlines(seals[0]);
      NewlinesAddUp(seals[0], "\n" + rest);
      assert ("\n" + rest)[1..] == rest;
    }
  }

  lemma TextParts(a: seq<string>, n: nat, b: seq<string>, m: nat)
    requires CheckpointText(a, n) == CheckpointText(b, m)
    ensures n == m && Lines(a, "") == Lines(b, "")
  {
    hide Lines, Digits;
    var s, x, y := CheckpointText(a, n), "\n" + Lines(a, ""), "\n" + Lines(b, "");
    assert s[2..] == Digits(n) + x && s[2..] == Digits(m) + y;
    SpanSplits(Digits(n), x);
    SpanSplits(Digits(m), y);
    DigitsValue(n);
    DigitsValue(m);
    assert x[1..] == Lines(a, "") && y[1..] == Lines(b, "");
  }

  /** Written with its own length, a newline-free list shares its text with no other list, newline-free or not. */
  lemma OwnCountDecides(a: seq<string>, b: seq<string>)
    requires AllNewlineFree(a) && CheckpointText(a, |a|) == CheckpointText(b, |b|)
    ensures a == b
  {
    hide CheckpointText, AllNewlineFree, Lines;
    TextParts(a, |a|, b, |b|);
    LinesNewlines(a);
    LinesNewlines(b);
    ReadCheckpointWritten(a, |a|);
    ReadCheckpointWritten(b, |b|);
  }

  /** Without that, one text can stand for two different lists of the same length. */
  lemma NewlinesMakeTextsAmbiguous()
    ensures CheckpointText(["a\nb", "c"], 2) == CheckpointText(["a", "b\nc"], 2)
  {
    hide Digits;
    assert Lines(["a\nb", "c"], "") == "a\nb\nc\n" by {
      assert ["a\nb", "c"][1..] == ["c"] && ["c"][1..] == [];
    }
    assert Lines(["a", "b\nc"], "") == "a\nb\nc\n" by {
      assert ["a", "b\nc"][1..] == ["b\nc"] && ["b\nc"][1..] == [];
    }
  }

  // ---- The sealer ----

  datatype Sealer = Sealer(key: seq<Byte>, hmac: (seq<Byte>, string) -> Digest) {

    function Mac(text: string): Digest
    {
      hmac(key, text)
    }

    /** Two texts with one digest. */
    predicate Collides(a: string, b: string)
    {
      a != b && Mac(a) == Mac(b)
    }

    function SealOf(e: Envelope): string
    {
      Hex(Mac(Canonical(e)))
    }

    predicate Verify(e: Envelope, want: string)
    {
      SealOf(e) == want
    }

    function CheckpointOf(seals: seq<string>, count: nat): string
    {
      Hex(Mac(CheckpointText(seals, count)))
    }

    predicate VerifyCheckpoint(seals: seq<string>, count: nat, want: string)
    {
      CheckpointOf(seals, count) == want
    }

    lemma HexMac(a: string, b: string)
      ensures Hex(Mac(a)) == Hex(Mac(b)) <==> a == b || Collides(a, b)
    {
      hide Hex;
      if Hex(Mac(a)) == Hex(Mac(b)) {
        HexInjective(Mac(a), Mac(b));
      }
    }

    /** A seal fits exactly the envelopes that record the same access, collisions aside. */
    lemma SealIdentity(a: Envelope, b: Envelope)
      ensures Verify(a, SealOf(b)) <==> SameRecord(a, b) || Collides(Canonical(a), Canonical(b))
    {
      hide Canonical, SameRecord, Hex, Mac, Collides;
      HexMac(Canonical(a), Canonical(b));
      CanonicalIdentity(a, b);
    }

    lemma SealShape(e: Envelope)
      ensures |SealOf(e)| == 64 && forall i :: 0 <= i < 64 ==> IsLowerHex(SealOf(e)[i])
      ensures NewlineFree(SealOf(e))
    {
      hide Canonical, Hex, IsLowerHex, NewlineFree;
      HexShape(Mac(Canonical(e)));
      HexNewlineFree(Mac(Canonical(e)));
    }

    /** The seal of an envelope still fits after a trip through storage. */
    lemma SealSurvivesStorage(e: Envelope, stored: Doc, gap: string)
      requires e.occurredAt.Printable() && AllSpace(gap)
      requires ValueOf(stored) == ValueOf(EnvelopeDoc(e))
      ensures var back := Unmarshal(Write(stored, gap, "")); back.Some? && Verify(back.value, SealOf(e))
    {
      hide Unmarshal, Write, Canonical, EnvelopeDoc, Time.Printable;
      EnvelopeSurvivesStorage(e, stored, gap);
    }

    /**
     A checkpoint over newline-free seals fits exactly its own seals in their order and
     its own count, collisions aside. What it is compared with may be any list, newlines
     included, when each list is counted as it is long, and any count otherwise.
     */
    lemma CheckpointIdentity(seals: seq<string>, count: nat, others: seq<string>, otherCount: nat)
      requires AllNewlineFree(others)
      requires AllNewlineFree(seals) || (count == |seals| && otherCount == |others|)
      ensures VerifyCheckpoint(seals, count, CheckpointOf(others, otherCount))
        <==> ((seals == others && count == otherCount)
              || Collides(CheckpointText(seals, count), CheckpointText(others, otherCount)))
    {
      hide CheckpointText, Hex, Mac, AllNewlineFree, ReadCheckpoint;
      HexMac(CheckpointText(seals, count), CheckpointText(others, otherCount));
      if CheckpointText(seals, count) == CheckpointText(others, otherCount) {
        if AllNewlineFree(seals) {
          ReadCheckpointWritten(seals, count);
          ReadCheckpointWritten(others, otherCount);
        } else {
          OwnCountDecides(others, seals);
        }
      }
    }

    /** Rows and checkpoints share a key but never a text: a seal that serves as both is a collision. */
    lemma DomainsSeparate(e: Envelope, seals: seq<string>, count: nat)
      ensures Canonical(e) != CheckpointText(seals, count)
      ensures SealOf(e) == CheckpointOf(seals, count) ==> Collides(Canonical(e), CheckpointText(seals, count))
    {
      hide Hex, Mac, ViewText, Rfc3339Nano, Digits, Lines;
      ViewTextStarts(e, Rfc3339Nano(e.occurredAt.Utc()));
      assert CheckpointText(seals, count)[0] == 'n';
      hide Canonical, CheckpointText, Collides;
      HexMac(Canonical(e), CheckpointText(seals, count));
    }
  }

  /**
   Sealers made from two keys: a seal of one fits under the other exactly if the MACs of
   the two keys agree on the text; an empty key makes no sealer.
   */
  lemma KeysTellApart(key: seq<Byte>, other: seq<Byte>, hmac: (seq<Byte>, string) -> Digest, e: Envelope)
    requires key != []
    ensures New([], hmac).Err? && New(key, hmac).Ok?
    ensures other != []
        ==> (New(other, hmac).value.Verify(e, New(key, hmac).value.SealOf(e))
             <==> hmac(other, Canonical(e)) == hmac(key, Canonical(e)))
  {
    hide Canonical, Hex;
    if Hex(hmac(other, Canonical(e))) == Hex(hmac(key, Canonical(e))) {
      HexInjective(hmac(other, Canonical(e)), hmac(key, Canonical(e)));
    }
  }

  /** `seal.New`: an empty key is refused. */
  function New(key: seq<Byte>, hmac: (seq<Byte>, string) -> Digest): (r: Result<Sealer, string>)
    ensures r.Ok? <==> key != []
    ensures r.Ok? ==> r.value.key == key
  {
    if key == [] then Err("seal: empty key") else Ok(Sealer(key, hmac))
  }

  /** `canonical` as the source computes it: copies of the lists, sorted, in a fixed projection. */
  method WriteCanonical(e: Envelope) returns (text: string)
    ensures text == Canonical(e)
  {
    hide Sort, Ascending, ViewOf, Write, Compact, Rfc3339Nano;
    var subs := SortStrings(e.dataSubjects);
    AscendingIsSort(subs, e.dataSubjects);
    var cats := [];
    for i := 0 to |e.categories|
      invariant cats == e.categories[..i]
    {
      cats := cats + [e.categories[i]];
    }
    assert e.categories[..|e.categories|] == e.categories;
    cats := SortStrings(cats);
    AscendingIsSort(cats, e.categories);
    var view := e.(categories := cats, dataSubjects := subs);
    ViewSorts(e, Rfc3339Nano(e.occurredAt.Utc()));
    text := ViewText(view, Rfc3339Nano(e.occurredAt.Utc()));
  }

  /** Sorting the lists first does not change the projection. */
  lemma ViewSorts(e: Envelope, at: string)
    ensures ViewText(e.(categories := Sort(e.categories), dataSubjects := Sort(e.dataSubjects)), at) == ViewText(e, at)
  {
    SortSorts(e.categories);
    SortSorts(e.dataSubjects);
    hide Sort, Ascending, Write, Compact, Distinct;
    SortedAlike(Sort(e.categories), e.categories);
    SortedAlike(Sort(e.dataSubjects), e.dataSubjects);
  }

  /** `Checkpoint` as the source computes it, line after line into a running MAC. */
  method WriteCheckpoint(s: Sealer, seals: seq<string>, count: nat) returns (hex: string)
    ensures hex == s.CheckpointOf(seals, count)
  {
    hide Digits, Hex;
    var written := "n=" + (Digits(count) + "\n");
    for i := 0 to |seals|
      invariant written + Lines(seals[i..], "") == CheckpointText(seals, count)
    {
      assert seals[i..][1..] == seals[i + 1..] && seals[i..][0] == seals[i];
      assert written + Lines(seals[i..], "") == written + seals[i] + "\n" + Lines(seals[i + 1..], "");
      written := written + seals[i];
      written := written + "\n";
    }
    assert seals[|seals|..] == [];
    assert written == CheckpointText(seals, count);
    hex := Hex(s.Mac(written));
  }
}
