/** The body of `POST /v1/access-records`: what is refused, and what is stripped before sealing. */
module Requests {
  import opened Wrappers
  import opened Decimal
  import opened JsonValue
  import opened Calendar
  import opened Envelopes

  // ---- Validation ----

  datatype Refusal =
    | Required(name: string)
    | Invalid(name: string, tag: string)
    | BadRequest(description: string)

  const GDPR_ACCESS := "gdpr_access"

  const KNOWN_BASES: set<string> :=
    {"contract", "legal_obligation", "consent", "legitimate_interest", "public_task", "vital_interest"}

  const MAX_REF_BYTES: nat := 128

  /** Bytes of one code point in UTF-8; Go's `len` counts bytes. */
  function Utf8Size(c: char): nat
  {
    if c as int < 0x80 then 1 else if c as int < 0x800 then 2 else if c as int < 0x10000 then 3 else 4
  }

  function Utf8Length(s: string): nat
  {
    if s == [] then 0 else Utf8Length(s[..|s| - 1]) + Utf8Size(s[|s| - 1])
  }

  function CountDigits(s: string): nat
  {
    if s == [] then 0 else CountDigits(s[..|s| - 1]) + if IsDigit(s[|s| - 1]) then 1 else 0
  }

  /** Eleven digits and at most one dash, nothing else. */
  predicate LooksLikePersonalCode(s: string)
  {
    && (forall i :: 0 <= i < |s| ==> IsDigit(s[i]) || s[i] == '-')
    && CountDigits(s) == 11
    && |s| - 11 <= 1
  }

  predicate ValidSubjectRef(s: string)
  {
    && s != ""
    && Utf8Length(s) <= MAX_REF_BYTES
    && (forall i :: 0 <= i < |s| ==> s[i] !in "@ \t\r\n")
    && !LooksLikePersonalCode(s)
  }

  predicate AllValidRefs(subjects: seq<string>)
  {
    forall i :: 0 <= i < |subjects| ==> ValidSubjectRef(subjects[i])
  }

  function Validation(e: Envelope): Option<Refusal>
  {
    if e.eventId == "" then Some(Required("event_id"))
    else if IsZero(e.occurredAt.instant) then Some(Required("occurred_at"))
    else if e.eventType == "" then Some(Required("event_type"))
    else if e.outcome == "" then Some(Required("outcome"))
    else if GDPR_ACCESS !in e.categories then Some(BadRequest("category must include gdpr_access"))
    else if e.dataSubjects == [] then Some(Required("data_subjects"))
    else if !AllValidRefs(e.dataSubjects) then Some(Invalid("data_subjects", "pseudonymous_ref"))
    else if e.lawfulBasis != "" && e.lawfulBasis !in KNOWN_BASES then Some(Invalid("lawful_basis", "oneof"))
    else None
  }

  /** An accepted envelope is dated, categorised, and names only pseudonymous subjects. */
  lemma AcceptedMeans(e: Envelope)
    ensures Validation(e) == None
      <==> (e.eventId != "" && !IsZero(e.occurredAt.instant) && e.eventType != "" && e.outcome != ""
            && GDPR_ACCESS in e.categories && e.dataSubjects != [] && AllValidRefs(e.dataSubjects)
            && (e.lawfulBasis == "" || e.lawfulBasis in KNOWN_BASES))
  {
  }

  /** Which refusal is reported: the first failure, in this order. */
  lemma FirstRefusal(e: Envelope)
    ensures var v := Validation(e);
      var known := {"contract", "legal_obligation", "consent", "legitimate_interest", "public_task", "vital_interest"};
      && (e.eventId == "" ==> v == Some(Required("event_id")))
      && (e.eventId != "" ==>
         && (e.occurredAt.instant == 0 ==> v == Some(Required("occurred_at")))
         && (e.occurredAt.instant != 0 ==>
            && (e.eventType == "" ==> v == Some(Required("event_type")))
            && (e.eventType != "" ==>
               && (e.outcome == "" ==> v == Some(Required("outcome")))
               && (e.outcome != "" ==>
                  && ("gdpr_access" !in e.categories ==> v == Some(BadRequest("category must include gdpr_access")))
                  && ("gdpr_access" in e.categories ==>
                     && (e.dataSubjects == [] ==> v == Some(Required("data_subjects")))
                     && (e.dataSubjects != [] ==>
                        && ((exists x :: x in e.dataSubjects && !ValidSubjectRef(x))
                            ==> v == Some(Invalid("data_subjects", "pseudonymous_ref")))
                        && ((forall x :: x in e.dataSubjects ==> ValidSubjectRef(x)) ==>
                           v == if e.lawfulBasis == "" || e.lawfulBasis in known then None
                                else Some(Invalid("lawful_basis", "oneof")))))))))
  {
    hide ValidSubjectRef;
    RefsByMember(e.dataSubjects);
  }

  lemma RefsByMember(subjects: seq<string>)
    ensures AllValidRefs(subjects) <==> forall x :: x in subjects ==> ValidSubjectRef(x)
  {
    hide ValidSubjectRef;
    if AllValidRefs(subjects) {
      forall x | x in subjects ensures ValidSubjectRef(x) {
        var i :| 0 <= i < |subjects| && subjects[i] == x;
      }
    }
  }

  lemma {:induction false} BytesAddUp(s: string, size: nat)
    requires forall i :: 0 <= i < |s| ==> Utf8Size(s[i]) == size
    ensures Utf8Length(s) == size * |s|
  {
    if s != [] {
      BytesAddUp(s[..|s| - 1], size);
      assert size * |s| == size * (|s| - 1) + size;
    }
  }

  predicate AllBetween(s: string, low: int, high: int)
  {
    forall i :: 0 <= i < |s| ==> low <= s[i] as int < high
  }

  /** Bytes in UTF-8: one each in ASCII, two up to U+07FF, three up to U+FFFF, four beyond. */
  lemma BytesCounted(s: string)
    ensures AllBetween(s, 0, 0x80) ==> Utf8Length(s) == |s|
    ensures AllBetween(s, 0x80, 0x800) ==> Utf8Length(s) == 2 * |s|
    ensures AllBetween(s, 0x800, 0x10000) ==> Utf8Length(s) == 3 * |s|
    ensures AllBetween(s, 0x10000, 0x110000) ==> Utf8Length(s) == 4 * |s|
  {
    hide Utf8Length;
    if AllBetween(s, 0, 0x80) { BytesAddUp(s, 1); }
    if AllBetween(s, 0x80, 0x800) { BytesAddUp(s, 2); }
    if AllBetween(s, 0x800, 0x10000) { BytesAddUp(s, 3); }
    if AllBetween(s, 0x10000, 0x110000) { BytesAddUp(s, 4); }
  }

  /** What a reference may be: not empty, at most 128 bytes, no address sign, no white space, not a personal code. */
  lemma RefExactly(s: string)
    ensures ValidSubjectRef(s)
       <==> (s != "" && Utf8Length(s) <= 128
             && '@' !in s && ' ' !in s && '\t' !in s && '\r' !in s && '\n' !in s
             && !(|s| == 11 && AllDigits(s)) && !(|s| == 12 && exists k :: 0 <= k < 12 && DashAt(s, k)))
  {
    hide Utf8Length, DashAt, LooksLikePersonalCode;
    PersonalCodeForms(s);
    forall c: char ensures c in "@ \t\r\n" <==> c == '@' || c == ' ' || c == '\t' || c == '\r' || c == '\n' {
      var set5 := "@ \t\r\n";
      assert set5[0] == '@' && set5[1] == ' ' && set5[2] == '\t' && set5[3] == '\r' && set5[4] == '\n';
    }
  }

  lemma {:induction false} DigitsBound(s: string)
    ensures CountDigits(s) <= |s|
    ensures CountDigits(s) == |s| <==> AllDigits(s)
  {
    if s != [] {
      DigitsBound(s[..|s| - 1]);
      var front := s[..|s| - 1];
      assert forall i :: 0 <= i < |front| ==> front[i] == s[i];
    }
  }

  lemma {:induction false} DigitsAddUp(a: string, b: string)
    ensures CountDigits(a + b) == CountDigits(a) + CountDigits(b)
  {
    if b == [] {
      assert a + b == a;
    } else {
      DigitsAddUp(a, b[..|b| - 1]);
      assert (a + b)[..|a + b| - 1] == a + b[..|b| - 1];
    }
  }

  /** Digits around one dash. */
  predicate DashAt(s: string, k: nat)
  {
    k < |s| && s[k] == '-' && AllDigits(s[..k]) && AllDigits(s[k + 1..])
  }

  lemma DigitsAround(s: string, k: nat)
    requires k < |s| && s[k] == '-'
    ensures CountDigits(s) == CountDigits(s[..k]) + CountDigits(s[k + 1..])
    ensures CountDigits(s) == |s| - 1 <==> DashAt(s, k)
  {
    DashCountsNothing();
    hide CountDigits, AllDigits;
    assert s == s[..k] + ("-" + s[k + 1..]);
    DigitsAddUp(s[..k], "-" + s[k + 1..]);
    DigitsAddUp("-", s[k + 1..]);
    DigitsBound(s[..k]);
    DigitsBound(s[k + 1..]);
  }

  lemma DashCountsNothing()
    ensures CountDigits("-") == 0
  {
    assert "-"[..0] == "";
  }

  lemma DashedDigits(s: string, k: nat, i: nat)
    requires DashAt(s, k) && i < |s|
    ensures IsDigit(s[i]) || s[i] == '-'
  {
    if i < k {
      assert s[i] == s[..k][i];
    } else if i > k {
      assert s[i] == s[k + 1..][i - k - 1];
    }
  }

  /** What is flagged: eleven digits, alone or with one dash anywhere among them. */
  lemma PersonalCodeForms(s: string)
    ensures LooksLikePersonalCode(s)
       <==> (|s| == 11 && AllDigits(s)) || (|s| == 12 && exists k :: 0 <= k < 12 && DashAt(s, k))
  {
    hide CountDigits, DashAt;
    DigitsBound(s);
    if LooksLikePersonalCode(s) && |s| == 12 {
      var k :| 0 <= k < |s| && !IsDigit(s[k]);
      DigitsAround(s, k);
    }
    if |s| == 12 && exists k :: 0 <= k < 12 && DashAt(s, k) {
      var k :| 0 <= k < 12 && DashAt(s, k);
      forall i | 0 <= i < |s| ensures IsDigit(s[i]) || s[i] == '-' {
        DashedDigits(s, k, i);
      }
      DashIsThere(s, k);
      DigitsAround(s, k);
    }
  }

  lemma DashIsThere(s: string, k: nat)
    requires DashAt(s, k)
    ensures k < |s| && s[k] == '-'
  {
  }

  /** A reference that is a personal code, plain or with its dash, is never accepted. */
  lemma PersonalCodesRefused(d: string, k: nat)
    requires |d| == 11 && AllDigits(d) && k <= 11
    ensures !ValidSubjectRef(d) && !ValidSubjectRef(d[..k] + "-" + d[k..])
  {
    var s := d[..k] + "-" + d[k..];
    PersonalCodeForms(d);
    PersonalCodeForms(s);
    assert s[..k] == d[..k] && s[k + 1..] == d[k..];
    assert DashAt(s, k);
  }

  // ---- Sanitizing ----

  const MAX_VALUE_RUNES: nat := 256

  const FORBIDDEN_FRAGMENTS: seq<string> := [
    "document_bytes", "content_bytes", "file_bytes", "free_text",
    "note", "comment", "body", "payload", "email", "phone"]

  /**
   `unicode.ToLower` as far as the fragments can tell: they are ASCII, and only
   the ASCII capitals, U+0130 and U+212A have an ASCII lower case.
   */
  function LowerChar(c: char): char
  {
    if 'A' <= c <= 'Z' then c - 'A' + 'a'
    else if c as int == 0x130 then 'i'
    else if c as int == 0x212A then 'k'
    else c
  }

  function Lower(s: string): string
  {
    seq(|s|, i requires 0 <= i < |s| => LowerChar(s[i]))
  }

  predicate OccursAt(s: string, part: string, i: nat)
  {
    i + |part| <= |s| && s[i..i + |part|] == part
  }

  predicate Contains(s: string, part: string)
  {
    exists i :: 0 <= i <= |s| && OccursAt(s, part, i)
  }

  predicate Forbidden(key: string)
  {
    exists i :: 0 <= i < |FORBIDDEN_FRAGMENTS| && Contains(Lower(key), FORBIDDEN_FRAGMENTS[i])
  }

  function Truncated(v: Json): Json
  {
    if v.JStr? && |v.s| > MAX_VALUE_RUNES then JStr(v.s[..MAX_VALUE_RUNES]) else v
  }

  function SanitizedAttributes(m: map<string, Json>): map<string, Json>
  {
    map k | k in m && !Forbidden(k) :: Truncated(m[k])
  }

  function Sanitized(e: Envelope): Envelope
  {
    e.(attributes := SanitizedAttributes(e.attributes))
  }

  /** At the top level of the attributes no forbidden key is left and no string is too long. */
  predicate Clean(m: map<string, Json>)
  {
    forall k :: k in m ==> !Forbidden(k) && (m[k].JStr? ==> |m[k].s| <= MAX_VALUE_RUNES)
  }

  /** Sanitizing cleans the top level, changes nothing that is clean there, and touches nothing but the attributes. */
  lemma SanitizedIsClean(e: Envelope)
    ensures Clean(Sanitized(e).attributes)
    ensures Clean(e.attributes) ==> Sanitized(e) == e
    ensures Sanitized(Sanitized(e)) == Sanitized(e)
    ensures Validation(Sanitized(e)) == Validation(e)
  {
    hide Forbidden, AllValidRefs;
    forall m: map<string, Json> | Clean(m) ensures SanitizedAttributes(m) == m {
    }
    assert Clean(Sanitized(e).attributes);
  }

  /** The keys that are stripped are those that hold one of these, in any case of letters. */
  lemma ForbiddenExactly(key: string)
    ensures var k := Lower(key);
      (Forbidden(key)
       <==> (Contains(k, "document_bytes") || Contains(k, "content_bytes") || Contains(k, "file_bytes")
             || Contains(k, "free_text") || Contains(k, "note") || Contains(k, "comment") || Contains(k, "body")
             || Contains(k, "payload") || Contains(k, "email") || Contains(k, "phone")))
  {
    hide Contains, Lower;
    var f, k := FORBIDDEN_FRAGMENTS, Lower(key);
    assert Contains(k, f[0]) <==> Contains(k, "document_bytes");
    assert Contains(k, f[1]) <==> Contains(k, "content_bytes");
    assert Contains(k, f[2]) <==> Contains(k, "file_bytes");
    assert Contains(k, f[3]) <==> Contains(k, "free_text");
    assert Contains(k, f[4]) <==> Contains(k, "note");
    assert Contains(k, f[5]) <==> Contains(k, "comment");
    assert Contains(k, f[6]) <==> Contains(k, "body");
    assert Contains(k, f[7]) <==> Contains(k, "payload");
    assert Contains(k, f[8]) <==> Contains(k, "email");
    assert Contains(k, f[9]) <==> Contains(k, "phone");
  }

  /** Case is ignored for the letters of ASCII, and the two other letters whose lower case is one. */
  lemma LowerLooks(s: string, i: nat)
    requires i < |s|
    ensures |Lower(s)| == |s|
    ensures 'A' <= s[i] <= 'Z' ==> Lower(s)[i] as int == s[i] as int + 32
    ensures s[i] as int == 0x130 ==> Lower(s)[i] == 'i'
    ensures s[i] as int == 0x212A ==> Lower(s)[i] == 'k'
    ensures !('A' <= s[i] <= 'Z') && s[i] as int != 0x130 && s[i] as int != 0x212A ==> Lower(s)[i] == s[i]
  {
  }

  /** A part that reads as a fragment when its letters are lowered makes the whole key forbidden. */
  lemma PartForbids(a: string, part: string, b: string, i: nat)
    requires i < |FORBIDDEN_FRAGMENTS| && Lower(part) == FORBIDDEN_FRAGMENTS[i]
    ensures Forbidden(a + part + b)
  {
    hide LowerChar;
    var k := Lower(a + part + b);
    assert k[|a|..|a| + |part|] == Lower(part);
    assert OccursAt(k, FORBIDDEN_FRAGMENTS[i], |a|);
  }

  /** For example a note, an e-mail address or a phone number, within any other text. */
  lemma MixedCaseForbidden(a: string, b: string)
    ensures Forbidden(a + "NoTe" + b) && Forbidden(a + "EMAIL" + b) && Forbidden(a + "phone" + b)
    ensures Forbidden(a + "ZIP_Body" + b)
  {
    assert Lower("NoTe") == "note" && Lower("EMAIL") == "email" && Lower("phone") == "phone" && Lower("Body") == "body";
    PartForbids(a, "NoTe", b, 4);
    PartForbids(a, "EMAIL", b, 8);
    PartForbids(a, "phone", b, 9);
    PartForbids(a + "ZIP_", "Body", b, 6);
    assert a + "ZIP_" + "Body" + b == a + "ZIP_Body" + b;
  }

  /** A long string keeps its first 256 characters, every other value is kept as it is. */
  lemma LongStringsCut(e: Envelope, k: string)
    requires k in e.attributes && !Forbidden(k)
    ensures var v := e.attributes[k];
      && k in Sanitized(e).attributes
      && Sanitized(e).attributes[k] == if v.JStr? && |v.s| > 256 then JStr(v.s[..256]) else v
  {
    hide Forbidden;
  }

  /** No forbidden key and no long string, at any depth. */
  predicate DeepClean(v: Json)
    decreases v
  {
    match v
    case JStr(s) => |s| <= MAX_VALUE_RUNES
    case JArr(items) => forall i :: 0 <= i < |items| ==> DeepClean(items[i])
    case JObj(fields) => forall k :: k in fields ==> !Forbidden(k) && DeepClean(fields[k])
    case _ => true
  }

  /** Clean below the value's own top level; a string has nothing below it. */
  predicate CleanInside(v: Json)
  {
    v.JStr? || DeepClean(v)
  }

  predicate AllClean(m: map<string, Json>)
  {
    forall k :: k in m ==> !Forbidden(k) && DeepClean(m[k])
  }

  /**
   Sanitizing does not look inside nested values: its result is clean at every depth
   exactly if every value under an allowed key was clean inside to begin with.
   */
  lemma SanitizedDeepClean(e: Envelope)
    ensures AllClean(Sanitized(e).attributes)
       <==> forall k :: k in e.attributes && !Forbidden(k) ==> CleanInside(e.attributes[k])
  {
    hide Forbidden;
    var m, t := e.attributes, Sanitized(e).attributes;
    forall k | k in m && !Forbidden(k) ensures DeepClean(t[k]) <==> CleanInside(m[k]) {
      TruncatedDeepClean(m[k]);
    }
  }

  lemma TruncatedDeepClean(v: Json)
    ensures DeepClean(Truncated(v)) <==> CleanInside(v)
  {
  }

  const NESTED: map<string, Json> := map["m" := JObj(map["email" := JStr("x@y")])]

  lemma ShortKeyAllowed()
    ensures !Forbidden("m")
  {
    forall i | 0 <= i < |FORBIDDEN_FRAGMENTS| ensures !Contains(Lower("m"), FORBIDDEN_FRAGMENTS[i]) {
      assert |FORBIDDEN_FRAGMENTS[i]| >= 4;
    }
  }

  lemma EmailForbidden()
    ensures Forbidden("email")
  {
    assert Lower("email") == "email" == FORBIDDEN_FRAGMENTS[8];
    assert OccursAt(Lower("email"), FORBIDDEN_FRAGMENTS[8], 0);
  }

  /** A forbidden key inside an object is kept, with its value. */
  lemma NestedKeySurvives(e: Envelope)
    requires e.attributes == NESTED
    ensures Sanitized(e) == e && Clean(e.attributes)
    ensures Forbidden("email") && e.attributes["m"].fields["email"] == JStr("x@y")
    ensures !AllClean(Sanitized(e).attributes)
  {
    ShortKeyAllowed();
    EmailForbidden();
    hide Forbidden;
    assert Sanitized(e).attributes == e.attributes;
  }

  /** The request body; `Validate` and `Sanitize` work on the envelope it embeds. */
  class AccessRecord {
    var envelope: Envelope

    constructor (e: Envelope)
      ensures envelope == e
    {
      envelope := e;
    }

    /** `looksLikePersonalCode`, counting as it goes. */
    static method CheckPersonalCode(s: string) returns (flagged: bool)
      ensures flagged == LooksLikePersonalCode(s)
    {
      var digits, dashes := 0, 0;
      for i := 0 to |s|
        invariant digits == CountDigits(s[..i]) && digits + dashes == i
        invariant forall j :: 0 <= j < i ==> IsDigit(s[j]) || s[j] == '-'
      {
        assert s[..i + 1][..i] == s[..i];
        if IsDigit(s[i]) {
          digits := digits + 1;
        } else if s[i] == '-' {
          dashes := dashes + 1;
        } else {
          return false;
        }
      }
      assert s[..|s|] == s;
      flagged := digits == 11 && dashes <= 1;
    }

    static method CheckSubjectRef(s: string) returns (ok: bool)
      ensures ok == ValidSubjectRef(s)
    {
      if s == "" || Utf8Length(s) > MAX_REF_BYTES {
        return false;
      }
      if exists i :: 0 <= i < |s| && s[i] in "@ \t\r\n" {
        return false;
      }
      var flagged := CheckPersonalCode(s);
      ok := !flagged;
    }

    method Validate() returns (refusal: Option<Refusal>)
      ensures refusal == Validation(envelope)
    {
      hide ValidSubjectRef;
      var e := envelope;
      if e.eventId == "" { return Some(Required("event_id")); }
      if IsZero(e.occurredAt.instant) { return Some(Required("occurred_at")); }
      if e.eventType == "" { return Some(Required("event_type")); }
      if e.outcome == "" { return Some(Required("outcome")); }
      if GDPR_ACCESS !in e.categories { return Some(BadRequest("category must include gdpr_access")); }
      if e.dataSubjects == [] { return Some(Required("data_subjects")); }
      for i := 0 to |e.dataSubjects|
        invariant AllValidRefs(e.dataSubjects[..i])
      {
        var ok := CheckSubjectRef(e.dataSubjects[i]);
        if !ok {
          return Some(Invalid("data_subjects", "pseudonymous_ref"));
        }
      }
      assert e.dataSubjects[..|e.dataSubjects|] == e.dataSubjects;
      if e.lawfulBasis != "" && e.lawfulBasis !in KNOWN_BASES {
        return Some(Invalid("lawful_basis", "oneof"));
      }
      refusal := None;
    }

    /** Two passes over the attributes: one deletes keys, the other shortens strings. */
    method Sanitize()
      modifies this
      ensures envelope == Sanitized(old(envelope))
    {
      hide Forbidden;
      var original := envelope.attributes;
      if |original| == 0 {
        assert original == map[] && SanitizedAttributes(original) == map[];
        return;
      }
      var attributes := original;
      var todo := original.Keys;
      while todo != {}
        invariant envelope == old(envelope) && todo <= original.Keys
        invariant attributes == map k | k in original && (k in todo || !Forbidden(k)) :: original[k]
      {
        var k :| k in todo;
        todo := todo - {k};
        var forbidden := HasFragment(k);
        if forbidden {
          attributes := attributes - {k};
        }
      }
      ghost var allowed := attributes;
      todo := attributes.Keys;
      while todo != {}
        invariant envelope == old(envelope) && todo <= allowed.Keys
        invariant attributes == map k | k in allowed :: if k in todo then original[k] else Truncated(original[k])
      {
        var k :| k in todo;
        todo := todo - {k};
        attributes := attributes[k := Truncated(attributes[k])];
      }
      assert attributes == SanitizedAttributes(original);
      envelope := envelope.(attributes := attributes);
    }

    static method HasFragment(key: string) returns (found: bool)
      ensures found == Forbidden(key)
    {
      var lower := Lower(key);
      for i := 0 to |FORBIDDEN_FRAGMENTS|
        invariant forall j :: 0 <= j < i ==> !Contains(lower, FORBIDDEN_FRAGMENTS[j])
      {
        if Contains(lower, FORBIDDEN_FRAGMENTS[i]) {
          return true;
        }
      }
      found := false;
    }
  }
}
