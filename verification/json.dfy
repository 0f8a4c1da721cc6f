/**
 JSON texts as Go's `encoding/json` writes and reads them (RFC 8259).

 A `Doc` is a text's syntax tree: it keeps the order of object members. A `Json`
 is what a text means to Go's `any`: objects are maps. Numbers are kept as the
 tokens `encoding/json` prints for them; that a printed number is read back as
 the same number is assumed, not proved.
 */
module JsonText {
  import opened Wrappers

  predicate IsNumberChar(c: char)
  {
    '0' <= c <= '9' || c == '-' || c == '+' || c == '.' || c == 'e' || c == 'E'
  }

  predicate IsNumber(s: string)
  {
    && s != []
    && (s[0] == '-' || '0' <= s[0] <= '9')
    && forall i :: 0 <= i < |s| ==> IsNumberChar(s[i])
  }

  type Number = s: string | IsNumber(s) witness "0"

  datatype Doc =
    | Null
    | Bool(b: bool)
    | Num(n: Number)
    | Str(s: string)
    | Arr(items: seq<Doc>)
    | Obj(members: seq<Member>)

  datatype Member = Member(key: string, value: Doc)

  // ---- Writing ----
  // Every writer takes the text that follows what it writes.

  function HexDigit(d: nat): char
    requires d < 16
  {
    if d < 10 then '0' + d as char else 'a' + (d - 10) as char
  }

  function HexEscape(a: nat, b: nat, c: nat, d: nat, tail: string): string
    requires a < 16 && b < 16 && c < 16 && d < 16
  {
    ['\\', 'u', HexDigit(a), HexDigit(b), HexDigit(c), HexDigit(d)] + tail
  }

  function UnicodeEscape(n: nat, tail: string): (r: string)
    requires n < 0x10000
    ensures |r| == 6 + |tail| && r[0] == '\\' && r[1] == 'u'
  {
    HexEscape(n / 4096, n / 256 % 16, n / 16 % 16, n % 16, tail)
  }

  /** The letter after the backslash, for characters that have one. */
  function ShortEscape(c: char): Option<char>
  {
    if c == '"' || c == '\\' then Some(c)
    else if c == '\n' then Some('n')
    else if c == '\r' then Some('r')
    else if c == '\t' then Some('t')
    else if c as int == 8 then Some('b')
    else if c as int == 12 then Some('f')
    else None
  }

  predicate NeedsUnicode(c: char)
  {
    c as int < 32 || c == '<' || c == '>' || c == '&' || c as int == 0x2028 || c as int == 0x2029
  }

  /** Section 7 of RFC 8259 asks for quotes, backslashes and controls; Go adds the HTML characters. */
  function WriteChar(c: char, tail: string): string
  {
    if ShortEscape(c).Some? then ['\\', ShortEscape(c).value] + tail
    else if NeedsUnicode(c) then UnicodeEscape(c as int, tail)
    else [c] + tail
  }

  function WriteChars(s: string, tail: string): string
  {
    if s == [] then tail else WriteChar(s[0], WriteChars(s[1..], tail))
  }

  function WriteString(s: string, tail: string): string
  {
    ['"'] + WriteChars(s, ['"'] + tail)
  }

  /**
   The text of a document; `gap` is the white space after commas and colons, none
   in Go's own output and a blank in that of a JSONB column.
   */
  function Write(d: Doc, gap: string, tail: string): string
    decreases d
  {
    match d
    case Null => "null" + tail
    case Bool(b) => (if b then "true" else "false") + tail
    case Num(n) => n + tail
    case Str(s) => WriteString(s, tail)
    case Arr(items) => if items == [] then "[]" + tail else "[" + WriteItems(items, gap, tail)
    case Obj(members) => if members == [] then "{}" + tail else "{" + WriteMembers(members, gap, tail)
  }

  function WriteItems(items: seq<Doc>, gap: string, tail: string): string
    requires items != []
    decreases items
  {
    var rest := if |items| == 1 then "]" + tail else "," + (gap + WriteItems(items[1..], gap, tail));
    Write(items[0], gap, rest)
  }

  function WriteMembers(members: seq<Member>, gap: string, tail: string): string
    requires members != []
    decreases members
  {
    var rest := if |members| == 1 then "}" + tail else "," + (gap + WriteMembers(members[1..], gap, tail));
    WriteString(members[0].key, ":" + (gap + Write(members[0].value, gap, rest)))
  }

  // ---- What the text looks like ----

  /** Printable ASCII that JSON text shows as it is. */
  predicate IsPlain(c: char)
  {
    ' ' <= c <= '~' && c != '"' && c != '\\' && c != '<' && c != '>' && c != '&'
  }

  lemma {:induction false} PlainChars(s: string, tail: string)
    requires forall i :: 0 <= i < |s| ==> IsPlain(s[i])
    ensures WriteChars(s, tail) == s + tail
  {
    if s == [] {
      assert s + tail == tail;
    } else {
      PlainChars(s[1..], tail);
      assert [s[0]] + (s[1..] + tail) == s + tail;
    }
  }

  /** Plain text stands between quotes. */
  lemma PlainText(s: string, tail: string)
    requires forall i :: 0 <= i < |s| ==> IsPlain(s[i])
    ensures WriteString(s, tail) == "\"" + s + "\"" + tail
  {
    PlainChars(s, ['"'] + tail);
  }

  /** The short escapes, as section 7 of RFC 8259 lists them. */
  lemma EscapesLook(tail: string)
    ensures WriteChar('"', tail) == "\\\"" + tail && WriteChar('\\', tail) == "\\\\" + tail
    ensures WriteChar('\n', tail) == "\\n" + tail && WriteChar('\r', tail) == "\\r" + tail
    ensures WriteChar('\t', tail) == "\\t" + tail
    ensures WriteChar(8 as char, tail) == "\\b" + tail && WriteChar(12 as char, tail) == "\\f" + tail
  {
  }

  predicate HasShortEscape(c: char)
  {
    c == '"' || c == '\\' || c == '\n' || c == '\r' || c == '\t' || c as int == 8 || c as int == 12
  }

  /**
   The other characters: controls, the HTML characters and the two line separators that
   Go escapes are written as four hexadecimal digits, and every other one as it is.
   */
  lemma OthersLook(c: char, tail: string)
    requires !HasShortEscape(c)
    ensures var n := c as int;
      if n < 0x20 || c == '<' || c == '>' || c == '&' || n == 0x2028 || n == 0x2029
      then WriteChar(c, tail)
           == ['\\', 'u', HexDigit(n / 4096), HexDigit(n / 256 % 16), HexDigit(n / 16 % 16), HexDigit(n % 16)] + tail
      else WriteChar(c, tail) == [c] + tail
  {
  }

  /** Digits of either case are read. */
  lemma HexDigitsRead(d: nat)
    requires d < 6
    ensures HexValue('a' + d as char) == Some(10 + d) && HexValue('A' + d as char) == Some(10 + d)
    ensures HexValue('0' + d as char) == Some(d) && HexValue('4' + d as char) == Some(4 + d)
  {
  }

  /** A solidus may be escaped, and any character outside the surrogates as four hexadecimal digits. */
  lemma OtherEscapesRead(a: char, b: char, c: char, d: char, tail: string)
    ensures ReadChar(['\\', '/'] + tail) == Some(('/', tail))
    ensures HexValue(a).Some? && HexValue(b).Some? && HexValue(c).Some? && HexValue(d).Some? ==>
      var n := 4096 * HexValue(a).value + 256 * HexValue(b).value + 16 * HexValue(c).value + HexValue(d).value;
      ReadChar(['\\', 'u', a, b, c, d] + tail)
      == if n < 0xD800 || 0xE000 <= n < 0x10000 then Some((n as char, tail)) else None
  {
    hide HexValue;
    var s := ['\\', 'u', a, b, c, d] + tail;
    assert s[1..][1..] == [a, b, c, d] + tail && s[1..][1..][4..] == tail;
    assert (['\\', '/'] + tail)[1..] == ['/'] + tail && (['/'] + tail)[1..] == tail;
  }

  lemma OneMember(k: string, v: Doc, gap: string, tail: string)
    ensures WriteMembers([Member(k, v)], gap, tail) == WriteString(k, ":" + (gap + Write(v, gap, "}" + tail)))
  {
    hide WriteString;
  }

  lemma MoreMembers(k: string, v: Doc, rest: seq<Member>, gap: string, tail: string)
    requires rest != []
    ensures WriteMembers([Member(k, v)] + rest, gap, tail)
         == WriteString(k, ":" + (gap + Write(v, gap, "," + (gap + WriteMembers(rest, gap, tail)))))
  {
    hide WriteString;
    assert ([Member(k, v)] + rest)[1..] == rest;
  }

  lemma OneItem(v: Doc, gap: string, tail: string)
    ensures WriteItems([v], gap, tail) == Write(v, gap, "]" + tail)
  {
  }

  lemma MoreItems(v: Doc, rest: seq<Doc>, gap: string, tail: string)
    requires rest != []
    ensures WriteItems([v] + rest, gap, tail) == Write(v, gap, "," + (gap + WriteItems(rest, gap, tail)))
  {
    assert ([v] + rest)[1..] == rest;
  }

  // ---- Reading ----

  predicate IsSpace(c: char)
  {
    c == ' ' || c == '\t' || c == '\r' || c == '\n'
  }

  predicate AllSpace(s: string)
  {
    forall i :: 0 <= i < |s| ==> IsSpace(s[i])
  }

  function SkipSpace(s: string): (r: string)
    ensures |r| <= |s|
  {
    if s != [] && IsSpace(s[0]) then SkipSpace(s[1..]) else s
  }

  function HexValue(c: char): Option<nat>
  {
    if '0' <= c <= '9' then Some((c - '0') as nat)
    else if 'a' <= c <= 'f' then Some((c - 'a') as nat + 10)
    else if 'A' <= c <= 'F' then Some((c - 'A') as nat + 10)
    else None
  }

  /** Four hex digits. Surrogate halves, which Go never writes, are not read. */
  function ReadUnicode(s: string): (r: Option<(char, string)>)
    ensures r.Some? ==> |r.value.1| < |s|
  {
    if |s| < 4 then None
    else
      var a :- HexValue(s[0]);
      var b :- HexValue(s[1]);
      var c :- HexValue(s[2]);
      var d :- HexValue(s[3]);
      var n := 4096 * a + 256 * b + 16 * c + d;
      if 0xD800 <= n < 0xE000 || n >= 0x10000 then None else Some((n as char, s[4..]))
  }

  function ReadEscape(s: string): (r: Option<(char, string)>)
    ensures r.Some? ==> |r.value.1| < |s|
  {
    if s == [] then None
    else if s[0] == '"' || s[0] == '\\' || s[0] == '/' then Some((s[0], s[1..]))
    else if s[0] == 'n' then Some(('\n', s[1..]))
    else if s[0] == 'r' then Some(('\r', s[1..]))
    else if s[0] == 't' then Some(('\t', s[1..]))
    else if s[0] == 'b' then Some((8 as char, s[1..]))
    else if s[0] == 'f' then Some((12 as char, s[1..]))
    else if s[0] == 'u' then ReadUnicode(s[1..])
    else None
  }

  /** One character of a string; controls must have been escaped. */
  function ReadChar(s: string): (r: Option<(char, string)>)
    ensures r.Some? ==> |r.value.1| < |s|
  {
    if s == [] || s[0] as int < 32 then None
    else if s[0] == '\\' then ReadEscape(s[1..])
    else Some((s[0], s[1..]))
  }

  /** The rest of a string whose opening quote has been read. */
  function ReadChars(s: string): (r: Option<(string, string)>)
    ensures r.Some? ==> |r.value.1| < |s|
    decreases |s|
  {
    if s == [] then None
    else if s[0] == '"' then Some(("", s[1..]))
    else
      var (c, s0) :- ReadChar(s);
      var (cs, rest) :- ReadChars(s0);
      Some(([c] + cs, rest))
  }

  function ReadNumber(s: string): (r: (string, string))
    ensures s == r.0 + r.1
    ensures forall i :: 0 <= i < |r.0| ==> IsNumberChar(r.0[i])
    ensures s != [] && IsNumberChar(s[0]) ==> r.0 != [] && r.0[0] == s[0]
  {
    if s == [] || !IsNumberChar(s[0]) then ([], s)
    else
      var (n, rest) := ReadNumber(s[1..]);
      assert s == [s[0]] + s[1..];
      ([s[0]] + n, rest)
  }

  function ReadWord(s: string, w: string): (r: Option<string>)
    requires w != []
    ensures r.Some? ==> |r.value| < |s|
  {
    if |s| >= |w| && s[..|w|] == w then Some(s[|w|..]) else None
  }

  function Read(s: string): (r: Option<(Doc, string)>)
    ensures r.Some? ==> |r.value.1| < |s|
    decreases |s|, 0
  {
    if s == [] then None
    else if s[0] == 'n' then
      var rest :- ReadWord(s, "null");
      Some((Null, rest))
    else if s[0] == 't' then
      var rest :- ReadWord(s, "true");
      Some((Bool(true), rest))
    else if s[0] == 'f' then
      var rest :- ReadWord(s, "false");
      Some((Bool(false), rest))
    else if s[0] == '"' then
      var (str, rest) :- ReadChars(s[1..]);
      Some((Str(str), rest))
    else if s[0] == '[' then
      var s0 := SkipSpace(s[1..]);
      if s0 != [] && s0[0] == ']' then Some((Arr([]), s0[1..]))
      else
        var (items, rest) :- ReadItems(s0);
        Some((Arr(items), rest))
    else if s[0] == '{' then
      var s0 := SkipSpace(s[1..]);
      if s0 != [] && s0[0] == '}' then Some((Obj([]), s0[1..]))
      else
        var (members, rest) :- ReadMembers(s0);
        Some((Obj(members), rest))
    else if s[0] == '-' || '0' <= s[0] <= '9' then
      var (n, rest) := ReadNumber(s);
      Some((Num(n), rest))
    else None
  }

  function ReadItems(s: string): (r: Option<(seq<Doc>, string)>)
    ensures r.Some? ==> |r.value.1| < |s|
    decreases |s|, 1
  {
    var (d, s0) :- Read(s);
    var s1 := SkipSpace(s0);
    if s1 == [] then None
    else if s1[0] == ']' then Some(([d], s1[1..]))
    else if s1[0] == ',' then
      var (ds, rest) :- ReadItems(SkipSpace(s1[1..]));
      Some(([d] + ds, rest))
    else None
  }

  function ReadMember(s: string): (r: Option<(Member, string)>)
    ensures r.Some? ==> |r.value.1| < |s|
    decreases |s|, 1
  {
    if s == [] || s[0] != '"' then None
    else
      var (key, s0) :- ReadChars(s[1..]);
      var s1 := SkipSpace(s0);
      if s1 == [] || s1[0] != ':' then None
      else
        var (d, rest) :- Read(SkipSpace(s1[1..]));
        Some((Member(key, d), rest))
  }

  function ReadMembers(s: string): (r: Option<(seq<Member>, string)>)
    ensures r.Some? ==> |r.value.1| < |s|
    decreases |s|, 2
  {
    var (m, s0) :- ReadMember(s);
    var s1 := SkipSpace(s0);
    if s1 == [] then None
    else if s1[0] == '}' then Some(([m], s1[1..]))
    else if s1[0] == ',' then
      var (ms, rest) :- ReadMembers(SkipSpace(s1[1..]));
      Some(([m] + ms, rest))
    else None
  }

  /** A whole text: one document and nothing after it but white space. */
  function Parse(s: string): Option<Doc>
  {
    var (d, rest) :- Read(SkipSpace(s));
    if SkipSpace(rest) == [] then Some(d) else None
  }

  // ---- Reading what was written ----

  lemma HexRoundTrip(d: nat)
    requires d < 16
    ensures HexValue(HexDigit(d)) == Some(d)
  {
  }

  lemma ReadHexEscape(a: nat, b: nat, c: nat, d: nat, tail: string)
    requires a < 16 && b < 16 && c < 16 && d < 16
    requires 4096 * a + 256 * b + 16 * c + d < 0xD800
    ensures ReadUnicode(HexEscape(a, b, c, d, tail)[2..]) == Some(((4096 * a + 256 * b + 16 * c + d) as char, tail))
  {
    HexRoundTrip(a);
    HexRoundTrip(b);
    HexRoundTrip(c);
    HexRoundTrip(d);
    hide HexDigit, HexValue;
    assert HexEscape(a, b, c, d, tail)[2..][4..] == tail;
  }

  lemma Nibbles(n: nat)
    ensures 4096 * (n / 4096) + 256 * (n / 256 % 16) + 16 * (n / 16 % 16) + n % 16 == n
  {
    var p := n / 16;
    var q := p / 16;
    assert q == n / 256 && q / 16 == n / 4096;
    assert n == 16 * p + n % 16 && p == 16 * q + p % 16 && q == 16 * (q / 16) + q % 16;
  }

  lemma ReadUnicodeEscape(n: nat, tail: string)
    requires n < 0xD800
    ensures ReadUnicode(UnicodeEscape(n, tail)[2..]) == Some((n as char, tail))
  {
    hide ReadUnicode, HexEscape;
    Nibbles(n);
    ReadHexEscape(n / 4096, n / 256 % 16, n / 16 % 16, n % 16, tail);
  }

  lemma ReadCharWritten(c: char, tail: string)
    ensures WriteChar(c, tail) != [] && WriteChar(c, tail)[0] != '"'
    ensures ReadChar(WriteChar(c, tail)) == Some((c, tail))
  {
    hide ReadUnicode, UnicodeEscape;
    var s := WriteChar(c, tail);
    if ShortEscape(c).Some? {
      assert s[1..][1..] == tail;
    } else if NeedsUnicode(c) {
      ReadUnicodeEscape(c as int, tail);
      assert s[1..][1..] == s[2..];
    } else {
      assert s[1..] == tail;
    }
  }

  lemma {:induction false} ReadCharsWritten(s: string, tail: string)
    ensures ReadChars(WriteChars(s, ['"'] + tail)) == Some((s, tail))
  {
    if s == [] {
      assert (['"'] + tail)[1..] == tail;
    } else {
      ReadCharsWritten(s[1..], tail);
      ReadCharWritten(s[0], WriteChars(s[1..], ['"'] + tail));
      assert s == [s[0]] + s[1..];
    }
  }

  lemma {:induction false} ReadNumberWritten(n: string, tail: string)
    requires forall i :: 0 <= i < |n| ==> IsNumberChar(n[i])
    requires tail == [] || !IsNumberChar(tail[0])
    ensures ReadNumber(n + tail) == (n, tail)
  {
    if n == [] {
      assert n + tail == tail;
    } else {
      assert (n + tail)[1..] == n[1..] + tail && (n + tail)[0] == n[0];
      ReadNumberWritten(n[1..], tail);
      assert [n[0]] + n[1..] == n;
    }
  }

  lemma {:induction false} SkipGap(gap: string, s: string)
    requires AllSpace(gap) && (s == [] || !IsSpace(s[0]))
    ensures SkipSpace(gap + s) == s
  {
    if gap == [] {
      assert gap + s == s;
    } else {
      assert (gap + s)[1..] == gap[1..] + s;
      SkipGap(gap[1..], s);
    }
  }

  /** A document's text starts with neither white space nor the end of a list. */
  lemma WriteStarts(d: Doc, gap: string, tail: string)
    ensures var s := Write(d, gap, tail); s != [] && !IsSpace(s[0]) && s[0] != ']'
  {
  }

  lemma WriteItemsStarts(items: seq<Doc>, gap: string, tail: string)
    requires items != []
    ensures var s := WriteItems(items, gap, tail); s != [] && !IsSpace(s[0]) && s[0] != ']'
  {
    var rest := if |items| == 1 then "]" + tail else "," + (gap + WriteItems(items[1..], gap, tail));
    WriteStarts(items[0], gap, rest);
  }

  lemma ReadWordWritten(w: string, tail: string)
    requires w != []
    ensures ReadWord(w + tail, w) == Some(tail)
  {
    assert (w + tail)[..|w|] == w && (w + tail)[|w|..] == tail;
  }

  lemma ReadAtom(d: Doc, gap: string, tail: string)
    requires d.Null? || d.Bool? || d.Num? || d.Str?
    requires tail == [] || !IsNumberChar(tail[0])
    ensures Read(Write(d, gap, tail)) == Some((d, tail))
  {
    hide ReadItems, ReadMembers, ReadNumber, ReadChars, WriteChars;
    match d
    case Null => ReadWordWritten("null", tail);
    case Bool(b) => ReadWordWritten(if b then "true" else "false", tail);
    case Num(n) =>
      ReadNumberWritten(n, tail);
      assert (n + tail)[0] == n[0];
    case Str(s) =>
      ReadCharsWritten(s, tail);
      assert WriteString(s, tail)[1..] == WriteChars(s, ['"'] + tail);
  }

  lemma ReadEmpty(tail: string)
    ensures Read("[]" + tail) == Some((Arr([]), tail))
    ensures Read("{}" + tail) == Some((Obj([]), tail))
  {
    hide ReadItems, ReadMembers;
    assert ("[]" + tail)[1..] == "]" + tail && ("]" + tail)[1..] == tail;
    assert ("{}" + tail)[1..] == "}" + tail && ("}" + tail)[1..] == tail;
  }

  lemma ReadBrackets(s: string, items: seq<Doc>, tail: string)
    requires ReadItems(s) == Some((items, tail)) && s != [] && !IsSpace(s[0]) && s[0] != ']'
    ensures Read("[" + s) == Some((Arr(items), tail))
  {
    hide ReadItems, ReadMembers;
    assert ("[" + s)[1..] == s;
  }

  lemma ReadBraces(s: string, members: seq<Member>, tail: string)
    requires ReadMembers(s) == Some((members, tail)) && s != [] && s[0] == '"'
    ensures Read("{" + s) == Some((Obj(members), tail))
  {
    hide ReadItems, ReadMembers;
    assert ("{" + s)[1..] == s;
  }

  /** Reading undoes writing, whatever white space separates the parts. */
  lemma {:induction false} ReadWritten(d: Doc, gap: string, tail: string)
    requires AllSpace(gap) && (tail == [] || !IsNumberChar(tail[0]))
    ensures Read(Write(d, gap, tail)) == Some((d, tail))
    decreases d
  {
    hide Read, ReadItems, ReadMembers, AllSpace;
    match d {
      case Arr(items) =>
        if items == [] {
          ReadEmpty(tail);
        } else {
          ReadItemsWritten(items, gap, tail);
          WriteItemsStarts(items, gap, tail);
          hide WriteItems;
          ReadBrackets(WriteItems(items, gap, tail), items, tail);
        }
      case Obj(members) =>
        if members == [] {
          ReadEmpty(tail);
        } else {
          ReadMembersWritten(members, gap, tail);
          ReadBraces(WriteMembers(members, gap, tail), members, tail);
        }
      case _ => ReadAtom(d, gap, tail);
    }
  }

  lemma {:induction false} ReadItemsWritten(items: seq<Doc>, gap: string, tail: string)
    requires AllSpace(gap) && items != []
    ensures ReadItems(WriteItems(items, gap, tail)) == Some((items, tail))
    decreases items
  {
    hide Read, Write, AllSpace;
    if |items| == 1 {
      ReadWritten(items[0], gap, "]" + tail);
      assert ("]" + tail)[1..] == tail;
      assert items == [items[0]];
    } else {
      var more := WriteItems(items[1..], gap, tail);
      ReadWritten(items[0], gap, "," + (gap + more));
      ReadItemsWritten(items[1..], gap, tail);
      WriteItemsStarts(items[1..], gap, tail);
      SkipGap(gap, more);
      assert ("," + (gap + more))[1..] == gap + more;
      assert items == [items[0]] + items[1..];
    }
  }

  lemma {:induction false} ReadMemberWritten(m: Member, gap: string, tail: string)
    requires AllSpace(gap) && (tail == [] || !IsNumberChar(tail[0]))
    ensures ReadMember(WriteString(m.key, ":" + (gap + Write(m.value, gap, tail)))) == Some((m, tail))
    decreases m, 0
  {
    hide Read, Write, WriteChars, ReadChars, AllSpace;
    var text := Write(m.value, gap, tail);
    ReadCharsWritten(m.key, ":" + (gap + text));
    ReadWritten(m.value, gap, tail);
    WriteStarts(m.value, gap, tail);
    SkipGap(gap, text);
    assert (":" + (gap + text))[1..] == gap + text;
    var s := WriteString(m.key, ":" + (gap + text));
    assert s[1..] == WriteChars(m.key, ['"'] + (":" + (gap + text)));
  }

  lemma ReadMembersStep(s: string, m: Member, more: string, ms: seq<Member>, tail: string)
    requires ReadMember(s) == Some((m, "," + more)) && ReadMembers(SkipSpace(more)) == Some((ms, tail))
    ensures ReadMembers(s) == Some(([m] + ms, tail))
  {
    hide ReadMember;
    assert ("," + more)[1..] == more;
  }

  lemma ReadMembersEnd(s: string, m: Member, tail: string)
    requires ReadMember(s) == Some((m, "}" + tail))
    ensures ReadMembers(s) == Some(([m], tail))
  {
    hide ReadMember;
    assert ("}" + tail)[1..] == tail;
  }

  lemma {:induction false} ReadMembersWritten(members: seq<Member>, gap: string, tail: string)
    requires AllSpace(gap) && members != []
    ensures ReadMembers(WriteMembers(members, gap, tail)) == Some((members, tail))
    decreases members
  {
    hide Read, ReadMember, ReadMembers, Write, WriteChars, AllSpace;
    var s := WriteMembers(members, gap, tail);
    if |members| == 1 {
      ReadMemberWritten(members[0], gap, "}" + tail);
      ReadMembersEnd(s, members[0], tail);
      assert members == [members[0]];
    } else {
      var more := WriteMembers(members[1..], gap, tail);
      ReadMemberWritten(members[0], gap, "," + (gap + more));
      ReadMembersWritten(members[1..], gap, tail);
      SkipGap(gap, more);
      ReadMembersStep(s, members[0], gap + more, members[1..], tail);
      assert members == [members[0]] + members[1..];
    }
  }

  lemma ParseWritten(d: Doc, gap: string)
    requires AllSpace(gap)
    ensures Parse(Write(d, gap, "")) == Some(d)
  {
    ReadWritten(d, gap, "");
    WriteStarts(d, gap, "");
  }

  /** Go's own texts are equal only for equal documents. */
  lemma WriteInjective(a: Doc, b: Doc)
    requires Write(a, "", "") == Write(b, "", "")
    ensures a == b
  {
    ParseWritten(a, "");
    ParseWritten(b, "");
  }
}
