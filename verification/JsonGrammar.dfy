/**
  JSON texts as RFC 8259 writes them, and what the shim's reader makes of them.

  A tree records every choice the grammar leaves open (white space, escapes), so a theorem about all trees is one
  about all texts of the grammar. Two rules are wider than the grammar's: a scalar is any word of number and letter
  characters, and a string may hold control characters.
 */
module JsonGrammar {
  import opened Bytes
  import opened ShimJson
  import Utf8

  // ---- Strings ----

  datatype Char = Raw(c: byte) | Short(c: byte) | Unicode(hex: bytes)

  predicate ValidChar(ch: Char) {
    match ch
    case Raw(c) => c != 0 && c != QUOTE && c != BACKSLASH
    case Short(c) => ShortEscape(c).Some?
    case Unicode(h) => |h| == 4 && forall i | 0 <= i < 4 :: HexDigit(h[i])
  }

  predicate ValidChars(cs: seq<Char>) {
    forall i | 0 <= i < |cs| :: ValidChar(cs[i])
  }

  function PrintChar(ch: Char): bytes {
    match ch
    case Raw(c) => [c]
    case Short(c) => [BACKSLASH, c]
    case Unicode(h) => [BACKSLASH, 'u' as int] + h
  }

  function PrintChars(cs: seq<Char>): bytes {
    if cs == [] then [] else PrintChar(cs[0]) + PrintChars(cs[1..])
  }

  /** Whether a string's first two characters are a surrogate pair (RFC 8259, section 7). */
  predicate Pair(cs: seq<Char>) {
    |cs| >= 2 && cs[0].Unicode? && cs[1].Unicode? && ValidChar(cs[0]) && ValidChar(cs[1]) &&
    HighSurrogate(Hex(cs[0].hex)) && LowSurrogate(Hex(cs[1].hex))
  }

  /** The octets a string stands for; a surrogate without its partner is encoded as it is. */
  function Decode(cs: seq<Char>): bytes {
    if cs == [] then []
    else if Pair(cs) then Utf8.Encode(Combine(Hex(cs[0].hex), Hex(cs[1].hex))) + Decode(cs[2..])
    else DecodeOne(cs[0]) + Decode(cs[1..])
  }

  function DecodeOne(ch: Char): bytes {
    if !ValidChar(ch) then [] else
    match ch
    case Raw(c) => [c]
    case Short(c) => Utf8.Encode(ShortEscape(c).value)
    case Unicode(h) => Utf8.Encode(Hex(h))
  }

  lemma PrintedHex(h: bytes, rest: bytes)
    requires |h| == 4 && forall i | 0 <= i < 4 :: HexDigit(h[i])
    ensures Hex4(h + rest) == Some(Hex(h)) && (h + rest)[4..] == rest
  {
    assert (h + rest)[..4] == h;
  }

  /** The text after a printed character does not start with `\u` unless the next character is one. */
  lemma PrintedStart(cs: seq<Char>, rest: bytes)
    requires ValidChars(cs) && rest != [] && rest[0] == QUOTE
    ensures var t := PrintChars(cs) + rest;
      |t| >= 2 && t[0] == BACKSLASH && t[1] == 'u' as int ==> cs != [] && cs[0].Unicode?
  {
    if cs != [] {
      var t := PrintChars(cs) + rest;
      assert t == PrintChar(cs[0]) + (PrintChars(cs[1..]) + rest);
    }
  }

  lemma PrintedUnicode(cs: seq<Char>, rest: bytes)
    requires cs != [] && cs[0].Unicode?
    ensures PrintChars(cs) + rest == [BACKSLASH, 'u' as int] + (cs[0].hex + (PrintChars(cs[1..]) + rest))
  {
  }

  /** A second escape, as the reader finds it in the text behind the first. */
  lemma SecondEscape(cs: seq<Char>, rest: bytes)
    requires ValidChars(cs) && cs != [] && cs[0].Unicode?
    ensures var after := PrintChars(cs) + rest;
      && |after| >= 6 && after[0] == BACKSLASH && after[1] == 'u' as int
      && Hex4(after[2..]) == Some(Hex(cs[0].hex)) && after[6..] == PrintChars(cs[1..]) + rest
  {
    hide Hex, Hex4, PrintChars;
    var after, more := PrintChars(cs) + rest, PrintChars(cs[1..]) + rest;
    assert ValidChar(cs[0]);
    PrintedUnicode(cs, rest);
    assert after[2..] == cs[0].hex + more && after[6..] == after[2..][4..];
    PrintedHex(cs[0].hex, more);
  }

  lemma UnicodeStep(cs: seq<Char>, rest: bytes)
    requires ValidChars(cs) && cs != [] && cs[0].Unicode? && rest != [] && rest[0] == QUOTE
    ensures UnicodeEscape(cs[0].hex + (PrintChars(cs[1..]) + rest)) ==
            if Pair(cs) then Some(Read(Combine(Hex(cs[0].hex), Hex(cs[1].hex)), PrintChars(cs[2..]) + rest))
            else Some(Read(Hex(cs[0].hex), PrintChars(cs[1..]) + rest))
  {
    hide Hex, Hex4, PrintChars, Combine;
    var after := PrintChars(cs[1..]) + rest;
    assert ValidChar(cs[0]);
    PrintedHex(cs[0].hex, after);
    PrintedStart(cs[1..], rest);
    if |cs| >= 2 && cs[1].Unicode? {
      assert ValidChar(cs[1]);
      SecondEscape(cs[1..], rest);
      assert cs[1..][1..] == cs[2..];
    }
  }

  lemma RawStep(c: byte, after: bytes)
    requires c != QUOTE && c != BACKSLASH
    ensures StringText([c] + after) == ShimJson.Prepend([c], StringText(after))
  {
    assert ([c] + after)[1..] == after;
  }

  lemma ShortStep(c: byte, after: bytes)
    requires ShortEscape(c).Some?
    ensures StringText([BACKSLASH, c] + after) == ShimJson.Prepend(Utf8.Encode(ShortEscape(c).value), StringText(after))
  {
    assert ([BACKSLASH, c] + after)[2..] == after;
  }

  lemma EscapeStep(x: bytes)
    requires UnicodeEscape(x).Some?
    ensures StringText([BACKSLASH, 'u' as int] + x) ==
            ShimJson.Prepend(Utf8.Encode(UnicodeEscape(x).value.value), StringText(UnicodeEscape(x).value.rest))
  {
    assert ([BACKSLASH, 'u' as int] + x)[2..] == x;
  }

  /** One step of decoding, and of reading what was printed: a surrogate pair is taken in one. */
  function Taken(cs: seq<Char>): (n: nat)
    requires cs != []
    ensures 1 <= n <= |cs|
  {
    if Pair(cs) then 2 else 1
  }

  function First(cs: seq<Char>): bytes
    requires cs != []
  {
    if Pair(cs) then Utf8.Encode(Combine(Hex(cs[0].hex), Hex(cs[1].hex))) else DecodeOne(cs[0])
  }

  lemma ReadUnicodeStep(cs: seq<Char>, rest: bytes)
    requires ValidChars(cs) && cs != [] && cs[0].Unicode? && rest != [] && rest[0] == QUOTE
    ensures StringText(PrintChars(cs) + rest) ==
            ShimJson.Prepend(First(cs), StringText(PrintChars(cs[Taken(cs)..]) + rest))
  {
    hide StringText, UnicodeEscape, Utf8.Encode, Combine, Hex, Pair, PrintChars;
    var h, after := cs[0].hex, PrintChars(cs[1..]) + rest;
    assert ValidChar(cs[0]);
    UnicodeStep(cs, rest);
    EscapeStep(h + after);
    PrintedUnicode(cs, rest);
  }

  lemma PrintedFirst(cs: seq<Char>, rest: bytes)
    requires cs != []
    ensures PrintChars(cs) + rest == PrintChar(cs[0]) + (PrintChars(cs[1..]) + rest)
  {
  }

  lemma ReadStep(cs: seq<Char>, rest: bytes)
    requires ValidChars(cs) && cs != [] && rest != [] && rest[0] == QUOTE
    ensures StringText(PrintChars(cs) + rest) ==
            ShimJson.Prepend(First(cs), StringText(PrintChars(cs[Taken(cs)..]) + rest))
  {
    hide StringText, Utf8.Encode, Hex, PrintChars;
    var after := PrintChars(cs[1..]) + rest;
    assert ValidChar(cs[0]);
    PrintedFirst(cs, rest);
    match cs[0]
    case Raw(c) =>
      RawStep(c, after);
    case Short(c) =>
      ShortStep(c, after);
    case Unicode(_) =>
      ReadUnicodeStep(cs, rest);
  }

  /** `json_string` reads a printed string to its end and yields the octets it stands for. */
  lemma {:induction false} StringReadsBack(cs: seq<Char>, rest: bytes)
    requires ValidChars(cs) && rest != [] && rest[0] == QUOTE
    ensures StringText(PrintChars(cs) + rest) == Some(Read(Decode(cs), rest[1..]))
    decreases |cs|
  {
    hide StringText, PrintChars;
    if cs == [] {
      EmptyStringReadsBack(rest);
    } else {
      ReadStep(cs, rest);
      StringReadsBack(cs[Taken(cs)..], rest);
    }
  }

  lemma EmptyStringReadsBack(rest: bytes)
    requires rest != [] && rest[0] == QUOTE
    ensures StringText(PrintChars([]) + rest) == Some(Read([], rest[1..]))
  {
    assert [] + rest == rest;
  }

  // ---- Values ----

  /** White space is kept where the grammar allows it: before and after each value, and before each colon. */
  datatype Value =
    | Text(cs: seq<Char>)
    | Word(word: bytes)
    | List(elements: seq<Element>, gap: bytes)
    | Object(members: seq<Member>, gap: bytes)

  datatype Element = Element(before: bytes, value: Value, after: bytes)

  datatype Member = Member(before: bytes, name: seq<Char>, colon: bytes, element: Element)

  predicate Spaces(s: bytes) {
    forall i | 0 <= i < |s| :: Space(s[i])
  }

  predicate WordChar(c: byte) {
    Digit(c) || 'a' as int <= c <= 'z' as int || 'A' as int <= c <= 'Z' as int ||
    c == '-' as int || c == '+' as int || c == '.' as int
  }

  predicate ValidValue(v: Value) {
    match v
    case Text(cs) => ValidChars(cs)
    case Word(w) => w != [] && forall i | 0 <= i < |w| :: WordChar(w[i])
    case List(es, gap) => Spaces(gap) && forall i | 0 <= i < |es| :: ValidElement(es[i])
    case Object(ms, gap) => Spaces(gap) && forall i | 0 <= i < |ms| :: ValidMember(ms[i])
  }

  predicate ValidElement(e: Element) {
    Spaces(e.before) && ValidValue(e.value) && Spaces(e.after)
  }

  predicate ValidMember(m: Member) {
    Spaces(m.before) && ValidChars(m.name) && Spaces(m.colon) && ValidElement(m.element)
  }

  function PrintText(cs: seq<Char>): bytes {
    [QUOTE] + (PrintChars(cs) + [QUOTE])
  }

  function PrintValue(v: Value): bytes
    decreases v, 0
  {
    match v
    case Text(cs) => PrintText(cs)
    case Word(w) => w
    case List(es, gap) => [OPEN_LIST] + ((if es == [] then gap else PrintElements(es)) + [CLOSE_LIST])
    case Object(ms, gap) => [OPEN] + (PrintBody(ms, gap) + [CLOSE])
  }

  function PrintBody(ms: seq<Member>, gap: bytes): bytes
    decreases ms, 4
  {
    if ms == [] then gap else PrintMembers(ms)
  }

  function PrintElement(e: Element): bytes
    decreases e, 1
  {
    e.before + (PrintValue(e.value) + e.after)
  }

  function PrintMember(m: Member): bytes
    decreases m, 2
  {
    m.before + (PrintText(m.name) + (m.colon + ([COLON] + PrintElement(m.element))))
  }

  function PrintElements(es: seq<Element>): bytes
    requires es != []
    decreases es, 3
  {
    if |es| == 1 then PrintElement(es[0]) else PrintElement(es[0]) + ([COMMA] + PrintElements(es[1..]))
  }

  function PrintMembers(ms: seq<Member>): bytes
    requires ms != []
    decreases ms, 3
  {
    if |ms| == 1 then PrintMember(ms[0]) else PrintMember(ms[0]) + ([COMMA] + PrintMembers(ms[1..]))
  }

  // ---- Skipping: inside brackets everything printed is passed over, and the depth comes back ----

  /** Characters the skipping loop passes over one at a time. */
  predicate Bland(c: byte) {
    c != QUOTE && c != OPEN && c != OPEN_LIST && c != CLOSE && c != CLOSE_LIST
  }

  lemma {:induction false} SkipBland(s: bytes, rest: bytes, depth: nat)
    requires forall i | 0 <= i < |s| :: Bland(s[i])
    requires depth > 0
    ensures SkipText(s + rest, depth) == SkipText(rest, depth)
  {
    if s == [] {
      assert s + rest == rest;
    } else {
      assert (s + rest)[1..] == s[1..] + rest;
      SkipBland(s[1..], rest, depth);
    }
  }

  lemma SkipPrintedText(cs: seq<Char>, rest: bytes, depth: nat)
    requires ValidChars(cs)
    ensures SkipText(PrintText(cs) + rest, depth) == SkipOn(rest, depth)
  {
    var t := PrintText(cs) + rest;
    assert t[1..] == PrintChars(cs) + ([QUOTE] + rest);
    StringReadsBack(cs, [QUOTE] + rest);
    assert ([QUOTE] + rest)[1..] == rest;
  }

  lemma {:induction false} SkipInside(v: Value, rest: bytes, depth: nat)
    requires ValidValue(v) && depth > 0
    ensures SkipText(PrintValue(v) + rest, depth) == SkipText(rest, depth)
    decreases v, 1
  {
    hide SkipText;
    match v
    case Text(cs) => SkipPrintedText(cs, rest, depth);
    case Word(w) => SkipBland(w, rest, depth);
    case List(_, _) => SkipBrackets(v, rest, depth);
    case Object(_, _) => SkipBrackets(v, rest, depth);
  }

  lemma {:induction false} SkipElement(e: Element, rest: bytes, depth: nat)
    requires ValidElement(e) && depth > 0
    ensures SkipText(PrintElement(e) + rest, depth) == SkipText(rest, depth)
    decreases e, 2
  {
    hide SkipText, PrintValue;
    var value := PrintValue(e.value);
    assert PrintElement(e) + rest == e.before + (value + (e.after + rest));
    SkipBland(e.before, value + (e.after + rest), depth);
    SkipInside(e.value, e.after + rest, depth);
    SkipBland(e.after, rest, depth);
  }

  lemma {:induction false} SkipMember(m: Member, rest: bytes, depth: nat)
    requires ValidMember(m) && depth > 0
    ensures SkipText(PrintMember(m) + rest, depth) == SkipText(rest, depth)
    decreases m, 3
  {
    hide SkipText, PrintElement, PrintText;
    var element := PrintElement(m.element) + rest;
    var name := PrintText(m.name);
    assert PrintMember(m) + rest == m.before + (name + (m.colon + ([COLON] + element)));
    SkipBland(m.before, name + (m.colon + ([COLON] + element)), depth);
    SkipPrintedText(m.name, m.colon + ([COLON] + element), depth);
    SkipBland(m.colon, [COLON] + element, depth);
    SkipBland([COLON], element, depth);
    SkipElement(m.element, rest, depth);
  }

  lemma {:induction false} SkipElements(es: seq<Element>, rest: bytes, depth: nat)
    requires es != [] && (forall i | 0 <= i < |es| :: ValidElement(es[i])) && depth > 0
    ensures SkipText(PrintElements(es) + rest, depth) == SkipText(rest, depth)
    decreases es, 4
  {
    hide SkipText, PrintElement;
    if |es| == 1 {
      SkipElement(es[0], rest, depth);
    } else {
      var more := PrintElements(es[1..]) + rest;
      assert PrintElements(es) + rest == PrintElement(es[0]) + ([COMMA] + more);
      SkipElement(es[0], [COMMA] + more, depth);
      SkipBland([COMMA], more, depth);
      SkipElements(es[1..], rest, depth);
    }
  }

  lemma {:induction false} SkipMembers(ms: seq<Member>, rest: bytes, depth: nat)
    requires ms != [] && (forall i | 0 <= i < |ms| :: ValidMember(ms[i])) && depth > 0
    ensures SkipText(PrintMembers(ms) + rest, depth) == SkipText(rest, depth)
    decreases ms, 4
  {
    hide SkipText, PrintMember;
    if |ms| == 1 {
      SkipMember(ms[0], rest, depth);
    } else {
      var more := PrintMembers(ms[1..]) + rest;
      assert PrintMembers(ms) + rest == PrintMember(ms[0]) + ([COMMA] + more);
      SkipMember(ms[0], [COMMA] + more, depth);
      SkipBland([COMMA], more, depth);
      SkipMembers(ms[1..], rest, depth);
    }
  }

  lemma OpenBracket(open: byte, inner: bytes, depth: nat)
    requires open == OPEN || open == OPEN_LIST
    ensures SkipText([open] + inner, depth) == SkipText(inner, depth + 1)
  {
    assert ([open] + inner)[1..] == inner;
  }

  lemma CloseBracket(close: byte, rest: bytes, depth: nat)
    requires close == CLOSE || close == CLOSE_LIST
    ensures SkipText([close] + rest, depth + 1) == SkipOn(rest, depth)
  {
    assert ([close] + rest)[1..] == rest;
  }

  /** From its opening to its closing bracket, a list or object takes the loop back to the depth it started with. */
  lemma {:induction false} SkipBrackets(v: Value, rest: bytes, depth: nat)
    requires ValidValue(v) && (v.List? || v.Object?)
    ensures SkipText(PrintValue(v) + rest, depth) == SkipOn(rest, depth)
    decreases v, 0
  {
    hide SkipText, SkipOn, PrintElements, PrintMembers;
    match v
    case List(es, gap) =>
      var inner := if es == [] then gap else PrintElements(es);
      assert PrintValue(v) + rest == [OPEN_LIST] + (inner + ([CLOSE_LIST] + rest));
      OpenBracket(OPEN_LIST, inner + ([CLOSE_LIST] + rest), depth);
      if es == [] {
        SkipBland(gap, [CLOSE_LIST] + rest, depth + 1);
      } else {
        SkipElements(es, [CLOSE_LIST] + rest, depth + 1);
      }
      CloseBracket(CLOSE_LIST, rest, depth);
    case Object(ms, gap) =>
      var inner := PrintBody(ms, gap);
      assert PrintValue(v) + rest == [OPEN] + (inner + ([CLOSE] + rest));
      OpenBracket(OPEN, inner + ([CLOSE] + rest), depth);
      if ms == [] {
        SkipBland(gap, [CLOSE] + rest, depth + 1);
      } else {
        SkipMembers(ms, [CLOSE] + rest, depth + 1);
      }
      CloseBracket(CLOSE, rest, depth);
  }

  // ---- Skipping a member's value stops at the delimiter after it ----

  predicate AtDelimiter(t: bytes) {
    t != [] && (t[0] == COMMA || t[0] == CLOSE)
  }

  lemma {:induction false} SkipToDelimiter(s: bytes, rest: bytes)
    requires (forall i | 0 <= i < |s| :: Bland(s[i]) && s[i] != COMMA) && AtDelimiter(rest)
    ensures SkipOn(s + rest, 0) == Some(rest)
  {
    if s == [] {
      assert s + rest == rest;
    } else {
      assert (s + rest)[1..] == s[1..] + rest;
      SkipToDelimiter(s[1..], rest);
    }
  }

  lemma SpacesAreBland(s: bytes)
    requires Spaces(s)
    ensures forall i | 0 <= i < |s| :: Bland(s[i]) && s[i] != COMMA
  {
  }

  lemma {:induction false} SkipSpaces(s: bytes, rest: bytes)
    requires Spaces(s) && (rest != [] ==> !Space(rest[0]))
    ensures SkipSpace(s + rest) == rest
  {
    if s == [] {
      assert s + rest == rest;
    } else {
      assert (s + rest)[1..] == s[1..] + rest;
      SkipSpaces(s[1..], rest);
    }
  }

  lemma PrintedValueStart(v: Value)
    requires ValidValue(v)
    ensures PrintValue(v) != [] && !Space(PrintValue(v)[0]) && PrintValue(v)[0] != COMMA && PrintValue(v)[0] != CLOSE
  {
  }

  /** `json_skip_value` lands on the comma or closing brace that follows a member's value. */
  lemma {:induction false} SkipValueLands(v: Value, after: bytes, rest: bytes)
    requires ValidValue(v) && Spaces(after) && AtDelimiter(rest)
    ensures SkipValue(PrintValue(v) + (after + rest)) == Some(rest)
  {
    hide SkipText, SkipOn;
    var t := PrintValue(v) + (after + rest);
    PrintedValueStart(v);
    SkipSpaces([], t);
    assert [] + t == t;
    SpacesAreBland(after);
    SkipToDelimiter(after, rest);
    match v
    case Text(cs) => SkipPrintedText(cs, after + rest, 0);
    case Word(w) =>
      assert t == (w + after) + rest;
      SkipToDelimiter(w + after, rest);
      SkipOnStarts(t);
    case List(_, _) => SkipBrackets(v, after + rest, 0);
    case Object(_, _) => SkipBrackets(v, after + rest, 0);
  }

  lemma SkipOnStarts(t: bytes)
    requires t != [] && t[0] != COMMA && t[0] != CLOSE
    ensures SkipOn(t, 0) == SkipText(t, 0)
  {
  }

  // ---- Looking a key up ----

  /** What `json_get` returns for a value: a string that fits, or the number a word starts with, as far as it fits. */
  function ValueOf(v: Value, size: nat): Option<bytes>
    requires size > 0
  {
    match v
    case Text(cs) => if |Decode(cs)| < size then Some(Decode(cs)) else None
    case Word(w) => if NumberText(w, size - 1) == [] then None else Some(NumberText(w, size - 1))
    case List(_, _) => None
    case Object(_, _) => None
  }

  /** The name is shorter than the code's buffer, and up to its first NUL it is the key. */
  predicate Names(m: Member, key: bytes) {
    |Decode(m.name)| < NAME_SIZE && CString(Decode(m.name)) == key
  }

  /** The value of the first member with the key. */
  function Lookup(ms: seq<Member>, key: bytes, size: nat): Option<bytes>
    requires size > 0
  {
    if ms == [] then None
    else if Names(ms[0], key) then ValueOf(ms[0].element.value, size)
    else Lookup(ms[1..], key, size)
  }

  lemma {:induction false} NumberEnds(w: bytes, rest: bytes, room: nat)
    requires rest != [] ==> !NumberChar(rest[0])
    ensures NumberText(w + rest, room) == NumberText(w, room)
  {
    if w == [] {
      assert w + rest == rest;
    } else {
      assert (w + rest)[1..] == w[1..] + rest;
      if room > 0 {
        NumberEnds(w[1..], rest, room - 1);
      }
    }
  }

  /** An integer is returned whole if the buffer has room for it, and cut to the room there is if not. */
  lemma {:induction false} IntegerIsCut(w: bytes, room: nat)
    requires forall i | 0 <= i < |w| :: NumberChar(w[i])
    ensures NumberText(w, room) == if |w| <= room then w else w[..room]
  {
    if w != [] && room > 0 {
      IntegerIsCut(w[1..], room - 1);
    }
  }

  lemma ValueReadsBack(v: Value, rest: bytes, size: nat)
    requires ValidValue(v) && size > 0 && rest != [] && (Space(rest[0]) || rest[0] == COMMA || rest[0] == CLOSE)
    ensures ValueText(PrintValue(v) + rest, size) == ValueOf(v, size)
  {
    var t := PrintValue(v) + rest;
    match v
    case Text(cs) =>
      assert t[1..] == PrintChars(cs) + ([QUOTE] + rest);
      StringReadsBack(cs, [QUOTE] + rest);
    case Word(w) =>
      NumberEnds(w, rest, size - 1);
    case List(_, _) =>
    case Object(_, _) =>
  }

  /** The loop of `json_get`, as far as the value of the next member. */
  lemma MemberStep(m: Member, rest: bytes, key: bytes, size: nat)
    requires ValidMember(m) && size > 0 && AtDelimiter(rest)
    ensures MembersText(PrintMember(m) + rest, key, size) ==
            if Names(m, key) then ValueOf(m.element.value, size)
            else if rest[0] == COMMA then MembersText(rest[1..], key, size)
            else None
  {
    hide StringText, ValueText, SkipValue, PrintValue, PrintChars, Decode, ValueOf, ValidValue, SkipSpace;
    var v, e := m.element.value, m.element;
    var value := PrintValue(v) + (e.after + rest);
    var afterColon := e.before + value;
    var afterName := m.colon + ([COLON] + afterColon);
    var chars := PrintChars(m.name) + ([QUOTE] + afterName);
    assert PrintMember(m) + rest == m.before + ([QUOTE] + chars);
    SkipSpaces(m.before, [QUOTE] + chars);
    StringReadsBack(m.name, [QUOTE] + afterName);
    SkipSpaces(m.colon, [COLON] + afterColon);
    PrintedValueStart(v);
    SkipSpaces(e.before, value);
    ValueReadsBack(v, e.after + rest, size);
    SkipValueLands(v, e.after, rest);
    SkipNoSpaces(rest);
    Behind(QUOTE, chars);
    Behind(QUOTE, afterName);
    Behind(COLON, afterColon);
    MembersTextStep(PrintMember(m) + rest, chars, Read(Decode(m.name), afterName), afterColon, key, size);
  }

  lemma Behind(c: byte, s: bytes)
    ensures ([c] + s)[0] == c && ([c] + s)[1..] == s
  {
  }

  lemma SkipNoSpaces(rest: bytes)
    requires rest != [] ==> !Space(rest[0])
    ensures SkipSpace(rest) == rest
  {
  }

  /** The loop's steps up to the value, each given by what it read. */
  lemma MembersTextStep(t: bytes, chars: bytes, name: Read<bytes>, afterColon: bytes, key: bytes, size: nat)
    requires size > 0
    requires SkipSpace(t) == [QUOTE] + chars && StringText(chars) == Some(name)
    requires SkipSpace(name.rest) == [COLON] + afterColon
    ensures MembersText(t, key, size) ==
            var v := SkipSpace(afterColon);
            if |name.value| < NAME_SIZE && CString(name.value) == key then ValueText(v, size)
            else
              match SkipValue(v)
              case None => None
              case Some(after) =>
                var d := SkipSpace(after);
                if d != [] && d[0] == COMMA then MembersText(d[1..], key, size) else None
  {
    hide StringText, ValueText, SkipValue, SkipSpace;
    Behind(QUOTE, chars);
    Behind(COLON, afterColon);
  }

  lemma {:induction false} MembersReadBack(ms: seq<Member>, rest: bytes, key: bytes, size: nat)
    requires ms != [] && (forall i | 0 <= i < |ms| :: ValidMember(ms[i])) && size > 0
    requires rest != [] && rest[0] == CLOSE
    ensures MembersText(PrintMembers(ms) + rest, key, size) == Lookup(ms, key, size)
    decreases |ms|
  {
    hide MembersText, PrintMember, Names, ValueOf;
    if |ms| == 1 {
      MemberStep(ms[0], rest, key, size);
    } else {
      var more := PrintMembers(ms[1..]) + rest;
      assert PrintMembers(ms) + rest == PrintMember(ms[0]) + ([COMMA] + more);
      assert ([COMMA] + more)[1..] == more;
      MemberStep(ms[0], [COMMA] + more, key, size);
      MembersReadBack(ms[1..], rest, key, size);
    }
  }

  /** `json_get` on any printed object is the lookup of the key in it. */
  lemma GetReadsBack(before: bytes, ms: seq<Member>, gap: bytes, rest: bytes, key: bytes, size: nat)
    requires Spaces(before) && ValidValue(Object(ms, gap)) && size > 0
    ensures GetText(before + (PrintValue(Object(ms, gap)) + rest), key, size) == Lookup(ms, key, size)
  {
    hide MembersText, PrintMembers, Names, ValueOf;
    var body := PrintBody(ms, gap) + ([CLOSE] + rest);
    assert PrintValue(Object(ms, gap)) + rest == [OPEN] + body;
    SkipSpaces(before, [OPEN] + body);
    assert ([OPEN] + body)[1..] == body;
    if ms == [] {
      NoMembers(gap, [CLOSE] + rest, key, size);
    } else {
      MembersReadBack(ms, [CLOSE] + rest, key, size);
    }
  }

  // ---- Names as the standard compares them ----

  /** The code's comparison is equality of names, except for a name cut at a NUL and for one too long for its buffer. */
  lemma NamesExactly(m: Member, key: bytes)
    requires NulFree(key)
    ensures var name := Decode(m.name);
            (Names(m, key) <==> name == key) <==>
            (|name| >= NAME_SIZE || NulFree(name) || CString(name) != key) && (name != key || |key| < NAME_SIZE)
  {
    var name := Decode(m.name);
    hide Decode;
    assert name[..|name|] == name;
    if NulFree(name) {
      CStringIsWhole(name);
    }
  }

  lemma CStringIsWhole(s: bytes)
    requires NulFree(s)
    ensures CString(s) == s
  {
    assert s[..|s|] == s;
  }

  /** The value of the first member whose name is the key. */
  function FirstNamed(ms: seq<Member>, key: bytes, size: nat): Option<bytes>
    requires size > 0
  {
    if ms == [] then None
    else if Decode(ms[0].name) == key then ValueOf(ms[0].element.value, size)
    else FirstNamed(ms[1..], key, size)
  }

  lemma {:induction false} LookupIsFirstNamed(ms: seq<Member>, key: bytes, size: nat)
    requires size > 0 && NulFree(key) && |key| < NAME_SIZE && forall m <- ms :: NulFree(Decode(m.name))
    ensures Lookup(ms, key, size) == FirstNamed(ms, key, size)
  {
    hide Decode, Names, ValueOf;
    if ms == [] {
    } else {
      NamesExactly(ms[0], key);
      LookupIsFirstNamed(ms[1..], key, size);
    }
  }

  /** For such names and keys `json_get` is the lookup of the standard's objects. */
  lemma GetIsFirstNamed(before: bytes, ms: seq<Member>, gap: bytes, rest: bytes, key: bytes, size: nat)
    requires Spaces(before) && ValidValue(Object(ms, gap)) && size > 0
    requires NulFree(key) && |key| < NAME_SIZE && forall m <- ms :: NulFree(Decode(m.name))
    ensures GetText(before + (PrintValue(Object(ms, gap)) + rest), key, size) == FirstNamed(ms, key, size)
  {
    GetReadsBack(before, ms, gap, rest, key, size);
    LookupIsFirstNamed(ms, key, size);
  }

  /** An object of one member, whose value is the number one. */
  function OneMember(name: seq<Char>): seq<Member> {
    [Member([], name, [], Element([], Word(['1' as int]), []))]
  }

  predicate Printable(key: bytes) {
    forall c <- key :: c != 0 && c != QUOTE && c != BACKSLASH
  }

  /** A name written without escapes. */
  function Unescaped(key: bytes): (cs: seq<Char>)
    ensures |cs| == |key|
  {
    seq(|key|, i requires 0 <= i < |key| => Raw(key[i]))
  }

  lemma DecodeRaw(cs: seq<Char>)
    requires cs != [] && cs[0].Raw? && ValidChar(cs[0])
    ensures Decode(cs) == [cs[0].c] + Decode(cs[1..])
  {
  }

  lemma {:induction false} UnescapedDecodes(key: bytes, more: seq<Char>)
    requires Printable(key)
    ensures Decode(Unescaped(key) + more) == key + Decode(more)
  {
    hide Decode;
    if key == [] {
      assert Unescaped(key) + more == more;
    } else {
      var cs := Unescaped(key) + more;
      assert key[0] in key && forall c <- key[1..] :: c in key;
      assert cs[0] == Raw(key[0]) && cs[1..] == Unescaped(key[1..]) + more;
      DecodeRaw(cs);
      UnescapedDecodes(key[1..], more);
      assert key == [key[0]] + key[1..];
    }
  }

  lemma OneMemberIsValid(name: seq<Char>)
    requires ValidChars(name)
    ensures ValidValue(Object(OneMember(name), []))
  {
    assert ValidMember(OneMember(name)[0]);
  }

  lemma OneReads(size: nat)
    requires size > 1
    ensures ValueOf(Word(['1' as int]), size) == Some(['1' as int])
  {
    var one: bytes := ['1' as int];
    assert one[1..] == [] && NumberText([], size - 2) == [];
    assert NumberText(one, size - 1) == one;
  }

  lemma OneMemberReads(name: seq<Char>, key: bytes, size: nat)
    requires ValidChars(name) && size > 1
    ensures GetText(PrintValue(Object(OneMember(name), [])), key, size) ==
            if Names(OneMember(name)[0], key) then Some(['1' as int]) else None
    ensures FirstNamed(OneMember(name), key, size) == if Decode(name) == key then Some(['1' as int]) else None
  {
    hide GetText, PrintValue, Names, Decode, ValueOf;
    OneReads(size);
    OneMemberIsValid(name);
    var text := PrintValue(Object(OneMember(name), []));
    assert [] + (text + []) == text;
    GetReadsBack([], OneMember(name), [], [], key, size);
  }

  const NUL_ESCAPE := Unicode(Ascii("0000"))

  lemma NulEscapeDecodes()
    ensures ValidChar(NUL_ESCAPE) && Decode([NUL_ESCAPE]) == [0]
  {
  }

  /** For every such key, a member named by the key and `\u0000` is taken for it though no name is the key. */
  lemma CutNameIsTaken(key: bytes, size: nat)
    requires Printable(key) && |key| + 1 < NAME_SIZE && size > 1
    ensures var ms := OneMember(Unescaped(key) + [NUL_ESCAPE]);
            && ValidValue(Object(ms, []))
            && GetText(PrintValue(Object(ms, [])), key, size) == Some(['1' as int])
            && FirstNamed(ms, key, size) == None
  {
    hide GetText, PrintValue, Decode;
    var name := Unescaped(key) + [NUL_ESCAPE];
    NulEscapeDecodes();
    assert forall i | 0 <= i < |key| :: key[i] in key;
    UnescapedDecodes(key, [NUL_ESCAPE]);
    OneMemberIsValid(name);
    OneMemberReads(name, key, size);
    IndexOfPrefix(key, 0, []);
    assert key + [0] + [] == key + [0];
  }

  /** And a key of 64 octets or more is never found, even if it is the only name. */
  lemma LongKeyIsMissed(key: bytes, size: nat)
    requires Printable(key) && |key| >= NAME_SIZE && size > 1
    ensures var ms := OneMember(Unescaped(key));
            && ValidValue(Object(ms, []))
            && GetText(PrintValue(Object(ms, [])), key, size) == None
            && FirstNamed(ms, key, size) == Some(['1' as int])
  {
    hide GetText, PrintValue, Decode;
    var name := Unescaped(key);
    assert forall i | 0 <= i < |key| :: key[i] in key;
    UnescapedDecodes(key, []);
    NothingDecodes();
    assert name + [] == name && key + [] == key;
    OneMemberIsValid(name);
    OneMemberReads(name, key, size);
  }

  lemma NothingDecodes()
    ensures Decode([]) == []
  {
  }

  lemma NoMembers(gap: bytes, rest: bytes, key: bytes, size: nat)
    requires Spaces(gap) && rest != [] && rest[0] == CLOSE && size > 0
    ensures MembersText(gap + rest, key, size) == None
  {
    SkipSpaces(gap, rest);
  }
}
