/**
  The platform shim's JSON reader (compat/riftlift-platform-shim.c, `json_string`, `json_skip_value`, `json_get`).

  A C pointer into a string is modelled by the text from there to the terminator. `StringText`, `SkipText` and
  `GetText` are what the code does on any text; the methods are its loops.
 */
module ShimJson {
  import opened Bytes
  import Utf8

  const QUOTE: byte := '"' as int
  const BACKSLASH: byte := '\\' as int
  const COMMA: byte := ',' as int
  const COLON: byte := ':' as int
  const OPEN: byte := '{' as int
  const CLOSE: byte := '}' as int
  const OPEN_LIST: byte := '[' as int
  const CLOSE_LIST: byte := ']' as int
  const NAME_SIZE: nat := 64

  predicate Space(c: byte) {
    c == 0x20 || c == 0x09 || c == 0x0D || c == 0x0A
  }

  predicate Digit(c: byte) {
    '0' as int <= c <= '9' as int
  }

  predicate HexDigit(c: byte) {
    Digit(c) || 'a' as int <= c <= 'f' as int || 'A' as int <= c <= 'F' as int
  }

  function HexValue(c: byte): (v: nat)
    requires HexDigit(c)
    ensures v < 16
  {
    if Digit(c) then c - '0' as int
    else if 'a' as int <= c then c - 'a' as int + 10
    else c - 'A' as int + 10
  }

  function Hex(h: bytes): (v: nat)
    requires |h| == 4 && forall i | 0 <= i < 4 :: HexDigit(h[i])
    ensures v < 0x1_0000
  {
    ((HexValue(h[0]) * 16 + HexValue(h[1])) * 16 + HexValue(h[2])) * 16 + HexValue(h[3])
  }

  // ---- What the code reads ----

  /** A result and the text after it; `None` where the code gives up. */
  datatype Read<+T> = Read(value: T, rest: bytes)

  function SkipSpace(t: bytes): (rest: bytes)
    ensures |rest| <= |t| && (rest != [] ==> !Space(rest[0]))
  {
    if t != [] && Space(t[0]) then SkipSpace(t[1..]) else t
  }

  /** Four hexadecimal digits. (`strtoul` also takes some texts outside the grammar.) */
  function Hex4(t: bytes): Option<nat> {
    if |t| >= 4 && (forall i | 0 <= i < 4 :: HexDigit(t[i])) then Some(Hex(t[..4])) else None
  }

  /** The character an escape of one letter stands for. */
  function ShortEscape(c: byte): Option<byte> {
    if c == QUOTE || c == BACKSLASH || c == '/' as int then Some(c)
    else if c == 'b' as int then Some(0x08)
    else if c == 'f' as int then Some(0x0C)
    else if c == 'n' as int then Some(0x0A)
    else if c == 'r' as int then Some(0x0D)
    else if c == 't' as int then Some(0x09)
    else None
  }

  predicate HighSurrogate(code: nat) {
    0xD800 <= code < 0xDC00
  }

  predicate LowSurrogate(code: nat) {
    0xDC00 <= code < 0xE000
  }

  function Combine(high: nat, low: nat): (code: nat)
    requires HighSurrogate(high) && LowSurrogate(low)
    ensures 0x1_0000 <= code < 0x11_0000
  {
    0x1_0000 + (high - 0xD800) * 0x400 + (low - 0xDC00)
  }

  /** The code point of a `\u` escape, `t` being the text after the `u`; the second of a surrogate pair is taken too. */
  function UnicodeEscape(t: bytes): (r: Option<Read<nat>>)
    ensures r.Some? ==> |r.value.rest| < |t| && r.value.value < 0x11_0000
  {
    match Hex4(t)
    case None => None
    case Some(code) =>
      var rest := t[4..];
      if HighSurrogate(code) && |rest| >= 2 && rest[0] == BACKSLASH && rest[1] == 'u' as int then
        match Hex4(rest[2..])
        case Some(low) =>
          if LowSurrogate(low) then Some(Read(Combine(code, low), rest[6..])) else Some(Read(code, rest))
        case None => Some(Read(code, rest))
      else Some(Read(code, rest))
  }

  /** The decoded octets of a string, of which `t` is the text after the opening quote. */
  function StringText(t: bytes): (r: Option<Read<bytes>>)
    ensures r.Some? ==> |r.value.rest| < |t|
  {
    if t == [] then None
    else if t[0] == QUOTE then Some(Read([], t[1..]))
    else if t[0] != BACKSLASH then Prepend([t[0]], StringText(t[1..]))
    else if |t| < 2 then None
    else if t[1] == 'u' as int then
      match UnicodeEscape(t[2..])
      case None => None
      case Some(u) => Prepend(Utf8.Encode(u.value), StringText(u.rest))
    else
      match ShortEscape(t[1])
      case None => None
      case Some(c) => Prepend(Utf8.Encode(c), StringText(t[2..]))
  }

  function Prepend(s: bytes, r: Option<Read<bytes>>): Option<Read<bytes>> {
    match r
    case None => None
    case Some(x) => Some(Read(s + x.value, x.rest))
  }

  /** The loop of `json_skip_value`: one turn of its body. */
  function SkipText(t: bytes, depth: nat): (r: Option<bytes>)
    ensures r.Some? ==> |r.value| <= |t|
    decreases |t|, 1
  {
    if t == [] then None
    else if t[0] == QUOTE then
      match StringText(t[1..])
      case None => None
      case Some(s) => SkipOn(s.rest, depth)
    else if t[0] == OPEN || t[0] == OPEN_LIST then SkipOn(t[1..], depth + 1)
    else if t[0] == CLOSE || t[0] == CLOSE_LIST then if depth == 0 then Some(t) else SkipOn(t[1..], depth - 1)
    else if depth == 0 && t[0] == COMMA then Some(t)
    else SkipOn(t[1..], depth)
  }

  /** Its condition: it goes on inside brackets and up to a comma or closing brace outside them. */
  function SkipOn(t: bytes, depth: nat): (r: Option<bytes>)
    ensures r.Some? ==> |r.value| <= |t|
    decreases |t|, 2
  {
    if depth > 0 || (t != [] && t[0] != COMMA && t[0] != CLOSE) then SkipText(t, depth) else Some(t)
  }

  function SkipValue(t: bytes): (r: Option<bytes>)
    ensures r.Some? ==> |r.value| <= |t|
  {
    SkipText(SkipSpace(t), 0)
  }

  function CString(s: bytes): bytes {
    s[..IndexOf(s, 0)]
  }

  predicate NumberChar(c: byte) {
    c == '-' as int || Digit(c)
  }

  /** The characters of a number, as many as fit. */
  function NumberText(t: bytes, room: nat): (s: bytes)
    ensures |s| <= room
  {
    if t == [] || !NumberChar(t[0]) || room == 0 then [] else [t[0]] + NumberText(t[1..], room - 1)
  }

  /** The value at `t` as text, if it is a string or a number that `size` has room for. */
  function ValueText(t: bytes, size: nat): Option<bytes>
    requires size > 0
  {
    if t != [] && t[0] == QUOTE then
      match StringText(t[1..])
      case Some(s) => if |s.value| < size then Some(s.value) else None
      case None => None
    else
      var n := NumberText(t, size - 1);
      if n == [] then None else Some(n)
  }

  /** `json_get`'s loop, at a member (or the end) of the object. */
  function MembersText(t: bytes, key: bytes, size: nat): Option<bytes>
    requires size > 0
    decreases |t|
  {
    var q := SkipSpace(t);
    if q == [] || q[0] != QUOTE then None else
      match StringText(q[1..])
      case None => None
      case Some(name) =>
        var c := SkipSpace(name.rest);
        if c == [] || c[0] != COLON then None else
          var v := SkipSpace(c[1..]);
          if |name.value| < NAME_SIZE && CString(name.value) == key then ValueText(v, size)
          else
            match SkipValue(v)
            case None => None
            case Some(after) =>
              var d := SkipSpace(after);
              if d != [] && d[0] == COMMA then MembersText(d[1..], key, size) else None
  }

  function GetText(json: bytes, key: bytes, size: nat): Option<bytes>
    requires size > 0
  {
    var t := SkipSpace(json);
    if t == [] || t[0] != OPEN then None else MembersText(t[1..], key, size)
  }
}
