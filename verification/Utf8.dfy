/** UTF-8 as RFC 3629 defines it (section 3). */
module Utf8 {
  import opened Bytes

  predicate CodePoint(cp: int) {
    0 <= cp < 0x11_0000
  }

  /** Code points that are not surrogates. */
  predicate Scalar(cp: int) {
    CodePoint(cp) && !(0xD800 <= cp < 0xE000)
  }

  /** The octets of a code point, as `put_utf8` (compat/riftlift-platform-shim.c) computes them. */
  function Encode(cp: int): (s: bytes)
    requires CodePoint(cp)
    ensures 1 <= |s| <= 4
  {
    if cp < 0x80 then [cp]
    else if cp < 0x800 then [0xC0 + cp / 0x40, 0x80 + cp % 0x40]
    else if cp < 0x1_0000 then [0xE0 + cp / 0x1000, 0x80 + cp / 0x40 % 0x40, 0x80 + cp % 0x40]
    else [0xF0 + cp / 0x4_0000, 0x80 + cp / 0x1000 % 0x40, 0x80 + cp / 0x40 % 0x40, 0x80 + cp % 0x40]
  }

  predicate Tail(c: byte) {
    0x80 <= c < 0xC0
  }

  /** The ABNF of RFC 3629, section 4: which octets form one scalar value. */
  predicate IsSequence(s: bytes) {
    match |s|
    case 1 => s[0] < 0x80
    case 2 => 0xC2 <= s[0] < 0xE0 && Tail(s[1])
    case 3 =>
      && Tail(s[1]) && Tail(s[2]) && 0xE0 <= s[0] < 0xF0
      && (s[0] == 0xE0 ==> s[1] >= 0xA0) && (s[0] == 0xED ==> s[1] < 0xA0)
    case 4 =>
      && Tail(s[1]) && Tail(s[2]) && Tail(s[3]) && 0xF0 <= s[0] < 0xF5
      && (s[0] == 0xF0 ==> s[1] >= 0x90) && (s[0] == 0xF4 ==> s[1] < 0x90)
    case _ => false
  }

  /** The number in a sequence's free bits. */
  function Payload(s: bytes): int {
    match |s|
    case 1 => s[0]
    case 2 => Join(s[0] as int - 0xC0, s[1])
    case 3 => Join(Join(s[0] as int - 0xE0, s[1]), s[2])
    case 4 => Join(Join(Join(s[0] as int - 0xF0, s[1]), s[2]), s[3])
    case _ => -1
  }

  function Join(high: int, tail: byte): int {
    high * 0x40 + (tail as int - 0x80)
  }

  lemma Shifts(cp: int)
    requires cp >= 0
    ensures cp / 0x1000 == cp / 0x40 / 0x40
    ensures cp / 0x4_0000 == cp / 0x40 / 0x40 / 0x40
  {
  }

  /** Encoding yields a sequence of the standard, and exactly one, for every scalar value. */
  lemma EncodeIsUtf8(cp: int)
    requires Scalar(cp)
    ensures IsSequence(Encode(cp)) && Payload(Encode(cp)) == cp
  {
    Shifts(cp);
    var a, b, c := cp / 0x40, cp / 0x40 / 0x40, cp / 0x40 / 0x40 / 0x40;
    assert cp == a * 0x40 + cp % 0x40 && a == b * 0x40 + a % 0x40 && b == c * 0x40 + b % 0x40;
  }

  lemma JoinParts(high: int, tail: byte)
    requires high >= 0 && Tail(tail)
    ensures Join(high, tail) / 0x40 == high && Join(high, tail) % 0x40 == tail as int - 0x80
  {
  }

  lemma SequenceIsEncoded(s: bytes)
    requires IsSequence(s)
    ensures Scalar(Payload(s)) && Encode(Payload(s)) == s
  {
    Shifts(Payload(s));
    if |s| == 2 {
      JoinParts(s[0] as int - 0xC0, s[1]);
    } else if |s| == 3 {
      var high := s[0] as int - 0xE0;
      JoinParts(high, s[1]);
      JoinParts(Join(high, s[1]), s[2]);
    } else if |s| == 4 {
      var high := s[0] as int - 0xF0;
      JoinParts(high, s[1]);
      JoinParts(Join(high, s[1]), s[2]);
      JoinParts(Join(Join(high, s[1]), s[2]), s[3]);
    }
  }

  predicate AllScalars(cps: seq<int>) {
    forall i | 0 <= i < |cps| :: Scalar(cps[i])
  }

  function EncodeAll(cps: seq<int>): bytes
    requires AllScalars(cps)
  {
    if cps == [] then [] else Encode(cps[0]) + EncodeAll(cps[1..])
  }
}
