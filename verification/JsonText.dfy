/**
  Objects as any serialiser of RFC 8259 writes them, octet by octet, and what `json_get` returns for them.

  The printer here shares nothing with the reader: escapes, digits, brackets and white space are the standard's own
  numbers.
 */
module JsonText {
  import opened Bytes
  import opened Utf8
  import opened ShimJson
  import opened JsonGrammar
  import Decimal

  // ---- The printer ----

  /** How a character of a string is written: as itself if the standard allows that, or escaped. */
  datatype Form = Plain | Letter | Escape(upper: bool)

  function HexOctet(d: int, upper: bool): byte
    requires 0 <= d < 16
  {
    if d < 10 then 0x30 + d else (if upper then 0x41 else 0x61) + d - 10
  }

  function FourDigits(code: int, upper: bool): (h: bytes)
    requires 0 <= code < 0x1_0000
    ensures |h| == 4
  {
    [HexOctet(code / 0x1000, upper), HexOctet(code / 0x100 % 0x10, upper), HexOctet(code / 0x10 % 0x10, upper),
     HexOctet(code % 0x10, upper)]
  }

  function UEscape(code: int, upper: bool): bytes
    requires 0 <= code < 0x1_0000
  {
    [0x5C, 0x75] + FourDigits(code, upper)
  }

  /** Section 7 of RFC 8259: quotation mark, backslash and control characters must be escaped. */
  function Written(cp: int, f: Form): bytes
    requires Scalar(cp)
  {
    if f.Escape? && cp >= 0x1_0000 then
      UEscape(0xD800 + (cp - 0x1_0000) / 0x400, f.upper) + UEscape(0xDC00 + (cp - 0x1_0000) % 0x400, f.upper)
    else if f.Escape? then UEscape(cp, f.upper)
    else if cp == 0x22 then [0x5C, 0x22]
    else if cp == 0x5C then [0x5C, 0x5C]
    else if cp == 0x2F && f.Letter? then [0x5C, 0x2F]
    else if cp == 0x08 then [0x5C, 0x62]
    else if cp == 0x0C then [0x5C, 0x66]
    else if cp == 0x0A then [0x5C, 0x6E]
    else if cp == 0x0D then [0x5C, 0x72]
    else if cp == 0x09 then [0x5C, 0x74]
    else if cp < 0x20 then UEscape(cp, false)
    else Encode(cp)
  }

  datatype Character = Character(cp: int, form: Form)

  predicate IsText(text: seq<Character>) {
    forall i | 0 <= i < |text| :: Scalar(text[i].cp)
  }

  function WrittenAll(text: seq<Character>): bytes
    requires IsText(text)
  {
    if text == [] then [] else Written(text[0].cp, text[0].form) + WrittenAll(text[1..])
  }

  /** The text itself, in UTF-8. */
  function Octets(text: seq<Character>): bytes
    requires IsText(text)
  {
    if text == [] then [] else Encode(text[0].cp) + Octets(text[1..])
  }

  datatype Item = String(text: seq<Character>) | Whole(n: int)

  datatype Pair = Pair(name: seq<Character>, item: Item)

  predicate IsItem(i: Item) {
    i.String? ==> IsText(i.text)
  }

  predicate IsPair(p: Pair) {
    IsText(p.name) && IsItem(p.item)
  }

  predicate ArePairs(ps: seq<Pair>) {
    forall i | 0 <= i < |ps| :: IsPair(ps[i])
  }

  function Numeral(n: int): bytes {
    if n < 0 then [0x2D] + Decimal.Print(-n) else Decimal.Print(n)
  }

  function ItemText(i: Item): bytes
    requires IsItem(i)
  {
    match i
    case String(text) => [0x22] + (WrittenAll(text) + [0x22])
    case Whole(n) => Numeral(n)
  }

  /** White space is allowed around every token; `w` is what stands there. */
  function PairText(p: Pair, w: bytes): bytes
    requires IsPair(p)
  {
    w + (([0x22] + (WrittenAll(p.name) + [0x22])) + (w + ([0x3A] + (w + (ItemText(p.item) + w)))))
  }

  function PairsText(ps: seq<Pair>, w: bytes): bytes
    requires ps != [] && ArePairs(ps)
  {
    if |ps| == 1 then PairText(ps[0], w) else PairText(ps[0], w) + ([0x2C] + PairsText(ps[1..], w))
  }

  function ObjectText(ps: seq<Pair>, w: bytes): bytes
    requires ArePairs(ps)
  {
    [0x7B] + ((if ps == [] then w else PairsText(ps, w)) + [0x7D])
  }

  predicate White(w: bytes) {
    forall i | 0 <= i < |w| :: w[i] == 0x20 || w[i] == 0x09 || w[i] == 0x0A || w[i] == 0x0D
  }

  /** What a lookup should return: the first pair's text or number, as text; a number is cut to what fits. */
  function Answer(ps: seq<Pair>, key: bytes, size: nat): Option<bytes>
    requires size > 0 && ArePairs(ps)
  {
    if ps == [] then None
    else if Octets(ps[0].name) != key then Answer(ps[1..], key, size)
    else
      match ps[0].item
      case String(text) => if |Octets(text)| < size then Some(Octets(text)) else None
      case Whole(n) =>
        if size == 1 then None
        else Some(if |Numeral(n)| < size then Numeral(n) else Numeral(n)[..size - 1])
  }

  // ---- Digits and escapes ----

  /** The four digits of every code, in either case, are read as that code. */
  lemma DigitsRead(code: int, upper: bool, rest: bytes)
    requires 0 <= code < 0x1_0000
    ensures Hex4(FourDigits(code, upper) + rest) == Some(code)
  {
    var h := FourDigits(code, upper);
    assert (h + rest)[..4] == h;
    assert forall i | 0 <= i < 4 :: (h + rest)[i] == h[i];
    DigitsAreHex(code, upper);
  }

  lemma DigitRead(d: int, upper: bool)
    requires 0 <= d < 16
    ensures HexDigit(HexOctet(d, upper)) && HexValue(HexOctet(d, upper)) == d
  {
  }

  lemma DigitsAreHex(code: int, upper: bool)
    requires 0 <= code < 0x1_0000
    ensures (forall i | 0 <= i < 4 :: HexDigit(FourDigits(code, upper)[i])) && Hex(FourDigits(code, upper)) == code
  {
    hide HexOctet, HexDigit, HexValue;
    DigitRead(code / 0x1000, upper);
    DigitRead(code / 0x100 % 0x10, upper);
    DigitRead(code / 0x10 % 0x10, upper);
    DigitRead(code % 0x10, upper);
    assert code == code / 0x10 * 0x10 + code % 0x10;
    assert code / 0x10 == code / 0x100 * 0x10 + code / 0x10 % 0x10;
    assert code / 0x100 == code / 0x1000 * 0x10 + code / 0x100 % 0x10;
  }

  /** The letters after a backslash, and there are no others. */
  lemma EscapeLetters(c: byte)
    ensures ShortEscape(c) ==
            if c == 0x22 || c == 0x5C || c == 0x2F then Some(c)
            else if c == 0x62 then Some(0x08)
            else if c == 0x66 then Some(0x0C)
            else if c == 0x6E then Some(0x0A)
            else if c == 0x72 then Some(0x0D)
            else if c == 0x74 then Some(0x09)
            else None
  {
  }

  // ---- Characters ----

  /** The grammar's reading of a letter as it is written. */
  function CharsOf(cp: int, f: Form): seq<Char>
    requires Scalar(cp)
  {
    if f.Escape? && cp >= 0x1_0000 then
      [Unicode(FourDigits(0xD800 + (cp - 0x1_0000) / 0x400, f.upper)),
       Unicode(FourDigits(0xDC00 + (cp - 0x1_0000) % 0x400, f.upper))]
    else if f.Escape? then [Unicode(FourDigits(cp, f.upper))]
    else if cp == 0x22 then [Short(0x22)]
    else if cp == 0x5C then [Short(0x5C)]
    else if cp == 0x2F && f.Letter? then [Short(0x2F)]
    else if cp == 0x08 then [Short(0x62)]
    else if cp == 0x0C then [Short(0x66)]
    else if cp == 0x0A then [Short(0x6E)]
    else if cp == 0x0D then [Short(0x72)]
    else if cp == 0x09 then [Short(0x74)]
    else if cp < 0x20 then [Unicode(FourDigits(cp, false))]
    else Unescaped(Encode(cp))
  }

  lemma {:induction false} PrintedRaw(s: bytes)
    ensures PrintChars(Unescaped(s)) == s
  {
    if s == [] {
    } else {
      assert Unescaped(s)[1..] == Unescaped(s[1..]);
      PrintedRaw(s[1..]);
      assert s == [s[0]] + s[1..];
    }
  }

  lemma {:induction false} PrintedJoin(a: seq<Char>, b: seq<Char>)
    ensures PrintChars(a + b) == PrintChars(a) + PrintChars(b)
  {
    if a == [] {
      assert a + b == b;
    } else {
      assert (a + b)[1..] == a[1..] + b;
      PrintedJoin(a[1..], b);
    }
  }

  lemma PrintedOne(ch: Char)
    ensures PrintChars([ch]) == PrintChar(ch)
  {
    assert [ch][1..] == [];
    assert PrintChar(ch) + [] == PrintChar(ch);
  }

  lemma PrintedLetter(cp: int, f: Form)
    requires Scalar(cp)
    ensures PrintChars(CharsOf(cp, f)) == Written(cp, f)
  {
    hide Encode, FourDigits;
    var cs := CharsOf(cp, f);
    if |cs| == 1 && !cs[0].Raw? {
      PrintedOne(cs[0]);
    } else if cs != [] && cs[0].Unicode? {
      assert cs == [cs[0]] + [cs[1]];
      PrintedJoin([cs[0]], [cs[1]]);
      PrintedOne(cs[0]);
      PrintedOne(cs[1]);
    } else {
      PrintedRaw(Encode(cp));
    }
  }

  lemma EncodedIsPrintable(cp: int)
    requires Scalar(cp) && cp >= 0x20 && cp != 0x22 && cp != 0x5C
    ensures Printable(Encode(cp))
  {
  }

  /** The grammar's characters decode to the letter, whatever follows. */
  lemma LetterDecodes(cp: int, f: Form, more: seq<Char>)
    requires Scalar(cp)
    ensures ValidChars(CharsOf(cp, f)) && Decode(CharsOf(cp, f) + more) == Encode(cp) + Decode(more)
  {
    hide Encode, FourDigits, Decode, Hex;
    var cs := CharsOf(cp, f);
    if f.Escape? && cp >= 0x1_0000 {
      var high, low := 0xD800 + (cp - 0x1_0000) / 0x400, 0xDC00 + (cp - 0x1_0000) % 0x400;
      DigitsAreHex(high, f.upper);
      DigitsAreHex(low, f.upper);
      DecodePair(cs + more);
      assert (cs + more)[2..] == more;
      assert Combine(high, low) == cp;
    } else if f.Escape? || (cp < 0x20 && cs[0].Unicode?) {
      DigitsAreHex(cp, f.Escape? && f.upper);
      DecodeSingle(cs + more);
      assert (cs + more)[1..] == more;
    } else if cs != [] && cs[0].Short? {
      DecodeSingle(cs + more);
      assert (cs + more)[1..] == more;
    } else {
      EncodedIsPrintable(cp);
      UnescapedDecodes(Encode(cp), more);
      assert forall i | 0 <= i < |Encode(cp)| :: Encode(cp)[i] in Encode(cp);
    }
  }

  lemma DecodePair(cs: seq<Char>)
    requires JsonGrammar.Pair(cs)
    ensures Decode(cs) == Encode(Combine(Hex(cs[0].hex), Hex(cs[1].hex))) + Decode(cs[2..])
  {
  }

  lemma DecodeSingle(cs: seq<Char>)
    requires cs != [] && ValidChar(cs[0]) && (cs[0].Unicode? ==> !HighSurrogate(Hex(cs[0].hex)))
    ensures Decode(cs) == DecodeOne(cs[0]) + Decode(cs[1..])
  {
  }

  function AllChars(text: seq<Character>): seq<Char>
    requires IsText(text)
  {
    if text == [] then [] else CharsOf(text[0].cp, text[0].form) + AllChars(text[1..])
  }

  lemma {:induction false} TextAsChars(text: seq<Character>)
    requires IsText(text)
    ensures ValidChars(AllChars(text)) && PrintChars(AllChars(text)) == WrittenAll(text)
    ensures Decode(AllChars(text)) == Octets(text)
  {
    hide Written, CharsOf, Decode, Encode, ValidChar;
    if text == [] {
      NothingDecodes();
    } else {
      var c, more := text[0], AllChars(text[1..]);
      TextAsChars(text[1..]);
      PrintedLetter(c.cp, c.form);
      PrintedJoin(CharsOf(c.cp, c.form), more);
      LetterDecodes(c.cp, c.form, more);
    }
  }

  // ---- Objects ----

  lemma {:induction false} DigitsOnly(n: nat)
    ensures forall c <- Decimal.Print(n) :: 0x30 <= c <= 0x39
  {
    if n >= 10 {
      DigitsOnly(n / 10);
    } else {
    }
  }

  lemma NumeralIsWord(n: int)
    ensures Numeral(n) != [] && forall i | 0 <= i < |Numeral(n)| :: NumberChar(Numeral(n)[i]) && WordChar(Numeral(n)[i])
  {
    DigitsOnly(if n < 0 then -n else n);
    assert forall i | 0 <= i < |Numeral(n)| :: Numeral(n)[i] in Numeral(n);
    assert n < 0 ==> forall c <- Numeral(n) :: c == 0x2D || c in Decimal.Print(-n);
  }

  function ValueFor(i: Item): Value
    requires IsItem(i)
  {
    match i
    case String(text) => Text(AllChars(text))
    case Whole(n) => Word(Numeral(n))
  }

  function MemberFor(p: Pair, w: bytes): Member
    requires IsPair(p)
  {
    Member(w, AllChars(p.name), w, Element(w, ValueFor(p.item), w))
  }

  function MembersFor(ps: seq<Pair>, w: bytes): (ms: seq<Member>)
    requires ArePairs(ps)
    ensures |ms| == |ps|
  {
    if ps == [] then [] else [MemberFor(ps[0], w)] + MembersFor(ps[1..], w)
  }

  lemma WhiteIsSpaces(w: bytes)
    requires White(w)
    ensures Spaces(w)
  {
  }

  lemma ItemAsValue(i: Item)
    requires IsItem(i)
    ensures ValidValue(ValueFor(i)) && PrintValue(ValueFor(i)) == ItemText(i)
  {
    hide WrittenAll, AllChars, ValidChar, Numeral;
    match i
    case String(text) =>
      TextAsChars(text);
    case Whole(n) =>
      NumeralIsWord(n);
  }

  lemma PairAsMember(p: Pair, w: bytes)
    requires IsPair(p) && White(w)
    ensures ValidMember(MemberFor(p, w)) && PrintMember(MemberFor(p, w)) == PairText(p, w)
    ensures Decode(MemberFor(p, w).name) == Octets(p.name)
  {
    hide WrittenAll, AllChars, ValidChars, PrintChars, ItemText, ValueFor, ValidValue, PrintValue, Decode, Spaces;
    hide White;
    WhiteIsSpaces(w);
    TextAsChars(p.name);
    ItemAsValue(p.item);
  }

  lemma {:induction false} PairsAsMembers(ps: seq<Pair>, w: bytes)
    requires ArePairs(ps) && White(w)
    ensures forall i | 0 <= i < |ps| :: ValidMember(MembersFor(ps, w)[i])
    ensures ps != [] ==> PrintMembers(MembersFor(ps, w)) == PairsText(ps, w)
  {
    hide ValidMember, PairText, PrintMember, White, IsPair, MemberFor;
    if ps == [] {
    } else {
      PairAsMember(ps[0], w);
      PairsAsMembers(ps[1..], w);
      assert MembersFor(ps, w)[1..] == MembersFor(ps[1..], w);
    }
  }

  lemma ObjectAsValue(ps: seq<Pair>, w: bytes)
    requires ArePairs(ps) && White(w)
    ensures ValidValue(Object(MembersFor(ps, w), w)) && PrintValue(Object(MembersFor(ps, w), w)) == ObjectText(ps, w)
  {
    hide PrintMembers, PairsText, ValidMember, White;
    PairsAsMembers(ps, w);
    WhiteIsSpaces(w);
  }

  lemma WholeValue(n: int, size: nat)
    requires size > 0
    ensures ValueOf(Word(Numeral(n)), size) ==
            if size == 1 then None else Some(if |Numeral(n)| < size then Numeral(n) else Numeral(n)[..size - 1])
  {
    hide Numeral;
    NumeralIsWord(n);
    IntegerIsCut(Numeral(n), size - 1);
  }

  lemma {:induction false} AnswerIsFirstNamed(ps: seq<Pair>, w: bytes, key: bytes, size: nat)
    requires ArePairs(ps) && White(w) && size > 0
    ensures FirstNamed(MembersFor(ps, w), key, size) == Answer(ps, key, size)
  {
    hide Octets, Decode, Numeral, White, AllChars;
    if ps == [] {
    } else {
      PairAsMember(ps[0], w);
      match ps[0].item {
        case String(text) =>
          TextAsChars(text);
        case Whole(n) =>
          WholeValue(n, size);
      }
      assert MembersFor(ps, w)[1..] == MembersFor(ps[1..], w);
      AnswerIsFirstNamed(ps[1..], w, key, size);
    }
  }

  lemma {:induction false} NamesAreNulFree(ps: seq<Pair>, w: bytes)
    requires ArePairs(ps) && White(w) && forall p <- ps :: NulFree(Octets(p.name))
    ensures forall m <- MembersFor(ps, w) :: NulFree(Decode(m.name))
  {
    hide Octets, Decode, NulFree, White, MemberFor;
    if ps == [] {
    } else {
      PairAsMember(ps[0], w);
      NamesAreNulFree(ps[1..], w);
    }
  }

  /**
    `json_get` reads what any serialiser writes: every text in every way of escaping it, every integer, with any white
    space around every token.
   */
  lemma WrittenObjectIsRead(ps: seq<Pair>, w: bytes, rest: bytes, key: bytes, size: nat)
    requires ArePairs(ps) && White(w) && size > 0
    requires NulFree(key) && |key| < 64 && forall p <- ps :: NulFree(Octets(p.name))
    ensures GetText(w + (ObjectText(ps, w) + rest), key, size) == Answer(ps, key, size)
  {
    hide GetText, ObjectText, PrintValue, FirstNamed, Answer, ValidValue, NulFree, White, Decode, Octets;
    ObjectAsValue(ps, w);
    WhiteIsSpaces(w);
    NamesAreNulFree(ps, w);
    GetIsFirstNamed(w, MembersFor(ps, w), w, rest, key, size);
    AnswerIsFirstNamed(ps, w, key, size);
  }
}
