/**
  Library search (src/common/search.cpp): the comparable words of a text, and whether a query's words occur in a title.

  The functions follow the program octet by octet; `WordPoints` says the same about the scalar values of valid UTF-8.
 */
module Search {
  import opened Bytes
  import opened Utf8

  // The plain lowercase spellings of the letters from U+00C0 to U+024F: the program's table, by runs of equal entries.

  function LatinLetter(cp: int): (plain: Option<char>)
    ensures plain.Some? ==> 0xC0 <= cp < 0x250 && 'a' <= plain.value <= 'z'
  {
    if
      || 0xC0 <= cp <= 0xC5 || 0xE0 <= cp <= 0xE5 || 0x100 <= cp <= 0x105 || 0x1CD <= cp <= 0x1CE
      || 0x1DE <= cp <= 0x1E1 || 0x1FA <= cp <= 0x1FB || 0x200 <= cp <= 0x203 || 0x226 <= cp <= 0x227
    then Some('a')
    else if cp == 0xC7 || cp == 0xE7 || 0x106 <= cp <= 0x10D then Some('c')
    else if
      || 0xC8 <= cp <= 0xCB || 0xE8 <= cp <= 0xEB || 0x112 <= cp <= 0x11B
      || 0x204 <= cp <= 0x207 || 0x228 <= cp <= 0x229
    then Some('e')
    else if
      || 0xCC <= cp <= 0xCF || 0xEC <= cp <= 0xEF || 0x128 <= cp <= 0x130
      || 0x1CF <= cp <= 0x1D0 || 0x208 <= cp <= 0x20B
    then Some('i')
    else if cp == 0xD1 || cp == 0xF1 || 0x143 <= cp <= 0x148 || 0x1F8 <= cp <= 0x1F9 then Some('n')
    else if
      || 0xD2 <= cp <= 0xD6 || cp == 0xD8 || 0xF2 <= cp <= 0xF6 || cp == 0xF8 || 0x14C <= cp <= 0x151
      || 0x1A0 <= cp <= 0x1A1 || 0x1D1 <= cp <= 0x1D2 || 0x1EA <= cp <= 0x1ED
      || 0x20C <= cp <= 0x20F || 0x22A <= cp <= 0x231
    then Some('o')
    else if
      || 0xD9 <= cp <= 0xDC || 0xF9 <= cp <= 0xFC || 0x168 <= cp <= 0x173
      || 0x1AF <= cp <= 0x1B0 || 0x1D3 <= cp <= 0x1DC || 0x214 <= cp <= 0x217
    then Some('u')
    else if cp == 0xDD || cp == 0xFD || cp == 0xFF || 0x176 <= cp <= 0x178 || 0x232 <= cp <= 0x233 then Some('y')
    else if 0x10E <= cp <= 0x111 then Some('d')
    else if 0x11C <= cp <= 0x123 || 0x1E6 <= cp <= 0x1E7 || 0x1F4 <= cp <= 0x1F5 then Some('g')
    else if 0x124 <= cp <= 0x125 || 0x21E <= cp <= 0x21F then Some('h')
    else if 0x134 <= cp <= 0x135 || cp == 0x1F0 then Some('j')
    else if 0x136 <= cp <= 0x137 || 0x1E8 <= cp <= 0x1E9 then Some('k')
    else if 0x139 <= cp <= 0x13E || 0x141 <= cp <= 0x142 then Some('l')
    else if 0x154 <= cp <= 0x159 || 0x210 <= cp <= 0x213 then Some('r')
    else if 0x15A <= cp <= 0x161 || cp == 0x17F || 0x218 <= cp <= 0x219 then Some('s')
    else if 0x162 <= cp <= 0x165 || 0x21A <= cp <= 0x21B then Some('t')
    else if 0x174 <= cp <= 0x175 then Some('w')
    else if 0x179 <= cp <= 0x17E then Some('z')
    else None
  }

  function LatinPair(cp: int): (plain: Option<(char, char)>)
    ensures plain.Some? ==> 0xC0 <= cp < 0x250 && 'a' <= plain.value.0 <= 'z' && 'a' <= plain.value.1 <= 'z'
  {
    if cp == 0xC6 || cp == 0xE6 then Some(('a', 'e'))
    else if cp == 0xDF then Some(('s', 's'))
    else if 0x132 <= cp <= 0x133 then Some(('i', 'j'))
    else if 0x152 <= cp <= 0x153 then Some(('o', 'e'))
    else if 0x1C4 <= cp <= 0x1C6 || 0x1F1 <= cp <= 0x1F3 then Some(('d', 'z'))
    else if 0x1C7 <= cp <= 0x1C9 then Some(('l', 'j'))
    else if 0x1CA <= cp <= 0x1CC then Some(('n', 'j'))
    else None
  }

  function Latin(cp: int): (plain: Option<string>)
    ensures plain.Some? ==>
              && 0xC0 <= cp < 0x250 && 1 <= |plain.value| <= 2
              && forall i | 0 <= i < |plain.value| :: 'a' <= plain.value[i] <= 'z'
  {
    match (LatinLetter(cp), LatinPair(cp))
    case (Some(a), _) => Some([a])
    case (None, Some((a, b))) => Some([a, b])
    case (None, None) => None
  }

  // ---- Reading one code point ----

  function Extra(b: byte): nat {
    if b >= 0xF0 then 3 else if b >= 0xE0 then 2 else if b >= 0xC0 then 1 else 0
  }

  /** The bits of a first octet that belong to the number. */
  function FirstBits(b: byte): int {
    match Extra(b)
    case 0 => b % 0x40
    case 1 => b % 0x20
    case 2 => b % 0x10
    case _ => b % 8
  }

  /** Reads `extra` continuation octets at `n`; on another octet the answer is the first octet, and `n` stays there. */
  function Follow(s: bytes, n: nat, extra: nat, cp: int): (r: (int, nat))
    requires 1 <= n && n + extra <= |s|
    ensures n <= r.1 <= n + extra
    ensures forall i | n <= i < r.1 :: Tail(s[i])
    decreases extra
  {
    if extra == 0 then (cp, n)
    else if !Tail(s[n]) then (s[0] as int, n)
    else Follow(s, n + 1, extra - 1, cp * 0x40 + s[n] % 0x40)
  }

  /** The code point at the front of a text, and the number of octets read for it. */
  function Next(s: bytes): (r: (int, nat))
    requires s != []
    ensures 1 <= r.1 <= |s|
    ensures forall i | 1 <= i < r.1 :: Tail(s[i])
  {
    if s[0] < 0x80 || s[0] >= 0xF8 || 1 + Extra(s[0]) > |s| then (s[0] as int, 1)
    else Follow(s, 1, Extra(s[0]), FirstBits(s[0]))
  }

  lemma Parts(cp: int)
    requires CodePoint(cp)
    ensures cp == cp / 0x40 * 0x40 + cp % 0x40
    ensures cp / 0x40 == cp / 0x1000 * 0x40 + cp / 0x40 % 0x40
    ensures cp / 0x1000 == cp / 0x4_0000 * 0x40 + cp / 0x1000 % 0x40
  {
    Shifts(cp);
  }

  lemma Continues(s: bytes, n: nat, extra: nat, cp: int)
    requires 1 <= n && n + extra <= |s| && extra > 0 && Tail(s[n])
    ensures Follow(s, n, extra, cp) == Follow(s, n + 1, extra - 1, cp * 0x40 + (s[n] as int - 0x80))
  {
  }

  lemma NextReadsTwo(cp: int, rest: bytes)
    requires 0x80 <= cp < 0x800
    ensures Next(Encode(cp) + rest) == (cp, 2)
  {
    var s := Encode(cp) + rest;
    Parts(cp);
    hide Follow;
    Continues(s, 1, 1, cp / 0x40);
    FollowEnds(s, 2, cp);
  }

  lemma NextReadsThree(cp: int, rest: bytes)
    requires 0x800 <= cp < 0x1_0000
    ensures Next(Encode(cp) + rest) == (cp, 3)
  {
    var s := Encode(cp) + rest;
    Parts(cp);
    hide Follow;
    Continues(s, 1, 2, cp / 0x1000);
    Continues(s, 2, 1, cp / 0x40);
    FollowEnds(s, 3, cp);
  }

  /** The first octet of a sequence of four. */
  lemma FirstOfFour(s: bytes, high: nat)
    requires |s| >= 4 && s[0] == 0xF0 + high && high < 8
    ensures Next(s) == Follow(s, 1, 3, high)
  {
    hide Follow;
    assert s[0] % 8 == high;
  }

  lemma NextReadsFour(cp: int, rest: bytes)
    requires 0x1_0000 <= cp < 0x11_0000
    ensures Next(Encode(cp) + rest) == (cp, 4)
  {
    var s := Encode(cp) + rest;
    Parts(cp);
    hide Follow, Next;
    FirstOfFour(s, cp / 0x4_0000);
    Continues(s, 1, 3, cp / 0x4_0000);
    Continues(s, 2, 2, cp / 0x1000);
    Continues(s, 3, 1, cp / 0x40);
    FollowEnds(s, 4, cp);
  }

  /** What `Encode` writes, in front of anything, reads back. */
  lemma NextReadsEncoded(cp: int, rest: bytes)
    requires CodePoint(cp)
    ensures Next(Encode(cp) + rest) == (cp, |Encode(cp)|)
  {
    if cp >= 0x1_0000 {
      NextReadsFour(cp, rest);
    } else if cp >= 0x800 {
      NextReadsThree(cp, rest);
    } else if cp >= 0x80 {
      NextReadsTwo(cp, rest);
    }
  }

  lemma FollowEnds(s: bytes, n: nat, cp: int)
    requires 1 <= n <= |s|
    ensures Follow(s, n, 0, cp) == (cp, n)
  {
  }

  // ---- Octets that are not UTF-8 ----

  /** A first octet with all the continuation octets it announces. */
  predicate Whole(s: bytes) {
    s != [] &&
    (s[0] < 0x80 || (0xC0 <= s[0] < 0xF8 && 1 + Extra(s[0]) <= |s| && forall i | 1 <= i <= Extra(s[0]) :: Tail(s[i])))
  }

  lemma {:induction false} FollowStops(s: bytes, n: nat, extra: nat, cp: int, k: nat)
    requires 1 <= n <= k < n + extra <= |s| && !Tail(s[k]) && forall i | n <= i < k :: Tail(s[i])
    ensures Follow(s, n, extra, cp) == (s[0] as int, k)
    decreases extra
  {
    if n < k {
      FollowStops(s, n + 1, extra - 1, cp * 0x40 + s[n] % 0x40, k);
    } else {
    }
  }

  /** A broken sequence reads as its first octet, and takes the continuation octets before the break with it. */
  lemma BrokenReads(s: bytes, k: nat)
    requires s != [] && 0xC0 <= s[0] < 0xF8 && 1 <= k <= Extra(s[0]) < |s|
    requires !Tail(s[k]) && forall i | 1 <= i < k :: Tail(s[i])
    ensures Next(s) == (s[0] as int, k)
  {
    FollowStops(s, 1, Extra(s[0]), FirstBits(s[0]), k);
  }

  /** A continuation octet without a first one reads as its low six bits. */
  lemma StrayReads(s: bytes)
    requires s != [] && Tail(s[0])
    ensures Next(s) == (s[0] as int - 0x80, 1)
  {
    FollowEnds(s, 1, s[0] as int % 0x40);
  }

  lemma FirstBreak(s: bytes) returns (k: nat)
    requires s != [] && 0xC0 <= s[0] < 0xF8 && 1 + Extra(s[0]) <= |s| && !Whole(s)
    ensures 1 <= k <= Extra(s[0]) && !Tail(s[k]) && forall i | 1 <= i < k :: Tail(s[i])
  {
    k := 1;
    while Tail(s[k])
      invariant 1 <= k <= Extra(s[0]) && forall i | 1 <= i < k :: Tail(s[i])
      decreases Extra(s[0]) - k
    {
      k := k + 1;
    }
  }

  /** When an invalid octet reads as itself, and as no more than itself. */
  lemma InvalidReads(s: bytes)
    requires s != [] && !Whole(s)
    ensures Next(s) == (s[0] as int, 1) <==>
            !Tail(s[0]) && (s[0] >= 0xF8 || 1 + Extra(s[0]) > |s| || !Tail(s[1]))
  {
    hide Follow;
    if Tail(s[0]) {
      StrayReads(s);
    } else if s[0] < 0xF8 && 1 + Extra(s[0]) <= |s| {
      var k := FirstBreak(s);
      BrokenReads(s, k);
    }
  }

  // ---- Words ----

  predicate Apostrophe(cp: int) {
    cp == 0x27 || cp == 0x2018 || cp == 0x2019 || cp == 0x02BC
  }

  predicate Combining(cp: int) {
    0x300 <= cp <= 0x36F
  }

  predicate Dropped(cp: int) {
    Apostrophe(cp) || Combining(cp)
  }

  predicate Capital(cp: int) {
    0x41 <= cp <= 0x5A
  }

  predicate Separator(cp: int) {
    if cp < 0x80 then !(0x30 <= cp <= 0x39 || 0x61 <= cp <= 0x7A || Capital(cp))
    else
      || cp < 0xC0 || cp == 0xD7 || cp == 0xF7 || 0x2000 <= cp <= 0x2BFF || 0x3000 <= cp <= 0x303F
      || 0xFE10 <= cp <= 0xFE6F || 0xFF01 <= cp <= 0xFF0F
  }

  /** What a code point read from the octets `raw` adds to its word. */
  function Spelling(cp: int, raw: bytes): bytes {
    if Capital(cp) then [cp + 0x20]
    else if Latin(cp).Some? then Ascii(Latin(cp).value)
    else raw
  }

  function Flush<T(==)>(word: seq<T>): seq<seq<T>> {
    if word == [] then [] else [word]
  }

  /** The words of a text whose first word has begun with `word`. */
  function WordsFrom(text: bytes, word: bytes): seq<bytes>
    decreases |text|
  {
    if text == [] then Flush(word)
    else
      var (cp, n) := Next(text);
      if Dropped(cp) then WordsFrom(text[n..], word)
      else if Separator(cp) then Flush(word) + WordsFrom(text[n..], [])
      else WordsFrom(text[n..], word + Spelling(cp, text[..n]))
  }

  function Words(text: bytes): seq<bytes> {
    WordsFrom(text, [])
  }

  /** No text, whatever its octets, yields an empty word or one with a space in it. */
  predicate IsWord(w: bytes) {
    w != [] && 0x20 !in w
  }

  lemma {:induction false} WordsAreWords(text: bytes, word: bytes)
    requires 0x20 !in word
    ensures forall w <- WordsFrom(text, word) :: IsWord(w)
    decreases |text|
  {
    if text == [] {
    } else {
      var (cp, n) := Next(text);
      if Dropped(cp) {
        WordsAreWords(text[n..], word);
      } else if Separator(cp) {
        WordsAreWords(text[n..], []);
      } else {
        SpellingHasNoSpace(text);
        WordsAreWords(text[n..], word + Spelling(cp, text[..n]));
      }
    }
  }

  lemma SpellingHasNoSpace(text: bytes)
    requires text != [] && !Separator(Next(text).0)
    ensures 0x20 !in Spelling(Next(text).0, text[..Next(text).1])
  {
    hide Latin;
    var (cp, n) := Next(text);
    if text[0] == 0x20 {
      assert false;
    }
  }

  // ---- Words of valid UTF-8 ----

  /** A scalar value's plain spelling, as scalar values. */
  function Fold(cp: int): seq<int> {
    if Capital(cp) then [cp + 0x20]
    else if Latin(cp).Some? then
      var plain := Latin(cp).value;
      seq(|plain|, i requires 0 <= i < |plain| => plain[i] as int)
    else [cp]
  }

  function WordPoints(cps: seq<int>, word: seq<int>): seq<seq<int>> {
    if cps == [] then Flush(word)
    else if Dropped(cps[0]) then WordPoints(cps[1..], word)
    else if Separator(cps[0]) then Flush(word) + WordPoints(cps[1..], [])
    else WordPoints(cps[1..], word + Fold(cps[0]))
  }

  /** A scalar value that is part of a word and spells itself. */
  predicate Plain(cp: int) {
    Scalar(cp) && !Dropped(cp) && !Separator(cp) && !Capital(cp) && Latin(cp).None?
  }

  predicate PlainWord(w: seq<int>) {
    w != [] && forall i | 0 <= i < |w| :: Plain(w[i])
  }

  predicate PlainWords(ws: seq<seq<int>>) {
    forall i | 0 <= i < |ws| :: PlainWord(ws[i])
  }

  lemma FoldIsPlain(cp: int)
    requires Scalar(cp) && !Dropped(cp) && !Separator(cp)
    ensures PlainWord(Fold(cp))
  {
  }

  lemma {:induction false} WordPointsArePlain(cps: seq<int>, word: seq<int>)
    requires AllScalars(cps) && (word == [] || PlainWord(word))
    ensures PlainWords(WordPoints(cps, word))
  {
    hide Latin, Fold, Dropped, Separator, Plain;
    if cps == [] {
    } else {
      if Dropped(cps[0]) {
        WordPointsArePlain(cps[1..], word);
      } else if Separator(cps[0]) {
        WordPointsArePlain(cps[1..], []);
      } else {
        FoldIsPlain(cps[0]);
        WordPointsArePlain(cps[1..], word + Fold(cps[0]));
      }
    }
  }

  /** A plain word, and a text of them, are read as they are. */
  lemma {:induction false} PlainWordIsRead(w: seq<int>, rest: seq<int>, word: seq<int>)
    requires forall i | 0 <= i < |w| :: Plain(w[i])
    ensures WordPoints(w + rest, word) == WordPoints(rest, word + w)
  {
    if w == [] {
      assert w + rest == rest && word + w == word;
    } else {
      assert (w + rest)[1..] == w[1..] + rest;
      assert Plain(w[0]) && Fold(w[0]) == [w[0]];
      PlainWordIsRead(w[1..], rest, word + [w[0]]);
      assert word + [w[0]] + w[1..] == word + w;
    }
  }

  /** Words put together with a space in front of each. */
  function Spaced<T>(space: T, ws: seq<seq<T>>): seq<T> {
    if ws == [] then [] else [space] + ws[0] + Spaced(space, ws[1..])
  }

  lemma SpaceSeparates(rest: seq<int>, word: seq<int>)
    ensures WordPoints([0x20] + rest, word) == Flush(word) + WordPoints(rest, [])
  {
    assert ([0x20] + rest)[1..] == rest;
  }

  lemma {:induction false} SpacedIsRead(ws: seq<seq<int>>, word: seq<int>)
    requires PlainWords(ws)
    ensures WordPoints(Spaced(0x20, ws), word) == Flush(word) + ws
  {
    hide Plain, Fold, Dropped, Separator;
    if ws == [] {
    } else {
      var text := Spaced(0x20, ws);
      var rest := Spaced(0x20, ws[1..]);
      assert text == [0x20] + (ws[0] + rest);
      SpaceSeparates(ws[0] + rest, word);
      assert PlainWord(ws[0]);
      PlainWordIsRead(ws[0], rest, []);
      assert [] + ws[0] == ws[0];
      SpacedIsRead(ws[1..], ws[0]);
      assert Flush(ws[0]) + ws[1..] == ws;
    }
  }

  // ---- Between scalar values and octets ----

  lemma {:induction false} EncodeAllJoins(a: seq<int>, b: seq<int>)
    requires AllScalars(a) && AllScalars(b)
    ensures EncodeAll(a + b) == EncodeAll(a) + EncodeAll(b)
  {
    hide Encode;
    if a == [] {
      assert a + b == b;
    } else {
      assert (a + b)[1..] == a[1..] + b;
      EncodeAllJoins(a[1..], b);
    }
  }

  predicate AllScalarWords(ws: seq<seq<int>>) {
    forall i | 0 <= i < |ws| :: AllScalars(ws[i])
  }

  function EncodeEach(ws: seq<seq<int>>): (r: seq<bytes>)
    requires AllScalarWords(ws)
    ensures |r| == |ws|
    ensures forall i | 0 <= i < |ws| :: r[i] == EncodeAll(ws[i])
  {
    seq(|ws|, i requires 0 <= i < |ws| => EncodeAll(ws[i]))
  }

  lemma {:induction false} EncodeEachSpaced(ws: seq<seq<int>>)
    requires AllScalarWords(ws)
    ensures AllScalars(Spaced(0x20, ws))
    ensures EncodeAll(Spaced(0x20, ws)) == Spaced(0x20, EncodeEach(ws))
  {
    if ws == [] {
    } else {
      EncodeEachSpaced(ws[1..]);
      SpacedStep(ws[0], Spaced(0x20, ws[1..]));
      assert EncodeEach(ws)[1..] == EncodeEach(ws[1..]);
    }
  }

  lemma SpacedStep(w: seq<int>, rest: seq<int>)
    requires AllScalars(w) && AllScalars(rest)
    ensures EncodeAll([0x20] + w + rest) == [0x20] + EncodeAll(w) + EncodeAll(rest)
  {
    EncodeAllJoins([0x20] + w, rest);
    EncodeAllJoins([0x20], w);
    assert [0x20][1..] == [];
    assert EncodeAll([0x20]) == [0x20];
  }

  lemma FoldIsSpelling(cp: int)
    requires Scalar(cp)
    ensures AllScalars(Fold(cp)) && EncodeAll(Fold(cp)) == Spelling(cp, Encode(cp))
  {
    var f := Fold(cp);
    if |f| == 1 {
      assert f[1..] == [];
    } else {
      assert f[1..][1..] == [];
      assert EncodeAll(f[1..]) == [f[1]];
    }
  }

  lemma WordsStep(cp: int, rest: bytes, word: bytes)
    requires Scalar(cp)
    ensures WordsFrom(Encode(cp) + rest, word) ==
            if Dropped(cp) then WordsFrom(rest, word)
            else if Separator(cp) then Flush(word) + WordsFrom(rest, [])
            else WordsFrom(rest, word + Spelling(cp, Encode(cp)))
  {
    hide Latin, Spelling, Dropped, Separator, Next;
    var e := Encode(cp);
    NextReadsEncoded(cp, rest);
    hide Encode;
    assert (e + rest)[..|e|] == e && (e + rest)[|e|..] == rest;
  }

  /** On valid UTF-8 the octets' words are the scalar values' words. */
  lemma {:induction false} WordsOfUtf8(cps: seq<int>, word: seq<int>)
    requires AllScalars(cps) && AllScalars(word)
    ensures AllScalarWords(WordPoints(cps, word))
    ensures WordsFrom(EncodeAll(cps), EncodeAll(word)) == EncodeEach(WordPoints(cps, word))
  {
    hide Latin, Fold, Spelling, Dropped, Separator, Scalar, Encode, WordsFrom;
    if cps == [] {
      NoText(EncodeAll(word));
      EncodedFlush(word);
    } else {
      WordsStep(cps[0], EncodeAll(cps[1..]), EncodeAll(word));
      if Dropped(cps[0]) {
        WordsOfUtf8(cps[1..], word);
      } else if Separator(cps[0]) {
        WordsOfUtf8(cps[1..], []);
        EncodedFlush(word);
      } else {
        FoldIsSpelling(cps[0]);
        EncodeAllJoins(word, Fold(cps[0]));
        WordsOfUtf8(cps[1..], word + Fold(cps[0]));
      }
    }
  }

  lemma NoText(word: bytes)
    ensures WordsFrom([], word) == Flush(word)
  {
  }

  lemma EncodedFlush(word: seq<int>)
    requires AllScalars(word)
    ensures AllScalarWords(Flush(word)) && Flush(EncodeAll(word)) == EncodeEach(Flush(word))
  {
    if word != [] {
      assert |EncodeAll(word)| >= |Encode(word[0])| > 0;
      assert EncodeEach(Flush(word)) == [EncodeAll(word)];
    } else {
      assert EncodeEach(Flush(word)) == [];
    }
  }

  /** A text made of words is divided into those words: for any of the words of any valid texts, in any order. */
  lemma SpacedWordsAreWords(ws: seq<bytes>, points: seq<seq<int>>)
    requires PlainWords(points) && AllScalarWords(points) && ws == EncodeEach(points)
    ensures Words(Spaced(0x20, ws)) == ws
  {
    EncodeEachSpaced(points);
    WordsOfUtf8(Spaced(0x20, points), []);
    SpacedIsRead(points, []);
    assert Flush<int>([]) + points == points;
  }

  /** `Words` is a normal form of valid UTF-8. */
  lemma WordsAgain(cps: seq<int>)
    requires AllScalars(cps)
    ensures Words(Spaced(0x20, Words(EncodeAll(cps)))) == Words(EncodeAll(cps))
  {
    WordPointsArePlain(cps, []);
    WordsOfUtf8(cps, []);
    SpacedWordsAreWords(Words(EncodeAll(cps)), WordPoints(cps, []));
  }

  // ---- One code point for another ----

  /** All of a text that is in words, in order. */
  function Kept(cps: seq<int>): seq<int> {
    if cps == [] then []
    else (if Dropped(cps[0]) || Separator(cps[0]) then [] else Fold(cps[0])) + Kept(cps[1..])
  }

  function Flat<T>(ws: seq<seq<T>>): seq<T> {
    if ws == [] then [] else ws[0] + Flat(ws[1..])
  }

  lemma FlatFlush<T>(word: seq<T>, rest: seq<seq<T>>)
    ensures Flat(Flush(word) + rest) == word + Flat(rest)
  {
    if word == [] {
      assert Flush(word) + rest == rest && word + Flat(rest) == Flat(rest);
    } else {
      assert (Flush(word) + rest)[1..] == rest;
    }
  }

  lemma {:induction false} FlatWords(cps: seq<int>, word: seq<int>)
    ensures Flat(WordPoints(cps, word)) == word + Kept(cps)
  {
    hide Fold, Dropped, Separator, Flat, Flush;
    if cps == [] {
      FlushIsFlat(word);
    } else if Dropped(cps[0]) {
      FlatWords(cps[1..], word);
    } else if Separator(cps[0]) {
      FlatWords(cps[1..], []);
      FlatFlush(word, WordPoints(cps[1..], []));
    } else {
      FlatWords(cps[1..], word + Fold(cps[0]));
      Regrouped(word, Fold(cps[0]), Kept(cps[1..]));
    }
  }

  lemma Regrouped<T>(a: seq<T>, b: seq<T>, c: seq<T>)
    ensures a + b + c == a + (b + c)
  {
  }

  lemma FlushIsFlat<T>(word: seq<T>)
    ensures Flat(Flush(word)) == word
  {
    assert word != [] ==> [word][1..] == [] && word + [] == word;
  }

  lemma {:induction false} KeptJoins(a: seq<int>, b: seq<int>)
    ensures Kept(a + b) == Kept(a) + Kept(b)
  {
    hide Fold, Dropped, Separator;
    if a == [] {
      assert a + b == b;
    } else {
      assert (a + b)[1..] == a[1..] + b;
      KeptJoins(a[1..], b);
    }
  }

  lemma {:induction false} SameFoldSameWords(before: seq<int>, a: int, b: int, rest: seq<int>, word: seq<int>)
    requires !Dropped(a) && !Separator(a) && !Dropped(b) && !Separator(b) && Fold(a) == Fold(b)
    ensures WordPoints(before + [a] + rest, word) == WordPoints(before + [b] + rest, word)
  {
    hide Fold, Dropped, Separator;
    if before == [] {
      assert (before + [a] + rest)[1..] == rest == (before + [b] + rest)[1..];
    } else {
      assert (before + [a] + rest)[1..] == before[1..] + [a] + rest;
      assert (before + [b] + rest)[1..] == before[1..] + [b] + rest;
      var c := before[0];
      SameFoldSameWords(before[1..], a, b, rest,
        if Dropped(c) then word else if Separator(c) then [] else word + Fold(c));
    }
  }

  lemma NothingEncodes(a: seq<int>)
    requires AllScalars(a)
    ensures EncodeAll(a) == [] <==> a == []
  {
    hide Encode;
    assert a != [] ==> |EncodeAll(a)| >= |Encode(a[0])|;
  }

  lemma {:induction false} EncodeIsInjective(a: seq<int>, b: seq<int>)
    requires AllScalars(a) && AllScalars(b) && EncodeAll(a) == EncodeAll(b)
    ensures a == b
  {
    hide Encode, Next;
    NothingEncodes(a);
    NothingEncodes(b);
    if a == [] {
    } else {
      NextReadsEncoded(a[0], EncodeAll(a[1..]));
      NextReadsEncoded(b[0], EncodeAll(b[1..]));
      var n := |Encode(a[0])|;
      assert EncodeAll(a)[n..] == EncodeAll(a[1..]) && EncodeAll(b)[n..] == EncodeAll(b[1..]);
      EncodeIsInjective(a[1..], b[1..]);
      assert a == [a[0]] + a[1..] && b == [b[0]] + b[1..];
    }
  }

  lemma SamePoints(v: seq<seq<int>>, w: seq<seq<int>>)
    requires AllScalarWords(v) && AllScalarWords(w) && EncodeEach(v) == EncodeEach(w)
    ensures v == w
  {
    forall i | 0 <= i < |v| ensures v[i] == w[i] {
      assert EncodeEach(v)[i] == EncodeEach(w)[i];
      EncodeIsInjective(v[i], w[i]);
    }
  }

  /** What `cp` gives to the words it is in. */
  function Share(cp: int): seq<int> {
    if Dropped(cp) || Separator(cp) then [] else Fold(cp)
  }

  lemma KeptShare(before: seq<int>, a: int, rest: seq<int>)
    ensures Kept(before + [a] + rest) == Kept(before) + Share(a) + Kept(rest)
  {
    hide Fold, Dropped, Separator;
    KeptJoins(before + [a], rest);
    KeptJoins(before, [a]);
    assert [a][1..] == [];
    assert Share(a) + [] == Share(a);
  }

  lemma SameWordsSameShare(before: seq<int>, a: int, b: int, rest: seq<int>)
    requires WordPoints(before + [a] + rest, []) == WordPoints(before + [b] + rest, [])
    ensures Share(a) == Share(b)
  {
    hide Share, Kept, WordPoints;
    var s, t := before + [a] + rest, before + [b] + rest;
    FlatWords(s, []);
    FlatWords(t, []);
    assert [] + Kept(s) == Kept(s) && [] + Kept(t) == Kept(t);
    KeptShare(before, a, rest);
    KeptShare(before, b, rest);
    var k, n := |Kept(before)|, |Kept(rest)|;
    assert Share(a) == Kept(s)[k..|Kept(s)| - n] && Share(b) == Kept(t)[k..|Kept(t)| - n];
  }

  /**
    Exact condition: wherever `a` stands in a word of a text, putting `b` in its place changes no word if and only if
    `b` belongs to words too and has the same plain spelling.
   */
  lemma OnlySpellingsMatter(before: seq<int>, a: int, b: int, rest: seq<int>)
    requires AllScalars(before + [a] + rest) && AllScalars(before + [b] + rest) && !Dropped(a) && !Separator(a)
    ensures Words(EncodeAll(before + [a] + rest)) == Words(EncodeAll(before + [b] + rest)) <==>
            !Dropped(b) && !Separator(b) && Fold(a) == Fold(b)
  {
    var s, t := before + [a] + rest, before + [b] + rest;
    assert Fold(a) != [];
    hide Fold, Dropped, Separator, Scalar, WordPoints;
    WordsOfUtf8(s, []);
    WordsOfUtf8(t, []);
    if !Dropped(b) && !Separator(b) && Fold(a) == Fold(b) {
      SameFoldSameWords(before, a, b, rest, []);
    }
    if EncodeEach(WordPoints(s, [])) == EncodeEach(WordPoints(t, [])) {
      SamePoints(WordPoints(s, []), WordPoints(t, []));
      SameWordsSameShare(before, a, b, rest);
    }
  }

  /** Code points that end no word. */
  predicate InWords(xs: seq<int>) {
    forall x <- xs :: Dropped(x) || !Separator(x)
  }

  lemma {:induction false} RunIsRead(xs: seq<int>, rest: seq<int>, word: seq<int>)
    requires InWords(xs)
    ensures WordPoints(xs + rest, word) == WordPoints(rest, word + Kept(xs))
  {
    hide Fold, Dropped, Separator;
    if xs == [] {
      assert xs + rest == rest && word + [] == word;
    } else {
      assert (xs + rest)[1..] == xs[1..] + rest && xs[0] in xs;
      var more := if Dropped(xs[0]) then word else word + Fold(xs[0]);
      RunIsRead(xs[1..], rest, more);
      Regrouped(word, Share(xs[0]), Kept(xs[1..]));
      assert word + [] == word;
    }
  }

  lemma {:induction false} SameKeptSameWords(before: seq<int>, xs: seq<int>, ys: seq<int>, rest: seq<int>,
                                             word: seq<int>)
    requires InWords(xs) && InWords(ys) && Kept(xs) == Kept(ys)
    ensures WordPoints(before + xs + rest, word) == WordPoints(before + ys + rest, word)
  {
    hide Fold, Dropped, Separator, Kept, InWords;
    if before == [] {
      assert before + xs + rest == xs + rest && before + ys + rest == ys + rest;
      RunIsRead(xs, rest, word);
      RunIsRead(ys, rest, word);
    } else {
      assert (before + xs + rest)[1..] == before[1..] + xs + rest;
      assert (before + ys + rest)[1..] == before[1..] + ys + rest;
      var c := before[0];
      SameKeptSameWords(before[1..], xs, ys, rest,
        if Dropped(c) then word else if Separator(c) then [] else word + Fold(c));
    }
  }

  lemma SameWordsSameKept(before: seq<int>, xs: seq<int>, ys: seq<int>, rest: seq<int>)
    requires WordPoints(before + xs + rest, []) == WordPoints(before + ys + rest, [])
    ensures Kept(xs) == Kept(ys)
  {
    hide Kept, WordPoints;
    var s, t := before + xs + rest, before + ys + rest;
    FlatWords(s, []);
    FlatWords(t, []);
    assert [] + Kept(s) == Kept(s) && [] + Kept(t) == Kept(t);
    KeptJoins(before + xs, rest);
    KeptJoins(before, xs);
    KeptJoins(before + ys, rest);
    KeptJoins(before, ys);
    var k, n := |Kept(before)|, |Kept(rest)|;
    assert Kept(xs) == Kept(s)[k..|Kept(s)| - n] && Kept(ys) == Kept(t)[k..|Kept(t)| - n];
  }

  /** The same for runs of code points within words: what counts is what they spell together. */
  lemma OnlyTheSpellingMatters(before: seq<int>, xs: seq<int>, ys: seq<int>, rest: seq<int>)
    requires AllScalars(before + xs + rest) && AllScalars(before + ys + rest) && InWords(xs) && InWords(ys)
    ensures Words(EncodeAll(before + xs + rest)) == Words(EncodeAll(before + ys + rest)) <==> Kept(xs) == Kept(ys)
  {
    var s, t := before + xs + rest, before + ys + rest;
    hide Kept, InWords, Scalar, WordPoints;
    WordsOfUtf8(s, []);
    WordsOfUtf8(t, []);
    if Kept(xs) == Kept(ys) {
      SameKeptSameWords(before, xs, ys, rest, []);
    }
    if EncodeEach(WordPoints(s, [])) == EncodeEach(WordPoints(t, [])) {
      SamePoints(WordPoints(s, []), WordPoints(t, []));
      SameWordsSameKept(before, xs, ys, rest);
    }
  }

  /** Apostrophes and accents that stand alone do not matter at all. */
  lemma MarksDoNotMatter(before: seq<int>, a: int, rest: seq<int>)
    requires AllScalars(before + [a] + rest) && AllScalars(before + rest) && Dropped(a)
    ensures Words(EncodeAll(before + [a] + rest)) == Words(EncodeAll(before + rest))
  {
    hide Fold, Dropped, Separator, Scalar, WordPoints;
    WordsOfUtf8(before + [a] + rest, []);
    WordsOfUtf8(before + rest, []);
    WithoutMark(before, a, rest, []);
  }

  lemma {:induction false} WithoutMark(before: seq<int>, a: int, rest: seq<int>, word: seq<int>)
    requires Dropped(a)
    ensures WordPoints(before + [a] + rest, word) == WordPoints(before + rest, word)
  {
    hide Fold, Dropped, Separator;
    if before == [] {
      assert (before + [a] + rest)[1..] == rest == before + rest;
    } else {
      assert (before + [a] + rest)[1..] == before[1..] + [a] + rest && (before + rest)[1..] == before[1..] + rest;
      var c := before[0];
      WithoutMark(before[1..], a, rest, if Dropped(c) then word else if Separator(c) then [] else word + Fold(c));
    }
  }

  /** Nor does it matter which separators stand between words. */
  lemma SeparatorsAreOne(before: seq<int>, a: int, b: int, rest: seq<int>)
    requires AllScalars(before + [a] + rest) && AllScalars(before + [b] + rest)
    requires Separator(a) && Separator(b) && !Dropped(a) && !Dropped(b)
    ensures Words(EncodeAll(before + [a] + rest)) == Words(EncodeAll(before + [b] + rest))
  {
    hide Fold, Dropped, Separator, Scalar, WordPoints;
    WordsOfUtf8(before + [a] + rest, []);
    WordsOfUtf8(before + [b] + rest, []);
    OtherSeparator(before, a, b, rest, []);
  }

  lemma {:induction false} OtherSeparator(before: seq<int>, a: int, b: int, rest: seq<int>, word: seq<int>)
    requires Separator(a) && Separator(b) && !Dropped(a) && !Dropped(b)
    ensures WordPoints(before + [a] + rest, word) == WordPoints(before + [b] + rest, word)
  {
    hide Fold, Dropped, Separator;
    if before == [] {
      assert (before + [a] + rest)[1..] == rest == (before + [b] + rest)[1..];
    } else {
      assert (before + [a] + rest)[1..] == before[1..] + [a] + rest;
      assert (before + [b] + rest)[1..] == before[1..] + [b] + rest;
      var c := before[0];
      OtherSeparator(before[1..], a, b, rest,
        if Dropped(c) then word else if Separator(c) then [] else word + Fold(c));
    }
  }

  /** A letter or digit in ASCII: itself, the small letter of a capital one, or the table's entry. */
  function AsciiSpelling(cp: int): (plain: Option<string>) {
    if Capital(cp) then Some([(cp + 0x20) as char])
    else if 0x30 <= cp <= 0x39 || 0x61 <= cp <= 0x7A then Some([cp as char])
    else Latin(cp)
  }

  /** Two different code points count as one exactly if ASCII letter case or the table spells them alike. */
  lemma SpelledAlike(a: int, b: int)
    requires Scalar(a) && Scalar(b) && a != b && !Dropped(a) && !Separator(a) && !Dropped(b) && !Separator(b)
    ensures Fold(a) == Fold(b) <==> AsciiSpelling(a).Some? && AsciiSpelling(a) == AsciiSpelling(b)
  {
    SpellingOfFold(a);
    SpellingOfFold(b);
    hide Latin, Fold, AsciiSpelling;
    match (AsciiSpelling(a), AsciiSpelling(b))
    case (None, None) =>
    case (Some(v), None) =>
      assert |v| == 1 ==> Fold(a)[0] != b;
    case (None, Some(w)) =>
      assert |w| == 1 ==> Fold(b)[0] != a;
    case (Some(v), Some(w)) =>
      assert v == w ==> Fold(a) == Fold(b);
      if Fold(a) == Fold(b) {
        forall i | 0 <= i < |v| ensures v[i] == w[i] {
          assert Fold(a)[i] == v[i] as int && Fold(b)[i] == w[i] as int;
        }
        assert v == w;
      }
  }

  lemma SpellingOfFold(cp: int)
    requires Scalar(cp) && !Dropped(cp) && !Separator(cp)
    ensures match AsciiSpelling(cp)
            case None => Fold(cp) == [cp] && cp >= 0x80
            case Some(v) => |Fold(cp)| == |v| && forall i | 0 <= i < |v| :: Fold(cp)[i] == v[i] as int < 0x80
  {
  }

  /** So one letter alone is another one's word if and only if it is spelled alike, or is the same. */
  lemma LettersAlone(a: int, b: int)
    requires Scalar(a) && Scalar(b) && a != b && !Dropped(a) && !Separator(a) && !Dropped(b) && !Separator(b)
    ensures Words(Encode(a)) == Words(Encode(b)) <==> AsciiSpelling(a).Some? && AsciiSpelling(a) == AsciiSpelling(b)
  {
    assert [] + [a] + [] == [a] && [] + [b] + [] == [b];
    hide Words, Encode, EncodeAll, Fold, Separator, Dropped;
    OnlySpellingsMatter([], a, b, []);
    SpelledAlike(a, b);
    EncodeOne(a);
    EncodeOne(b);
  }

  /** Letters that the table does not have keep their case: eth; sharp s, whose capital is U+1E9E; omega. */
  lemma CaseMatters()
    ensures Words(Encode(0xD0)) != Words(Encode(0xF0))
    ensures Words(Encode(0x1E9E)) != Words(Encode(0xDF))
    ensures Words(Encode(0x3A9)) != Words(Encode(0x3C9))
  {
    hide Words, Encode;
    LettersAlone(0xD0, 0xF0);
    LettersAlone(0x1E9E, 0xDF);
    LettersAlone(0x3A9, 0x3C9);
  }

  /** And an accent that the table does not take off stays: U+1EBF, an e with circumflex and acute, is no e. */
  lemma AccentMatters()
    ensures Words(Encode(0x1EBF)) != Words(Encode(0x65))
  {
    hide Words, Encode;
    LettersAlone(0x1EBF, 0x65);
  }

  /** A code point alone is no word if and only if it is one of the marks or separators. */
  lemma NoWordAlone(cp: int)
    requires Scalar(cp)
    ensures Words(Encode(cp)) == [] <==> Dropped(cp) || Separator(cp)
  {
    hide Encode, EncodeAll, WordsFrom, Dropped, Separator, Latin, Fold;
    EncodeOne(cp);
    WordsOfUtf8([cp], []);
    assert EncodeAll([]) == [] by {
      NothingEncodes([]);
    }
    assert [cp][1..] == [] && [] + Fold(cp) == Fold(cp);
    SpelledWithLetters(cp);
  }

  lemma SpelledWithLetters(cp: int)
    ensures Fold(cp) != []
  {
  }

  /** So punctuation beyond them does matter: the fullwidth colon, U+FF1A, and the Arabic comma, U+060C, are words. */
  lemma PunctuationMatters()
    ensures Words(Encode(0xFF1A)) != [] && Words(Encode(0x60C)) != []
  {
    hide Words, Encode;
    NoWordAlone(0xFF1A);
    NoWordAlone(0x60C);
  }

  lemma EncodeOne(cp: int)
    requires Scalar(cp)
    ensures EncodeAll([cp]) == Encode(cp)
  {
    hide Encode;
    assert [cp][1..] == [];
  }

  // ---- Case ----

  /** Capital and small letters of Unicode's simple case mapping, both from U+00C0 to U+024F. */
  predicate CasePair(a: int, b: int) {
    || ((0xC0 <= a <= 0xD6 || 0xD8 <= a <= 0xDE) && b == a + 0x20)
    || (b == a + 1 && a % 2 == 0 && EvenCapital(a))
    || (b == a + 1 && a % 2 == 1 && OddCapital(a))
    || (b == a + 2 && (a == 0x1C4 || a == 0x1C7 || a == 0x1CA || a == 0x1F1))
    || (a == 0x178 && b == 0xFF) || (a == 0x18E && b == 0x1DD)
    || (a == 0x1F6 && b == 0x195) || (a == 0x1F7 && b == 0x1BF)
    || (a == 0x220 && b == 0x19E) || (a == 0x23D && b == 0x19A) || (a == 0x243 && b == 0x180)
  }

  predicate EvenCapital(a: int) {
    || 0x100 <= a <= 0x12E || 0x132 <= a <= 0x136 || 0x14A <= a <= 0x176 || 0x182 <= a <= 0x184 || a == 0x198
    || 0x1A0 <= a <= 0x1A4 || a == 0x1AC || a == 0x1B8 || a == 0x1BC || a == 0x1C8 || 0x1DE <= a <= 0x1EE
    || 0x1F2 <= a <= 0x1F4 || 0x1F8 <= a <= 0x21E || 0x222 <= a <= 0x232 || 0x246 <= a <= 0x24E
  }

  predicate OddCapital(a: int) {
    || 0x139 <= a <= 0x147 || 0x179 <= a <= 0x17D || a == 0x187 || a == 0x18B || a == 0x191 || a == 0x1A7 || a == 0x1AF
    || 0x1B3 <= a <= 0x1B5 || a == 0x1C5 || 0x1CB <= a <= 0x1DB || a == 0x23B || a == 0x241
  }

  lemma PairedLetters(a: int, b: int)
    requires CasePair(a, b)
    ensures 0xC0 <= a < 0x250 && 0xC0 <= b < 0x250 && a != b
    ensures !Dropped(a) && !Separator(a) && !Dropped(b) && !Separator(b)
  {
  }

  lemma EvenLettersA(a: int)
    requires a % 2 == 0 && EvenCapital(a) && a < 0x180
    ensures LatinLetter(a) == LatinLetter(a + 1)
  {
  }

  lemma EvenLettersB(a: int)
    requires a % 2 == 0 && EvenCapital(a) && a >= 0x180
    ensures LatinLetter(a) == LatinLetter(a + 1)
  {
  }

  lemma OddLetters(a: int)
    requires a % 2 == 1 && OddCapital(a)
    ensures LatinLetter(a) == LatinLetter(a + 1)
  {
  }

  lemma OtherLetters(a: int, b: int)
    requires CasePair(a, b) && b != a + 1
    ensures LatinLetter(a) == LatinLetter(b)
  {
  }

  lemma PairedPairs(a: int, b: int)
    requires CasePair(a, b)
    ensures LatinPair(a) == LatinPair(b)
  {
  }

  /** The table spells both letters of a pair in the same way, or neither. */
  lemma PairedSpellings(a: int, b: int)
    requires CasePair(a, b)
    ensures LatinLetter(a) == LatinLetter(b) && LatinPair(a) == LatinPair(b)
  {
    hide LatinLetter, LatinPair, EvenCapital, OddCapital;
    PairedPairs(a, b);
    if b != a + 1 {
      OtherLetters(a, b);
    } else if a % 2 == 0 {
      if a < 0x180 {
        EvenLettersA(a);
      } else {
        EvenLettersB(a);
      }
    } else {
      OddLetters(a);
    }
  }

  /** For these letters, wherever they stand, case does not matter if and only if the table has the capital letter. */
  lemma CaseDoesNotMatter(before: seq<int>, a: int, b: int, rest: seq<int>)
    requires AllScalars(before + [a] + rest) && AllScalars(before + [b] + rest) && CasePair(a, b)
    ensures Words(EncodeAll(before + [a] + rest)) == Words(EncodeAll(before + [b] + rest)) <==> Latin(a).Some?
  {
    PairedLetters(a, b);
    PairedSpellings(a, b);
    hide Fold, Dropped, Separator, LatinLetter, LatinPair, Scalar, CasePair, Words;
    OnlySpellingsMatter(before, a, b, rest);
    assert Scalar(a) && Scalar(b) by {
      assert (before + [a] + rest)[|before|] == a && (before + [b] + rest)[|before|] == b;
    }
    SpelledAlike(a, b);
  }

  // ---- Texts that are not UTF-8 ----

  /** Octets that are not UTF-8 can read differently after their neighbours have changed. */
  lemma NotUtf8NotNormal()
    ensures var words := Words([0xF0, 0x90, 0x41, 0x27]);
            words == [[0xF0, 0x90, 0x61]] && Words(Spaced(0x20, words)) == [[0xF0], [0x61]]
  {
    FirstWords();
    SecondWords();
  }

  lemma FirstWords()
    ensures Words([0xF0, 0x90, 0x41, 0x27]) == [[0xF0, 0x90, 0x61]]
  {
    var text: bytes := [0xF0, 0x90, 0x41, 0x27];
    assert Follow(text, 2, 2, 16) == (0xF0, 2);
    assert Next(text) == (0xF0, 2);
    assert text[2..] == [0x41, 0x27] && text[..2] == [0xF0, 0x90];
    assert WordsFrom(text, []) == WordsFrom([0x41, 0x27], [] + [0xF0, 0x90]);
    assert [] + [0xF0, 0x90] == [0xF0, 0x90];
    var last: bytes := [0x27];
    assert [0x41, 0x27][1..] == last && last[1..] == [];
    assert WordsFrom(last, [0xF0, 0x90, 0x61]) == [[0xF0, 0x90, 0x61]];
    assert [0xF0, 0x90] + [0x61] == [0xF0, 0x90, 0x61];
  }

  lemma LetterLast(c: byte, word: bytes)
    requires 0x61 <= c <= 0x7A
    ensures WordsFrom([c], word) == [word + [c]]
  {
    assert [c][..1] == [c] && [c][1..] == [];
    assert Next([c]) == (c as int, 1);
  }

  lemma SpaceFirst(rest: bytes)
    ensures WordsFrom([0x20] + rest, []) == WordsFrom(rest, [])
  {
    var text := [0x20] + rest;
    assert Next(text) == (0x20, 1) && text[1..] == rest;
    assert Flush<byte>([]) + WordsFrom(rest, []) == WordsFrom(rest, []);
  }

  lemma WordsByNext(text: bytes, word: bytes)
    requires text != []
    ensures var (cp, n) := Next(text);
            WordsFrom(text, word) ==
            if Dropped(cp) then WordsFrom(text[n..], word)
            else if Separator(cp) then Flush(word) + WordsFrom(text[n..], [])
            else WordsFrom(text[n..], word + Spelling(cp, text[..n]))
  {
  }

  lemma WordAgain()
    ensures WordsFrom([0xF0, 0x90, 0x61], []) == [[0xF0], [0x61]]
  {
    hide WordsFrom;
    var word: bytes, first: bytes, rest: bytes := [0xF0, 0x90, 0x61], [0xF0], [0x90, 0x61];
    assert word[1..] == rest && rest[1..] == [0x61] && word[..1] == first && [] + first == first;
    LetterLast(0x61, []);
    var letter: bytes := [0x61];
    assert [] + letter == letter;
    assert Next(rest) == (0x10, 1) && Next(word) == (0xF0, 1);
    WordsByNext(rest, first);
    WordsByNext(word, []);
    assert WordsFrom(rest, first) == Flush(first) + WordsFrom(rest[1..], []);
    assert WordsFrom(rest[1..], []) == [letter];
    assert Spelling(0xF0, word[..1]) == first;
    assert WordsFrom(word, []) == WordsFrom(word[1..], [] + Spelling(0xF0, word[..1]));
    assert WordsFrom(word, []) == WordsFrom(rest, first);
  }

  lemma SecondWords()
    ensures Words(Spaced(0x20, [[0xF0, 0x90, 0x61]])) == [[0xF0], [0x61]]
  {
    hide WordsFrom;
    var words: seq<bytes> := [[0xF0, 0x90, 0x61]];
    assert words[1..] == [];
    assert Spaced(0x20, words) == [0x20] + words[0];
    SpaceFirst(words[0]);
    WordAgain();
  }

  // ---- Matching ----

  predicate OccursAt(w: bytes, s: bytes, i: int) {
    0 <= i <= |s| - |w| && s[i..i + |w|] == w
  }

  /** `w` is somewhere in `s`. */
  ghost predicate Occurs(w: bytes, s: bytes) {
    exists i :: OccursAt(w, s, i)
  }

  ghost predicate OccursInOne(w: bytes, ws: seq<bytes>) {
    exists k :: 0 <= k < |ws| && Occurs(w, ws[k])
  }

  ghost predicate Matches(query: bytes, title: bytes) {
    forall w <- Words(query) :: Occurs(w, Spaced(0x20, Words(title)))
  }

  lemma Covered(w: bytes, s: bytes, i: int, p: int)
    requires OccursAt(w, s, i) && i <= p < i + |w|
    ensures s[p] in w
  {
    assert s[p] == s[i..i + |w|][p - i];
  }

  /** An occurrence of a word covers no space, so it lies on one side of each. */
  lemma OneSide(w: bytes, v: bytes, rest: bytes, i: int)
    requires IsWord(w) && (rest == [] || rest[0] == 0x20)
    requires OccursAt(w, [0x20] + v + rest, i)
    ensures OccursAt(w, v, i - 1) || OccursAt(w, rest, i - 1 - |v|)
  {
    var s := [0x20] + v + rest;
    if i == 0 {
      Covered(w, s, i, 0);
      assert false;
    } else if i + |w| <= 1 + |v| {
      assert v[i - 1..i - 1 + |w|] == s[i..i + |w|];
    } else if i >= 1 + |v| {
      assert rest[i - 1 - |v|..i - 1 - |v| + |w|] == s[i..i + |w|];
    } else {
      Covered(w, s, i, 1 + |v|);
      assert false;
    }
  }

  lemma OccursWithin(w: bytes, a: bytes, b: bytes, c: bytes)
    requires Occurs(w, b)
    ensures Occurs(w, a + b + c)
  {
    var i :| OccursAt(w, b, i);
    var s, j := a + b + c, |a| + i;
    assert s[j..j + |w|] == b[i..i + |w|];
    assert OccursAt(w, s, j);
  }

  lemma OccursInStep(w: bytes, v: bytes, rest: bytes)
    requires IsWord(w) && (rest == [] || rest[0] == 0x20)
    ensures Occurs(w, [0x20] + v + rest) <==> Occurs(w, v) || Occurs(w, rest)
  {
    var s := [0x20] + v + rest;
    if Occurs(w, s) {
      var i :| OccursAt(w, s, i);
      OneSide(w, v, rest, i);
    }
    if Occurs(w, v) {
      OccursWithin(w, [0x20], v, rest);
    }
    if Occurs(w, rest) {
      OccursWithin(w, [0x20] + v, rest, []);
      assert s + [] == s;
    }
  }

  lemma OccursInFirstOrRest(w: bytes, ws: seq<bytes>)
    requires ws != []
    ensures OccursInOne(w, ws) <==> Occurs(w, ws[0]) || OccursInOne(w, ws[1..])
  {
    hide Occurs;
    if OccursInOne(w, ws[1..]) {
      var k :| 0 <= k < |ws[1..]| && Occurs(w, ws[1..][k]);
      assert Occurs(w, ws[k + 1]);
    }
    if OccursInOne(w, ws) {
      var k :| 0 <= k < |ws| && Occurs(w, ws[k]);
      assert k == 0 || Occurs(w, ws[1..][k - 1]);
    }
  }

  /** The search in the joined title finds exactly the words that are part of one of the title's words. */
  lemma {:induction false} OccursInSpaced(w: bytes, ws: seq<bytes>)
    requires IsWord(w)
    ensures Occurs(w, Spaced(0x20, ws)) <==> OccursInOne(w, ws)
  {
    if ws == [] {
    } else {
      OccursInSpaced(w, ws[1..]);
      OccursInStep(w, ws[0], Spaced(0x20, ws[1..]));
      OccursInFirstOrRest(w, ws);
    }
  }

  /** A query matches when each of its words is part of one of the title's words: on every input, valid or not. */
  lemma MatchesByWord(query: bytes, title: bytes)
    ensures Matches(query, title) <==> forall w <- Words(query) :: OccursInOne(w, Words(title))
  {
    WordsAreWords(query, []);
    forall w <- Words(query) ensures Occurs(w, Spaced(0x20, Words(title))) <==> OccursInOne(w, Words(title)) {
      OccursInSpaced(w, Words(title));
    }
  }

  /** The scalar values of a selection of encoded words. */
  lemma {:induction false} Selected(all: seq<seq<int>>, vs: seq<bytes>) returns (points: seq<seq<int>>)
    requires PlainWords(all) && AllScalarWords(all)
    requires forall i | 0 <= i < |vs| :: vs[i] in EncodeEach(all)
    ensures PlainWords(points) && AllScalarWords(points) && EncodeEach(points) == vs
  {
    hide PlainWord, AllScalars;
    if vs == [] {
      points := [];
    } else {
      var rest := Selected(all, vs[1..]);
      assert vs[0] in EncodeEach(all);
      var k :| 0 <= k < |all| && EncodeEach(all)[k] == vs[0];
      points := [all[k]] + rest;
      assert EncodeEach(points)[1..] == EncodeEach(rest);
    }
  }

  /** Any of the words of valid UTF-8, any number of times and in any order, are read as they are. */
  lemma SelectionIsRead(cps: seq<int>, vs: seq<bytes>)
    requires AllScalars(cps) && forall i | 0 <= i < |vs| :: vs[i] in Words(EncodeAll(cps))
    ensures Words(Spaced(0x20, vs)) == vs
  {
    hide Plain, Words, WordPoints;
    WordPointsArePlain(cps, []);
    WordsOfUtf8(cps, []);
    WordsFromNothing(EncodeAll(cps));
    var points := Selected(WordPoints(cps, []), vs);
    SpacedWordsAreWords(vs, points);
  }

  lemma WordsFromNothing(text: bytes)
    ensures Words(text) == WordsFrom(text, [])
  {
  }

  /** A title is found by any of its words in any order. */
  lemma TitleWordsMatch(cps: seq<int>, vs: seq<bytes>)
    requires AllScalars(cps) && forall i | 0 <= i < |vs| :: vs[i] in Words(EncodeAll(cps))
    ensures Matches(Spaced(0x20, vs), EncodeAll(cps))
  {
    var title := EncodeAll(cps);
    SelectionIsRead(cps, vs);
    MatchesByWord(Spaced(0x20, vs), title);
    forall w <- vs ensures OccursInOne(w, Words(title)) {
      var k :| 0 <= k < |Words(title)| && Words(title)[k] == w;
      assert OccursAt(w, w, 0);
      assert Occurs(w, Words(title)[k]);
    }
  }

  /** The order of a query's words, their case, their accents and what separates them do not matter. */
  lemma QueryOrderIsIrrelevant(query: seq<int>, vs: seq<bytes>, title: bytes)
    requires AllScalars(query) && multiset(vs) == multiset(Words(EncodeAll(query)))
    ensures Matches(Spaced(0x20, vs), title) <==> Matches(EncodeAll(query), title)
  {
    var words := Words(EncodeAll(query));
    forall w ensures w in vs <==> w in words {
      assert w in multiset(vs) <==> w in multiset(words);
    }
    SelectionIsRead(query, vs);
  }

  lemma SameWordsSameOccurrences(w: bytes, vs: seq<bytes>, words: seq<bytes>)
    requires multiset(vs) == multiset(words) && OccursInOne(w, vs)
    ensures OccursInOne(w, words)
  {
    hide Occurs;
    var k :| 0 <= k < |vs| && Occurs(w, vs[k]);
    assert vs[k] in multiset(vs);
    var j :| 0 <= j < |words| && words[j] == vs[k];
  }

  /** Nor do they in a title. */
  lemma TitleOrderIsIrrelevant(query: bytes, title: seq<int>, vs: seq<bytes>)
    requires AllScalars(title) && multiset(vs) == multiset(Words(EncodeAll(title)))
    ensures Matches(query, Spaced(0x20, vs)) <==> Matches(query, EncodeAll(title))
  {
    hide Words, Occurs, Matches, OccursInOne;
    var words := Words(EncodeAll(title));
    forall i | 0 <= i < |vs| ensures vs[i] in words {
      assert vs[i] in multiset(vs);
    }
    SelectionIsRead(title, vs);
    MatchesByWord(query, Spaced(0x20, vs));
    MatchesByWord(query, EncodeAll(title));
    forall w ensures OccursInOne(w, vs) <==> OccursInOne(w, words) {
      if OccursInOne(w, vs) {
        SameWordsSameOccurrences(w, vs, words);
      }
      if OccursInOne(w, words) {
        SameWordsSameOccurrences(w, words, vs);
      }
    }
  }

  // ---- The loops ----

  method ReadNext(s: bytes, start: nat) returns (cp: int, i: nat)
    requires start < |s|
    ensures start < i <= |s|
    ensures Next(s[start..]) == (cp, i - start)
  {
    var b := s[start];
    i := start + 1;
    var extra := Extra(b);
    if b < 0x80 || b >= 0xF8 || i + extra > |s| {
      return b as int, i;
    }
    cp := FirstBits(b);
    var k := 0;
    while k < extra
      invariant 0 <= k <= extra && i == start + 1 + k && start + 1 + extra <= |s|
      invariant Next(s[start..]) == Follow(s[start..], i - start, extra - k, cp)
    {
      var c := s[i];
      if !Tail(c) {
        return b as int, i;
      }
      cp := cp * 0x40 + c % 0x40;
      i := i + 1;
      k := k + 1;
    }
  }

  method SplitWords(text: bytes) returns (out: seq<bytes>)
    ensures out == Words(text)
  {
    hide Latin, Spelling, Dropped, Separator, Next;
    out := [];
    var word: bytes := [];
    var i := 0;
    while i < |text|
      invariant 0 <= i <= |text|
      invariant Words(text) == out + WordsFrom(text[i..], word)
    {
      var start := i;
      var cp;
      cp, i := ReadNext(text, start);
      assert text[start..][i - start..] == text[i..] && text[start..][..i - start] == text[start..i];
      if Dropped(cp) {
        continue;
      }
      if Separator(cp) {
        if word != [] {
          out := out + [word];
        }
        word := [];
        continue;
      }
      word := word + Spelling(cp, text[start..i]);
    }
    if word != [] {
      out := out + [word];
    }
  }

  /** `std::string::find`, as a test. */
  method Find(s: bytes, w: bytes) returns (found: bool)
    ensures found <==> Occurs(w, s)
  {
    var i := 0;
    while i + |w| <= |s|
      invariant forall j | 0 <= j < i :: !OccursAt(w, s, j)
    {
      if s[i..i + |w|] == w {
        assert OccursAt(w, s, i);
        return true;
      }
      i := i + 1;
    }
    return false;
  }

  lemma {:induction false} SpacedAppend(ws: seq<bytes>, w: bytes)
    ensures Spaced(0x20, ws + [w]) == Spaced(0x20, ws) + [0x20] + w
  {
    if ws == [] {
    } else {
      assert (ws + [w])[1..] == ws[1..] + [w];
      SpacedAppend(ws[1..], w);
    }
  }

  method MatchQuery(query: bytes, title: bytes) returns (ok: bool)
    ensures ok <==> Matches(query, title)
  {
    hide Words, Occurs;
    var joined: bytes := [];
    var words := SplitWords(title);
    for k := 0 to |words|
      invariant joined == Spaced(0x20, words[..k])
    {
      SpacedAppend(words[..k], words[k]);
      assert words[..k + 1] == words[..k] + [words[k]];
      joined := joined + ([0x20] + words[k]);
    }
    assert words[..|words|] == words;
    var asked := SplitWords(query);
    for k := 0 to |asked|
      invariant forall j | 0 <= j < k :: Occurs(asked[j], joined)
    {
      var found := Find(joined, asked[k]);
      if !found {
        return false;
      }
    }
    return true;
  }
}
