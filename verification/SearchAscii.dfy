/** Which code points search takes for parts of words, in so many numbers. */
module SearchAscii {
  import opened Bytes
  import opened Utf8
  import opened Search
  import opened SearchAccents

  /** Runs of letters and digits, in small letters; an apostrophe is passed over. */
  function AsciiWords(s: bytes, word: bytes): seq<bytes>
    decreases |s|
  {
    if s == [] then (if word == [] then [] else [word])
    else if 0x61 <= s[0] <= 0x7A || 0x30 <= s[0] <= 0x39 then AsciiWords(s[1..], word + [s[0]])
    else if 0x41 <= s[0] <= 0x5A then AsciiWords(s[1..], word + [s[0] + 0x20])
    else if s[0] == 0x27 then AsciiWords(s[1..], word)
    else (if word == [] then [] else [word]) + AsciiWords(s[1..], [])
  }

  /** On ASCII that is all `words` does. */
  lemma {:induction false} WordsOfAscii(s: bytes, word: bytes)
    requires forall c <- s :: c < 0x80
    ensures WordsFrom(s, word) == AsciiWords(s, word)
    decreases |s|
  {
    hide Latin;
    if s == [] {
    } else {
      assert s[0] in s;
      AsciiStep(s, word);
      var more := if s[0] == 0x27 then word
        else if 0x61 <= s[0] <= 0x7A || 0x30 <= s[0] <= 0x39 then word + [s[0]]
        else if 0x41 <= s[0] <= 0x5A then word + [s[0] + 0x20]
        else [];
      assert forall c <- s[1..] :: c in s;
      WordsOfAscii(s[1..], more);
    }
  }

  lemma AsciiStep(s: bytes, word: bytes)
    requires s != [] && s[0] < 0x80
    ensures WordsFrom(s, word) ==
            if s[0] == 0x27 then WordsFrom(s[1..], word)
            else if 0x61 <= s[0] <= 0x7A || 0x30 <= s[0] <= 0x39 then WordsFrom(s[1..], word + [s[0]])
            else if 0x41 <= s[0] <= 0x5A then WordsFrom(s[1..], word + [s[0] + 0x20])
            else Flush(word) + WordsFrom(s[1..], [])
  {
    hide LatinLetter, LatinPair;
    assert Next(s) == (s[0] as int, 1) && s[..1] == [s[0]];
    WordsByNext(s, word);
  }

  /** Beyond ASCII: signs, general punctuation and symbols, the punctuation of Chinese and Japanese, combining marks. */
  predicate NoPartOfWords(cp: int) {
    || 0x80 <= cp < 0xC0 || cp == 0xD7 || cp == 0xF7 || cp == 0x2BC || 0x300 <= cp < 0x370 || 0x2000 <= cp < 0x2C00
    || 0x3000 <= cp < 0x3040 || 0xFE10 <= cp < 0xFE70 || 0xFF01 <= cp < 0xFF10
  }

  /** These are no words; every other script's characters are words as they are. */
  lemma BeyondAscii(cp: int)
    requires Scalar(cp) && cp >= 0x80
    ensures Words(Encode(cp)) == [] <==> NoPartOfWords(cp)
    ensures cp >= 0x250 && !NoPartOfWords(cp) ==> Words(Encode(cp)) == [Encode(cp)]
  {
    NoWordAlone(cp);
    assert Dropped(cp) || Separator(cp) <==> NoPartOfWords(cp);
    hide Words, Encode, LatinLetter, LatinPair, Dropped, Separator;
    if cp >= 0x250 && !NoPartOfWords(cp) {
      AloneIsSpelling(cp);
    }
  }

  /** The apostrophes and combining marks among them do not even end a word. */
  lemma JoinsWords(before: seq<int>, cp: int, rest: seq<int>)
    requires AllScalars(before + [cp] + rest) && AllScalars(before + rest)
    requires cp == 0x27 || cp == 0x2018 || cp == 0x2019 || cp == 0x2BC || 0x300 <= cp < 0x370
    ensures Words(EncodeAll(before + [cp] + rest)) == Words(EncodeAll(before + rest))
  {
    MarksDoNotMatter(before, cp, rest);
  }

  /** And every other one of them does: it stands for a space. */
  lemma EndsWords(before: seq<int>, cp: int, rest: seq<int>)
    requires AllScalars(before + [cp] + rest) && AllScalars(before + [0x20] + rest)
    requires NoPartOfWords(cp) && cp != 0x2018 && cp != 0x2019 && cp != 0x2BC && !(0x300 <= cp < 0x370)
    ensures Words(EncodeAll(before + [cp] + rest)) == Words(EncodeAll(before + [0x20] + rest))
  {
    SeparatorsAreOne(before, cp, 0x20, rest);
  }
}
