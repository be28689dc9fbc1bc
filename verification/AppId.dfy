/**
  The id Steam gives a shortcut (src/common/steam_library.cpp, `appid`): a CRC-32 of the quoted executable
  followed by the name, with the top bit set.
 */
module AppId {
  import opened Bytes

  type word = bv32

  const ALL_ONES: word := 0xffff_ffff

  function Xor(a: word, b: word): word {
    a ^ b
  }

  function Octet(b: byte): word {
    b as bv32
  }

  function LowOctet(a: word): word {
    a & 0xff
  }

  function DropOctet(a: word): word {
    a >> 8
  }

  function SetTopBit(a: word): word {
    a | 0x8000_0000
  }

  function Half(a: word): word {
    a >> 1
  }

  function Feedback(a: word): word {
    if a & 1 == 1 then 0xedb88320 else 0
  }

  /** One round of the inner loop. */
  function Round(crc: word): word {
    Xor(Half(crc), Feedback(crc))
  }

  function Rounds(crc: word, n: nat): word
    decreases n
  {
    if n == 0 then crc else Rounds(Round(crc), n - 1)
  }

  /** The register after the loop over one string, bit by bit as the program shifts it. */
  function Shift(crc: word, s: bytes): word
    decreases s
  {
    if s == [] then crc else Shift(Rounds(Xor(crc, Octet(s[0])), 8), s[1..])
  }

  function AppIdOf(exe: bytes, name: bytes): word {
    SetTopBit(Xor(Shift(Shift(ALL_ONES, exe), name), ALL_ONES))
  }

  // ---- The CRC of RFC 1952, section 8, as its sample code computes it ----

  /** `make_crc_table`: what becomes of `c` in `k` turns of its inner loop. */
  function TableTurns(c: word, k: nat): word
    decreases k
  {
    if k == 0 then c else TableTurns(if c & 1 == 1 then 0xedb88320 ^ (c >> 1) else c >> 1, k - 1)
  }

  /** Entry `n` of the table. */
  function TableEntry(n: word): word {
    TableTurns(n, 8)
  }

  function CrcStep(crc: word, octet: word): word {
    TableEntry((crc ^ octet) & 0xff) ^ (crc >> 8)
  }

  /** `update_crc` */
  function UpdateCrc(crc: word, s: bytes): word
    decreases s
  {
    if s == [] then crc else UpdateCrc(CrcStep(crc, Octet(s[0])), s[1..])
  }

  /** `crc`: of a whole buffer. */
  function Crc32(s: bytes): word {
    UpdateCrc(0xffff_ffff, s) ^ 0xffff_ffff
  }

  lemma XorOfHalf(c: word)
    ensures Xor(Half(c), 0xedb88320) == 0xedb88320 ^ (c >> 1) && Xor(Half(c), 0) == c >> 1
  {
  }

  lemma TurnIsRound(c: word)
    ensures Round(c) == if c & 1 == 1 then 0xedb88320 ^ (c >> 1) else c >> 1
  {
    hide Xor, Half;
    XorOfHalf(c);
  }

  lemma {:induction false} TurnsAreRounds(c: word, k: nat)
    ensures TableTurns(c, k) == Rounds(c, k)
    decreases k
  {
    hide Round;
    if k == 0 {
    } else {
      TurnIsRound(c);
      TurnsAreRounds(Round(c), k - 1);
    }
  }

  // ---- A round is linear over exclusive or, so the low octet and the rest can be shifted apart ----

  lemma HalfIsLinear(a: word, b: word)
    ensures Half(Xor(a, b)) == Xor(Half(a), Half(b))
  {
  }

  lemma ParityOfXor(a: word, b: word)
    ensures (Xor(a, b) & 1 == 1) == ((a & 1 == 1) != (b & 1 == 1))
  {
  }

  lemma FeedbackIsLinear(a: word, b: word)
    ensures Feedback(Xor(a, b)) == Xor(Feedback(a), Feedback(b))
  {
    ParityOfXor(a, b);
  }

  lemma XorReassociates(a: word, b: word, c: word)
    ensures (a ^ b) ^ c == a ^ (b ^ c)
    ensures (a ^ b) ^ c == (a ^ c) ^ b
  {
  }

  lemma XorAssociates(a: word, b: word, c: word)
    ensures Xor(Xor(a, b), c) == Xor(a, Xor(b, c))
  {
    XorReassociates(a, b, c);
  }

  lemma XorCommutes(a: word, b: word)
    ensures Xor(a, b) == Xor(b, a)
  {
  }

  lemma XorLaws(a: word, b: word, c: word)
    ensures Xor(Xor(a, b), c) == Xor(a, Xor(b, c)) == Xor(Xor(a, c), b)
  {
    hide Xor;
    XorAssociates(a, b, c);
    XorAssociates(a, c, b);
    XorCommutes(b, c);
  }

  lemma XorInterchange(a: word, b: word, c: word, d: word)
    ensures Xor(Xor(a, b), Xor(c, d)) == Xor(Xor(a, c), Xor(b, d))
  {
    hide Xor;
    XorLaws(Xor(a, b), c, d);
    XorLaws(a, b, c);
    XorLaws(Xor(a, c), b, d);
  }

  lemma RoundIsLinear(a: word, b: word)
    ensures Round(Xor(a, b)) == Xor(Round(a), Round(b))
  {
    hide Xor, Half, Feedback;
    HalfIsLinear(a, b);
    FeedbackIsLinear(a, b);
    XorInterchange(Half(a), Half(b), Feedback(a), Feedback(b));
  }

  lemma {:induction false} RoundsAreLinear(a: word, b: word, n: nat)
    ensures Rounds(Xor(a, b), n) == Xor(Rounds(a, n), Rounds(b, n))
    decreases n
  {
    hide Round, Xor;
    if n == 0 {
    } else {
      RoundIsLinear(a, b);
      RoundsAreLinear(Round(a), Round(b), n - 1);
    }
  }

  predicate LowBitsClear(c: word, n: nat) {
    match n
    case 0 => true
    case 1 => c & 0x01 == 0
    case 2 => c & 0x03 == 0
    case 3 => c & 0x07 == 0
    case 4 => c & 0x0f == 0
    case 5 => c & 0x1f == 0
    case 6 => c & 0x3f == 0
    case 7 => c & 0x7f == 0
    case _ => c & 0xff == 0
  }

  function Halves(c: word, n: nat): word
    decreases n
  {
    if n == 0 then c else Halves(Half(c), n - 1)
  }

  lemma EvenRoundHalves(c: word, n: nat)
    requires 0 < n <= 8 && LowBitsClear(c, n)
    ensures Round(c) == Half(c) && LowBitsClear(Half(c), n - 1)
  {
  }

  /** While the low bits are clear a round only shifts. */
  lemma {:induction false} RoundsHalve(c: word, n: nat)
    requires n <= 8 && LowBitsClear(c, n)
    ensures Rounds(c, n) == Halves(c, n)
    decreases n
  {
    hide Round, LowBitsClear, Half;
    if n == 0 {
    } else {
      EvenRoundHalves(c, n);
      RoundsHalve(Half(c), n - 1);
    }
  }

  function HighOctets(a: word): word {
    a & 0xffff_ff00
  }

  lemma SplitOctet(crc: word, octet: word)
    requires octet & 0xffff_ff00 == 0
    ensures Xor(crc, octet) == Xor(LowOctet(Xor(crc, octet)), HighOctets(crc))
    ensures LowBitsClear(HighOctets(crc), 8)
    ensures Halves(HighOctets(crc), 8) == DropOctet(crc)
  {
  }

  lemma OctetIsSmall(c: byte)
    ensures Octet(c) & 0xffff_ff00 == 0
  {
  }

  /** Eight rounds of the register are one table step of RFC 1952. */
  lemma {:induction false} OctetStep(crc: word, c: byte)
    ensures Rounds(Xor(crc, Octet(c)), 8) == Xor(TableEntry(LowOctet(Xor(crc, Octet(c)))), DropOctet(crc))
  {
    hide Rounds, Octet, Xor, LowOctet, DropOctet, HighOctets, LowBitsClear, Halves, TableTurns;
    TurnsAreRounds(LowOctet(Xor(crc, Octet(c))), 8);
    OctetIsSmall(c);
    SplitOctet(crc, Octet(c));
    RoundsAreLinear(LowOctet(Xor(crc, Octet(c))), HighOctets(crc), 8);
    RoundsHalve(HighOctets(crc), 8);
  }

  lemma Masked(crc: word, octet: word)
    ensures LowOctet(Xor(crc, octet)) == (crc ^ octet) & 0xff
  {
  }

  lemma Combined(entry: word, crc: word)
    ensures Xor(entry, DropOctet(crc)) == entry ^ (crc >> 8)
  {
  }

  lemma UpdateStep(crc: word, octet: word)
    ensures Xor(TableEntry(LowOctet(Xor(crc, octet))), DropOctet(crc)) == CrcStep(crc, octet)
  {
    hide TableEntry, Xor, LowOctet, DropOctet;
    Masked(crc, octet);
    Combined(TableEntry(LowOctet(Xor(crc, octet))), crc);
  }

  lemma {:induction false} ShiftIsUpdateCrc(crc: word, s: bytes)
    ensures Shift(crc, s) == UpdateCrc(crc, s)
    decreases s
  {
    hide Rounds, Octet, Xor, LowOctet, DropOctet, TableEntry, CrcStep;
    if s == [] {
    } else {
      OctetStep(crc, s[0]);
      UpdateStep(crc, Octet(s[0]));
      ShiftIsUpdateCrc(Rounds(Xor(crc, Octet(s[0])), 8), s[1..]);
    }
  }

  lemma {:induction false} ShiftConcat(crc: word, s: bytes, t: bytes)
    ensures Shift(Shift(crc, s), t) == Shift(crc, s + t)
    decreases s
  {
    hide Rounds, Octet, Xor;
    if s == [] {
      assert s + t == t;
    } else {
      assert (s + t)[1..] == s[1..] + t;
      ShiftConcat(Rounds(Xor(crc, Octet(s[0])), 8), s[1..], t);
    }
  }

  lemma TopBitIsSet(id: word, crc: word)
    requires id == SetTopBit(crc)
    ensures id == crc | 0x8000_0000 && id != 0
  {
  }

  lemma Conditioned(s: bytes)
    ensures Xor(UpdateCrc(ALL_ONES, s), ALL_ONES) == Crc32(s)
  {
    hide UpdateCrc;
  }

  /** The id is RFC 1952's CRC-32 of the two strings joined, with the top bit set; so it is never the "no id" value. */
  lemma {:induction false} AppIdIsCrc32(exe: bytes, name: bytes)
    ensures AppIdOf(exe, name) == Crc32(exe + name) | 0x8000_0000
    ensures AppIdOf(exe, name) != 0
  {
    IdOfCrc(exe, name);
    hide *;
    TopBitIsSet(AppIdOf(exe, name), Crc32(exe + name));
  }

  lemma IdOfCrc(exe: bytes, name: bytes)
    ensures AppIdOf(exe, name) == SetTopBit(Crc32(exe + name))
  {
    hide Shift, UpdateCrc, Xor, SetTopBit, Crc32;
    ShiftConcat(ALL_ONES, exe, name);
    ShiftIsUpdateCrc(ALL_ONES, exe + name);
    Conditioned(exe + name);
  }

  /** The program's loop over one string. */
  method ShiftString(start: word, s: bytes) returns (crc: word)
    ensures crc == Shift(start, s)
  {
    hide Round, Octet, Xor;
    crc := start;
    for k := 0 to |s|
      invariant Shift(start, s) == Shift(crc, s[k..])
    {
      assert s[k..][1..] == s[k + 1..] && s[k..][0] == s[k];
      crc := Xor(crc, Octet(s[k]));
      ghost var mixed := crc;
      for i := 0 to 8
        invariant Rounds(mixed, 8) == Rounds(crc, 8 - i)
      {
        crc := Round(crc);
      }
    }
  }

  method ComputeAppId(exe: bytes, name: bytes) returns (id: word)
    ensures id == AppIdOf(exe, name)
  {
    hide Shift, Xor, SetTopBit;
    var crc := ShiftString(ALL_ONES, exe);
    crc := ShiftString(crc, name);
    return SetTopBit(Xor(crc, ALL_ONES));
  }

  // ---- A renamed game ----

  lemma EntryOfA()
    ensures Rounds(0x41, 8) == 0x1db7106
  {
    assert Round(0x41) == 0xedb88300 && Round(0xedb88300) == 0x76dc4180 && Round(0x76dc4180) == 0x3b6e20c0;
    assert Round(0x3b6e20c0) == 0x1db71060 && Round(0x1db71060) == 0xedb8830 && Round(0xedb8830) == 0x76dc418;
    assert Round(0x76dc418) == 0x3b6e20c && Round(0x3b6e20c) == 0x1db7106;
    hide Round;
    assert Rounds(0x41, 8) == Rounds(0xedb88300, 7);
    assert Rounds(0xedb88300, 7) == Rounds(0x76dc4180, 6);
    assert Rounds(0x76dc4180, 6) == Rounds(0x3b6e20c0, 5);
    assert Rounds(0x3b6e20c0, 5) == Rounds(0x1db71060, 4);
    assert Rounds(0x1db71060, 4) == Rounds(0xedb8830, 3);
    assert Rounds(0xedb8830, 3) == Rounds(0x76dc418, 2);
    assert Rounds(0x76dc418, 2) == Rounds(0x3b6e20c, 1);
    assert Rounds(0x3b6e20c, 1) == Rounds(0x1db7106, 0);
  }

  lemma EntryOfB()
    ensures Rounds(0x42, 8) == 0x98d220bc
  {
    assert Round(0x42) == 0x21 && Round(0x21) == 0xedb88330 && Round(0xedb88330) == 0x76dc4198;
    assert Round(0x76dc4198) == 0x3b6e20cc && Round(0x3b6e20cc) == 0x1db71066 && Round(0x1db71066) == 0xedb8833;
    assert Round(0xedb8833) == 0xead54739 && Round(0xead54739) == 0x98d220bc;
    hide Round;
    assert Rounds(0x42, 8) == Rounds(0x21, 7);
    assert Rounds(0x21, 7) == Rounds(0xedb88330, 6);
    assert Rounds(0xedb88330, 6) == Rounds(0x76dc4198, 5);
    assert Rounds(0x76dc4198, 5) == Rounds(0x3b6e20cc, 4);
    assert Rounds(0x3b6e20cc, 4) == Rounds(0x1db71066, 3);
    assert Rounds(0x1db71066, 3) == Rounds(0xedb8833, 2);
    assert Rounds(0xedb8833, 2) == Rounds(0xead54739, 1);
    assert Rounds(0xead54739, 1) == Rounds(0x98d220bc, 0);
  }

  lemma EntriesDiffer(r: word)
    ensures SetTopBit(Xor(Xor(r, 0x1db7106), ALL_ONES)) != SetTopBit(Xor(Xor(r, 0x98d220bc), ALL_ONES))
  {
  }

  lemma ShiftOne(crc: word, c: byte)
    ensures Shift(crc, [c]) == Rounds(Xor(crc, Octet(c)), 8)
  {
    hide Rounds, Xor, Octet;
    assert [c][1..] == [];
  }

  /** The id of "A" is not the id of "B", whatever the executable. */
  lemma RenamedDiffers(exe: bytes)
    ensures AppIdOf(exe, [0x41]) != AppIdOf(exe, [0x42])
  {
    var r := Shift(ALL_ONES, exe);
    assert Octet(0x41) == 0x41 && Octet(0x42) == 0x42;
    hide Rounds, Xor, Octet, SetTopBit, Shift;
    ShiftOne(r, 0x41);
    ShiftOne(r, 0x42);
    RoundsAreLinear(r, 0x41, 8);
    RoundsAreLinear(r, 0x42, 8);
    EntryOfA();
    EntryOfB();
    EntriesDiffer(Rounds(r, 8));
  }

  lemma SameNumber(a: word, b: word)
    ensures a as int == b as int <==> a == b
  {
    if a as int == b as int {
      assert (a as int) as bv32 == a && (b as int) as bv32 == b;
    }
  }
}
