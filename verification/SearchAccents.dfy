/** How search spells accented letters, against the decompositions of the Unicode Character Database. */
module SearchAccents {
  import opened Bytes
  import opened Utf8
  import opened Search

  // ---- Canonical decompositions of the letters from U+00C0 to U+024F: a base letter and a combining mark ----

  function FromC0(cp: int): Option<(int, int)> {
    match cp
    case 0xC0 => Some((0x41, 0x300)) case 0xC1 => Some((0x41, 0x301)) case 0xC2 => Some((0x41, 0x302))
    case 0xC3 => Some((0x41, 0x303)) case 0xC4 => Some((0x41, 0x308)) case 0xC5 => Some((0x41, 0x30A))
    case 0xC7 => Some((0x43, 0x327)) case 0xC8 => Some((0x45, 0x300)) case 0xC9 => Some((0x45, 0x301))
    case 0xCA => Some((0x45, 0x302)) case 0xCB => Some((0x45, 0x308)) case 0xCC => Some((0x49, 0x300))
    case 0xCD => Some((0x49, 0x301)) case 0xCE => Some((0x49, 0x302)) case 0xCF => Some((0x49, 0x308))
    case 0xD1 => Some((0x4E, 0x303)) case 0xD2 => Some((0x4F, 0x300)) case 0xD3 => Some((0x4F, 0x301))
    case 0xD4 => Some((0x4F, 0x302)) case 0xD5 => Some((0x4F, 0x303)) case 0xD6 => Some((0x4F, 0x308))
    case 0xD9 => Some((0x55, 0x300)) case 0xDA => Some((0x55, 0x301)) case 0xDB => Some((0x55, 0x302))
    case 0xDC => Some((0x55, 0x308)) case 0xDD => Some((0x59, 0x301)) case 0xE0 => Some((0x61, 0x300))
    case 0xE1 => Some((0x61, 0x301)) case 0xE2 => Some((0x61, 0x302)) case 0xE3 => Some((0x61, 0x303))
    case 0xE4 => Some((0x61, 0x308)) case 0xE5 => Some((0x61, 0x30A)) case 0xE7 => Some((0x63, 0x327))
    case 0xE8 => Some((0x65, 0x300)) case 0xE9 => Some((0x65, 0x301)) case 0xEA => Some((0x65, 0x302))
    case 0xEB => Some((0x65, 0x308)) case 0xEC => Some((0x69, 0x300)) case 0xED => Some((0x69, 0x301))
    case 0xEE => Some((0x69, 0x302)) case 0xEF => Some((0x69, 0x308)) case 0xF1 => Some((0x6E, 0x303))
    case 0xF2 => Some((0x6F, 0x300)) case 0xF3 => Some((0x6F, 0x301)) case 0xF4 => Some((0x6F, 0x302))
    case 0xF5 => Some((0x6F, 0x303)) case 0xF6 => Some((0x6F, 0x308)) case 0xF9 => Some((0x75, 0x300))
    case 0xFA => Some((0x75, 0x301)) case 0xFB => Some((0x75, 0x302)) case 0xFC => Some((0x75, 0x308))
    case 0xFD => Some((0x79, 0x301)) case 0xFF => Some((0x79, 0x308))
    case _ => None
  }

  function From100(cp: int): Option<(int, int)> {
    match cp
    case 0x100 => Some((0x41, 0x304)) case 0x101 => Some((0x61, 0x304)) case 0x102 => Some((0x41, 0x306))
    case 0x103 => Some((0x61, 0x306)) case 0x104 => Some((0x41, 0x328)) case 0x105 => Some((0x61, 0x328))
    case 0x106 => Some((0x43, 0x301)) case 0x107 => Some((0x63, 0x301)) case 0x108 => Some((0x43, 0x302))
    case 0x109 => Some((0x63, 0x302)) case 0x10A => Some((0x43, 0x307)) case 0x10B => Some((0x63, 0x307))
    case 0x10C => Some((0x43, 0x30C)) case 0x10D => Some((0x63, 0x30C)) case 0x10E => Some((0x44, 0x30C))
    case 0x10F => Some((0x64, 0x30C)) case 0x112 => Some((0x45, 0x304)) case 0x113 => Some((0x65, 0x304))
    case 0x114 => Some((0x45, 0x306)) case 0x115 => Some((0x65, 0x306)) case 0x116 => Some((0x45, 0x307))
    case 0x117 => Some((0x65, 0x307)) case 0x118 => Some((0x45, 0x328)) case 0x119 => Some((0x65, 0x328))
    case 0x11A => Some((0x45, 0x30C)) case 0x11B => Some((0x65, 0x30C)) case 0x11C => Some((0x47, 0x302))
    case 0x11D => Some((0x67, 0x302)) case 0x11E => Some((0x47, 0x306)) case 0x11F => Some((0x67, 0x306))
    case 0x120 => Some((0x47, 0x307)) case 0x121 => Some((0x67, 0x307)) case 0x122 => Some((0x47, 0x327))
    case 0x123 => Some((0x67, 0x327)) case 0x124 => Some((0x48, 0x302)) case 0x125 => Some((0x68, 0x302))
    case 0x128 => Some((0x49, 0x303)) case 0x129 => Some((0x69, 0x303)) case 0x12A => Some((0x49, 0x304))
    case 0x12B => Some((0x69, 0x304)) case 0x12C => Some((0x49, 0x306)) case 0x12D => Some((0x69, 0x306))
    case 0x12E => Some((0x49, 0x328)) case 0x12F => Some((0x69, 0x328)) case 0x130 => Some((0x49, 0x307))
    case 0x134 => Some((0x4A, 0x302)) case 0x135 => Some((0x6A, 0x302)) case 0x136 => Some((0x4B, 0x327))
    case 0x137 => Some((0x6B, 0x327)) case 0x139 => Some((0x4C, 0x301)) case 0x13A => Some((0x6C, 0x301))
    case 0x13B => Some((0x4C, 0x327)) case 0x13C => Some((0x6C, 0x327)) case 0x13D => Some((0x4C, 0x30C))
    case 0x13E => Some((0x6C, 0x30C))
    case _ => None
  }

  function From140(cp: int): Option<(int, int)> {
    match cp
    case 0x143 => Some((0x4E, 0x301)) case 0x144 => Some((0x6E, 0x301)) case 0x145 => Some((0x4E, 0x327))
    case 0x146 => Some((0x6E, 0x327)) case 0x147 => Some((0x4E, 0x30C)) case 0x148 => Some((0x6E, 0x30C))
    case 0x14C => Some((0x4F, 0x304)) case 0x14D => Some((0x6F, 0x304)) case 0x14E => Some((0x4F, 0x306))
    case 0x14F => Some((0x6F, 0x306)) case 0x150 => Some((0x4F, 0x30B)) case 0x151 => Some((0x6F, 0x30B))
    case 0x154 => Some((0x52, 0x301)) case 0x155 => Some((0x72, 0x301)) case 0x156 => Some((0x52, 0x327))
    case 0x157 => Some((0x72, 0x327)) case 0x158 => Some((0x52, 0x30C)) case 0x159 => Some((0x72, 0x30C))
    case 0x15A => Some((0x53, 0x301)) case 0x15B => Some((0x73, 0x301)) case 0x15C => Some((0x53, 0x302))
    case 0x15D => Some((0x73, 0x302)) case 0x15E => Some((0x53, 0x327)) case 0x15F => Some((0x73, 0x327))
    case 0x160 => Some((0x53, 0x30C)) case 0x161 => Some((0x73, 0x30C)) case 0x162 => Some((0x54, 0x327))
    case 0x163 => Some((0x74, 0x327)) case 0x164 => Some((0x54, 0x30C)) case 0x165 => Some((0x74, 0x30C))
    case 0x168 => Some((0x55, 0x303)) case 0x169 => Some((0x75, 0x303)) case 0x16A => Some((0x55, 0x304))
    case 0x16B => Some((0x75, 0x304)) case 0x16C => Some((0x55, 0x306)) case 0x16D => Some((0x75, 0x306))
    case 0x16E => Some((0x55, 0x30A)) case 0x16F => Some((0x75, 0x30A)) case 0x170 => Some((0x55, 0x30B))
    case 0x171 => Some((0x75, 0x30B)) case 0x172 => Some((0x55, 0x328)) case 0x173 => Some((0x75, 0x328))
    case 0x174 => Some((0x57, 0x302)) case 0x175 => Some((0x77, 0x302)) case 0x176 => Some((0x59, 0x302))
    case 0x177 => Some((0x79, 0x302)) case 0x178 => Some((0x59, 0x308)) case 0x179 => Some((0x5A, 0x301))
    case 0x17A => Some((0x7A, 0x301)) case 0x17B => Some((0x5A, 0x307)) case 0x17C => Some((0x7A, 0x307))
    case 0x17D => Some((0x5A, 0x30C)) case 0x17E => Some((0x7A, 0x30C))
    case _ => None
  }

  function From180(cp: int): Option<(int, int)> {
    match cp
    case 0x1A0 => Some((0x4F, 0x31B)) case 0x1A1 => Some((0x6F, 0x31B)) case 0x1AF => Some((0x55, 0x31B))
    case 0x1B0 => Some((0x75, 0x31B)) case 0x1CD => Some((0x41, 0x30C)) case 0x1CE => Some((0x61, 0x30C))
    case 0x1CF => Some((0x49, 0x30C)) case 0x1D0 => Some((0x69, 0x30C)) case 0x1D1 => Some((0x4F, 0x30C))
    case 0x1D2 => Some((0x6F, 0x30C)) case 0x1D3 => Some((0x55, 0x30C)) case 0x1D4 => Some((0x75, 0x30C))
    case 0x1D5 => Some((0xDC, 0x304)) case 0x1D6 => Some((0xFC, 0x304)) case 0x1D7 => Some((0xDC, 0x301))
    case 0x1D8 => Some((0xFC, 0x301)) case 0x1D9 => Some((0xDC, 0x30C)) case 0x1DA => Some((0xFC, 0x30C))
    case 0x1DB => Some((0xDC, 0x300)) case 0x1DC => Some((0xFC, 0x300)) case 0x1DE => Some((0xC4, 0x304))
    case 0x1DF => Some((0xE4, 0x304)) case 0x1E0 => Some((0x226, 0x304)) case 0x1E1 => Some((0x227, 0x304))
    case 0x1E2 => Some((0xC6, 0x304)) case 0x1E3 => Some((0xE6, 0x304)) case 0x1E6 => Some((0x47, 0x30C))
    case 0x1E7 => Some((0x67, 0x30C)) case 0x1E8 => Some((0x4B, 0x30C)) case 0x1E9 => Some((0x6B, 0x30C))
    case 0x1EA => Some((0x4F, 0x328)) case 0x1EB => Some((0x6F, 0x328)) case 0x1EC => Some((0x1EA, 0x304))
    case 0x1ED => Some((0x1EB, 0x304)) case 0x1EE => Some((0x1B7, 0x30C)) case 0x1EF => Some((0x292, 0x30C))
    case 0x1F0 => Some((0x6A, 0x30C)) case 0x1F4 => Some((0x47, 0x301)) case 0x1F5 => Some((0x67, 0x301))
    case 0x1F8 => Some((0x4E, 0x300)) case 0x1F9 => Some((0x6E, 0x300)) case 0x1FA => Some((0xC5, 0x301))
    case 0x1FB => Some((0xE5, 0x301)) case 0x1FC => Some((0xC6, 0x301)) case 0x1FD => Some((0xE6, 0x301))
    case 0x1FE => Some((0xD8, 0x301)) case 0x1FF => Some((0xF8, 0x301))
    case _ => None
  }

  function From200(cp: int): Option<(int, int)> {
    match cp
    case 0x200 => Some((0x41, 0x30F)) case 0x201 => Some((0x61, 0x30F)) case 0x202 => Some((0x41, 0x311))
    case 0x203 => Some((0x61, 0x311)) case 0x204 => Some((0x45, 0x30F)) case 0x205 => Some((0x65, 0x30F))
    case 0x206 => Some((0x45, 0x311)) case 0x207 => Some((0x65, 0x311)) case 0x208 => Some((0x49, 0x30F))
    case 0x209 => Some((0x69, 0x30F)) case 0x20A => Some((0x49, 0x311)) case 0x20B => Some((0x69, 0x311))
    case 0x20C => Some((0x4F, 0x30F)) case 0x20D => Some((0x6F, 0x30F)) case 0x20E => Some((0x4F, 0x311))
    case 0x20F => Some((0x6F, 0x311)) case 0x210 => Some((0x52, 0x30F)) case 0x211 => Some((0x72, 0x30F))
    case 0x212 => Some((0x52, 0x311)) case 0x213 => Some((0x72, 0x311)) case 0x214 => Some((0x55, 0x30F))
    case 0x215 => Some((0x75, 0x30F)) case 0x216 => Some((0x55, 0x311)) case 0x217 => Some((0x75, 0x311))
    case 0x218 => Some((0x53, 0x326)) case 0x219 => Some((0x73, 0x326)) case 0x21A => Some((0x54, 0x326))
    case 0x21B => Some((0x74, 0x326)) case 0x21E => Some((0x48, 0x30C)) case 0x21F => Some((0x68, 0x30C))
    case 0x226 => Some((0x41, 0x307)) case 0x227 => Some((0x61, 0x307)) case 0x228 => Some((0x45, 0x327))
    case 0x229 => Some((0x65, 0x327)) case 0x22A => Some((0xD6, 0x304)) case 0x22B => Some((0xF6, 0x304))
    case 0x22C => Some((0xD5, 0x304)) case 0x22D => Some((0xF5, 0x304)) case 0x22E => Some((0x4F, 0x307))
    case 0x22F => Some((0x6F, 0x307)) case 0x230 => Some((0x22E, 0x304)) case 0x231 => Some((0x22F, 0x304))
    case 0x232 => Some((0x59, 0x304)) case 0x233 => Some((0x79, 0x304))
    case _ => None
  }

  function Decomposition(cp: int): Option<(int, int)> {
    if cp < 0x100 then FromC0(cp)
    else if cp < 0x140 then From100(cp)
    else if cp < 0x180 then From140(cp)
    else if cp < 0x200 then From180(cp)
    else From200(cp)
  }

  /** Accented forms of ae, of o with stroke and of ezh: they have a decomposition, and the table lacks them. */
  predicate LeftOut(cp: int) {
    cp == 0x1E2 || cp == 0x1E3 || cp == 0x1EE || cp == 0x1EF || 0x1FC <= cp <= 0x1FF
  }

  /** Ligatures, digraphs and letters with a stroke, which have none: the ASCII letters they stand for. */
  function Letters(cp: int): Option<seq<int>> {
    match cp
    case 0xC6 | 0xE6 => Some([0x61, 0x65])
    case 0xD8 | 0xF8 => Some([0x6F])
    case 0xDF => Some([0x73, 0x73])
    case 0x110 | 0x111 => Some([0x64])
    case 0x132 | 0x133 => Some([0x69, 0x6A])
    case 0x141 | 0x142 => Some([0x6C])
    case 0x152 | 0x153 => Some([0x6F, 0x65])
    case 0x17F => Some([0x73])
    case 0x1C4 | 0x1C5 | 0x1C6 | 0x1F1 | 0x1F2 | 0x1F3 => Some([0x64, 0x7A])
    case 0x1C7 | 0x1C8 | 0x1C9 => Some([0x6C, 0x6A])
    case 0x1CA | 0x1CB | 0x1CC => Some([0x6E, 0x6A])
    case _ => None
  }

  // ---- The table agrees with them ----

  /** The one letter in ASCII that a code point is spelled as, if it is one. */
  function OneLetter(cp: int): Option<char> {
    if Capital(cp) then Some((cp + 0x20) as char)
    else if 0x61 <= cp <= 0x7A then Some(cp as char)
    else LatinLetter(cp)
  }

  ghost predicate Agrees(cp: int, d: Option<(int, int)>) {
    d.Some? && !LeftOut(cp) ==> LatinLetter(cp).Some? && LatinLetter(cp) == OneLetter(d.value.0)
  }

  lemma AgreesC0(cp: int)
    requires 0xC0 <= cp < 0xE0
    ensures Agrees(cp, FromC0(cp))
  {
  }

  lemma AgreesE0(cp: int)
    requires 0xE0 <= cp < 0x100
    ensures Agrees(cp, FromC0(cp))
  {
  }

  lemma Agrees100(cp: int)
    requires 0x100 <= cp < 0x120
    ensures Agrees(cp, From100(cp))
  {
  }

  lemma Agrees120(cp: int)
    requires 0x120 <= cp < 0x140
    ensures Agrees(cp, From100(cp))
  {
  }

  lemma Agrees140(cp: int)
    requires 0x140 <= cp < 0x160
    ensures Agrees(cp, From140(cp))
  {
  }

  lemma Agrees160(cp: int)
    requires 0x160 <= cp < 0x180
    ensures Agrees(cp, From140(cp))
  {
  }

  lemma Agrees180(cp: int)
    requires 0x180 <= cp < 0x1E0
    ensures Agrees(cp, From180(cp))
  {
  }

  lemma Agrees1E0(cp: int)
    requires 0x1E0 <= cp < 0x200
    ensures Agrees(cp, From180(cp))
  {
  }

  lemma Agrees200(cp: int)
    requires 0x200 <= cp < 0x220
    ensures Agrees(cp, From200(cp))
  {
  }

  lemma Agrees220(cp: int)
    requires 0x220 <= cp < 0x250
    ensures Agrees(cp, From200(cp))
  {
  }

  lemma DecompositionAgrees(cp: int)
    ensures Agrees(cp, Decomposition(cp))
  {
    hide Agrees, FromC0, From100, From140, From180, From200;
    if 0xC0 <= cp < 0x250 {
      if cp < 0xE0 {
        AgreesC0(cp);
      } else if cp < 0x100 {
        AgreesE0(cp);
      } else if cp < 0x120 {
        Agrees100(cp);
      } else if cp < 0x140 {
        Agrees120(cp);
      } else if cp < 0x160 {
        Agrees140(cp);
      } else if cp < 0x180 {
        Agrees160(cp);
      } else if cp < 0x1E0 {
        Agrees180(cp);
      } else if cp < 0x200 {
        Agrees1E0(cp);
      } else if cp < 0x220 {
        Agrees200(cp);
      } else {
        Agrees220(cp);
      }
    } else {
      NoDecomposition(cp);
    }
  }

  lemma NoDecomposition(cp: int)
    requires !(0xC0 <= cp < 0x250)
    ensures Decomposition(cp).None? && Agrees(cp, Decomposition(cp))
  {
  }

  lemma MarksCombine(cp: int)
    requires Decomposition(cp).Some?
    ensures Combining(Decomposition(cp).value.1)
  {
  }

  lemma KeepsC0(cp: int)
    requires 0xC0 <= cp < 0xE0
    ensures FromC0(cp).None? && Letters(cp).None? ==> Latin(cp).None?
  {
  }

  lemma KeepsE0(cp: int)
    requires 0xE0 <= cp < 0x100
    ensures FromC0(cp).None? && Letters(cp).None? ==> Latin(cp).None?
  {
  }

  lemma Keeps100(cp: int)
    requires 0x100 <= cp < 0x120
    ensures From100(cp).None? && Letters(cp).None? ==> Latin(cp).None?
  {
  }

  lemma Keeps120(cp: int)
    requires 0x120 <= cp < 0x140
    ensures From100(cp).None? && Letters(cp).None? ==> Latin(cp).None?
  {
  }

  lemma Keeps140(cp: int)
    requires 0x140 <= cp < 0x160
    ensures From140(cp).None? && Letters(cp).None? ==> Latin(cp).None?
  {
  }

  lemma Keeps160(cp: int)
    requires 0x160 <= cp < 0x180
    ensures From140(cp).None? && Letters(cp).None? ==> Latin(cp).None?
  {
  }

  lemma Keeps180(cp: int)
    requires 0x180 <= cp < 0x1E0
    ensures From180(cp).None? && Letters(cp).None? ==> Latin(cp).None?
  {
  }

  lemma Keeps1E0(cp: int)
    requires 0x1E0 <= cp < 0x200
    ensures From180(cp).None? && Letters(cp).None? ==> Latin(cp).None?
  {
  }

  lemma Keeps200(cp: int)
    requires 0x200 <= cp < 0x220
    ensures From200(cp).None? && Letters(cp).None? ==> Latin(cp).None?
  {
  }

  lemma Keeps220(cp: int)
    requires 0x220 <= cp < 0x250
    ensures From200(cp).None? && Letters(cp).None? ==> Latin(cp).None?
  {
  }

  /** The table has a letter exactly if it has one of these decompositions, or stands for such letters. */
  lemma TableHas(cp: int)
    ensures Latin(cp).Some? <==> 0xC0 <= cp < 0x250 && !LeftOut(cp) && (Decomposition(cp).Some? || Letters(cp).Some?)
  {
    hide Agrees, FromC0, From100, From140, From180, From200, Letters, LatinLetter, LatinPair, LeftOut, Decomposition;
    DecompositionAgrees(cp);
    AgreesSays(cp);
    LettersHave(cp);
    LeftOutIsNone(cp);
    if 0xC0 <= cp < 0x250 && Decomposition(cp).None? && Letters(cp).None? {
      DecompositionFrom(cp);
      if cp < 0xE0 {
        KeepsC0(cp);
      } else if cp < 0x100 {
        KeepsE0(cp);
      } else if cp < 0x120 {
        Keeps100(cp);
      } else if cp < 0x140 {
        Keeps120(cp);
      } else if cp < 0x160 {
        Keeps140(cp);
      } else if cp < 0x180 {
        Keeps160(cp);
      } else if cp < 0x1E0 {
        Keeps180(cp);
      } else if cp < 0x200 {
        Keeps1E0(cp);
      } else if cp < 0x220 {
        Keeps200(cp);
      } else {
        Keeps220(cp);
      }
    } else if !(0xC0 <= cp < 0x250) {
      NoDecomposition(cp);
    }
  }

  lemma AgreesSays(cp: int)
    requires Agrees(cp, Decomposition(cp))
    ensures Decomposition(cp).Some? && !LeftOut(cp) ==> Latin(cp).Some?
  {
    hide FromC0, From100, From140, From180, From200, LatinLetter;
  }

  lemma DecompositionFrom(cp: int)
    ensures Decomposition(cp) ==
            if cp < 0x100 then FromC0(cp) else if cp < 0x140 then From100(cp) else if cp < 0x180 then From140(cp)
            else if cp < 0x200 then From180(cp) else From200(cp)
  {
    hide FromC0, From100, From140, From180, From200;
  }

  lemma LettersInTable(cp: int)
    requires Letters(cp).Some?
    ensures 0xC0 <= cp < 0x250 && Latin(cp).Some? && |Latin(cp).value| == |Letters(cp).value|
    ensures forall i | 0 <= i < |Letters(cp).value| :: Latin(cp).value[i] as int == Letters(cp).value[i]
  {
  }

  lemma LettersHave(cp: int)
    ensures Letters(cp).Some? ==> 0xC0 <= cp < 0x250 && Latin(cp).Some? && Fold(cp) == Letters(cp).value
  {
    if Letters(cp).Some? {
      LettersInTable(cp);
      hide Letters, Latin;
    }
  }

  /** A letter with a decomposition is spelled as its base letter, unless it is left out; then it spells itself. */
  lemma SpelledAsBase(cp: int)
    requires Decomposition(cp).Some?
    ensures Fold(cp) == Fold(Decomposition(cp).value.0) <==> !LeftOut(cp)
  {
    hide FromC0, From100, From140, From180, From200, Decomposition, LatinPair, LatinLetter;
    DecompositionAgrees(cp);
    DecomposedRange(cp);
    if LeftOut(cp) {
      LeftOutBase(cp);
      LeftOutIsNone(cp);
    }
  }

  lemma SignsHaveNone(cp: int)
    ensures cp == 0xD7 || cp == 0xF7 ==> Decomposition(cp).None?
  {
  }

  lemma DecomposedRange(cp: int)
    requires Decomposition(cp).Some?
    ensures 0xC0 <= cp < 0x250 && !Capital(cp) && !Dropped(cp) && !Separator(cp)
    ensures LeftOut(cp) || OneLetter(Decomposition(cp).value.0) != None
  {
    hide LatinLetter, LatinPair, FromC0, From100, From140, From180, From200, Decomposition;
    SignsHaveNone(cp);
    if !(0xC0 <= cp < 0x250) {
      NoDecomposition(cp);
    }
    if !LeftOut(cp) {
      DecompositionAgrees(cp);
    }
  }

  lemma LeftOutBase(cp: int)
    requires LeftOut(cp)
    ensures Decomposition(cp).Some? && Fold(Decomposition(cp).value.0) != [cp]
  {
    LeftOutBases(cp);
    var base := Decomposition(cp).value.0;
    hide Decomposition, LatinLetter, LatinPair;
    LettersHave(base);
    assert Fold(base)[0] != cp;
  }

  lemma LeftOutBases(cp: int)
    requires LeftOut(cp)
    ensures Decomposition(cp).Some?
    ensures var base := Decomposition(cp).value.0;
      base != cp && (Letters(base).Some? || (Latin(base).None? && !Capital(base)))
  {
  }

  lemma LeftOutIsNone(cp: int)
    ensures LeftOut(cp) ==> Latin(cp).None?
  {
  }

  // ---- What does not matter, and what does ----

  /**
    Exact condition: writing an accented letter as base letter and mark, anywhere in a text, changes no word if and only
    if it is not one of the eight that the table lacks.
   */
  lemma AccentsDoNotMatter(before: seq<int>, cp: int, rest: seq<int>)
    requires Decomposition(cp).Some?
    requires var (base, mark) := Decomposition(cp).value;
      AllScalars(before + [cp] + rest) && AllScalars(before + [base, mark] + rest)
    ensures var (base, mark) := Decomposition(cp).value;
      Words(EncodeAll(before + [cp] + rest)) == Words(EncodeAll(before + [base, mark] + rest)) <==> !LeftOut(cp)
  {
    var (base, mark) := Decomposition(cp).value;
    DecomposedRange(cp);
    SpelledAsBase(cp);
    BaseIsLetter(cp);
    MarksCombine(cp);
    KeptOne(cp);
    KeptMarked(base, mark);
    hide Decomposition, Fold, Dropped, Separator, Words, LeftOut, Kept;
    OnlyTheSpellingMatters(before, [cp], [base, mark], rest);
  }

  lemma BaseIsLetter(cp: int)
    requires Decomposition(cp).Some?
    ensures !Dropped(Decomposition(cp).value.0) && !Separator(Decomposition(cp).value.0)
  {
  }

  lemma KeptOne(cp: int)
    requires !Dropped(cp) && !Separator(cp)
    ensures Kept([cp]) == Fold(cp)
  {
    hide Fold;
    assert [cp][1..] == [] && Fold(cp) + [] == Fold(cp);
  }

  lemma KeptMarked(base: int, mark: int)
    requires !Dropped(base) && !Separator(base) && Combining(mark)
    ensures Kept([base, mark]) == Fold(base)
  {
    hide Fold;
    assert [base, mark][1..] == [mark] && [mark][1..] == [] && Fold(base) + [] == Fold(base);
    assert Kept([mark]) == [];
  }

  /** And the other letters of the table stand for their ASCII letters, anywhere in a text. */
  lemma LettersStandFor(before: seq<int>, cp: int, rest: seq<int>)
    requires Letters(cp).Some?
    requires AllScalars(before + [cp] + rest) && AllScalars(before + Letters(cp).value + rest)
    ensures Words(EncodeAll(before + [cp] + rest)) == Words(EncodeAll(before + Letters(cp).value + rest))
  {
    var ascii := Letters(cp).value;
    LettersHave(cp);
    KeptOne(cp);
    KeptSmall(ascii);
    hide Letters, Fold, Words, Kept;
    OnlyTheSpellingMatters(before, [cp], ascii, rest);
  }

  lemma {:induction false} KeptSmall(s: seq<int>)
    requires forall i | 0 <= i < |s| :: 0x61 <= s[i] <= 0x7A
    ensures Kept(s) == s && InWords(s)
  {
    hide Latin;
    if s == [] {
    } else {
      KeptSmall(s[1..]);
      assert Fold(s[0]) == [s[0]];
      assert s == [s[0]] + s[1..];
    }
  }

  /** Every other letter of the range keeps itself. */
  lemma OthersKeepThemselves(cp: int)
    requires 0xC0 <= cp < 0x250 && cp != 0xD7 && cp != 0xF7
    ensures Words(Encode(cp)) == [Encode(cp)] <==> LeftOut(cp) || (Decomposition(cp).None? && Letters(cp).None?)
  {
    TableHas(cp);
    AloneIsSpelling(cp);
    hide Decomposition, Letters, LeftOut, Words, Encode, LatinLetter, LatinPair;
    if Latin(cp).Some? {
      SpelledInAscii(cp);
    }
  }

  lemma SpelledInAscii(cp: int)
    requires Scalar(cp) && Latin(cp).Some?
    ensures Spelling(cp, Encode(cp)) != Encode(cp)
  {
    hide LatinLetter, LatinPair;
    assert Encode(cp)[0] >= 0x80 && Spelling(cp, Encode(cp))[0] < 0x80;
  }

  lemma AloneIsSpelling(cp: int)
    requires Scalar(cp) && !Dropped(cp) && !Separator(cp)
    ensures Words(Encode(cp)) == [Spelling(cp, Encode(cp))]
  {
    hide Encode, WordsFrom, Dropped, Separator, Latin, Fold, Spelling;
    assert Encode(cp) + [] == Encode(cp) && [] + Spelling(cp, Encode(cp)) == Spelling(cp, Encode(cp));
    WordsStep(cp, [], []);
    NoText(Spelling(cp, Encode(cp)));
    SpellingIsNotEmpty(cp);
    WordsFromNothing(Encode(cp));
  }

  lemma SpellingIsNotEmpty(cp: int)
    requires Scalar(cp)
    ensures Spelling(cp, Encode(cp)) != []
  {
  }

}
