/**
 * The glyph table of the marquee package (marquee/marquee.go): for each byte
 * that has a glyph, where that glyph sits on the five-row font sheet.
 */
module GlyphTable {

  newtype byte = b: int | 0 <= b < 256

  datatype Option<T> = None | Some(value: T)

  /** A glyph's columns on the font sheet: the first one and how many. */
  datatype Cut = Cut(offset: nat, width: nat)

  /** The narrowest font sheet that holds every cut. */
  const SheetWidth := 286

  /** The byte the layout treats as a space. */
  const Space: byte := 32

  /**
   * The static table charDict, as a lookup: None for a byte it has no
   * entry for. Every cut is between one and five columns wide and lies in the
   * first SheetWidth columns of the sheet; the space has no glyph.
   */
  function CharDict(c: byte): (cut: Option<Cut>)
    ensures cut.Some? ==> 1 <= cut.value.width <= 5 && cut.value.offset + cut.value.width <= SheetWidth
    ensures c == Space ==> cut.None?
  {
    match c
    case 33 => Some(Cut(201, 1))  // !
    case 35 => Some(Cut(203, 5))  // #
    case 36 => Some(Cut(209, 5))  // $
    case 37 => Some(Cut(215, 5))  // %
    case 38 => Some(Cut(225, 4))  // &
    case 40 => Some(Cut(234, 2))  // (
    case 41 => Some(Cut(237, 2))  // )
    case 42 => Some(Cut(230, 3))  // *
    case 43 => Some(Cut(246, 3))  // +
    case 44 => Some(Cut(282, 2))  // ,
    case 45 => Some(Cut(254, 3))  // -
    case 46 => Some(Cut(285, 1))  // .
    case 47 => Some(Cut(258, 5))  // /
    case 48 => Some(Cut(195, 5))  // 0
    case 49 => Some(Cut(151, 2))  // 1
    case 50 => Some(Cut(154, 4))  // 2
    case 51 => Some(Cut(159, 4))  // 3
    case 52 => Some(Cut(164, 4))  // 4
    case 53 => Some(Cut(169, 4))  // 5
    case 54 => Some(Cut(174, 4))  // 6
    case 55 => Some(Cut(179, 3))  // 7
    case 56 => Some(Cut(183, 5))  // 8
    case 57 => Some(Cut(189, 5))  // 9
    case 60 => Some(Cut(276, 2))  // <
    case 61 => Some(Cut(250, 3))  // =
    case 62 => Some(Cut(279, 2))  // >
    case 65 => Some(Cut(0, 5))  // A
    case 66 => Some(Cut(6, 5))  // B
    case 67 => Some(Cut(12, 5))  // C
    case 68 => Some(Cut(18, 5))  // D
    case 69 => Some(Cut(24, 5))  // E
    case 70 => Some(Cut(30, 5))  // F
    case 71 => Some(Cut(36, 5))  // G
    case 72 => Some(Cut(42, 5))  // H
    case 73 => Some(Cut(48, 1))  // I
    case 74 => Some(Cut(50, 5))  // J
    case 75 => Some(Cut(56, 4))  // K
    case 76 => Some(Cut(61, 5))  // L
    case 77 => Some(Cut(67, 5))  // M
    case 78 => Some(Cut(73, 5))  // N
    case 79 => Some(Cut(79, 5))  // O
    case 80 => Some(Cut(85, 5))  // P
    case 81 => Some(Cut(91, 5))  // Q
    case 82 => Some(Cut(97, 5))  // R
    case 83 => Some(Cut(103, 5))  // S
    case 84 => Some(Cut(109, 5))  // T
    case 85 => Some(Cut(115, 5))  // U
    case 86 => Some(Cut(121, 5))  // V
    case 87 => Some(Cut(127, 5))  // W
    case 88 => Some(Cut(133, 5))  // X
    case 89 => Some(Cut(139, 5))  // Y
    case 90 => Some(Cut(145, 5))  // Z
    case 92 => Some(Cut(264, 5))  // backslash
    case 94 => Some(Cut(221, 3))  // ^
    case 95 => Some(Cut(240, 5))  // _
    case 97 => Some(Cut(0, 5))  // a
    case 98 => Some(Cut(6, 5))  // b
    case 99 => Some(Cut(12, 5))  // c
    case 100 => Some(Cut(18, 5))  // d
    case 101 => Some(Cut(24, 5))  // e
    case 102 => Some(Cut(30, 5))  // f
    case 103 => Some(Cut(36, 5))  // g
    case 104 => Some(Cut(42, 5))  // h
    case 105 => Some(Cut(48, 1))  // i
    case 106 => Some(Cut(50, 5))  // j
    case 107 => Some(Cut(56, 4))  // k
    case 108 => Some(Cut(61, 5))  // l
    case 109 => Some(Cut(67, 5))  // m
    case 110 => Some(Cut(73, 5))  // n
    case 111 => Some(Cut(79, 5))  // o
    case 112 => Some(Cut(85, 5))  // p
    case 113 => Some(Cut(91, 5))  // q
    case 114 => Some(Cut(97, 5))  // r
    case 115 => Some(Cut(103, 5))  // s
    case 116 => Some(Cut(109, 5))  // t
    case 117 => Some(Cut(115, 5))  // u
    case 118 => Some(Cut(121, 5))  // v
    case 119 => Some(Cut(127, 5))  // w
    case 120 => Some(Cut(133, 5))  // x
    case 121 => Some(Cut(139, 5))  // y
    case 122 => Some(Cut(145, 5))  // z
    case 126 => Some(Cut(270, 5))  // ~
    case _ => None
  }

  /** The bytes charDict has an entry for. */
  const CharKeys: set<byte> := set c: byte | CharDict(c).Some?

  /** A lower-case letter shares the cut of its upper-case letter. */
  lemma LowercaseSharesUppercase(i: byte)
    requires i < 26
    ensures CharDict(65 + i).Some? && CharDict(97 + i) == CharDict(65 + i)
  {
  }

  /** Two different cuts never overlap and are at least one blank column apart on the sheet. */
  predicate CutsApartOn(a: byte, b: byte)
    requires CharDict(a).Some? && CharDict(b).Some?
  {
    var ca, cb := CharDict(a).value, CharDict(b).value;
    ca == cb || ca.offset + ca.width + 1 <= cb.offset || cb.offset + cb.width + 1 <= ca.offset
  }

  lemma CutsApartSymbolsSymbols(a: byte, b: byte)
    requires a < 65 && b < 65 && CharDict(a).Some? && CharDict(b).Some?
    ensures CutsApartOn(a, b)
  {
  }

  lemma CutsApartSymbolsUppercase(a: byte, b: byte)
    requires a < 65 && 65 <= b < 91 && CharDict(a).Some? && CharDict(b).Some?
    ensures CutsApartOn(a, b)
  {
  }

  lemma CutsApartSymbolsRest(a: byte, b: byte)
    requires a < 65 && 91 <= b && CharDict(a).Some? && CharDict(b).Some?
    ensures CutsApartOn(a, b)
  {
  }

  lemma CutsApartUppercaseUppercase(a: byte, b: byte)
    requires 65 <= a < 91 && 65 <= b < 91 && CharDict(a).Some? && CharDict(b).Some?
    ensures CutsApartOn(a, b)
  {
  }

  lemma CutsApartUppercaseRest(a: byte, b: byte)
    requires 65 <= a < 91 && 91 <= b && CharDict(a).Some? && CharDict(b).Some?
    ensures CutsApartOn(a, b)
  {
  }

  lemma CutsApartRestRest(a: byte, b: byte)
    requires 91 <= a && 91 <= b && CharDict(a).Some? && CharDict(b).Some?
    ensures CutsApartOn(a, b)
  {
  }

  /**
   * Two different cuts never overlap and are at least one blank column
   * apart on the sheet. Bytes are split into three bands (below 65,
   * upper case, above) to keep each case split small.
   */
  lemma CutsApart(a: byte, b: byte)
    requires CharDict(a).Some? && CharDict(b).Some? && CharDict(a) != CharDict(b)
    ensures var ca, cb := CharDict(a).value, CharDict(b).value;
            ca.offset + ca.width + 1 <= cb.offset || cb.offset + cb.width + 1 <= ca.offset
  {
    var (lo, hi) := if a <= b then (a, b) else (b, a);
    if hi < 65 {
      CutsApartSymbolsSymbols(lo, hi);
    } else if hi < 91 {
      if lo < 65 { CutsApartSymbolsUppercase(lo, hi); } else { CutsApartUppercaseUppercase(lo, hi); }
    } else {
      if lo < 65 { CutsApartSymbolsRest(lo, hi); }
      else if lo < 91 { CutsApartUppercaseRest(lo, hi); }
      else { CutsApartRestRest(lo, hi); }
    }
  }
}
