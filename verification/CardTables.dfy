/** The character codes of sim_card.c: ASCII to Hollerith in three variants, and EBCDIC.
    Each row holds eight consecutive characters. */
module CardTables {
  const INVALID := 0xF000

  /** A table entry: a column or INVALID. No character has all twelve rows punched, or
      rows 6 to 9 alone as on an end-of-information card. */
  type entry = x: int | x == INVALID || (0 <= x < 0xFFF && x != 0xF)

  datatype Code = C026 | C029 | Dec029

  const CONTROLS: seq<entry> := [INVALID, INVALID, INVALID, INVALID, INVALID, INVALID, INVALID, INVALID]

  function Row026(r: nat): (row: seq<entry>)
    ensures |row| == 8
  {
    match r
    case 4 => [0x000, 0x600, 0x006, 0x282, 0x442, 0x222, 0xA00, 0x022]
    case 5 => [0x222, 0x822, 0x422, 0x800, 0x242, 0x400, 0x842, 0x300]
    case 6 => [0x200, 0x100, 0x080, 0x040, 0x020, 0x010, 0x008, 0x004]
    case 7 => [0x002, 0x001, 0x012, 0x40A, 0x80A, 0x042, 0x00A, 0x882]
    case 8 => [0x022, 0x900, 0x880, 0x840, 0x820, 0x810, 0x808, 0x804]
    case 9 => [0x802, 0x801, 0x500, 0x480, 0x440, 0x420, 0x410, 0x408]
    case 10 => [0x404, 0x402, 0x401, 0x280, 0x240, 0x220, 0x210, 0x208]
    case 11 => [0x204, 0x202, 0x201, 0x812, 0x20A, 0x412, 0x406, 0x082]
    case 12 => [0x212, 0xB00, 0xA80, 0xA40, 0xA20, 0xA10, 0xA08, 0xA04]
    case 13 => [0xA02, 0xA01, 0xD00, 0xC80, 0xC40, 0xC20, 0xC10, 0xC08]
    case 14 => [0xC04, 0xC02, 0xC01, 0x680, 0x640, 0x620, 0x610, 0x608]
    case 15 => [0x604, 0x602, 0x601, 0x406, 0x806, 0x805, 0x005, INVALID]
    case _ => CONTROLS
  }

  function Row029(r: nat): (row: seq<entry>)
    ensures |row| == 8
  {
    match r
    case 4 => [0x000, 0x482, 0x006, 0x042, 0x442, 0x222, 0x800, 0x012]
    case 5 => [0x812, 0x412, 0x422, 0x80A, 0x242, 0x400, 0x842, 0x300]
    case 6 => [0x200, 0x100, 0x080, 0x040, 0x020, 0x010, 0x008, 0x004]
    case 7 => [0x002, 0x001, 0x082, 0x40A, 0x822, 0x00A, 0x20A, 0x206]
    case 8 => [0x022, 0x900, 0x880, 0x840, 0x820, 0x810, 0x808, 0x804]
    case 9 => [0x802, 0x801, 0x500, 0x480, 0x440, 0x420, 0x410, 0x408]
    case 10 => [0x404, 0x402, 0x401, 0x280, 0x240, 0x220, 0x210, 0x208]
    case 11 => [0x204, 0x202, 0x201, 0xE82, 0x282, 0xE42, 0x406, 0x212]
    case 12 => [0x102, 0xB00, 0xA80, 0xA40, 0xA20, 0xA10, 0xA08, 0xA04]
    case 13 => [0xA02, 0xA01, 0xD00, 0xC80, 0xC40, 0xC20, 0xC10, 0xC08]
    case 14 => [0xC04, 0xC02, 0xC01, 0x680, 0x640, 0x620, 0x610, 0x608]
    case 15 => [0x604, 0x602, 0x601, 0x406, 0x806, 0x805, 0xF02, INVALID]
    case _ => CONTROLS
  }

  function RowDec029(r: nat): (row: seq<entry>)
    ensures |row| == 8
  {
    match r
    case 4 => [0x000, 0x482, 0x006, 0x042, 0x442, 0x222, 0x800, 0x012]
    case 5 => [0x812, 0x412, 0x422, 0x80A, 0x242, 0x400, 0x842, 0x300]
    case 6 => [0x200, 0x100, 0x080, 0x040, 0x020, 0x010, 0x008, 0x004]
    case 7 => [0x002, 0x001, 0x082, 0x40A, 0x822, 0x00A, 0x20A, 0x206]
    case 8 => [0x022, 0x900, 0x880, 0x840, 0x820, 0x810, 0x808, 0x804]
    case 9 => [0x802, 0x801, 0x500, 0x480, 0x440, 0x420, 0x410, 0x408]
    case 10 => [0x404, 0x402, 0x401, 0x280, 0x240, 0x220, 0x210, 0x208]
    case 11 => [0x204, 0x202, 0x201, 0x882, 0x406, 0x282, 0x806, 0x212]
    case 12 => [0x102, 0xB00, 0xA80, 0xA40, 0xA20, 0xA10, 0xA08, 0xA04]
    case 13 => [0xA02, 0xA01, 0xD00, 0xC80, 0xC40, 0xC20, 0xC10, 0xC08]
    case 14 => [0xC04, 0xC02, 0xC01, 0x680, 0x640, 0x620, 0x610, 0x608]
    case 15 => [0x604, 0x602, 0x601, 0xA00, 0xC00, 0x600, 0x700, INVALID]
    case _ => CONTROLS
  }

  function Row(code: Code, r: nat): (row: seq<entry>)
    ensures |row| == 8
  {
    match code
    case C026 => Row026(r)
    case C029 => Row029(r)
    case Dec029 => RowDec029(r)
  }

  /** The column punched for character c, or INVALID. */
  function Hol(code: Code, c: nat): entry {
    if c < 128 then Row(code, c / 8)[c % 8] else INVALID
  }

  /** What the card programs rely on: exactly the printable characters have a column,
      of twelve rows, and only the blank leaves its column unpunched. */
  predicate GoodEntry(c: nat, h: int) {
    && (h == INVALID || 0 <= h < 0x1000)
    && (h == INVALID <==> !(32 <= c < 127))
    && (h == 0 <==> c == 32)
  }

  lemma Row026Good(r: nat, k: nat)
    requires r < 16 && k < 8
    ensures GoodEntry(8 * r + k, Row026(r)[k])
  {
  }

  lemma Row029Good(r: nat, k: nat)
    requires r < 16 && k < 8
    ensures GoodEntry(8 * r + k, Row029(r)[k])
  {
  }

  lemma RowDec029Good(r: nat, k: nat)
    requires r < 16 && k < 8
    ensures GoodEntry(8 * r + k, RowDec029(r)[k])
  {
  }

  lemma HolGood(code: Code, c: nat)
    ensures GoodEntry(c, Hol(code, c))
  {
    if c < 128 {
      match code
      case C026 => Row026Good(c / 8, c % 8);
      case C029 => Row029Good(c / 8, c % 8);
      case Dec029 => RowDec029Good(c / 8, c % 8);
    }
  }

  /** Twelve rows of one card column. */
  type column = x: int | 0 <= x < 0x1000

  /** A column of the EBCDIC table: none has all twelve rows punched. */
  type ebcdic = x: int | 0 <= x < 0xFFF

  function EbcdicRow(r: nat): (row: seq<ebcdic>)
    ensures |row| == 8
  {
    match r
    case 0 => [0xB03, 0x901, 0x881, 0x841, 0x821, 0x811, 0x809, 0x805]
    case 1 => [0x803, 0x903, 0x883, 0x843, 0x823, 0x813, 0x80B, 0x807]
    case 2 => [0xD03, 0x501, 0x481, 0x441, 0x421, 0x411, 0x409, 0x405]
    case 3 => [0x403, 0x503, 0x483, 0x443, 0x423, 0x413, 0x40B, 0x407]
    case 4 => [0x703, 0x301, 0x281, 0x241, 0x221, 0x211, 0x209, 0x205]
    case 5 => [0x203, 0x303, 0x283, 0x243, 0x223, 0x213, 0x20B, 0x207]
    case 6 => [0xF03, 0x101, 0x081, 0x041, 0x021, 0x011, 0x009, 0x005]
    case 7 => [0x003, 0x103, 0x083, 0x043, 0x023, 0x013, 0x00B, 0x007]
    case 8 => [0x000, 0xB01, 0xA81, 0xA41, 0xA21, 0xA11, 0xA09, 0xA05]
    case 9 => [0xA03, 0x902, 0x882, 0x842, 0x822, 0x812, 0x80A, 0x806]
    case 10 => [0x800, 0xD01, 0xC81, 0xC41, 0xC21, 0xC11, 0xC09, 0xC05]
    case 11 => [0xC03, 0x502, 0x482, 0x442, 0x422, 0x412, 0x40A, 0x406]
    case 12 => [0x400, 0x300, 0x681, 0x641, 0x621, 0x611, 0x609, 0x605]
    case 13 => [0x603, 0x302, 0xC00, 0x242, 0x222, 0x212, 0x20A, 0x206]
    case 14 => [0xE00, 0xF01, 0xE81, 0xE41, 0xE21, 0xE11, 0xE09, 0xE05]
    case 15 => [0xE03, 0x102, 0x082, 0x042, 0x022, 0x012, 0x00A, 0x006]
    case 16 => [0xB02, 0xB00, 0xA80, 0xA40, 0xA20, 0xA10, 0xA08, 0xA04]
    case 17 => [0xA02, 0xA01, 0xA82, 0xA42, 0xA22, 0xA12, 0xA0A, 0xA06]
    case 18 => [0xD02, 0xD00, 0xC80, 0xC40, 0xC20, 0xC10, 0xC08, 0xC04]
    case 19 => [0xC02, 0xC01, 0xC82, 0xC42, 0xC22, 0xC12, 0xC0A, 0xC06]
    case 20 => [0x702, 0x700, 0x680, 0x640, 0x620, 0x610, 0x608, 0x604]
    case 21 => [0x602, 0x601, 0x682, 0x642, 0x622, 0x612, 0x60A, 0x606]
    case 22 => [0xF02, 0xF00, 0xE80, 0xE40, 0xE20, 0xE10, 0xE08, 0xE04]
    case 23 => [0xE02, 0xE01, 0xE82, 0xE42, 0xE22, 0xE12, 0xE0A, 0xE06]
    case 24 => [0xA00, 0x900, 0x880, 0x840, 0x820, 0x810, 0x808, 0x804]
    case 25 => [0x802, 0x801, 0xA83, 0xA43, 0xA23, 0xA13, 0xA0B, 0xA07]
    case 26 => [0x600, 0x500, 0x480, 0x440, 0x420, 0x410, 0x408, 0x404]
    case 27 => [0x402, 0x401, 0xC83, 0xC43, 0xC23, 0xC13, 0xC0B, 0xC07]
    case 28 => [0x282, 0x701, 0x280, 0x240, 0x220, 0x210, 0x208, 0x204]
    case 29 => [0x202, 0x201, 0x683, 0x643, 0x623, 0x613, 0x60B, 0x607]
    case 30 => [0x200, 0x100, 0x080, 0x040, 0x020, 0x010, 0x008, 0x004]
    case _ => [0x002, 0x001, 0xE83, 0xE43, 0xE23, 0xE13, 0xE0B, 0xE07]
  }

  function EbcdicToHol(c: nat): ebcdic {
    EbcdicRow(c / 8)[c % 8]
  }
}
