/** The card codes as a key punch has them: which rows stand for which character. Rows are
    named 12, 11, 0 to 9 from the top edge of the card; the first three are the zones. */
module Keypunch {
  import opened Bytes
  import opened CardTables
  import opened CardPunch
  import opened CardReader

  const R12: column := 0x800
  const R11: column := 0x400

  /** A hole in row d. */
  function Row(d: nat): column
    requires d <= 9
  {
    match d
    case 0 => 0x200
    case 1 => 0x100
    case 2 => 0x080
    case 3 => 0x040
    case 4 => 0x020
    case 5 => 0x010
    case 6 => 0x008
    case 7 => 0x004
    case 8 => 0x002
    case _ => 0x001
  }

  /** The zone rows, in the order of the lines of the charts below. */
  function Zone(z: nat): column
    requires z < 8
  {
    match z
    case 0 => 0
    case 1 => R12
    case 2 => R11
    case 3 => Row(0)
    case 4 => R12 + Row(0)
    case 5 => R12 + R11
    case 6 => R11 + Row(0)
    case _ => R12 + R11 + Row(0)
  }

  /** What lies below a zone: nothing, one of the rows 1 to 9, or row 8 with one of 1 to 7. */
  datatype Below = Nothing | Digit(d: nat) | Eight(d: nat)

  predicate Holed(b: Below) {
    match b
    case Nothing => true
    case Digit(d) => 1 <= d <= 9
    case Eight(d) => 1 <= d <= 7
  }

  function Holes(b: Below): column
    requires Holed(b)
  {
    match b
    case Nothing => 0
    case Digit(d) => Row(d)
    case Eight(d) => Row(8) + Row(d)
  }

  // ------------------------------------------------------------------ the charts

  /** A zone punched alone; a blank stands for no character. */
  function Alone(code: Code): (s: string)
    ensures |s| == 8
  {
    match code
    case C026 => " +-0& ! "
    case C029 => " &-0    "
    case Dec029 => " &-0{|} "
  }

  /** A zone over one of the rows 1 to 9. */
  function Letters(code: Code, z: nat): (s: string)
    requires z < 8
    ensures |s| == 9
  {
    match z
    case 0 => "123456789"
    case 1 => "ABCDEFGHI"
    case 2 => "JKLMNOPQR"
    case 3 => "/STUVWXYZ"
    case 4 => "abcdefghi"
    case 5 => "jklmnopqr"
    case 6 => if code == Dec029 then "~stuvwxyz" else " stuvwxyz"
    case _ => "         "
  }

  /** A zone over row 8 and one of the rows 1 to 7. */
  function Eights(code: Code, z: nat): (s: string)
    requires z < 8
    ensures |s| == 7
  {
    match code
    case C026 => (match z
      case 0 => " _=@:>\""
      case 1 => " ?.)[<|"
      case 2 => "  $*];{"
      case 3 => " #,(`\\ "
      case _ => "       ")
    case C029 => (match z
      case 0 => "`:#@'=\""
      case 1 => "  .<(+|"
      case 2 => " !$*);{"
      case 3 => " \\,%_>?"
      case 7 => "~[]    "
      case _ => "       ")
    case Dec029 => (match z
      case 0 => "`:#@'=\""
      case 1 => " [.<(+^"
      case 2 => " !$*);\\"
      case 3 => " ],%_>?"
      case _ => "       ")
  }

  /** The character on the chart, or the blank. */
  function Chart(code: Code, z: nat, b: Below): char
    requires z < 8 && Holed(b)
  {
    match b
    case Nothing => Alone(code)[z]
    case Digit(d) => Letters(code, z)[d - 1]
    case Eight(d) => Eights(code, z)[d - 1]
  }

  /** Characters off the charts, under two digit rows that do not go with 8. */
  function OffChart(code: Code, c: nat): column {
    if c == '}' as int && code != Dec029 then R12 + Row(7) + Row(9)
    else if c == '~' as int && code == C026 then Row(7) + Row(9)
    else 0
  }

  /** The character read back for c: where two share their holes it is the later one. */
  function Shared(code: Code, c: nat): nat {
    if c == '^' as int && code != Dec029 then '{' as int
    else if c == '%' as int && code == C026 then '(' as int
    else if c == '\'' as int && code == C026 then '@' as int
    else c
  }

  // ------------------------------------------------------------------ the tables follow the charts

  function ZoneOf(h: column): (z: nat)
    ensures z < 8
  {
    match h / 512
    case 0 => 0
    case 4 => 1
    case 2 => 2
    case 1 => 3
    case 5 => 4
    case 6 => 5
    case 3 => 6
    case _ => 7
  }

  function BelowOf(h: column): (b: Below)
    ensures Holed(b)
  {
    match h % 512
    case 0x100 => Digit(1)
    case 0x080 => Digit(2)
    case 0x040 => Digit(3)
    case 0x020 => Digit(4)
    case 0x010 => Digit(5)
    case 0x008 => Digit(6)
    case 0x004 => Digit(7)
    case 0x002 => Digit(8)
    case 0x001 => Digit(9)
    case 0x102 => Eight(1)
    case 0x082 => Eight(2)
    case 0x042 => Eight(3)
    case 0x022 => Eight(4)
    case 0x012 => Eight(5)
    case 0x00A => Eight(6)
    case 0x006 => Eight(7)
    case _ => Nothing
  }

  predicate Follows(code: Code, c: nat, h: int) {
    || (c == BLANK && h == 0)
    || (OffChart(code, c) != 0 && h == OffChart(code, c))
    || (0 < h < 0x1000 && h == Zone(ZoneOf(h)) + Holes(BelowOf(h))
        && Chart(code, ZoneOf(h), BelowOf(h)) as int == Shared(code, c) != BLANK)
  }

  lemma Row4Follows(code: Code, k: nat)
    requires k < 8
    ensures Follows(code, 32 + k, CardTables.Row(code, 4)[k])
  {
  }

  lemma Row5Follows(code: Code, k: nat)
    requires k < 8
    ensures Follows(code, 40 + k, CardTables.Row(code, 5)[k])
  {
  }

  lemma Row6Follows(code: Code, k: nat)
    requires k < 8
    ensures Follows(code, 48 + k, CardTables.Row(code, 6)[k])
  {
  }

  lemma Row7Follows(code: Code, k: nat)
    requires k < 8
    ensures Follows(code, 56 + k, CardTables.Row(code, 7)[k])
  {
  }

  lemma Row8Follows(code: Code, k: nat)
    requires k < 8
    ensures Follows(code, 64 + k, CardTables.Row(code, 8)[k])
  {
  }

  lemma Row9Follows(code: Code, k: nat)
    requires k < 8
    ensures Follows(code, 72 + k, CardTables.Row(code, 9)[k])
  {
  }

  lemma Row10Follows(code: Code, k: nat)
    requires k < 8
    ensures Follows(code, 80 + k, CardTables.Row(code, 10)[k])
  {
  }

  lemma Row11Follows(code: Code, k: nat)
    requires k < 8
    ensures Follows(code, 88 + k, CardTables.Row(code, 11)[k])
  {
  }

  lemma Row12Follows(code: Code, k: nat)
    requires k < 8
    ensures Follows(code, 96 + k, CardTables.Row(code, 12)[k])
  {
  }

  lemma Row13Follows(code: Code, k: nat)
    requires k < 8
    ensures Follows(code, 104 + k, CardTables.Row(code, 13)[k])
  {
  }

  lemma Row14Follows(code: Code, k: nat)
    requires k < 8
    ensures Follows(code, 112 + k, CardTables.Row(code, 14)[k])
  {
  }

  lemma Row15Follows(code: Code, k: nat)
    requires k < 7
    ensures Follows(code, 120 + k, CardTables.Row(code, 15)[k])
  {
  }

  /** Every printable character is punched as the charts say. */
  lemma HolFollows(code: Code, c: nat)
    requires 32 <= c < 127
    ensures Follows(code, c, Hol(code, c))
  {
    hide Follows, CardTables.Row;
    var k := c % 8;
    match c / 8
    case 4 => Row4Follows(code, k);
    case 5 => Row5Follows(code, k);
    case 6 => Row6Follows(code, k);
    case 7 => Row7Follows(code, k);
    case 8 => Row8Follows(code, k);
    case 9 => Row9Follows(code, k);
    case 10 => Row10Follows(code, k);
    case 11 => Row11Follows(code, k);
    case 12 => Row12Follows(code, k);
    case 13 => Row13Follows(code, k);
    case 14 => Row14Follows(code, k);
    case _ => Row15Follows(code, k);
  }

  lemma HolesApart(z: nat, b: Below)
    requires z < 8 && Holed(b)
    ensures var h := Zone(z) + Holes(b);
      && 0 <= h < 0x1000 && ZoneOf(h) == z && BelowOf(h) == b && (h == 0 <==> z == 0 && b == Nothing)
      && h != R12 + Row(7) + Row(9) && h != Row(7) + Row(9)
  {
  }

  lemma AloneCharted(code: Code, z: nat)
    requires z < 8 && Alone(code)[z] != ' '
    ensures Hol(code, Alone(code)[z] as int) == Zone(z)
  {
  }

  lemma Letters0Charted(code: Code, d: nat)
    requires 1 <= d <= 9 && Letters(code, 0)[d - 1] != ' '
    ensures Hol(code, Letters(code, 0)[d - 1] as int) == Zone(0) + Row(d)
  {
  }

  lemma Letters1Charted(code: Code, d: nat)
    requires 1 <= d <= 9 && Letters(code, 1)[d - 1] != ' '
    ensures Hol(code, Letters(code, 1)[d - 1] as int) == Zone(1) + Row(d)
  {
  }

  lemma Letters2Charted(code: Code, d: nat)
    requires 1 <= d <= 9 && Letters(code, 2)[d - 1] != ' '
    ensures Hol(code, Letters(code, 2)[d - 1] as int) == Zone(2) + Row(d)
  {
  }

  lemma Letters3Charted(code: Code, d: nat)
    requires 1 <= d <= 9 && Letters(code, 3)[d - 1] != ' '
    ensures Hol(code, Letters(code, 3)[d - 1] as int) == Zone(3) + Row(d)
  {
  }

  lemma Letters4Charted(code: Code, d: nat)
    requires 1 <= d <= 9 && Letters(code, 4)[d - 1] != ' '
    ensures Hol(code, Letters(code, 4)[d - 1] as int) == Zone(4) + Row(d)
  {
  }

  lemma Letters5Charted(code: Code, d: nat)
    requires 1 <= d <= 9 && Letters(code, 5)[d - 1] != ' '
    ensures Hol(code, Letters(code, 5)[d - 1] as int) == Zone(5) + Row(d)
  {
  }

  lemma Letters6Charted(code: Code, d: nat)
    requires 1 <= d <= 9 && Letters(code, 6)[d - 1] != ' '
    ensures Hol(code, Letters(code, 6)[d - 1] as int) == Zone(6) + Row(d)
  {
  }

  lemma Eights0Charted(code: Code, d: nat)
    requires 1 <= d <= 7 && Eights(code, 0)[d - 1] != ' '
    ensures Hol(code, Eights(code, 0)[d - 1] as int) == Zone(0) + Row(8) + Row(d)
  {
  }

  lemma Eights1Charted(code: Code, d: nat)
    requires 1 <= d <= 7 && Eights(code, 1)[d - 1] != ' '
    ensures Hol(code, Eights(code, 1)[d - 1] as int) == Zone(1) + Row(8) + Row(d)
  {
  }

  lemma Eights2Charted(code: Code, d: nat)
    requires 1 <= d <= 7 && Eights(code, 2)[d - 1] != ' '
    ensures Hol(code, Eights(code, 2)[d - 1] as int) == Zone(2) + Row(8) + Row(d)
  {
  }

  lemma Eights3Charted(code: Code, d: nat)
    requires 1 <= d <= 7 && Eights(code, 3)[d - 1] != ' '
    ensures Hol(code, Eights(code, 3)[d - 1] as int) == Zone(3) + Row(8) + Row(d)
  {
  }

  lemma Eights7Charted(code: Code, d: nat)
    requires 1 <= d <= 7 && Eights(code, 7)[d - 1] != ' '
    ensures Hol(code, Eights(code, 7)[d - 1] as int) == Zone(7) + Row(8) + Row(d)
  {
  }

  /** Every character on a chart is punched where the chart has it. */
  lemma Charted(code: Code, z: nat, b: Below)
    requires z < 8 && Holed(b) && Chart(code, z, b) != ' '
    ensures Hol(code, Chart(code, z, b) as int) == Zone(z) + Holes(b)
  {
    hide Hol, Zone, Row, Alone, Letters, Eights;
    match b
    case Nothing => AloneCharted(code, z);
    case Digit(d) =>
      LastLetters(code, d);
      match z {
        case 0 => Letters0Charted(code, d);
        case 1 => Letters1Charted(code, d);
        case 2 => Letters2Charted(code, d);
        case 3 => Letters3Charted(code, d);
        case 4 => Letters4Charted(code, d);
        case 5 => Letters5Charted(code, d);
        case 6 => Letters6Charted(code, d);
        case _ =>
      }
    case Eight(d) =>
      NoEights(code, z, d);
      match z {
        case 0 => Eights0Charted(code, d);
        case 1 => Eights1Charted(code, d);
        case 2 => Eights2Charted(code, d);
        case 3 => Eights3Charted(code, d);
        case 7 => Eights7Charted(code, d);
        case _ =>
      }
  }

  lemma LastLetters(code: Code, d: nat)
    requires 1 <= d <= 9
    ensures Letters(code, 7)[d - 1] == ' '
  {
  }

  lemma NoEights(code: Code, z: nat, d: nat)
    requires 1 <= d <= 7 && z < 8
    ensures z == 4 || z == 5 || z == 6 ==> Eights(code, z)[d - 1] == ' '
  {
  }

  /** Digits are punched in their own row, and the k-th letter of A-I, J-R and S-Z in its
      zone and its digit's row; small letters add the next zone. */
  lemma LetterLaw(code: Code, d: nat)
    requires d <= 9
    ensures Hol(code, '0' as int + d) == Row(d)
    ensures d >= 1 ==> Hol(code, 'A' as int + d - 1) == R12 + Row(d) && Hol(code, 'a' as int + d - 1) == R12 + Row(0) + Row(d)
    ensures d >= 1 ==> Hol(code, 'J' as int + d - 1) == R11 + Row(d) && Hol(code, 'j' as int + d - 1) == R12 + R11 + Row(d)
    ensures d >= 2 ==> Hol(code, 'S' as int + d - 2) == Row(0) + Row(d) && Hol(code, 's' as int + d - 2) == R11 + Row(0) + Row(d)
  {
    hide Hol, Letters, Alone, Row;
    Alphabet(code, d);
    AlphabetEnd(code, d);
    if d == 0 {
      Charted(code, 3, Nothing);
    } else {
      Charted(code, 0, Digit(d));
      Charted(code, 1, Digit(d));
      Charted(code, 2, Digit(d));
      Charted(code, 4, Digit(d));
      Charted(code, 5, Digit(d));
    }
    if d >= 2 {
      Charted(code, 3, Digit(d));
      Charted(code, 6, Digit(d));
    }
  }

  lemma Alphabet(code: Code, d: nat)
    requires d <= 9
    ensures d == 0 ==> Alone(code)[3] == '0'
    ensures d >= 1 ==> Letters(code, 0)[d - 1] as int == '0' as int + d
    ensures d >= 1 ==> Letters(code, 1)[d - 1] as int == 'A' as int + d - 1 && Letters(code, 4)[d - 1] as int == 'a' as int + d - 1
  {
  }

  lemma AlphabetEnd(code: Code, d: nat)
    requires d <= 9
    ensures d >= 1 ==> Letters(code, 2)[d - 1] as int == 'J' as int + d - 1 && Letters(code, 5)[d - 1] as int == 'j' as int + d - 1
    ensures d >= 2 ==> Letters(code, 3)[d - 1] as int == 'S' as int + d - 2 && Letters(code, 6)[d - 1] as int == 's' as int + d - 2
  {
  }

  lemma NoHoles()
    ensures Zone(0) + Holes(Nothing) == 0
  {
  }

  lemma OffChartPunched(code: Code)
    ensures code != Dec029 ==> Hol(code, '}' as int) == R12 + Row(7) + Row(9)
    ensures code == C026 ==> Hol(code, '~' as int) == Row(7) + Row(9)
  {
  }

  lemma SharedIs(code: Code, c: nat)
    requires 32 <= c < 127
    ensures Hol(code, Shared(code, c)) == Hol(code, c)
  {
  }

  /** A column of the chart's form is punched as the chart's character, and as a question
      mark where the chart is empty. */
  lemma ReadAs(code: Code, z: nat, b: Below)
    requires z < 8 && Holed(b) && (z > 0 || b != Nothing)
    ensures Ascii(code, Zone(z) + Holes(b)) == if Chart(code, z, b) == ' ' then NO_CHAR else Chart(code, z, b) as int
    ensures PunchChar(code, Zone(z) + Holes(b)) == (if Chart(code, z, b) == ' ' then '?' else Chart(code, z, b)) as int
  {
    hide Hol, Chart, LastChar, Zone, Holes, ZoneOf, BelowOf;
    HolesApart(z, b);
    var h := Zone(z) + Holes(b);
    LastCharIs(code, h, 128);
    var c := Ascii(code, h);
    if c != NO_CHAR {
      HolGood(code, c);
      HolFollows(code, c);
    }
    if Chart(code, z, b) != ' ' {
      Charted(code, z, b);
      HolGood(code, Chart(code, z, b) as int);
    }
  }

  /** Of all the other columns, one or two in two of the codes stand for a character. */
  lemma OffChartReadAs(code: Code, h: column)
    requires forall z, b :: z < 8 && Holed(b) ==> h != Zone(z) + Holes(b)
    ensures Ascii(code, h) ==
      if h == R12 + Row(7) + Row(9) && code != Dec029 then '}' as int
      else if h == Row(7) + Row(9) && code == C026 then '~' as int
      else NO_CHAR
  {
    hide Hol, Chart, LastChar, Zone, Holes, ZoneOf, BelowOf;
    NoHoles();
    LastCharIs(code, h, 128);
    var c := Ascii(code, h);
    if c != NO_CHAR {
      HolGood(code, c);
      HolFollows(code, c);
      if h == Zone(ZoneOf(h)) + Holes(BelowOf(h)) {
        assert false;
      }
    }
    OffChartPunched(code);
  }

  /** No two printable characters share their holes, except ^ and { on both IBM charts and
      % and (, ' and @ on that of the 026. */
  lemma OnlyShared(code: Code, c: nat, d: nat)
    requires 32 <= c < d < 127
    ensures Hol(code, c) == Hol(code, d) <==> Shared(code, c) == d
  {
    hide Hol, Chart, Zone, Holes, ZoneOf, BelowOf;
    HolGood(code, c);
    HolGood(code, d);
    HolFollows(code, c);
    HolFollows(code, d);
    var h := Hol(code, c);
    HolesApart(ZoneOf(h), BelowOf(h));
    if Shared(code, c) == d {
      SharedIs(code, c);
    }
  }

  // ------------------------------------------------------------------ EBCDIC

  /** A low half byte below its zones: rows 1 to 9, then 8 with 2 to 7. */
  function Low(d: nat): column
    requires 1 <= d < 16
  {
    if d <= 9 then Row(d) else Row(8) + Row(d - 8)
  }

  /** One zone row for each quarter of a quadrant, and none for the last. */
  function OneZone(q: nat): column
    requires q < 4
  {
    match q
    case 0 => R12
    case 1 => R11
    case 2 => Row(0)
    case _ => 0
  }

  /** Two zone rows for each quarter, and all three for the last. */
  function TwoZones(q: nat): column
    requires q < 4
  {
    match q
    case 0 => R12 + Row(0)
    case 1 => R12 + R11
    case 2 => R11 + Row(0)
    case _ => R12 + R11 + Row(0)
  }

  /** The card code of byte 64 * quadrant + 16 * q + d: the zones say which quarter, the rows
      below which half byte, and row 9 whether it is in the first and second quadrant or at
      the end of the last. The first byte of a quarter and byte 9 are irregular. */
  function EbcdicHoles(quadrant: nat, q: nat, d: nat): column
    requires quadrant < 4 && q < 4 && d < 16
  {
    match quadrant
    case 0 =>
      if d == 0 then TwoZones(q) + Row(1) + Row(8) + Row(9)
      else if d == 9 then OneZone(q) + Row(1) + Row(8) + Row(9)
      else OneZone(q) + Low(d) + Row(9)
    case 1 =>
      if d == 0 then [0, R12, R11, R12 + R11 + Row(0)][q]
      else if d <= 8 then TwoZones(q) + Low(d) + Row(9)
      else if d == 9 then OneZone(q) + Row(1) + Row(8)
      else OneZone(q) + Low(d)
    case 2 => if d == 0 then TwoZones(q) + Row(1) + Row(8) else TwoZones(q) + Low(d)
    case _ =>
      if d == 0 then [R12 + Row(0), R11 + Row(0), Row(0) + Row(2) + Row(8), Row(0)][q]
      else if d <= 9 then OneZone(q) + Row(d)
      else TwoZones(q) + Low(d) + Row(9)
  }

  /** The same with the three bytes that have a code of their own. */
  function EbcdicCard(c: nat): column
    requires c < 256
  {
    if c == 0x61 then Row(0) + Row(1)
    else if c == 0x6A then R12 + R11
    else if c == 0xE1 then R11 + Row(0) + Row(1) + Row(9)
    else EbcdicHoles(c / 64, c / 16 % 4, c % 16)
  }

  lemma Ebcdic0Is(d: nat)
    requires d < 16
    ensures EbcdicRow(0 + d / 8)[d % 8] == EbcdicCard(0 + d)
  {
  }

  lemma Ebcdic1Is(d: nat)
    requires d < 16
    ensures EbcdicRow(2 + d / 8)[d % 8] == EbcdicCard(16 + d)
  {
  }

  lemma Ebcdic2Is(d: nat)
    requires d < 16
    ensures EbcdicRow(4 + d / 8)[d % 8] == EbcdicCard(32 + d)
  {
  }

  lemma Ebcdic3Is(d: nat)
    requires d < 16
    ensures EbcdicRow(6 + d / 8)[d % 8] == EbcdicCard(48 + d)
  {
  }

  lemma Ebcdic4Is(d: nat)
    requires d < 16
    ensures EbcdicRow(8 + d / 8)[d % 8] == EbcdicCard(64 + d)
  {
  }

  lemma Ebcdic5Is(d: nat)
    requires d < 16
    ensures EbcdicRow(10 + d / 8)[d % 8] == EbcdicCard(80 + d)
  {
  }

  lemma Ebcdic6Low(k: nat)
    requires k < 8
    ensures EbcdicRow(12)[k] == EbcdicCard(96 + k)
  {
  }

  lemma Ebcdic6High(k: nat)
    requires k < 8
    ensures EbcdicRow(13)[k] == EbcdicCard(104 + k)
  {
  }

  lemma Ebcdic7Is(d: nat)
    requires d < 16
    ensures EbcdicRow(14 + d / 8)[d % 8] == EbcdicCard(112 + d)
  {
  }

  lemma Ebcdic8Is(d: nat)
    requires d < 16
    ensures EbcdicRow(16 + d / 8)[d % 8] == EbcdicCard(128 + d)
  {
  }

  lemma Ebcdic9Is(d: nat)
    requires d < 16
    ensures EbcdicRow(18 + d / 8)[d % 8] == EbcdicCard(144 + d)
  {
  }

  lemma EbcdicAIs(d: nat)
    requires d < 16
    ensures EbcdicRow(20 + d / 8)[d % 8] == EbcdicCard(160 + d)
  {
  }

  lemma EbcdicBIs(d: nat)
    requires d < 16
    ensures EbcdicRow(22 + d / 8)[d % 8] == EbcdicCard(176 + d)
  {
  }

  lemma EbcdicCIs(d: nat)
    requires d < 16
    ensures EbcdicRow(24 + d / 8)[d % 8] == EbcdicCard(192 + d)
  {
  }

  lemma EbcdicDLow(k: nat)
    requires k < 8
    ensures EbcdicRow(26)[k] == EbcdicCard(208 + k)
  {
  }

  lemma EbcdicDHigh(k: nat)
    requires k < 8
    ensures EbcdicRow(27)[k] == EbcdicCard(216 + k)
  {
  }

  lemma EbcdicEIs(d: nat)
    requires d < 16
    ensures EbcdicRow(28 + d / 8)[d % 8] == EbcdicCard(224 + d)
  {
  }

  lemma EbcdicFLow(k: nat)
    requires k < 8
    ensures EbcdicRow(30)[k] == EbcdicCard(240 + k)
  {
  }

  lemma EbcdicFHigh(k: nat)
    requires k < 8
    ensures EbcdicRow(31)[k] == EbcdicCard(248 + k)
  {
  }

  lemma HalfBytes(c: nat, high: nat, d: nat)
    requires d < 16 && c == 16 * high + d
    ensures c / 8 == 2 * high + d / 8 && c % 8 == d % 8
  {
  }

  /** The table of all 256 bytes is the EBCDIC card code. */
  lemma EbcdicIs(c: nat)
    requires c < 256
    ensures EbcdicToHol(c) == EbcdicCard(c)
  {
    hide EbcdicRow, EbcdicCard;
    var d := c % 16;
    HalfBytes(c, c / 16, d);
    match c / 16
    case 0 => Ebcdic0Is(d);
    case 1 => Ebcdic1Is(d);
    case 2 => Ebcdic2Is(d);
    case 3 => Ebcdic3Is(d);
    case 4 => Ebcdic4Is(d);
    case 5 => Ebcdic5Is(d);
    case 6 => if d < 8 { Ebcdic6Low(d); } else { Ebcdic6High(d - 8); }
    case 7 => Ebcdic7Is(d);
    case 8 => Ebcdic8Is(d);
    case 9 => Ebcdic9Is(d);
    case 10 => EbcdicAIs(d);
    case 11 => EbcdicBIs(d);
    case 12 => EbcdicCIs(d);
    case 13 => if d < 8 { EbcdicDLow(d); } else { EbcdicDHigh(d - 8); }
    case 14 => EbcdicEIs(d);
    case _ => if d < 8 { EbcdicFLow(d); } else { EbcdicFHigh(d - 8); }
  }

  // ------------------------------------------------------------------ parity and control cards

  /** The ones in three bits. */
  function Ones(n: nat): nat
    requires n < 8
  {
    match n
    case 0 => 0
    case 3 => 2
    case 5 => 2
    case 6 => 2
    case 7 => 3
    case _ => 1
  }

  /** A half column goes out in the low six bits, with a seventh that makes the number of
      ones odd. */
  lemma ParityIsOdd(r: nat, k: nat) returns (p: nat)
    requires r < 8 && k < 8
    ensures p < 2 && WithParity(8 * r + k) == 64 * p + 8 * r + k && (p + Ones(r) + Ones(k)) % 2 == 1
  {
    assert (8 * r + k) / 8 == r && (8 * r + k) % 8 == k;
    p := 1 - Parity(8 * r + k) / 64;
  }

  /** The end cards by their holes: 7/8/9, 6/7/9 and 6/7/8/9. */
  lemma EndCards()
    ensures EOR == Row(7) + Row(8) + Row(9) && EOF == Row(6) + Row(7) + Row(9) && EOI == Row(6) + Row(7) + Row(8) + Row(9)
  {
  }

  predicate Either(c: byte, upper: char, lower: char) {
    c == upper as int || c == lower as int
  }

  /** The words behind a tilde, letter by letter, in either case. */
  lemma Tags(s: seq<byte>)
    requires |s| >= 4
    ensures IsRaw(s) <==> s[0] == '~' as int && Either(s[1], 'R', 'r') && Either(s[2], 'A', 'a') && Either(s[3], 'W', 'w')
    ensures IsEor(s) <==> s[0] == '~' as int && Either(s[1], 'E', 'e') && Either(s[2], 'O', 'o') && Either(s[3], 'R', 'r')
    ensures IsEof(s) <==> s[0] == '~' as int && Either(s[1], 'E', 'e') && Either(s[2], 'O', 'o') && Either(s[3], 'F', 'f')
    ensures IsEoi(s) <==> s[0] == '~' as int && Either(s[1], 'E', 'e') && Either(s[2], 'O', 'o') && Either(s[3], 'I', 'i')
    ensures Is78(s) <==> s[0] == '~' as int && s[1] == '7' as int && s[2] == '8' as int && s[3] == 0
  {
  }

  /** Reading without lower case, a small letter gives the holes of the capital. */
  lemma Folded(code: Code, k: nat)
    requires k < 26
    ensures Rows(code, false, 'a' as int + k) == Rows(code, false, 'A' as int + k) == Hol(code, 'A' as int + k)
    ensures Rows(code, true, 'a' as int + k) == Hol(code, 'a' as int + k)
  {
    hide Hol;
    HolGood(code, 'A' as int + k);
    HolGood(code, 'a' as int + k);
  }

  lemma NotFolded(code: Code, lower: bool, c: byte)
    requires 32 <= c < 127 && !('a' as int <= c <= 'z' as int)
    ensures Rows(code, lower, c) == Hol(code, c)
  {
    hide Hol;
    HolGood(code, c);
  }
}
