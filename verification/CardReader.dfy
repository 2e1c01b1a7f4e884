/** The card reader of sim_card.c: one card is parsed at a time from a sliding buffer,
    and a punched deck comes back as the cards it was made of. */
module CardReader {
  import opened Bytes
  import opened CardTables
  import opened CardPunch

  datatype ReadMode = TextIn | BinaryIn | CbnIn | EbcdicIn

  /** Wrapped: the parser consumed more than the buffer held. */
  datatype Status = Ok | OpenErr | Wrapped

  /** A card image with its flags above the twelve rows of column 0. */
  type Image = c: seq<nat> | |c| == 80 witness seq(80, i => 0)

  const CR := 13
  const TAB := 9
  const CARD_EOF := 0x1000
  const CARD_ERR := 0x2000
  const REFILL := 8192
  const LOW_WATER := 500

  // ------------------------------------------------------------------ which cards survive

  function Lower(c: byte): byte {
    if 65 <= c <= 90 then c + 32 else c
  }

  function Upper(c: byte): byte {
    if 97 <= c <= 122 then c - 32 else c
  }

  /** A three-letter word, in lower case, after a tilde. */
  predicate Tagged(s: seq<byte>, a: int, b: int, c: int)
    requires |s| >= 4
  {
    s[0] == TILDE && Lower(s[1]) == a && Lower(s[2]) == b && Lower(s[3]) == c
  }

  predicate IsRaw(s: seq<byte>) requires |s| >= 4 { Tagged(s, 114, 97, 119) }
  predicate IsEor(s: seq<byte>) requires |s| >= 4 { Tagged(s, 101, 111, 114) }
  predicate IsEof(s: seq<byte>) requires |s| >= 4 { Tagged(s, 101, 111, 102) }
  predicate IsEoi(s: seq<byte>) requires |s| >= 4 { Tagged(s, 101, 111, 105) }
  predicate Is78(s: seq<byte>) requires |s| >= 4 { Tagged(s, 55, 56, 0) }

  /** The four characters a card begins with. */
  function Head(code: Code, card: Card): (h: seq<byte>)
    ensures |h| == 4
  {
    [PunchChar(code, card[0]), PunchChar(code, card[1]), PunchChar(code, card[2]), PunchChar(code, card[3])]
  }

  /** A text card the reader takes for a control card: a lone tilde, or a tilde and
      one of the words raw, eor, eof, eoi in any case. */
  predicate LooksSpecial(code: Code, card: Card) {
    && PunchChar(code, card[0]) == TILDE
    && (|| Used(card, 80) == 1
        || IsRaw(Head(code, card)) || IsEor(Head(code, card))
        || IsEof(Head(code, card)) || IsEoi(Head(code, card)))
  }

  predicate TextSurvives(code: Code, card: Card) {
    IsText(code, card) && !LooksSpecial(code, card)
  }

  /** Among cards punched only in the first column, two have a tag of their own. */
  predicate OctalSurvives(card: Card) {
    Used(card, 80) == 1 ==> card[0] == EOR || card[0] == EOF
  }

  predicate Survives(mode: PunchMode, code: Code, card: Card) {
    match mode
    case Auto => if IsText(code, card) then TextSurvives(code, card) else OctalSurvives(card)
    case Text => TextSurvives(code, card)
    case Octal => OctalSurvives(card)
    case Binary => true
    case Cbn => true
    case Ebcdic => forall k :: 0 <= k < 80 ==> FirstEbcdic(card[k], 256) != NO_EBCDIC
  }

  /** The input mode that undoes an output mode. */
  function ReaderOf(mode: PunchMode): ReadMode {
    match mode
    case Auto => TextIn
    case Text => TextIn
    case Octal => TextIn
    case Binary => BinaryIn
    case Cbn => CbnIn
    case Ebcdic => EbcdicIn
  }

  predicate Starts(s: seq<byte>, len: nat, line: seq<byte>) {
    |line| <= len <= |s| && forall k :: 0 <= k < |line| ==> s[k] == line[k]
  }

  // ------------------------------------------------------------------ text cards

  /** A printable line of L characters at the start of the buffer. */
  predicate LineAt(s: seq<byte>, len: nat, L: nat) {
    && 1 <= L <= 80 && L < len <= |s|
    && (forall k :: 0 <= k < L ==> 32 <= s[k] < 127)
    && s[L] == NL
  }

  function Blank(): (c: Image)
    ensures forall k :: 0 <= k < 80 ==> c[k] == 0
  {
    seq(80, i => 0)
  }

  predicate Empty(c: Image) {
    c == Blank()
  }

  function OrErr(x: nat): nat {
    if x / CARD_ERR % 2 == 1 then x else x + CARD_ERR
  }

  predicate Solid(c: byte) { c != 0 && c != CR && c != TAB && c != NL }

  predicate EndsLine(c: byte) { c == NL || c == CR }

  /** How many tabs there are between a tilde and position i. */
  function Tabs(s: seq<byte>, i: nat): nat
    requires i <= |s|
  {
    if i <= 1 then 0 else Tabs(s, i - 1) + if s[i - 1] == TAB then 1 else 0
  }

  /** Only blanks and tabs from position 1 up to i, and not yet 80 columns of them. */
  predicate BlankTo(s: seq<byte>, i: nat)
    requires i <= |s|
  {
    i >= 1 && Tabs(s, i) < 10 && forall k :: 1 <= k < i ==> s[k] == BLANK || s[k] == TAB
  }

  /** The scan behind a tilde stops at i having found nothing but blanks: at the end of the
      data, behind a line end or a null, or when tabs have taken it past the last column. */
  predicate BlankEnds(s: seq<byte>, len: nat, i: nat)
    requires len < |s|
  {
    || (i >= 1 && i == Max(1, len) && BlankTo(s, i))
    || (2 <= i <= len && BlankTo(s, i - 1)
        && (EndsLine(s[i - 1]) || s[i - 1] == 0 || (s[i - 1] == TAB && Tabs(s, i) == 10)))
  }

  /** Or at the first character that is anything else. */
  predicate BlankFails(s: seq<byte>, len: nat, i: nat)
    requires len < |s|
  {
    2 <= i <= len && BlankTo(s, i - 1) && Solid(s[i - 1]) && s[i - 1] != BLANK
  }

  /** After a tilde: is the rest of the line blank?  A new line ends the scan only
      after the position has moved past it. */
  method RestIsBlank(s: seq<byte>, len: nat) returns (f: bool, i: nat)
    requires len + 6 <= |s|
    ensures if f then BlankEnds(s, len, i) else BlankFails(s, len, i)
  {
    f := true;
    i := 1;
    var col := 1;
    while col < 80 && f && i < len
      invariant 1 <= i && col >= 1 && i <= Max(1, len)
      invariant f && col < 80 ==> BlankTo(s, i) && col == if Tabs(s, i) == 0 then 1 else 8 * Tabs(s, i)
      invariant f && col >= 80 ==> BlankEnds(s, len, i)
      invariant !f ==> BlankFails(s, len, i)
      decreases len - i
    {
      var c := s[i];
      if c == NL || c == 0 || c == CR {
        col := 80;
      } else if c == BLANK {
      } else if c == TAB {
        col := col / 8 * 8 + 8;
      } else {
        f := false;
      }
      i := i + 1;
    }
  }

  /** On a printable line the scan passes exactly a lone tilde. */
  lemma BlankLine(s: seq<byte>, len: nat, L: nat, f: bool, i: nat)
    requires len + 6 <= |s| && if f then BlankEnds(s, len, i) else BlankFails(s, len, i)
    ensures i <= len + 1
    ensures LineAt(s, len, L) && L == 1 ==> f && i == 2
    ensures LineAt(s, len, L) && L > 1 && s[L - 1] != BLANK ==> !f
    ensures len > 1 && BLANK < s[1] < 127 ==> !f
  {
    hide Tabs;
  }

  /** An end-of-file card: a tilde and blanks. */
  method LoneTilde(s: seq<byte>, len: nat, ghost L: nat) returns (f: bool, i: nat)
    requires len + 6 <= |s|
    ensures s[0] != TILDE ==> !f && i == 0
    ensures s[0] == TILDE ==> if f then BlankEnds(s, len, i) else BlankFails(s, len, i)
    ensures i <= len + 1
    ensures LineAt(s, len, L) && L == 1 && s[0] == TILDE ==> f && i == 2
    ensures LineAt(s, len, L) && L > 1 && s[L - 1] != BLANK ==> !f
    ensures len > 1 && BLANK < s[1] < 127 ==> !f
  {
    hide LineAt, BlankEnds, BlankFails;
    f, i := false, 0;
    if s[0] == TILDE {
      f, i := RestIsBlank(s, len);
      BlankLine(s, len, L, f, i);
    }
  }

  lemma TopStep(h: column, j: nat)
    requires j < 4
    ensures Top(h, 0) == 0 && Top(h, 4) == h
    ensures Top(h, j + 1) == (Top(h, j) * 8 + Digit(h, j)) % 0x10000
  {
    assert Top(h, j + 1) <= h;
  }

  predicate DigitsAt(s: seq<byte>, len: nat, card: Card) {
    324 < len <= |s| && forall q :: 0 <= q < 320 ==> s[4 + q] == Digits(card)[q]
  }

  lemma DigitAt(s: seq<byte>, len: nat, card: Card, col: nat, j: nat)
    requires col < 80 && j < 4
    ensures DigitsAt(s, len, card) ==> 324 < len <= |s| && s[4 + 4 * col + j] == 48 + Digit(card[col], j)
  {
    var q := 4 * col + j;
    assert DigitsAt(s, len, card) ==> s[4 + q] == Digits(card)[q];
  }

  predicate OctalDigit(c: byte) { 48 <= c <= 55 }

  /** The value of j octal digits. */
  function OctalValue(s: seq<byte>, at: nat, j: nat): int
    requires at + j <= |s|
  {
    if j == 0 then 0
    else
      var c: int := s[at + j - 1];
      OctalValue(s, at, j - 1) * 8 + c - 48
  }

  /** The octal digits behind a tag end at i: after 320 of them, at the end of the data or
      at the first character that is none. */
  predicate OctalEnds(s: seq<byte>, len: nat, i: nat)
    requires len + 6 <= |s|
  {
    && 4 <= i <= 324 && i <= Max(4, len)
    && (forall k :: 4 <= k < i ==> OctalDigit(s[k]))
    && (i == 324 || i >= len || !OctalDigit(s[i]))
  }

  /** How many of the digits up to i belong to column k. */
  function DigitsIn(i: nat, k: nat): (j: nat)
    ensures j <= 4 && (j > 0 ==> 4 + 4 * k + j <= i)
  {
    if 8 + 4 * k <= i then 4 else if 4 + 4 * k < i then i - (4 + 4 * k) else 0
  }

  function OctalColumn(s: seq<byte>, i: nat, k: nat): int
    requires i <= |s|
  {
    if DigitsIn(i, k) == 0 then 0 else OctalValue(s, 4 + 4 * k, DigitsIn(i, k))
  }

  /** Digits that end at anything but a line end are an error, marked in place of column 0. */
  predicate OctalImage(s: seq<byte>, len: nat, i: nat, image: Image)
    requires len + 6 <= |s| && i <= |s|
  {
    && (forall k :: 1 <= k < 80 ==> image[k] == OctalColumn(s, i, k))
    && image[0] == if i < 324 && i < len && !EndsLine(s[i]) then CARD_ERR else OctalColumn(s, i, 0)
  }

  lemma OctalStep(s: seq<byte>, i: nat, col: nat, j: nat)
    requires i < |s| && j < 4 && i == 4 + 4 * col + j
    ensures var c: int := s[i]; OctalColumn(s, i + 1, col) == OctalColumn(s, i, col) * 8 + c - 48
    ensures forall k: nat :: k != col ==> OctalColumn(s, i + 1, k) == OctalColumn(s, i, k)
  {
    var c: int := s[i];
    assert DigitsIn(i, col) == j && DigitsIn(i + 1, col) == j + 1;
    assert OctalValue(s, 4 + 4 * col, j + 1) == OctalValue(s, 4 + 4 * col, j) * 8 + c - 48;
    assert forall k: nat :: k != col ==> DigitsIn(i + 1, k) == DigitsIn(i, k);
  }

  lemma {:induction false} OctalBound(s: seq<byte>, at: nat, j: nat)
    requires at + j <= |s| && j <= 3 && forall k :: at <= k < at + j ==> OctalDigit(s[k])
    ensures var v := OctalValue(s, at, j);
      0 <= v < 512 && (j == 0 ==> v == 0) && (j == 1 ==> v < 8) && (j == 2 ==> v < 64)
  {
    if j > 0 {
      OctalBound(s, at, j - 1);
    }
  }

  /** Octal digits after the tag, four to a column. */
  method RawColumns(s: seq<byte>, len: nat) returns (image: Image, i: nat)
    requires len + 6 <= |s|
    ensures OctalEnds(s, len, i) && OctalImage(s, len, i, image)
  {
    hide OctalColumn;
    image := Blank();
    NoDigits(s);
    i := 4;
    var col := 0;
    var j := 0;
    var going := true;
    while going && col < 80 && i < len
      invariant 0 <= j < 4 && 0 <= col <= 80 && (col == 80 ==> j == 0)
      invariant i == 4 + 4 * col + j && i <= Max(4, len)
      invariant forall k :: 4 <= k < i ==> OctalDigit(s[k])
      invariant !going ==> i < len && col < 80 && !OctalDigit(s[i])
      invariant forall k :: 1 <= k < 80 ==> image[k] == OctalColumn(s, i, k)
      invariant image[0] == if !going && !EndsLine(s[i]) then CARD_ERR else OctalColumn(s, i, 0)
      decreases going, len - i
    {
      var c := s[i];
      if 48 <= c <= 55 {
        ColumnSmall(s, i, col, j);
        OctalStep(s, i, col, j);
        image := image[col := (image[col] * 8 + (c - 48)) % 0x10000];
        j := j + 1;
        if j == 4 {
          col := col + 1;
          j := 0;
        }
        i := i + 1;
      } else {
        if c != NL && c != CR {
          image := image[0 := CARD_ERR];
        }
        going := false;
      }
    }
  }

  lemma NoDigits(s: seq<byte>)
    requires |s| >= 4
    ensures forall k: nat :: OctalColumn(s, 4, k) == 0
  {
  }

  lemma ColumnSmall(s: seq<byte>, i: nat, col: nat, j: nat)
    requires i <= |s| && j < 4 && i == 4 + 4 * col + j && forall k :: 4 <= k < i ==> OctalDigit(s[k])
    ensures 0 <= OctalColumn(s, i, col) < 512
  {
    assert DigitsIn(i, col) == j;
    OctalBound(s, 4 + 4 * col, j);
  }

  /** Punched digits come back as the card; a text line leaves its last column blank. */
  lemma RawFacts(s: seq<byte>, len: nat, i: nat, image: Image, L: nat, card: Card)
    requires len + 6 <= |s| && OctalEnds(s, len, i) && OctalImage(s, len, i, image)
    ensures i <= len + 4
    ensures LineAt(s, len, L) && L >= 4 ==> image[L - 1] == 0
    ensures DigitsAt(s, len, card) ==> image == card && i == 324
  {
    hide Digit, Digits, OctalValue;
    if DigitsAt(s, len, card) {
      forall k | 4 <= k < 324 ensures OctalDigit(s[k]) {
        DigitAt(s, len, card, (k - 4) / 4, (k - 4) % 4);
        DigitSmall(card[(k - 4) / 4], (k - 4) % 4);
      }
      assert i == 324;
      forall k | 0 <= k < 80 ensures image[k] == card[k] {
        OctalIsTop(s, len, card, k, 4);
        TopStep(card[k], 0);
      }
    }
    if LineAt(s, len, L) && L >= 4 {
      assert i <= L;
    }
  }

  lemma DigitSmall(h: column, j: nat)
    requires j < 4
    ensures 0 <= Digit(h, j) < 8
  {
  }

  lemma {:induction false} OctalIsTop(s: seq<byte>, len: nat, card: Card, k: nat, j: nat)
    requires DigitsAt(s, len, card) && k < 80 && j <= 4
    ensures OctalValue(s, 4 + 4 * k, j) == Top(card[k], j)
  {
    hide Digit, Digits, DigitsAt;
    if j == 0 {
      TopStep(card[k], 0);
    } else {
      OctalIsTop(s, len, card, k, j - 1);
      TopStep(card[k], j - 1);
      DigitAt(s, len, card, k, j - 1);
      TopSmall(card[k], j);
    }
  }

  lemma TopSmall(h: column, j: nat)
    requires 1 <= j <= 4
    ensures Top(h, j - 1) * 8 + Digit(h, j - 1) < 0x10000
  {
  }

  function Fold(lower: bool, c: byte): byte {
    if lower then c else Upper(c)
  }

  /** The column reached after the first i characters. */
  function Col(s: seq<byte>, i: nat): nat
    requires i <= |s|
  {
    if i == 0 then 0
    else if Solid(s[i - 1]) then Col(s, i - 1) + 1
    else if s[i - 1] == TAB then Col(s, i - 1) / 8 * 8 + 8
    else Col(s, i - 1)
  }

  /** The character among the first i that falls on column k, or -1. */
  function CharAt(s: seq<byte>, i: nat, k: nat): (j: int)
    requires i <= |s|
    ensures -1 <= j < i
  {
    if i == 0 then -1
    else if Solid(s[i - 1]) && Col(s, i - 1) == k then i - 1
    else CharAt(s, i - 1, k)
  }

  /** The rows punched for a character; one the code does not have leaves its column blank. */
  function Rows(code: Code, lower: bool, c: byte): column {
    if Hol(code, Fold(lower, c)) == INVALID then 0 else Hol(code, Fold(lower, c))
  }

  function Placed(s: seq<byte>, i: nat, k: nat, code: Code, lower: bool): column
    requires i <= |s|
  {
    if CharAt(s, i, k) < 0 then 0 else Rows(code, lower, s[CharAt(s, i, k)])
  }

  /** A character the code does not have, behind the first column. */
  predicate IsStray(s: seq<byte>, j: nat, code: Code, lower: bool)
    requires j < |s|
  {
    Solid(s[j]) && Col(s, j) > 0 && Hol(code, Fold(lower, s[j])) == INVALID
  }

  predicate Strays(s: seq<byte>, i: nat, code: Code, lower: bool)
    requires i <= |s|
  {
    exists j :: 0 <= j < i && IsStray(s, j, code, lower)
  }

  /** The scan of a text line ends at i: at its line end, at the end of the data or when all
      columns are full. */
  predicate ColumnsEnd(s: seq<byte>, len: nat, i: nat)
    requires len < |s|
  {
    && i <= len && (forall k :: 0 <= k < i ==> s[k] != NL && Col(s, k) < 80)
    && (i == len || s[i] == NL || Col(s, i) >= 80)
  }

  /** Every character is in its column, and a stray one marks the card as an error, unless it
      is in the first column. */
  predicate TextImageIs(s: seq<byte>, i: nat, code: Code, lower: bool, image: Image)
    requires i <= |s|
  {
    && (forall k :: 1 <= k < 80 ==> image[k] == Placed(s, i, k, code, lower))
    && image[0] == Placed(s, i, 0, code, lower) + if Strays(s, i, code, lower) then CARD_ERR else 0
  }

  lemma PassedOver(s: seq<byte>, i: nat, code: Code, lower: bool, image: Image)
    requires i < |s| && !Solid(s[i]) && TextImageIs(s, i, code, lower, image)
    ensures TextImageIs(s, i + 1, code, lower, image)
  {
    hide Hol, Col, Rows, CharAt, Strays;
    assert !IsStray(s, i, code, lower);
    StraysMore(s, i, code, lower);
    forall k | 0 <= k < 80 ensures CharAt(s, i + 1, k) == CharAt(s, i, k) {
      CharMore(s, i, k);
    }
  }

  /** The image after one more character of temp, a table entry. */
  function Struck(image: Image, col: nat, temp: entry): Image
    requires col < 80
  {
    if temp == INVALID then image[0 := OrErr(image[0])][col := 0] else image[col := temp]
  }

  lemma Strike(s: seq<byte>, i: nat, code: Code, lower: bool, image: Image)
    requires i < |s| && Solid(s[i]) && Col(s, i) < 80 && TextImageIs(s, i, code, lower, image)
    ensures TextImageIs(s, i + 1, code, lower, Struck(image, Col(s, i), Hol(code, Fold(lower, s[i]))))
  {
    hide Hol, Col, CharAt, Placed, Strays, OrErr;
    var col, temp := Col(s, i), Hol(code, Fold(lower, s[i]));
    StraysMore(s, i, code, lower);
    OrErrIs(Placed(s, i, 0, code, lower));
    if col == 0 {
      NoStrayYet(s, i, code, lower);
    }
    forall k | 0 <= k < 80 ensures k != col ==> Placed(s, i + 1, k, code, lower) == Placed(s, i, k, code, lower) {
      PlacedMore(s, i, k, code, lower);
    }
    PlacedMore(s, i, col, code, lower);
  }

  lemma CharMore(s: seq<byte>, i: nat, k: nat)
    requires i < |s|
    ensures CharAt(s, i + 1, k) == if Solid(s[i]) && k == Col(s, i) then i else CharAt(s, i, k)
  {
    hide Col;
  }

  /** One more character: where the others are and whether there are strays. */
  lemma PlacedMore(s: seq<byte>, i: nat, k: nat, code: Code, lower: bool)
    requires i < |s| && Solid(s[i])
    ensures k == Col(s, i) ==> Placed(s, i + 1, k, code, lower) == Rows(code, lower, s[i])
    ensures k != Col(s, i) ==> Placed(s, i + 1, k, code, lower) == Placed(s, i, k, code, lower)
  {
    hide Hol, Col, CharAt, Rows;
    CharMore(s, i, k);
  }

  lemma StraysMore(s: seq<byte>, i: nat, code: Code, lower: bool)
    requires i < |s|
    ensures Strays(s, i + 1, code, lower) <==> Strays(s, i, code, lower) || IsStray(s, i, code, lower)
  {
    hide IsStray;
    if Strays(s, i, code, lower) {
      var j :| 0 <= j < i && IsStray(s, j, code, lower);
      assert j < i + 1;
    }
  }

  lemma OrErrIs(x: nat)
    requires x < CARD_EOF
    ensures OrErr(x) == x + CARD_ERR == OrErr(x + CARD_ERR)
  {
  }

  /** Columns are taken in order. */
  lemma {:induction false} ColGrows(s: seq<byte>, j: nat, i: nat)
    requires j <= i <= |s|
    ensures Col(s, j) <= Col(s, i) && (j < i && Solid(s[j]) ==> Col(s, j) < Col(s, i))
    decreases i
  {
    if j < i {
      ColGrows(s, j, i - 1);
    }
  }

  lemma NoStrayYet(s: seq<byte>, i: nat, code: Code, lower: bool)
    requires i <= |s| && Col(s, i) == 0
    ensures !Strays(s, i, code, lower)
  {
    hide Hol, Col;
    forall j | 0 <= j < i ensures !IsStray(s, j, code, lower) {
      ColGrows(s, j, i);
    }
  }

  lemma ColStep(s: seq<byte>, i: nat)
    requires i < |s|
    ensures Col(s, i + 1) ==
      if Solid(s[i]) then Col(s, i) + 1 else if s[i] == TAB then Col(s, i) / 8 * 8 + 8 else Col(s, i)
    ensures Col(s, 0) == 0
  {
  }

  lemma NothingPlaced(s: seq<byte>, code: Code, lower: bool)
    ensures TextImageIs(s, 0, code, lower, Blank())
  {
  }

  /** The columns of a text line; a tab moves to a multiple of eight. */
  method TextColumns(s: seq<byte>, len: nat, code: Code, lower: bool) returns (image: Image, i: nat)
    requires len + 6 <= |s|
    ensures ColumnsEnd(s, len, i) && TextImageIs(s, i, code, lower, image)
  {
    hide Hol, TextImageIs, Col, OrErr;
    image := Blank();
    NothingPlaced(s, code, lower);
    ColStep(s, 0);
    i := 0;
    var col := 0;
    while col < 80 && i < len
      invariant 0 <= i <= len && 0 <= col <= 80
      invariant col == Col(s, i) || (col == 80 && s[i] == NL)
      invariant forall k :: 0 <= k < i ==> s[k] != NL && Col(s, k) < 80
      invariant TextImageIs(s, i, code, lower, image)
      decreases 80 - col, len - i
    {
      var c := s[i];
      ColStep(s, i);
      if c == 0 || c == CR {
        PassedOver(s, i, code, lower, image);
        i := i + 1;
      } else if c == TAB {
        PassedOver(s, i, code, lower, image);
        col := col / 8 * 8 + 8;
        i := i + 1;
      } else if c == NL {
        col := 80;
      } else {
        Strike(s, i, code, lower, image);
        var temp := Hol(code, Fold(lower, c));
        if temp == INVALID {
          image := image[0 := OrErr(image[0])];
        }
        image := image[col := if temp == INVALID then 0 else temp];
        col := col + 1;
        i := i + 1;
      }
    }
  }

  /** In printable text character k falls on column k. */
  lemma {:induction false} PlainColumns(s: seq<byte>, i: nat)
    requires i <= |s| && forall k :: 0 <= k < i ==> 32 <= s[k] < 127
    ensures Col(s, i) == i && forall k: nat :: CharAt(s, i, k) == if k < i then k else -1
  {
    if i > 0 {
      PlainColumns(s, i - 1);
    }
  }

  lemma PlainCode(code: Code, lower: bool, c: byte)
    requires 32 <= c < 127
    ensures Hol(code, Fold(lower, c)) != INVALID && Rows(code, lower, c) == Hol(code, Fold(lower, c))
  {
    hide Hol;
    HolGood(code, Fold(lower, c));
  }

  lemma LineFacts(s: seq<byte>, len: nat, i: nat, code: Code, lower: bool, image: Image, L: nat)
    requires len + 6 <= |s| && ColumnsEnd(s, len, i) && TextImageIs(s, i, code, lower, image)
    ensures LineAt(s, len, L) ==> i == L
    ensures LineAt(s, len, L) ==>
      forall k :: 0 <= k < 80 ==> image[k] == if k < L then Hol(code, Fold(lower, s[k])) else 0
  {
    hide Hol, Col, CharAt, Rows;
    if LineAt(s, len, L) {
      if i < L {
        PlainColumns(s, i);
      }
      assert i == L;
      PlainColumns(s, L);
      forall k | 0 <= k < L ensures !IsStray(s, k, code, lower) && Rows(code, lower, s[k]) == Hol(code, Fold(lower, s[k])) {
        PlainCode(code, lower, s[k]);
      }
    }
  }

  function AfterEnd(s: seq<byte>, e: nat): nat
    requires e + 1 < |s|
  {
    e + if s[e] == CR then (if s[e + 1] == NL then 2 else 1) else if s[e] == NL then 1 else 0
  }

  predicate NoLineEnd(s: seq<byte>, from: nat, to: nat)
    requires to <= |s|
  {
    forall k :: from <= k < to ==> !EndsLine(s[k])
  }

  /** The rest of the line and its end are passed over: up to position e, which is the
      first line end or the end of the data, and then one of "\r", "\n" and "\r\n". */
  method SkipLine(s: seq<byte>, len: nat, start: nat) returns (i: nat, ghost e: nat)
    requires len + 6 <= |s| && start <= len + 4
    ensures start <= e <= Max(start, len) && NoLineEnd(s, start, e)
    ensures e < len ==> EndsLine(s[e])
    ensures i == AfterEnd(s, e)
    ensures start <= i && (start < len ==> start < i)
    ensures s[start] == NL ==> i == start + 1
    ensures s[start] == 0 && len <= start ==> i == start
  {
    i := start;
    while s[i] != NL && s[i] != CR && i < len
      invariant start <= i <= Max(start, len)
      invariant NoLineEnd(s, start, i)
      decreases len - i
    {
      i := i + 1;
    }
    e := i;
    if s[i] == CR {
      i := i + 1;
    }
    if s[i] == NL {
      i := i + 1;
    }
  }

  function Lone(h: nat): (c: Image)
    ensures c[0] == h && forall k :: 1 <= k < 80 ==> c[k] == 0
  {
    Blank()[0 := h]
  }

  lemma TextFacts(s: seq<byte>, len: nat, code: Code, card: Card)
    requires Starts(s, len, TextLine(code, card))
    ensures var L := TextLength(card);
      && LineAt(s, len, L) && |TextLine(code, card)| == L + 1
      && (forall k :: 0 <= k < L ==> s[k] == PunchChar(code, card[k]))
      && (L > 1 ==> card[L - 1] != 0 && s[L - 1] != BLANK)
  {
    hide Ascii, Hol;
    var line := TextLine(code, card);
    var L := TextLength(card);
    assert s[L] == line[L];
    forall k | 0 <= k < L ensures s[k] == PunchChar(code, card[k]) && 32 <= s[k] < 127 {
      assert s[k] == line[k];
      PunchCharPrints(code, card[k]);
    }
    PunchCharPrints(code, card[L - 1]);
  }

  /** The tags the reader sees are those of the card's first four columns. */
  lemma TagFacts(s: seq<byte>, len: nat, code: Code, card: Card)
    requires Starts(s, len, TextLine(code, card)) && |s| >= 4
    ensures var L := TextLength(card);
      && (LooksSpecial(code, card) <==>
          (s[0] == TILDE && L == 1) || IsRaw(s) || IsEor(s) || IsEof(s) || IsEoi(s))
      && (IsRaw(s) || IsEor(s) || IsEof(s) || IsEoi(s) ==> L >= 4 && card[L - 1] != 0 && card[1] != 0)
      && !Is78(s)
  {
    hide PunchChar, Hol, TextLine, Starts;
    TextFacts(s, len, code, card);
    var L := TextLength(card);
    PunchCharPrints(code, card[0]);
    PunchCharPrints(code, card[1]);
    PunchCharPrints(code, card[2]);
    PunchCharPrints(code, card[3]);
    if L >= 4 {
      assert Head(code, card) == s[..4];
    } else {
      assert card[3] == 0;
    }
  }

  lemma ColumnsVerdict(s: seq<byte>, len: nat, code: Code, card: Card, image: Image)
    requires Starts(s, len, TextLine(code, card))
    requires forall k :: 0 <= k < 80 ==> image[k] == if k < TextLength(card) then
      (if k < |s| then Hol(code, s[k]) else INVALID) else 0
    ensures image == card <==> IsText(code, card)
  {
    hide Ascii, Hol, TextLine, Starts;
    TextFacts(s, len, code, card);
    forall k | 0 <= k < 80 ensures image[k] == card[k] <==> Ascii(code, card[k]) != NO_CHAR {
      PunchCharPrints(code, card[k]);
      BlankIsText(code);
    }
  }

  lemma BlankIsText(code: Code)
    ensures Ascii(code, 0) != NO_CHAR
  {
    hide Hol, LastChar;
    LastCharIs(code, 0, 128);
    HolGood(code, BLANK);
  }

  lemma HeadOfLine(card: Card)
    ensures var line := OctalLine(card);
      && |line| >= 4 && line[0] == TILDE
      && (Used(card, 80) != 1 ==> line[1] == 114 && line[2] == 97 && line[3] == 119)
      && (Used(card, 80) == 1 ==> line[1] == 101 && line[2] == 111)
      && (Used(card, 80) == 1 ==> line[3] == if card[0] == EOF || card[0] == EOI then 102 else 114)
  {
    hide Digits, Used;
  }

  /** What an octal line looks like, card by card. */
  lemma OctalHead(s: seq<byte>, len: nat, card: Card)
    requires Starts(s, len, OctalLine(card)) && |s| >= 4
    ensures s[0] == TILDE && 1 < len && BLANK < s[1] < 127
    ensures var lone := Used(card, 80) == 1;
      && (!lone ==> IsRaw(s))
      && (lone && card[0] != EOF && card[0] != EOI ==> IsEor(s) && !IsRaw(s))
      && (lone && (card[0] == EOF || card[0] == EOI) ==> IsEof(s) && !IsEor(s) && !IsRaw(s))
  {
    hide Digits, Used;
    HeadOfLine(card);
    var line := OctalLine(card);
    hide OctalLine;
    assert s[0] == line[0] && s[1] == line[1] && s[2] == line[2] && s[3] == line[3];
  }

  lemma OctalTail(s: seq<byte>, len: nat, card: Card)
    requires Starts(s, len, OctalLine(card))
    ensures Used(card, 80) != 1 ==> DigitsAt(s, len, card) && s[324] == NL && |OctalLine(card)| == 325
    ensures Used(card, 80) == 1 && OctalSurvives(card) ==> 4 < len <= |s| && s[4] == NL && |OctalLine(card)| == 5
  {
    hide Digits, Used;
    var line := OctalLine(card);
    if Used(card, 80) != 1 {
      assert line == [TILDE, 114, 97, 119] + Digits(card) + [NL];
      assert s[324] == line[324];
      forall q | 0 <= q < 320 ensures s[4 + q] == Digits(card)[q] {
        assert s[4 + q] == line[4 + q];
      }
    } else if OctalSurvives(card) {
      assert s[4] == line[4];
    }
  }

  lemma Untagged(s: seq<byte>)
    requires |s| >= 4
    ensures s[0] != TILDE ==> !IsRaw(s) && !IsEor(s) && !IsEof(s) && !IsEoi(s) && !Is78(s)
  {
  }

  /** The column punched for a tagged control card, and the length of its tag. */
  method ControlCard(s: seq<byte>) returns (h: nat, i: nat)
    requires |s| >= 4 && (IsEor(s) || IsEof(s) || IsEoi(s) || Is78(s))
    ensures h == (if IsEor(s) then EOR else if IsEof(s) then EOF else if IsEoi(s) then EOI else 6)
    ensures i == if IsEor(s) || IsEof(s) || IsEoi(s) then 4 else 3
  {
    if IsEor(s) {
      return EOR, 4;
    } else if IsEof(s) {
      return EOF, 4;
    } else if IsEoi(s) {
      return EOI, 4;
    }
    return 6, 3;
  }

  /** A text card never describes itself in octal: its last column would be blank. */
  lemma WhenRaw(s: seq<byte>, len: nat, code: Code, card: Card, image: Image)
    requires |s| >= 4 && IsRaw(s)
    requires LineAt(s, len, TextLength(card)) && TextLength(card) >= 4 ==> image[TextLength(card) - 1] == 0
    ensures Starts(s, len, TextLine(code, card)) ==> image != card
  {
    hide TextLine, Starts, LineAt, IsRaw, LooksSpecial;
    WhenText(s, len, code, card);
    if Starts(s, len, TextLine(code, card)) {
      assert image[TextLength(card) - 1] != card[TextLength(card) - 1];
    }
  }

  /** An image with column 0 alone is a card punched at most there. */
  lemma LoneIs(h: nat, card: Card)
    ensures Lone(h) == card <==> card[0] == h && Used(card, 80) <= 1
  {
    if card[0] == h && Used(card, 80) <= 1 {
      assert Lone(h) == card;
    }
  }

  lemma WhenText(s: seq<byte>, len: nat, code: Code, card: Card)
    requires |s| >= 4
    ensures Starts(s, len, TextLine(code, card)) ==>
      var L := TextLength(card);
      && LineAt(s, len, L) && L < |s| && |TextLine(code, card)| == L + 1 && s[L] == NL
      && (L > 1 ==> card[L - 1] != 0 && s[L - 1] != BLANK)
      && (LooksSpecial(code, card) <==>
          (s[0] == TILDE && L == 1) || IsRaw(s) || IsEor(s) || IsEof(s) || IsEoi(s))
      && (IsRaw(s) || IsEor(s) || IsEof(s) || IsEoi(s) ==> L >= 4 && card[L - 1] != 0 && Used(card, 80) > 1)
      && !Is78(s)
      && (IsLoneTilde(code, card) ==> L == 1 && s[0] == TILDE)
  {
    if Starts(s, len, TextLine(code, card)) {
      TextFacts(s, len, code, card);
      TagFacts(s, len, code, card);
    }
  }

  lemma WhenOctal(s: seq<byte>, len: nat, card: Card)
    requires |s| >= 4
    ensures Starts(s, len, OctalLine(card)) ==>
      var lone := Used(card, 80) == 1;
      && s[0] == TILDE && 1 < len && BLANK < s[1] < 127
      && (!lone ==> IsRaw(s) && DigitsAt(s, len, card) && 324 < |s| && s[324] == NL && |OctalLine(card)| == 325)
      && (lone && card[0] != EOF && card[0] != EOI ==> IsEor(s) && !IsRaw(s))
      && (lone && (card[0] == EOF || card[0] == EOI) ==> IsEof(s) && !IsEor(s) && !IsRaw(s))
      && (lone && OctalSurvives(card) ==> 4 < len <= |s| && s[4] == NL && |OctalLine(card)| == 5)
  {
    if Starts(s, len, OctalLine(card)) {
      OctalHead(s, len, card);
      OctalTail(s, len, card);
    }
  }

  lemma WhenColumns(s: seq<byte>, len: nat, code: Code, lower: bool, card: Card, image: Image)
    requires len <= |s|
    requires LineAt(s, len, TextLength(card)) ==> forall k :: 0 <= k < 80 ==>
      image[k] == if k < TextLength(card) then Hol(code, Fold(lower, s[k])) else 0
    ensures lower && Starts(s, len, TextLine(code, card)) ==> (image == card <==> IsText(code, card))
  {
    hide Hol;
    if lower && Starts(s, len, TextLine(code, card)) {
      TextFacts(s, len, code, card);
      ColumnsVerdict(s, len, code, card, image);
    }
  }

  /** What a card punched only in its first column comes back as: "~eof" stands for 6/7/9,
      and "~eor" and "~eoraw" for 7/8/9. */
  function LoneReadAs(h: column): nat {
    if h == EOF || h == EOI then EOF else EOR
  }

  /** A card of a lone tilde. */
  predicate IsLoneTilde(code: Code, card: Card) {
    PunchChar(code, card[0]) == TILDE && Used(card, 80) == 1
  }

  /** A tilde followed by nothing but blanks. */
  ghost predicate BlankCard(s: seq<byte>, len: nat)
    requires len < |s|
  {
    s[0] == TILDE && exists b :: BlankEnds(s, len, b)
  }

  predicate Lettered(s: seq<byte>) requires |s| >= 4 { IsRaw(s) || IsEor(s) || IsEof(s) || IsEoi(s) || Is78(s) }

  /** What a control card comes to: its image, and where the scan of its columns stops. */
  ghost predicate ControlIs(s: seq<byte>, len: nat, image: Image, i: nat)
    requires len + 6 <= |s|
  {
    if BlankCard(s, len) then image == Lone(CARD_EOF) && BlankEnds(s, len, i)
    else if IsRaw(s) then OctalEnds(s, len, i) && OctalImage(s, len, i, image)
    else if IsEor(s) then image == Lone(EOR) && i == 4
    else if IsEof(s) then image == Lone(EOF) && i == 4
    else if IsEoi(s) then image == Lone(EOI) && i == 4
    else Is78(s) && image == Lone(6) && i == 3
  }

  /** What a text card comes to. */
  ghost predicate TextIs(s: seq<byte>, len: nat, code: Code, lower: bool, image: Image, i: nat)
    requires len + 6 <= |s|
  {
    if BlankCard(s, len) || Lettered(s) then ControlIs(s, len, image, i)
    else ColumnsEnd(s, len, i) && TextImageIs(s, i, code, lower, image)
  }

  /** The rest of the line from `from` on is passed over. */
  ghost predicate LineOver(s: seq<byte>, len: nat, from: nat, size: nat)
    requires len + 6 <= |s| && from <= len + 4
  {
    exists e: nat :: from <= e <= Max(from, len) && NoLineEnd(s, from, e) && (e < len ==> EndsLine(s[e])) && size == AfterEnd(s, e)
  }

  /** A text card takes more than there is exactly when its tag reaches past the data, when
      its line goes on to the end of the data and what is left behind it in the buffer looks
      like a line end, or when a new line is found there behind a return. */
  predicate TextRunsOver(s: seq<byte>, len: nat, i: nat)
    requires len + 6 <= |s|
  {
    || i > len
    || (NoLineEnd(s, i, len) && EndsLine(s[len]))
    || (i < len && NoLineEnd(s, i, len - 1) && s[len - 1] == CR && s[len] == NL)
  }

  lemma TextOver(s: seq<byte>, len: nat, i: nat, size: nat)
    requires len + 6 <= |s| && i <= len + 4 && LineOver(s, len, i, size)
    ensures size > len <==> TextRunsOver(s, len, i)
  {
    var e: nat :| i <= e <= Max(i, len) && NoLineEnd(s, i, e) && (e < len ==> EndsLine(s[e])) && size == AfterEnd(s, e);
    if e < len - 1 {
      assert EndsLine(s[e]);
    }
  }

  /** After a null nothing runs over: no line end and no letters of a tag. */
  lemma NullStops(s: seq<byte>, len: nat, code: Code, lower: bool, image: Image, i: nat)
    requires len + 6 <= |s| && TextIs(s, len, code, lower, image, i) && s[len] == 0
    ensures !TextRunsOver(s, len, i)
  {
    hide TextImageIs, OctalImage, Col, Tabs, Lone;
    if s[0] == TILDE && len == 0 {
      assert false;
    }
  }

  lemma {:induction false} TabsGrow(s: seq<byte>, i: nat, j: nat)
    requires i <= j <= |s|
    ensures Tabs(s, i) <= Tabs(s, j)
    decreases j
  {
    if i < j {
      TabsGrow(s, i, j - 1);
    }
  }

  /** The scan behind a tilde has one outcome. */
  lemma BlankOrNot(s: seq<byte>, len: nat, b: nat, c: nat)
    requires len < |s| && BlankEnds(s, len, b)
    ensures !BlankFails(s, len, c)
  {
    hide Tabs;
    if BlankFails(s, len, c) && b <= c - 1 {
      TabsGrow(s, b, c - 1);
    }
  }

  method ParseText(s: seq<byte>, len: nat, code: Code, lower: bool, ghost card: Card)
      returns (image: Image, size: nat, ghost stop: nat)
    requires len + 6 <= |s|
    ensures stop <= len + 4 && TextIs(s, len, code, lower, image, stop) && LineOver(s, len, stop, size)
    ensures len > 0 ==> size > 0
    ensures len == 0 && s[0] == 0 ==> size == 0 && Empty(image)
    ensures lower && Starts(s, len, TextLine(code, card)) ==>
      && (image == card <==> TextSurvives(code, card))
      && (TextSurvives(code, card) ==> size == |TextLine(code, card)|)
    ensures Starts(s, len, OctalLine(card)) ==>
      && (image == card <==> OctalSurvives(card))
      && (OctalSurvives(card) ==> size == |OctalLine(card)|)
    ensures Starts(s, len, OctalLine(card)) && Used(card, 80) == 1 ==> image == Lone(LoneReadAs(card[0]))
    ensures Starts(s, len, TextLine(code, card)) && IsLoneTilde(code, card) ==>
      image == Lone(CARD_EOF) && stop == 2
  {
    hide Starts, TextLine, OctalLine, TextSurvives, OctalSurvives, Used, NoLineEnd, Empty, IsLoneTilde, Lone,
      AfterEnd, EndsLine, TextIs;
    WhenText(s, len, code, card);
    var i;
    image, i := TextImage(s, len, code, lower, card);
    stop := i;
    ghost var e;
    size, e := SkipLine(s, len, i);
  }

  /** The image of a text card, and where the scan of its columns stopped. */
  method TextImage(s: seq<byte>, len: nat, code: Code, lower: bool, ghost card: Card)
      returns (image: Image, i: nat)
    requires len + 6 <= |s|
    ensures i <= len + 4 && TextIs(s, len, code, lower, image, i)
    ensures len == 0 && s[0] == 0 ==> i == 0 && Empty(image)
    ensures lower && Starts(s, len, TextLine(code, card)) ==>
      && (image == card <==> TextSurvives(code, card))
      && (TextSurvives(code, card) ==> i == TextLength(card))
    ensures Starts(s, len, OctalLine(card)) ==>
      && (image == card <==> OctalSurvives(card))
      && (OctalSurvives(card) ==> s[i] == NL && |OctalLine(card)| == i + 1)
    ensures Starts(s, len, OctalLine(card)) && Used(card, 80) == 1 ==> image == Lone(LoneReadAs(card[0]))
    ensures Starts(s, len, TextLine(code, card)) && IsLoneTilde(code, card) ==> image == Lone(CARD_EOF) && i == 2
  {
    hide Starts, TextLine, OctalLine, IsText, LooksSpecial, OctalSurvives, Used, Empty, TextLength, IsLoneTilde, Lone,
      BlankCard, Lettered, ControlIs, ColumnsEnd, TextImageIs;
    var hit;
    hit, image, i := TaggedImage(s, len, code, card);
    if !hit {
      image, i := ColumnsImage(s, len, code, lower, card);
    }
  }

  /** Control cards: end-of-file cards, octal cards and the end cards. */
  method TaggedImage(s: seq<byte>, len: nat, code: Code, ghost card: Card)
      returns (hit: bool, image: Image, i: nat)
    requires len + 6 <= |s|
    ensures i <= len + 4 && (hit ==> s[0] == TILDE)
    ensures hit <==> BlankCard(s, len) || Lettered(s)
    ensures hit ==> ControlIs(s, len, image, i)
    ensures Starts(s, len, TextLine(code, card)) ==> (hit <==> LooksSpecial(code, card)) && (hit ==> image != card)
    ensures Starts(s, len, OctalLine(card)) ==>
      && hit && (image == card <==> OctalSurvives(card))
      && (OctalSurvives(card) ==> s[i] == NL && |OctalLine(card)| == i + 1)
    ensures Starts(s, len, OctalLine(card)) && Used(card, 80) == 1 ==> image == Lone(LoneReadAs(card[0]))
    ensures Starts(s, len, TextLine(code, card)) && IsLoneTilde(code, card) ==> hit && image == Lone(CARD_EOF) && i == 2
  {
    hide Starts, TextLine, OctalLine, IsText, LooksSpecial, DigitsAt, Digits, Hol, Ascii, Tagged, IsRaw,
      IsEor, IsEof, IsEoi, Is78, LineAt, Lone, Used, IsLoneTilde, BlankEnds, BlankFails, OctalEnds, OctalImage;
    Untagged(s);
    ghost var L := TextLength(card);
    WhenText(s, len, code, card);
    WhenOctal(s, len, card);
    hit := true;
    var f;
    f, i := LoneTilde(s, len, L);
    BlankIs(s, len, f, i);
    if f {
      image := Lone(CARD_EOF);
      LoneIs(CARD_EOF, card);
    } else if IsRaw(s) {
      image, i := RawImage(s, len, code, card);
    } else if IsEor(s) || IsEof(s) || IsEoi(s) || Is78(s) {
      var h, n := ControlCard(s);
      image, i := Lone(h), n;
      LoneIs(h, card);
    } else {
      hit, image := false, Blank();
    }
  }

  lemma BlankIs(s: seq<byte>, len: nat, f: bool, i: nat)
    requires len + 6 <= |s|
    requires s[0] == TILDE ==> if f then BlankEnds(s, len, i) else BlankFails(s, len, i)
    requires s[0] != TILDE ==> !f
    ensures f <==> BlankCard(s, len)
  {
    hide BlankEnds, BlankFails;
    if BlankCard(s, len) && !f {
      var b :| BlankEnds(s, len, b);
      BlankOrNot(s, len, b, i);
    }
  }

  method RawImage(s: seq<byte>, len: nat, code: Code, ghost card: Card) returns (image: Image, i: nat)
    requires len + 6 <= |s| && IsRaw(s)
    ensures i <= len + 4 && OctalEnds(s, len, i) && OctalImage(s, len, i, image)
    ensures Starts(s, len, TextLine(code, card)) ==> image != card
    ensures DigitsAt(s, len, card) ==> image == card && i == 324
  {
    hide Starts, TextLine, IsRaw, LineAt, DigitsAt, OctalEnds, OctalImage;
    image, i := RawColumns(s, len);
    RawFacts(s, len, i, image, TextLength(card), card);
    WhenRaw(s, len, code, card, image);
  }

  method ColumnsImage(s: seq<byte>, len: nat, code: Code, lower: bool, ghost card: Card) returns (image: Image, i: nat)
    requires len + 6 <= |s|
    ensures i <= len && (len == 0 ==> Empty(image))
    ensures ColumnsEnd(s, len, i) && TextImageIs(s, i, code, lower, image)
    ensures lower && Starts(s, len, TextLine(code, card)) ==> (image == card <==> IsText(code, card)) && i == TextLength(card)
  {
    hide Starts, TextLine, IsText, LooksSpecial, Hol, LineAt, IsRaw, IsEor, IsEof, IsEoi, Is78, TextImageIs, Col;
    WhenText(s, len, code, card);
    image, i := TextColumns(s, len, code, lower);
    LineFacts(s, len, i, code, lower, image, TextLength(card));
    NothingRead(s, i, code, lower, image);
    WhenColumns(s, len, code, lower, card, image);
  }

  lemma NothingRead(s: seq<byte>, i: nat, code: Code, lower: bool, image: Image)
    requires i <= |s| && TextImageIs(s, i, code, lower, image)
    ensures i == 0 ==> Empty(image)
  {
    NothingPlaced(s, code, lower);
    if i == 0 {
      assert forall k :: 0 <= k < 80 ==> image[k] == Blank()[k];
    }
  }

  // ------------------------------------------------------------------ binary cards

  /** Column k of a binary record: four rows in the first byte, eight in the second. */
  function BinaryColumn(s: seq<byte>, k: nat): column
    requires 2 * k + 1 < |s|
  {
    var low: nat, high: nat := s[2 * k], s[2 * k + 1];
    low / 16 + high * 16
  }

  predicate LowNibblesClear(s: seq<byte>, n: nat)
    requires 2 * n <= |s|
  {
    forall k :: 0 <= k < n ==> s[2 * k] % 16 == 0
  }

  /** Every column is its two bytes, and a set low nibble marks the card as an error. */
  predicate BinaryImage(s: seq<byte>, image: Image)
    requires |s| >= 160
  {
    && (forall k :: 1 <= k < 80 ==> image[k] == BinaryColumn(s, k))
    && image[0] == if LowNibblesClear(s, 80) then BinaryColumn(s, 0) else BinaryColumn(s, 0) + CARD_ERR
  }

  method ParseBinary(s: seq<byte>, len: nat, ghost card: Card) returns (ok: bool, image: Image)
    requires len + 6 <= |s|
    ensures ok <==> len >= 160
    ensures !ok ==> image == Lone(CARD_ERR)
    ensures ok ==> BinaryImage(s, image)
    ensures Starts(s, len, BinaryRecord(card)) ==> image == card
  {
    hide BinaryRecord;
    if len < 160 {
      Within(s, len, BinaryRecord(card));
      return false, Lone(CARD_ERR);
    }
    ok := true;
    image := Blank();
    var temp := true;
    var col := 0;
    while col < 80
      invariant 0 <= col <= 80
      invariant temp == LowNibblesClear(s, col)
      invariant forall k :: 0 <= k < col ==> image[k] == BinaryColumn(s, k)
    {
      var low: nat, high: nat := s[2 * col], s[2 * col + 1];
      temp := temp && low % 16 == 0;
      image := image[col := low / 16 % 16 + high * 16];
      col := col + 1;
    }
    if !temp {
      image := image[0 := OrErr(image[0])];
    }
    if Starts(s, len, BinaryRecord(card)) {
      BinaryIsRead(s, len, card);
    }
  }

  lemma BinaryIsRead(s: seq<byte>, len: nat, card: Card)
    requires Starts(s, len, BinaryRecord(card)) && 160 <= |s|
    ensures LowNibblesClear(s, 80) && forall k :: 0 <= k < 80 ==> BinaryColumn(s, k) == card[k]
  {
    hide BinaryRecord;
    var r := BinaryRecord(card);
    forall k | 0 <= k < 80 ensures s[2 * k] % 16 == 0 && BinaryColumn(s, k) == card[k] {
      assert s[2 * k] == r[2 * k] && s[2 * k + 1] == r[2 * k + 1];
    }
  }

  /** Is the record followed by another record or by nothing? */
  predicate MarkFollows(s: seq<byte>, len: nat) {
    160 <= len <= |s| && (160 < len ==> s[160] >= 128)
  }

  lemma CbnByte(s: seq<byte>, len: nat, card: Card, q: nat)
    requires Starts(s, len, CbnRecord(card)) && q < 160
    ensures q == 0 ==> s[0] >= 128 && s[0] != 0x8F
    ensures var b := if q == 0 then s[0] % 128 else s[q];
      b < 128 && b % 64 == Half(card, q) && b / 64 * 64 != Parity(b % 64)
  {
    hide CbnRecord, Parity, WithParity, Half;
    assert s[q] == CbnRecord(card)[q];
    ParityBit(Half(card, q));
  }

  /** The parity bit is the one the reader expects, and with the record mark a byte is
      never the tape mark. */
  lemma ParityBit(c: nat)
    requires c < 64
    ensures var b := WithParity(c); b < 128 && b % 64 == c && b / 64 * 64 != Parity(c) && 128 + b != 0x8F
  {
    NotTapeMark();
    hide Parity;
  }

  lemma NotTapeMark()
    ensures Parity(15) == 0
  {
  }

  /** A tape mark stands alone or in front of another record. */
  predicate TapeMark(s: seq<byte>, len: nat)
    requires |s| >= 2
  {
    s[0] == 0x8F && (len == 1 || s[1] >= 128)
  }

  predicate NoMark(s: seq<byte>, to: nat)
    requires to <= |s|
  {
    forall q :: 1 <= q < to ==> s[q] < 128
  }

  /** A record goes up to the next mark. If there is none up to the byte behind the data, an
      odd rest and an overlong record take one byte more than there is. */
  predicate CbnEnds(s: seq<byte>, len: nat, i: nat)
    requires len + 6 <= |s|
  {
    if NoMark(s, len + 1) then i == if len % 2 == 0 && len <= 160 then len else len + 1
    else 1 <= i <= len && s[i] >= 128 && NoMark(s, i)
  }

  /** Column k of a record of i bytes. */
  function CbnColumn(s: seq<byte>, i: nat, k: nat): (c: nat)
    requires i <= |s|
    ensures c < CARD_EOF
  {
    var high: nat, low: nat := if 2 * k < i then s[2 * k] % 64 else 0, if 2 * k + 1 < i then s[2 * k + 1] % 64 else 0;
    high * 64 + low
  }

  predicate BadParity(s: seq<byte>, q: nat)
    requires q < |s|
  {
    Parity(s[q] % 64) == s[q] / 64 % 2 * 64
  }

  /** Is there a byte of even parity among the first i? That of the first one is forgotten. */
  predicate Faulty(s: seq<byte>, i: nat)
    requires i <= |s|
  {
    exists q :: 1 <= q < i && BadParity(s, q)
  }

  predicate CbnImage(s: seq<byte>, i: nat, image: Image)
    requires i <= |s|
  {
    && (forall k :: 1 <= k < 80 ==> image[k] == CbnColumn(s, i, k))
    && image[0] == CbnColumn(s, i, 0) + if Faulty(s, Min(i, 160)) || i > 160 then CARD_ERR else 0
  }

  /** The image after one more byte: the upper or the lower half of a column. */
  function HalfRead(image: Image, col: nat, high: bool, b: nat): Image
    requires col < 80
  {
    var marked := if Parity(b % 64) == b / 64 * 64 then image[0 := OrErr(image[0])] else image;
    marked[col := if high then b % 64 * 64 else marked[col] + b % 64]
  }

  lemma FaultyMore(s: seq<byte>, i: nat)
    requires i < |s|
    ensures Faulty(s, i + 1) <==> Faulty(s, i) || (i >= 1 && BadParity(s, i))
  {
    hide BadParity;
    if Faulty(s, i) {
      var q :| 1 <= q < i && BadParity(s, q);
      assert q < i + 1;
    }
  }

  lemma ColumnsMore(s: seq<byte>, i: nat, col: nat, high: bool)
    requires i < |s| && i == if high then 2 * col else 2 * col + 1
    ensures forall k: nat :: k != col ==> CbnColumn(s, i + 1, k) == CbnColumn(s, i, k)
    ensures var b: nat := s[i];
      if high then CbnColumn(s, i, col) == 0 && CbnColumn(s, i + 1, col) == b % 64 * 64
      else CbnColumn(s, i + 1, col) == CbnColumn(s, i, col) + b % 64
  {
  }

  /** The very first byte: its record mark is cleared and its parity does not last. */
  lemma FirstStep(s: seq<byte>, image: Image)
    requires |s| > 0 && CbnImage(s, 0, image)
    ensures CbnImage(s, 1, HalfRead(image, 0, true, s[0] % 128))
  {
    hide CbnColumn, Faulty, OrErr, Parity;
    ColumnsMore(s, 0, 0, true);
    NeverFaulty(s);
    LowBits(s[0]);
  }

  lemma HalfStep(s: seq<byte>, i: nat, col: nat, high: bool, image: Image)
    requires 0 < i < |s| && col < 80 && i == (if high then 2 * col else 2 * col + 1)
    requires CbnImage(s, i, image) && s[i] < 128
    ensures CbnImage(s, i + 1, HalfRead(image, col, high, s[i]))
  {
    hide CbnColumn, Faulty, OrErr, Parity, BadParity;
    FaultyMore(s, i);
    SameParity(s, i);
    ColumnsMore(s, i, col, high);
    OrErrIs(CbnColumn(s, i, 0));
  }

  lemma SameParity(s: seq<byte>, i: nat)
    requires i < |s| && s[i] < 128
    ensures BadParity(s, i) <==> Parity(s[i] % 64) == s[i] / 64 * 64
  {
    hide Parity;
  }

  lemma NeverFaulty(s: seq<byte>)
    requires |s| >= 1
    ensures !Faulty(s, 0) && !Faulty(s, 1)
  {
  }

  lemma NoHalves(s: seq<byte>)
    ensures CbnImage(s, 0, Blank())
  {
  }

  lemma Overlong(s: seq<byte>, i: nat, image: Image)
    requires 160 < i <= |s| && CbnImage(s, 160, image)
    ensures CbnImage(s, i, image[0 := OrErr(image[0])])
  {
    hide Faulty, OrErr;
    OrErrIs(CbnColumn(s, 160, 0));
  }

  /** Two bytes a column; the record mark of the first byte is cleared beforehand. */
  method ParseCbn(s: seq<byte>, len: nat) returns (image: Image, i: nat)
    requires len + 6 <= |s|
    ensures if TapeMark(s, len) then image == Lone(CARD_EOF) && i == 1
            else CbnEnds(s, len, i) && CbnImage(s, i, image)
  {
    hide CbnImage, Parity, Lone, OrErr, HalfRead;
    if s[0] == 0x8F && (len == 1 || s[1] >= 128) {
      return Lone(CARD_EOF), 1;
    }
    image := Blank();
    NoHalves(s);
    i := 0;
    var col := 0;
    var going := true;
    while going && i < len && col < 80
      invariant 0 <= col <= 80 && i <= len + 1 && i <= 160 && (going ==> i == 2 * col)
      invariant NoMark(s, i) && CbnImage(s, i, image) && (i == len + 1 ==> len % 2 == 1 && s[len] < 128)
      invariant !going ==> 1 <= i <= len && s[i] >= 128
      decreases going, len - i
    {
      var b := if i == 0 then s[0] % 128 else s[i];
      if b >= 128 {
        going := false;
      } else {
        if i == 0 { FirstStep(s, image); } else { HalfStep(s, i, col, true, image); }
        image := HalfColumn(image, col, true, b);
        i := i + 1;
        if s[i] >= 128 {
          going := false;
        } else {
          HalfStep(s, i, col, false, image);
          image := HalfColumn(image, col, false, s[i]);
          i := i + 1;
          col := col + 1;
        }
      }
    }
    if i < len && col >= 80 && s[i] < 128 {
      i := NextMark(s, len);
      Overlong(s, i, image);
      image := image[0 := OrErr(image[0])];
    }
  }

  /** One byte of a column, checked for odd parity. */
  method HalfColumn(image: Image, col: nat, high: bool, b: nat) returns (r: Image)
    requires col < 80
    ensures r == HalfRead(image, col, high, b)
  {
    hide Parity, OrErr;
    var c := b % 64;
    r := image;
    if Parity(c) == b / 64 * 64 {
      r := r[0 := OrErr(r[0])];
    }
    r := r[col := if high then c * 64 else r[col] + c];
  }

  /** An overlong record is passed over up to the next mark. */
  method NextMark(s: seq<byte>, len: nat) returns (i: nat)
    requires len + 6 <= |s| && 160 < len && NoMark(s, 161)
    ensures 160 < i <= len + 1 && NoMark(s, i) && (i <= len ==> s[i] >= 128)
  {
    i := 160;
    while s[i] < 128 && i <= len
      invariant 160 <= i <= len + 1 && NoMark(s, i)
      decreases len + 1 - i
    {
      i := i + 1;
    }
  }

  /** A punched record comes back as the card. */
  lemma CbnFacts(s: seq<byte>, len: nat, card: Card, image: Image, i: nat)
    requires len + 6 <= |s| && Starts(s, len, CbnRecord(card)) && MarkFollows(s, len)
    requires if TapeMark(s, len) then image == Lone(CARD_EOF) && i == 1
             else CbnEnds(s, len, i) && CbnImage(s, i, image)
    ensures image == card && i == 160
  {
    hide CbnRecord, Parity, WithParity, Half, Starts, Lone, CbnColumn, BadParity;
    CbnByte(s, len, card, 0);
    forall q | 1 <= q < 160 ensures s[q] < 128 && !BadParity(s, q) {
      CbnGood(s, len, card, q);
    }
    assert i == 160;
    forall k | 0 <= k < 80 ensures CbnColumn(s, 160, k) == card[k] {
      CbnColumnIs(s, len, card, k);
    }
  }

  lemma CbnGood(s: seq<byte>, len: nat, card: Card, q: nat)
    requires Starts(s, len, CbnRecord(card)) && 160 <= |s| && 1 <= q < 160
    ensures s[q] < 128 && !BadParity(s, q)
  {
    hide CbnRecord, Parity, WithParity, Half, Starts;
    CbnByte(s, len, card, q);
    SameParity(s, q);
  }

  lemma CbnColumnIs(s: seq<byte>, len: nat, card: Card, k: nat)
    requires Starts(s, len, CbnRecord(card)) && 160 <= |s| && k < 80
    ensures CbnColumn(s, 160, k) == card[k]
  {
    hide CbnRecord, Half, Starts;
    CbnHalf(s, len, card, 2 * k);
    CbnHalf(s, len, card, 2 * k + 1);
    HalvesMeet(card, k);
  }

  lemma CbnHalf(s: seq<byte>, len: nat, card: Card, q: nat)
    requires Starts(s, len, CbnRecord(card)) && q < 160 <= |s|
    ensures s[q] % 64 == Half(card, q)
  {
    hide CbnRecord, Parity, WithParity, Half, Starts;
    CbnByte(s, len, card, q);
    LowBits(s[q]);
  }

  lemma LowBits(b: nat)
    ensures b % 128 % 64 == b % 64
  {
  }

  lemma HalvesMeet(card: Card, col: nat)
    requires col < 80
    ensures Half(card, 2 * col) * 64 + Half(card, 2 * col + 1) == card[col]
  {
  }

  /** One byte a column; the error mark of a short record is overwritten by its first column. */
  predicate EbcdicImage(s: seq<byte>, len: nat, image: Image)
    requires len <= |s|
  {
    if len == 0 then image == Lone(CARD_ERR)
    else forall k :: 0 <= k < 80 ==> image[k] == if k < len then EbcdicToHol(s[k]) else 0
  }

  method ParseEbcdic(s: seq<byte>, len: nat) returns (image: Image, i: nat)
    requires len + 6 <= |s|
    ensures i == Min(80, len) && EbcdicImage(s, len, image)
  {
    hide EbcdicToHol;
    image := Blank();
    if len < 80 {
      image := Lone(CARD_ERR);
    }
    i := 0;
    while i < 80 && i < len
      invariant 0 <= i <= 80 && i <= len
      invariant i == 0 ==> image == if len < 80 then Lone(CARD_ERR) else Blank()
      invariant i > 0 ==> forall k :: 0 <= k < 80 ==> image[k] == if k < i then EbcdicToHol(s[k]) else 0
    {
      image := image[i := EbcdicToHol(s[i])];
      i := i + 1;
    }
  }

  lemma EbcdicFacts(s: seq<byte>, len: nat, card: Card, image: Image)
    requires len <= |s| && Starts(s, len, EbcdicRecord(card)) && EbcdicImage(s, len, image)
    ensures len >= 80 && (image == card <==> forall k :: 0 <= k < 80 ==> FirstEbcdic(card[k], 256) != NO_EBCDIC)
  {
    hide EbcdicRecord, EbcdicToHol, FirstEbcdic, EbcdicByte;
    forall k | 0 <= k < 80 ensures image[k] == card[k] <==> FirstEbcdic(card[k], 256) != NO_EBCDIC {
      assert s[k] == EbcdicRecord(card)[k];
      NoByteForIt(card[k]);
    }
  }

  /** A column outside the table is punched as byte 0 and so comes back as another column. */
  lemma NoByteForIt(h: column)
    ensures EbcdicToHol(EbcdicByte(h)) == h <==> FirstEbcdic(h, 256) != NO_EBCDIC
  {
    hide EbcdicToHol;
    assert FirstEbcdic(h, 256) == NO_EBCDIC ==> EbcdicToHol(0) != h;
  }

  // ------------------------------------------------------------------ one card, one deck

  /** The buffer begins with the punched card, and a binary card's record ends there. */
  predicate CardAt(s: seq<byte>, len: nat, punch: PunchMode, code: Code, card: Card) {
    && Starts(s, len, CardBytes(punch, code, card))
    && (punch == Cbn ==> MarkFollows(s, len))
  }

  /** What each mode makes of nothing at all: a blank card, which EBCDIC marks as an error,
      or a failure. */
  predicate NoCard(mode: ReadMode, ok: bool, image: Image) {
    match mode
    case TextIn => ok && image == Blank()
    case BinaryIn => !ok && image == Lone(CARD_ERR)
    case CbnIn => ok && image == Blank()
    case EbcdicIn => ok && image == Lone(CARD_ERR)
  }

  /** What the bytes at the start of the buffer come to: a card and how many bytes it takes. */
  ghost predicate CardIs(mode: ReadMode, s: seq<byte>, len: nat, code: Code, lower: bool,
                         ok: bool, image: Image, size: nat, stop: nat)
    requires len + 6 <= |s|
  {
    match mode
    case TextIn => ok && stop <= len + 4 && TextIs(s, len, code, lower, image, stop) && LineOver(s, len, stop, size)
    case BinaryIn => if len >= 160 then ok && size == 160 && BinaryImage(s, image) else !ok && image == Lone(CARD_ERR)
    case CbnIn =>
      ok && if TapeMark(s, len) then image == Lone(CARD_EOF) && size == 1
            else CbnEnds(s, len, size) && CbnImage(s, size, image)
    case EbcdicIn => ok && size == Min(80, len) && EbcdicImage(s, len, image)
  }

  /** A CBN card takes more than there is exactly when no mark follows up to the byte behind
      the data and the record is odd or overlong. */
  predicate CbnRunsOver(s: seq<byte>, len: nat)
    requires len + 6 <= |s|
  {
    if TapeMark(s, len) then len == 0 else NoMark(s, len + 1) && (len % 2 == 1 || len > 160)
  }

  /** Which cards take more bytes than the buffer holds. */
  predicate RunsOver(mode: ReadMode, s: seq<byte>, len: nat, stop: nat)
    requires len + 6 <= |s|
  {
    match mode
    case TextIn => TextRunsOver(s, len, stop)
    case BinaryIn => false
    case CbnIn => CbnRunsOver(s, len)
    case EbcdicIn => false
  }

  lemma CardOver(mode: ReadMode, s: seq<byte>, len: nat, code: Code, lower: bool,
                 ok: bool, image: Image, size: nat, stop: nat)
    requires len + 6 <= |s| && CardIs(mode, s, len, code, lower, ok, image, size, stop) && ok
    ensures size > len <==> RunsOver(mode, s, len, stop)
  {
    hide TextIs, LineOver, TextRunsOver, CbnImage, BinaryImage, EbcdicImage, Lone;
    if mode.TextIn? {
      TextOver(s, len, stop, size);
    }
  }

  lemma CbnNothing(s: seq<byte>, image: Image)
    requires CbnImage(s, 0, image)
    ensures image == Blank()
  {
    hide CbnColumn, Faulty;
    NoHalves(s);
    assert forall k :: 0 <= k < 80 ==> image[k] == Blank()[k];
  }

  /** On a failure `size` keeps the size of the card before. */
  method ParseCard(mode: ReadMode, s: seq<byte>, len: nat, code: Code, lower: bool, before: nat,
                   ghost punch: PunchMode, ghost card: Card)
      returns (ok: bool, image: Image, size: nat, ghost stop: nat)
    requires len + 6 <= |s|
    ensures CardIs(mode, s, len, code, lower, ok, image, size, stop) && (!ok ==> size == before)
    ensures ok && len > 0 ==> size > 0
    ensures len == 0 && s[0] == 0 && before == 0 ==> size == 0 && NoCard(mode, ok, image)
    ensures mode == ReaderOf(punch) && (mode.TextIn? ==> lower) && CardAt(s, len, punch, code, card) ==>
      && ok && (image == card <==> Survives(punch, code, card))
      && (Survives(punch, code, card) ==> size == |CardBytes(punch, code, card)|)
  {
    hide Starts, MarkFollows, TextLine, OctalLine, BinaryRecord, CbnRecord, EbcdicRecord;
    hide TextSurvives, OctalSurvives, IsText, FirstEbcdic, TextIs, LineOver, CbnImage, EbcdicImage, BinaryImage, Lone;
    ok, stop := true, 0;
    match mode {
      case TextIn =>
        image, size, stop := ParseText(s, len, code, lower, card);
      case BinaryIn =>
        ok, image := ParseBinary(s, len, card);
        size := if ok then 160 else before;
        Within(s, len, BinaryRecord(card));
      case CbnIn =>
        image, size := ParseCbn(s, len);
        if Starts(s, len, CbnRecord(card)) && MarkFollows(s, len) {
          CbnFacts(s, len, card, image, size);
        }
        if len == 0 && s[0] == 0 {
          CbnNothing(s, image);
        }
      case EbcdicIn =>
        image, size := ParseEbcdic(s, len);
        if Starts(s, len, EbcdicRecord(card)) {
          EbcdicFacts(s, len, card, image);
        }
        if len == 0 {
          EbcdicNothing(s, image);
        }
    }
  }

  lemma EbcdicNothing(s: seq<byte>, image: Image)
    requires EbcdicImage(s, 0, image)
    ensures image == Lone(CARD_ERR)
  {
  }

  lemma Within(s: seq<byte>, len: nat, line: seq<byte>)
    ensures Starts(s, len, line) ==> |line| <= len
  {
  }

  lemma Copied(d: seq<byte>, start: nat, file: seq<byte>, pos: nat, l: nat)
    requires start + l <= |d| && pos + l <= |file|
    requires forall k :: start <= k < start + l ==> d[k] == file[pos + (k - start)]
    ensures d[start..start + l] == file[pos..pos + l]
  {
    var u, v := d[start..start + l], file[pos..pos + l];
    forall k | 0 <= k < l ensures u[k] == v[k] {
      assert u[k] == d[start + k] && v[k] == file[pos + k];
    }
  }

  /** The bytes read but not yet parsed. */
  class CardBuffer {
    const data: array<byte>
    var len: nat

    ghost predicate Valid()
      reads this
    {
      data.Length == REFILL + LOW_WATER + 6 && len < REFILL + LOW_WATER
    }

    constructor ()
      ensures Valid() && fresh(data) && len == 0 && data[0] == 0
    {
      data := new byte[REFILL + LOW_WATER + 6];
      len := 0;
      new;
      data[0] := 0;
    }

    ghost function Contents(): seq<byte>
      requires Valid()
      reads this, data
    {
      data[..len]
    }

    /** Reads up to 8192 more bytes of the file; a short read is the end of it. */
    method Refill(file: seq<byte>, pos: nat) returns (l: nat, eof: bool)
      requires Valid() && len < LOW_WATER && pos <= |file|
      modifies this, data
      ensures Valid() && pos + l <= |file| && Contents() == old(Contents()) + file[pos..pos + l]
      ensures eof <==> l < REFILL
      ensures eof ==> pos + l == |file|
      ensures l == 0 ==> len == old(len) && data[0] == old(data[0])
    {
      ghost var was := Contents();
      l := Min(REFILL, |file| - pos);
      eof := l < REFILL;
      var start, i := len, 0;
      while i < l
        invariant 0 <= i <= l && len == start
        invariant data[..start] == was
        invariant forall k :: start <= k < start + i ==> data[k] == file[pos + (k - start)]
        invariant l == 0 ==> data[0] == old(data[0])
      {
        data[start + i] := file[pos + i];
        i := i + 1;
      }
      Copied(data[..], start, file, pos, l);
      len := len + l;
      assert data[..len] == data[..start] + data[..][start..start + l];
    }

    /** Keeps at least 500 bytes buffered until the file is exhausted. */
    method TopUp(file: seq<byte>, pos: nat, atEnd: bool) returns (next: nat, eof: bool)
      requires Valid() && pos <= |file| && (atEnd ==> pos == |file|)
      modifies this, data
      ensures Valid() && pos <= next <= |file| && (eof ==> next == |file|)
      ensures Contents() + file[next..] == old(Contents()) + file[pos..]
      ensures len >= LOW_WATER || next == |file|
      ensures file == [] && old(len) == 0 ==> len == 0 && data[0] == old(data[0])
      ensures atEnd || (old(len) < LOW_WATER && |file| - pos < REFILL) ==> eof
      ensures old(len) >= LOW_WATER || atEnd ==> len == old(len) && data[len] == old(data[len])
    {
      next, eof := pos, atEnd;
      if len < LOW_WATER && !atEnd {
        var l, e := Refill(file, pos);
        next, eof := pos + l, e;
        Rejoined(old(Contents()), file, pos, next);
      }
    }

    /** Moves what follows the parsed card down to the start. */
    method Shift(size: nat)
      requires Valid() && size <= len
      modifies this, data
      ensures Valid() && len == old(len) - size && Contents() == old(Contents()[size..]) && data[len] == 0
    {
      var l := len - size;
      var i := 0;
      while i < l
        invariant 0 <= i <= l && len == old(len)
        invariant forall k :: 0 <= k < i ==> data[k] == old(data[size + k])
        invariant forall k :: size + i <= k < len ==> data[k] == old(data[k])
      {
        data[i] := data[size + i];
        i := i + 1;
      }
      data[l] := 0;
      len := l;
    }
  }

  /** Two ways of cutting the same bytes. */
  lemma Recut(b: seq<byte>, rest: seq<byte>, first: seq<byte>, tail: seq<byte>, s: seq<byte>)
    requires b + rest == first + tail && |first| <= |b| <= |s| && s[..|b|] == b
    ensures Starts(s, |b|, first) && b[|first|..] + rest == tail
    ensures |first| < |b| ==> tail != [] && s[|first|] == tail[0]
  {
    var n := |first|;
    assert (b + rest)[..n] == b[..n] && (first + tail)[..n] == first;
    assert (b + rest)[n..] == b[n..] + rest && (first + tail)[n..] == tail;
    assert forall k :: 0 <= k < n ==> s[k] == b[..n][k];
  }

  /** The first card of what is buffered and still to be read is wholly buffered. */
  lemma NextCard(b: seq<byte>, rest: seq<byte>, s: seq<byte>, punch: PunchMode, code: Code, deck: seq<Card>)
    requires deck != [] && b + rest == DeckBytes(punch, code, deck)
    requires |b| >= LOW_WATER || rest == []
    requires |b| <= |s| && s[..|b|] == b
    ensures var n := |CardBytes(punch, code, deck[0])|;
      && CardAt(s, |b|, punch, code, deck[0]) && n <= |b|
      && b[n..] + rest == DeckBytes(punch, code, deck[1..])
  {
    hide CardBytes, Starts;
    var first, tail := CardBytes(punch, code, deck[0]), DeckBytes(punch, code, deck[1..]);
    assert |b| + |rest| == |first| + |tail|;
    Recut(b, rest, first, tail, s);
    if punch == Cbn {
      CbnLength(code, deck[0]);
      MarkFirst(code, deck[1..]);
    }
  }

  lemma CbnLength(code: Code, card: Card)
    ensures |CardBytes(Cbn, code, card)| == 160
  {
    hide CbnRecord;
  }

  lemma MarkFirst(code: Code, deck: seq<Card>)
    ensures deck != [] ==> DeckBytes(Cbn, code, deck) != [] && DeckBytes(Cbn, code, deck)[0] >= 128
  {
    hide CbnRecord;
  }

  /** How far a reader of the punched deck has come: every card so far is as punched and
      the bytes of the others are still to come, or card `bad` is already wrong. */
  ghost predicate Progress(hopper: seq<Image>, ahead: seq<byte>, bad: int,
                           punch: PunchMode, code: Code, deck: seq<Card>) {
    if bad < 0 then
      && |hopper| <= |deck| && ahead == DeckBytes(punch, code, deck[|hopper|..])
      && forall m :: 0 <= m < |hopper| ==> hopper[m] == deck[m] && Survives(punch, code, deck[m])
    else
      bad < |hopper| && bad < |deck| && hopper[bad] != deck[bad] && !Survives(punch, code, deck[bad])
  }

  lemma Upcoming(hopper: seq<Image>, b: seq<byte>, rest: seq<byte>, bad: int, s: seq<byte>,
                 punch: PunchMode, code: Code, deck: seq<Card>)
    requires Progress(hopper, b + rest, bad, punch, code, deck) && bad < 0 && deck != []
    requires hopper == [] || b != []
    requires |b| >= LOW_WATER || rest == []
    requires |b| <= |s| && s[..|b|] == b
    ensures |hopper| < |deck| && CardAt(s, |b|, punch, code, deck[|hopper|])
    ensures var n := |CardBytes(punch, code, deck[|hopper|])|;
      n <= |b| && b[n..] + rest == DeckBytes(punch, code, deck[|hopper| + 1..])
  {
    hide CardAt, Survives, CardBytes;
    NextCard(b, rest, s, punch, code, deck[|hopper|..]);
    assert deck[|hopper|..][1..] == deck[|hopper| + 1..];
  }

  lemma NoBytesNoCards(punch: PunchMode, code: Code, deck: seq<Card>)
    ensures DeckBytes(punch, code, deck) == [] ==> deck == []
  {
    hide CardBytes;
  }

  /** A deck is what was punched exactly when every card of it survives. */
  lemma DeckVerdict(status: Status, hopper: seq<Image>, ahead: seq<byte>, bad: int, more: seq<Image>,
                    punch: PunchMode, code: Code, deck: seq<Card>)
    requires Progress(hopper, ahead, bad, punch, code, deck)
    requires bad < 0 ==> status == Ok && ahead == []
    ensures (status == Ok && hopper + more == deck + more) <==>
      forall m :: 0 <= m < |deck| ==> Survives(punch, code, deck[m])
  {
    hide Survives, CardBytes;
    if bad < 0 {
      NoBytesNoCards(punch, code, deck[|hopper|..]);
      assert hopper == deck;
    } else {
      assert (hopper + more)[bad] != (deck + more)[bad];
    }
  }

  /** Does this file come from punching `deck` in a mode this reader undoes? */
  ghost predicate PunchedFor(file: seq<byte>, mode: ReadMode, code: Code, lower: bool,
                             punch: PunchMode, deck: seq<Card>) {
    mode == ReaderOf(punch) && (mode.TextIn? ==> lower) && deck != [] && file == DeckBytes(punch, code, deck)
  }

  /** One turn of the loop: top up, parse a card, move the rest down.  `seen` is the buffer as
      it is parsed, of which `n` bytes are data: all that is left of the file, or at least 500.
      What the caller knows about the deck it expects carries over to the next card. A text
      card runs over only in a turn that has just refilled the buffer. */
  method ReadCard(buf: CardBuffer, file: seq<byte>, pos: nat, atEnd: bool, mode: ReadMode, code: Code, lower: bool,
                  before: nat, ghost known: bool, ghost hopper: seq<Image>, ghost bad: int,
                  ghost punch: PunchMode, ghost deck: seq<Card>)
      returns (next: nat, eof: bool, ok: bool, fits: bool, image: Image, size: nat,
               ghost wrong: int, ghost seen: seq<byte>, ghost n: nat, ghost stop: nat)
    requires buf.Valid() && pos <= |file| && (atEnd ==> pos == |file|)
    requires known ==> mode == ReaderOf(punch) && (mode.TextIn? ==> lower) && deck != []
    requires known ==> Progress(hopper, buf.Contents() + file[pos..], bad, punch, code, deck)
    requires hopper == [] || buf.len > 0
    modifies buf, buf.data
    ensures buf.Valid() && pos <= next <= |file| && (eof ==> next == |file|)
    ensures n + 6 <= |seen| && n <= old(|file| - pos + buf.len) && (n >= LOW_WATER || n == old(|file| - pos + buf.len))
    ensures seen[..n] + file[next..] == old(buf.Contents()) + file[pos..]
    ensures CardIs(mode, seen, n, code, lower, ok, image, size, stop) && (!ok ==> size == before)
    ensures fits <==> size <= n
    ensures fits ==> buf.len == n - size && buf.data[buf.len] == 0
    ensures atEnd || (old(buf.len) < LOW_WATER && |file| - pos < REFILL) ==> eof
    ensures mode.TextIn? && (atEnd || old(buf.len) >= LOW_WATER) && old(buf.data[buf.len]) == 0 ==> fits
    ensures fits ==> |file| - next + buf.len + size == old(|file| - pos + buf.len)
    ensures ok && fits && size == 0 ==> buf.len == 0
    ensures known ==> Progress(hopper + [image], if fits then buf.Contents() + file[next..] else [], wrong, punch, code, deck)
    ensures known && wrong < 0 ==> ok && fits && (buf.len == 0 ==> next == |file|)
    ensures file == [] && old(buf.len) == 0 && old(buf.data[0]) == 0 && before == 0 ==>
      fits && buf.len == 0 && NoCard(mode, ok, image)
  {
    hide Survives, DeckBytes, CardBytes, CardAt, Progress, Lone, Min, Unpunched, NoCard, CardIs;
    next, eof := buf.TopUp(file, pos, atEnd);
    ghost var b, rest := buf.Contents(), file[next..];
    seen, n := buf.data[..], buf.len;
    assert seen[..n] == b && |b + rest| == old(|buf.Contents() + file[pos..]|);
    ghost var card: Card := if |hopper| < |deck| then deck[|hopper|] else Unpunched();
    WhenKnown(known, hopper, b, rest, bad, buf.data[..], punch, code, deck);
    ok, image, size, stop := ParseCard(mode, buf.data[..], buf.len, code, lower, before, punch, card);
    if mode.TextIn? && seen[n] == 0 {
      NullFits(seen, n, code, lower, ok, image, size, stop);
    }
    fits := size <= buf.len;
    wrong := if bad < 0 && !Survives(punch, code, card) then |hopper| else bad;
    if known {
      OneMore(hopper, b + rest, bad, image, if fits then b[size..] + rest else [], punch, code, deck);
    }
    if fits {
      buf.Shift(size);
    }
  }

  lemma NullFits(s: seq<byte>, n: nat, code: Code, lower: bool, ok: bool, image: Image, size: nat, stop: nat)
    requires n + 6 <= |s| && CardIs(TextIn, s, n, code, lower, ok, image, size, stop) && s[n] == 0
    ensures size <= n
  {
    hide TextIs, LineOver, TextRunsOver;
    NullStops(s, n, code, lower, image, stop);
    TextOver(s, n, stop, size);
  }

  /** How many cards of fixed size have been read when `left` of `total` bytes are still to
      come, or how it ended. */
  predicate Tally(mode: ReadMode, total: nat, left: nat, cards: nat, before: nat, status: Status, going: bool) {
    && (mode.BinaryIn? ==>
          if going then 160 * cards + left == total && before == (if cards == 0 then 0 else 160) && (cards > 0 ==> left > 0)
          else if status == Ok then 160 * cards == total && total > 0
          else status == OpenErr && total < 160)
    && (mode.EbcdicIn? ==>
          && status == Ok
          && if going then 80 * cards + left == total && (cards > 0 ==> left > 0)
             else cards > 0 && total <= 80 * cards && (cards == 1 || 80 * (cards - 1) < total))
  }

  lemma TallyStep(mode: ReadMode, total: nat, left: nat, cards: nat, before: nat, s: seq<byte>, n: nat,
                  code: Code, lower: bool, ok: bool, image: Image, size: nat, stop: nat)
    requires Tally(mode, total, left, cards, before, Ok, true)
    requires n + 6 <= |s| && n <= left && (n >= LOW_WATER || n == left)
    requires CardIs(mode, s, n, code, lower, ok, image, size, stop) && (!ok ==> size == before)
    ensures size <= n ==>
      Tally(mode, total, left - size, cards + 1, size, if ok then Ok else OpenErr, n - size > 0 && ok)
    ensures size > n ==> (mode.BinaryIn? ==> total > 160 && total % 160 != 0) && !mode.EbcdicIn?
  {
    hide TextIs, LineOver, CbnImage, BinaryImage, EbcdicImage, Lone, CbnEnds, TapeMark;
    if mode.BinaryIn? && size > n {
      assert total == 160 * cards + left;
    }
  }

  lemma NoCardsYet(mode: ReadMode, total: nat)
    ensures Tally(mode, total, total, 0, 0, Ok, true)
  {
  }

  lemma TallyEnd(mode: ReadMode, total: nat, left: nat, cards: nat, before: nat, status: Status)
    requires Tally(mode, total, left, cards, before, status, false)
    ensures mode.BinaryIn? ==> (status == OpenErr <==> total < 160) && !(total > 160 && total % 160 != 0) && status != Wrapped
    ensures mode.BinaryIn? && status == Ok ==> cards == total / 160
    ensures mode.EbcdicIn? ==> status == Ok && cards == Max(1, (total + 79) / 80)
  {
  }

  /** Reads a whole file of cards, refilling the buffer when it runs low.  With `eof` an
      end-of-file card is added.  For a deck punched on an empty file with the same
      code, what is read is the deck if and only if every card of it survives; an empty
      file is read as one card all the same, or as a failure in binary mode.
      A binary file that is longer than a card and no whole number of cards makes the
      count of the bytes that are left wrap; an EBCDIC file never does, and a text file of
      less than 8 KiB at most with its first card. */
  method ReadDeck(file: seq<byte>, mode: ReadMode, code: Code, lower: bool, eof: bool,
                  ghost punch: PunchMode, ghost deck: seq<Card>) returns (status: Status, hopper: seq<Image>)
    ensures PunchedFor(file, mode, code, lower, punch, deck) ==>
      ((status == Ok && hopper == deck + (if eof then [Lone(CARD_EOF)] else [])) <==>
       forall m :: 0 <= m < |deck| ==> Survives(punch, code, deck[m]))
    ensures file == [] ==> status == if mode.BinaryIn? then OpenErr else Ok
    ensures file == [] ==> |hopper| == (if eof && status == Ok then 2 else 1) && NoCard(mode, status == Ok, hopper[0])
    ensures mode.BinaryIn? ==> (status == Wrapped <==> |file| > 160 && |file| % 160 != 0)
    ensures mode.BinaryIn? ==> (status == OpenErr <==> |file| < 160)
    ensures mode.BinaryIn? && status == Ok ==> |hopper| == |file| / 160 + if eof then 1 else 0
    ensures mode.EbcdicIn? ==> status == Ok && |hopper| == Max(1, (|file| + 79) / 80) + if eof then 1 else 0
    ensures mode.TextIn? && |file| < REFILL && status == Wrapped ==> |hopper| == 1
  {
    hide CardIs, Tally;
    hide Survives, DeckBytes, CardBytes, CardAt, Progress, Lone, NoCard;
    ghost var known := PunchedFor(file, mode, code, lower, punch, deck);
    ghost var bad := -1;
    var buf := new CardBuffer();
    var pos, size: nat, atEnd := 0, 0, false;
    status, hopper := Ok, [];
    ghost var more := if eof then [Lone(CARD_EOF)] else [];
    var going := true;
    Starting(file, mode, code, lower, punch, deck);
    NoCardsYet(mode, |file|);
    assert buf.Contents() + file[0..] == file;
    while going
      invariant buf.Valid() && fresh(buf) && fresh(buf.data) && pos <= |file|
      invariant atEnd ==> pos == |file|
      invariant status == Ok || status == OpenErr
      invariant going ==> status == Ok && (hopper == [] || buf.len > 0)
      invariant known ==> Progress(hopper, buf.Contents() + file[pos..], bad, punch, code, deck)
      invariant known && bad < 0 ==> status == Ok && (going || (buf.len == 0 && pos == |file|))
      invariant file == [] && going ==> hopper == [] && buf.len == 0 && buf.data[0] == 0 && size == 0
      invariant file == [] && !going ==> |hopper| == 1 && NoCard(mode, status == Ok, hopper[0])
      invariant Tally(mode, |file|, |file| - pos + buf.len, |hopper|, size, status, going)
      invariant going && hopper == [] ==> buf.len == 0 && pos == 0
      invariant |file| < REFILL && hopper != [] ==> atEnd && buf.data[buf.len] == 0
      decreases going, |file| - pos + buf.len, |hopper| == 0
    {
      var ok, fits, image;
      ghost var seen, n, stop, left, before := [], 0, 0, |file| - pos + buf.len, size;
      pos, atEnd, ok, fits, image, size, bad, seen, n, stop :=
        ReadCard(buf, file, pos, atEnd, mode, code, lower, size, known, hopper, bad, punch, deck);
      TallyStep(mode, |file|, left, |hopper|, before, seen, n, code, lower, ok, image, size, stop);
      hopper := hopper + [image];
      if !ok {
        status := OpenErr;
      }
      if !fits {
        if known { DeckVerdict(Wrapped, hopper, [], bad, more, punch, code, deck); }
        return Wrapped, hopper;
      }
      going := buf.len > 0 && status == Ok;
    }
    TallyEnd(mode, |file|, |file| - pos + buf.len, |hopper|, size, status);
    if file == [] { NoCardStatus(mode, status == Ok, hopper[0]); }
    if known { DeckVerdict(status, hopper, buf.Contents() + file[pos..], bad, more, punch, code, deck); }
    if status == Ok && eof {
      hopper := hopper + [Lone(CARD_EOF)];
    }
  }

  lemma NoCardStatus(mode: ReadMode, ok: bool, image: Image)
    requires NoCard(mode, ok, image)
    ensures ok <==> !mode.BinaryIn?
  {
  }

  lemma WhenKnown(known: bool, hopper: seq<Image>, b: seq<byte>, rest: seq<byte>, bad: int, s: seq<byte>,
                  punch: PunchMode, code: Code, deck: seq<Card>)
    requires known && bad < 0 ==>
      && Progress(hopper, b + rest, bad, punch, code, deck) && deck != []
      && (hopper == [] || b != []) && (|b| >= LOW_WATER || rest == [])
    requires |b| <= |s| && s[..|b|] == b
    ensures known && bad < 0 ==> |hopper| < |deck| && CardAt(s, |b|, punch, code, deck[|hopper|])
    ensures known && bad < 0 ==>
      var n := |CardBytes(punch, code, deck[|hopper|])|;
      n <= |b| && b[n..] + rest == DeckBytes(punch, code, deck[|hopper| + 1..])
  {
    hide CardAt, Survives, CardBytes, Progress;
    if known && bad < 0 {
      Upcoming(hopper, b, rest, bad, s, punch, code, deck);
    }
  }

  lemma Starting(file: seq<byte>, mode: ReadMode, code: Code, lower: bool, punch: PunchMode, deck: seq<Card>)
    ensures PunchedFor(file, mode, code, lower, punch, deck) ==> Progress([], file, -1, punch, code, deck)
  {
    hide DeckBytes, Survives;
    assert deck[0..] == deck;
  }

  lemma Rejoined(b: seq<byte>, file: seq<byte>, p: nat, q: nat)
    requires p <= q <= |file|
    ensures (b + file[p..q]) + file[q..] == b + file[p..]
  {
  }

  lemma OneMore(hopper: seq<Image>, ahead: seq<byte>, bad: int, image: Image, next: seq<byte>,
                punch: PunchMode, code: Code, deck: seq<Card>)
    requires Progress(hopper, ahead, bad, punch, code, deck)
    requires bad < 0 ==> |hopper| < |deck|
    requires bad < 0 ==> (image == deck[|hopper|] <==> Survives(punch, code, deck[|hopper|]))
    requires bad < 0 && Survives(punch, code, deck[|hopper|]) ==> next == DeckBytes(punch, code, deck[|hopper| + 1..])
    ensures Progress(hopper + [image], next,
      if bad < 0 && !Survives(punch, code, deck[|hopper|]) then |hopper| else bad, punch, code, deck)
  {
    hide DeckBytes, Survives;
  }

  function Unpunched(): Card {
    seq(80, i => 0)
  }

  // ------------------------------------------------------------------ cards that do not survive

  /** A card punched only in its first column. */
  function LoneCard(h: column): (c: Card)
    ensures c[0] == h && forall k :: 1 <= k < 80 ==> c[k] == 0
  {
    [h] + seq(79, i => 0)
  }

  lemma LoneCardUsed(h: column)
    requires h != 0
    ensures Used(LoneCard(h), 80) == 1
  {
  }

  /** The end-of-information card, and a first column with all rows punched: in no code a
      character, and lost when punched in AUTO or octal mode. */
  lemma LoneColumnsLost(code: Code, h: column)
    requires h == EOI || h == 0xFFF
    ensures !IsText(code, LoneCard(h))
    ensures !Survives(Auto, code, LoneCard(h)) && !Survives(Octal, code, LoneCard(h))
  {
    hide Hol, LastChar;
    LoneCardUsed(h);
    LastCharIs(code, h, 128);
    assert Ascii(code, LoneCard(h)[0]) == NO_CHAR;
  }

  /** In every code the tilde has a column, and it is the character of that column. */
  lemma TildeColumn(code: Code)
    ensures 0 < Hol(code, TILDE) < 0x1000 && Ascii(code, Hol(code, TILDE)) == TILDE
  {
    hide Hol;
    HolGood(code, TILDE);
    HolGood(code, 127);
    var h := Hol(code, TILDE);
    assert LastChar(code, h, 127) == TILDE;
    assert LastChar(code, h, 128) == TILDE;
  }

  function TildeCard(code: Code): Card {
    TildeColumn(code);
    LoneCard(Hol(code, TILDE))
  }

  /** The card of a lone tilde is text in every code, and is lost. */
  lemma LoneTildeLost(code: Code)
    ensures IsText(code, TildeCard(code)) && IsLoneTilde(code, TildeCard(code))
    ensures !Survives(Auto, code, TildeCard(code))
  {
    hide Hol, Ascii;
    TildeColumn(code);
    LoneCardUsed(Hol(code, TILDE));
    BlankIsText(code);
  }

  /** A line that ends at e and holds no line end before. */
  lemma SwallowedTo(s: seq<byte>, len: nat, size: nat, e: nat)
    requires len + 6 <= |s| && LineOver(s, len, 2, size)
    requires 2 <= e < len && s[e] == NL && NoLineEnd(s, 2, e)
    ensures size == e + 1
  {
    var d: nat :| 2 <= d <= Max(2, len) && NoLineEnd(s, 2, d) && (d < len ==> EndsLine(s[d])) && size == AfterEnd(s, d);
    assert !(d < e) && !(e < d);
  }

  lemma TwoLines(code: Code, first: Card, next: Card)
    requires IsText(code, first) && IsText(code, next)
    ensures DeckBytes(Auto, code, [first, next]) == TextLine(code, first) + TextLine(code, next)
  {
    hide IsText, TextLine;
    assert [first, next][1..] == [next] && [next][1..] == [];
    assert DeckBytes(Auto, code, [next]) == TextLine(code, next) + [];
  }

  lemma LineInside(code: Code, next: Card, s: seq<byte>, len: nat)
    requires var line := TextLine(code, next); 2 + |line| == len && len + 6 <= |s| && s[2..len] == line
    ensures var e := len - 1; 2 <= e && s[e] == NL && NoLineEnd(s, 2, e)
  {
    hide Ascii;
    var line := TextLine(code, next);
    forall k | 2 <= k < len - 1 ensures !EndsLine(s[k]) {
      assert s[k] == line[k - 2];
      PunchCharPrints(code, next[k - 2]);
    }
    assert s[len - 1] == line[len - 3];
  }

  lemma TildeLine(code: Code)
    ensures TextLine(code, TildeCard(code)) == [TILDE, NL]
  {
    hide Hol, Ascii;
    LoneTildeLost(code);
  }

  /** Whatever the reader makes of a buffer that starts with the file of a lone tilde and any
      other text card, it is an end of file that takes the other's line with it. */
  lemma NextCardSwallowed(code: Code, lower: bool, next: Card, s: seq<byte>, len: nat,
                          ok: bool, image: Image, size: nat, stop: nat)
    requires IsText(code, next) && len + 6 <= |s|
    requires s[..len] == DeckBytes(Auto, code, [TildeCard(code), next])
    requires CardIs(TextIn, s, len, code, lower, ok, image, size, stop)
    ensures image == Lone(CARD_EOF) && size == len
  {
    hide Hol, Ascii, TextLine, LineOver, Lone, DeckBytes, IsLoneTilde, TildeCard, Tabs;
    var first, line := TildeCard(code), TextLine(code, next);
    LoneTildeLost(code);
    TwoLines(code, first, next);
    TildeLine(code);
    assert s[..len] == [TILDE, NL] + line;
    assert s[0] == s[..len][0] && s[1] == s[..len][1];
    assert s[2..len] == line;
    LineInside(code, next, s, len);
    LoneTildeIs(s, len, code, lower, image, stop);
    SwallowedTo(s, len, size, len - 1);
  }

  lemma LoneTildeIs(s: seq<byte>, len: nat, code: Code, lower: bool, image: Image, i: nat)
    requires 2 <= len && len + 6 <= |s| && s[0] == TILDE && s[1] == NL && TextIs(s, len, code, lower, image, i)
    ensures image == Lone(CARD_EOF) && i == 2
  {
    hide TextImageIs, OctalImage, Lone;
    assert BlankTo(s, 1);
    assert BlankEnds(s, len, 2);
  }

  /** A binary deck of one card and a byte more: the second card cannot be read, and what is
      left is counted below zero. */
  method TruncatedDeck(code: Code, eof: bool) returns (file: seq<byte>, status: Status, hopper: seq<Image>)
    ensures file == Zeros(161) && status == Wrapped
  {
    file := Zeros(161);
    status, hopper := ReadDeck(file, BinaryIn, code, true, eof, Binary, []);
  }

  /** A column with all rows punched stands for no EBCDIC byte, so a card with it is lost. */
  lemma AllRowsLost(code: Code)
    ensures FirstEbcdic(0xFFF, 256) == NO_EBCDIC
    ensures !Survives(Ebcdic, code, LoneCard(0xFFF))
  {
    hide EbcdicToHol;
    assert LoneCard(0xFFF)[0] == 0xFFF;
  }

  /** Once something has been moved down there is a null behind the data, and then an odd rest
      of a CBN file without a mark takes one byte too many. */
  lemma OddRest(s: seq<byte>, len: nat, code: Code, lower: bool, ok: bool, image: Image, size: nat, stop: nat)
    requires len + 6 <= |s| && len % 2 == 1 && NoMark(s, len) && s[len] == 0 && !TapeMark(s, len)
    requires CardIs(CbnIn, s, len, code, lower, ok, image, size, stop)
    ensures ok && size == len + 1
  {
    hide CbnImage;
    assert NoMark(s, len + 1);
  }

  /** A text file of one letter with a line end left in the buffer behind it. */
  lemma StaleLineEnd(s: seq<byte>, code: Code, lower: bool, ok: bool, image: Image, size: nat, stop: nat)
    requires |s| >= 7 && s[0] == 65 && s[1] == NL && CardIs(TextIn, s, 1, code, lower, ok, image, size, stop)
    ensures ok && size > 1
  {
    hide TextImageIs, Hol;
    assert stop == 1 && NoLineEnd(s, 1, 1);
    TextOver(s, 1, stop, size);
  }

  // ------------------------------------------------------------------ marks that are lost

  /** A character without a column, alone in the first column: the card is blank and bears no
      error mark. */
  lemma StrayForgotten(s: seq<byte>, code: Code, lower: bool, ok: bool, image: Image, size: nat, stop: nat)
    requires |s| >= 8 && s[0] == 1 && s[1] == NL && CardIs(TextIn, s, 2, code, lower, ok, image, size, stop)
    ensures image == Blank()
  {
    hide Hol;
    HolGood(code, 1);
    assert stop == 1;
    StrayImage(s, code, lower, image);
  }

  lemma StrayImage(s: seq<byte>, code: Code, lower: bool, image: Image)
    requires |s| >= 8 && s[0] == 1 && Hol(code, 1) == INVALID && TextImageIs(s, 1, code, lower, image)
    ensures image == Blank()
  {
    hide Hol;
    assert Col(s, 0) == 0 && !Strays(s, 1, code, lower);
    forall k | 0 <= k < 80 ensures Placed(s, 1, k, code, lower) == 0 {
      assert CharAt(s, 0, k) == -1;
    }
  }

  /** A short EBCDIC record that is not empty bears no error mark. */
  lemma ShortRecordForgotten(s: seq<byte>, len: nat, code: Code, lower: bool, ok: bool, image: Image, size: nat, stop: nat)
    requires len + 6 <= |s| && 0 < len < 80 && CardIs(EbcdicIn, s, len, code, lower, ok, image, size, stop)
    ensures ok && forall k :: 0 <= k < 80 ==> image[k] < 0x1000
  {
    hide EbcdicToHol;
  }

  /** The parity of the first byte of a CBN record makes no difference. */
  lemma FirstParityForgotten(s: seq<byte>, i: nat, image: Image)
    requires 0 < i <= |s| && s[0] % 128 < 64
    ensures CbnImage(s, i, image) <==> CbnImage(s[0 := s[0] + 64], i, image)
  {
    hide CbnColumn, Faulty;
    var t := s[0 := s[0] + 64];
    forall k | 0 <= k < 80 ensures CbnColumn(t, i, k) == CbnColumn(s, i, k) {
      SameColumn(s, t, i, k);
    }
    SameFaults(s, t, Min(i, 160));
  }

  lemma SameColumn(s: seq<byte>, t: seq<byte>, i: nat, k: nat)
    requires i <= |s| == |t| && |s| > 0 && t[0] % 64 == s[0] % 64 && t[1..] == s[1..]
    ensures CbnColumn(t, i, k) == CbnColumn(s, i, k)
  {
    assert forall q :: 1 <= q < |s| ==> t[q] == t[1..][q - 1] && s[q] == s[1..][q - 1];
  }

  lemma SameFaults(s: seq<byte>, t: seq<byte>, i: nat)
    requires i <= |s| == |t| && forall q :: 1 <= q < |s| ==> t[q] == s[q]
    ensures Faulty(t, i) == Faulty(s, i)
  {
    hide Parity;
    forall q | 1 <= q < i ensures BadParity(t, q) == BadParity(s, q) {
    }
  }
}
