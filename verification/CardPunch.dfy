/** The card punch of sim_card.c: reverse code tables, the bytes one card becomes in
    each output mode, and the punch unit that appends them to its file. */
module CardPunch {
  import opened Bytes
  import opened CardTables

  type Card = c: seq<column> | |c| == 80 witness seq(80, i => 0)

  datatype PunchMode = Auto | Text | Octal | Binary | Cbn | Ebcdic

  const NL := 10
  const BLANK := 32
  const QUERY := 63
  const TILDE := 126
  const NO_CHAR := 0xFF
  const NO_EBCDIC := 0x100
  const EOR := 7
  const EOF := 13
  const EOI := 15

  // ------------------------------------------------------------------ code tables

  /** The last of the first n characters that is punched as h. */
  function LastChar(code: Code, h: int, n: nat): byte
    requires n <= 128
  {
    if n == 0 then NO_CHAR else if Hol(code, n - 1) == h then n - 1 else LastChar(code, h, n - 1)
  }

  lemma {:induction false} LastCharIs(code: Code, h: int, n: nat)
    requires n <= 128
    ensures var c := LastChar(code, h, n);
      if c == NO_CHAR then forall k: nat :: k < n ==> Hol(code, k) != h
      else c < n && Hol(code, c) == h && forall k: nat :: c < k < n ==> Hol(code, k) != h
  {
    hide Hol;
    if n > 0 && Hol(code, n - 1) != h {
      LastCharIs(code, h, n - 1);
    }
  }

  function Ascii(code: Code, h: column): byte {
    LastChar(code, h, 128)
  }

  /** The first of the first n characters that is punched as h. */
  function FirstEbcdic(h: column, n: nat): (c: nat)
    requires n <= 256
    ensures c == NO_EBCDIC || (c < n && EbcdicToHol(c) == h)
    ensures c == NO_EBCDIC ==> forall k: nat :: k < n ==> EbcdicToHol(k) != h
  {
    hide EbcdicToHol;
    if n == 0 then NO_EBCDIC
    else if FirstEbcdic(h, n - 1) != NO_EBCDIC then FirstEbcdic(h, n - 1)
    else if EbcdicToHol(n - 1) == h then n - 1 else NO_EBCDIC
  }

  method BuildHolToAscii(code: Code) returns (t: seq<byte>)
    ensures |t| == 0x1000 && forall h: column :: t[h] == Ascii(code, h)
  {
    hide Hol;
    t := seq<byte>(0x1000, h => NO_CHAR);
    var i := 0;
    while i < 128
      invariant 0 <= i <= 128 && |t| == 0x1000
      invariant forall h: column :: t[h] == LastChar(code, h, i)
    {
      HolGood(code, i);
      var temp := Hol(code, i);
      if temp != INVALID {
        t := t[temp := i];
      }
      i := i + 1;
    }
  }

  /** The slot keeps the first character punched as h; a second one is only reported. */
  method BuildHolToEbcdic() returns (t: seq<int>)
    ensures |t| == 0x1000 && forall h: column :: t[h] == FirstEbcdic(h, 256)
  {
    hide EbcdicToHol;
    t := seq(0x1000, h => NO_EBCDIC);
    var i := 0;
    while i < 256
      invariant 0 <= i <= 256 && |t| == 0x1000
      invariant forall h: column :: t[h] == FirstEbcdic(h, i)
    {
      var temp := EbcdicToHol(i);
      if t[temp] == NO_EBCDIC {
        t := t[temp := i];
      }
      i := i + 1;
    }
  }

  // ------------------------------------------------------------------ one card's bytes

  /** The character punched for column h; columns outside the code become '?'. */
  function PunchChar(code: Code, h: column): byte {
    if Ascii(code, h) == NO_CHAR then QUERY else Ascii(code, h)
  }

  lemma PunchCharPrints(code: Code, h: column)
    ensures 32 <= PunchChar(code, h) < 127
    ensures PunchChar(code, h) == BLANK <==> h == 0
    ensures Hol(code, PunchChar(code, h)) == h <==> Ascii(code, h) != NO_CHAR
  {
    hide Hol, LastChar;
    LastCharIs(code, h, 128);
    HolGood(code, Ascii(code, h));
    HolGood(code, QUERY);
    HolGood(code, BLANK);
  }

  predicate IsText(code: Code, card: Card) {
    forall k :: 0 <= k < 80 ==> Ascii(code, card[k]) != NO_CHAR
  }

  /** One past the last punched column among the first n. */
  function Used(card: Card, n: nat): (u: nat)
    requires n <= 80
    ensures u <= n
    ensures u > 0 ==> card[u - 1] != 0
    ensures forall k :: u <= k < n ==> card[k] == 0
  {
    if n == 0 then 0 else if card[n - 1] != 0 then n else Used(card, n - 1)
  }

  function TextLength(card: Card): (n: nat)
    ensures 1 <= n <= 80
  {
    Max(1, Used(card, 80))
  }

  function TextLine(code: Code, card: Card): seq<byte> {
    seq<byte>(TextLength(card), k requires 0 <= k < TextLength(card) => PunchChar(code, card[k])) + [NL]
  }

  /** The leading j octal digits of a column, and its digit j. */
  function Top(h: column, j: nat): nat
    requires j <= 4
  {
    if j == 0 then 0 else if j == 1 then h / 512 else if j == 2 then h / 64 else if j == 3 then h / 8 else h
  }

  function Digit(h: column, j: nat): (d: nat)
    requires j < 4
    ensures d < 8 && Top(h, j + 1) == 8 * Top(h, j) + d
  {
    Top(h, j + 1) % 8
  }

  lemma DigitsOf(h: column)
    ensures Digit(h, 0) == h / 512 % 8 && Digit(h, 1) == h / 64 % 8
    ensures Digit(h, 2) == h / 8 % 8 && Digit(h, 3) == h % 8
  {
  }

  function Digits(card: Card): (d: seq<byte>)
    ensures |d| == 320
    ensures forall c, j :: 0 <= c < 80 && 0 <= j < 4 ==> d[4 * c + j] == 48 + Digit(card[c], j)
  {
    seq<byte>(320, q requires 0 <= q < 320 => 48 + Digit(card[q / 4], q % 4))
  }

  /** "~eor" and "~eof" for the end cards, otherwise "~raw" or, when only the first
      column is punched, "~eoraw", and 320 octal digits. */
  function OctalLine(card: Card): seq<byte> {
    var lone := Used(card, 80) == 1;
    if lone && card[0] == EOR then [TILDE, 101, 111, 114, NL]
    else if lone && (card[0] == EOF || card[0] == EOI) then [TILDE, 101, 111, 102, NL]
    else [TILDE] + (if lone then [101, 111] else []) + [114, 97, 119] + Digits(card) + [NL]
  }

  function BinaryRecord(card: Card): (r: seq<byte>)
    ensures |r| == 160
    ensures forall k :: 0 <= k < 80 ==> r[2 * k] == card[k] % 16 * 16 && r[2 * k + 1] == card[k] / 16
  {
    seq<byte>(160, q requires 0 <= q < 160 =>
      if q % 2 == 0 then card[q / 2] % 16 * 16 else card[q / 2] / 16)
  }

  lemma SamePairs(a: seq<byte>, b: seq<byte>)
    requires |a| == |b| == 160
    requires forall k :: 0 <= k < 80 ==> a[2 * k] == b[2 * k] && a[2 * k + 1] == b[2 * k + 1]
    ensures a == b
  {
    forall q | 0 <= q < 160 ensures a[q] == b[q] {
      assert q == 2 * (q / 2) || q == 2 * (q / 2) + 1;
    }
  }

  function ParityRow(r: nat): (row: seq<int>)
    ensures |row| == 8 && forall k :: 0 <= k < 8 ==> row[k] == 0 || row[k] == 64
  {
    match r
    case 0 => [0, 64, 64, 0, 64, 0, 0, 64]
    case 1 => [64, 0, 0, 64, 0, 64, 64, 0]
    case 2 => [64, 0, 0, 64, 0, 64, 64, 0]
    case 3 => [0, 64, 64, 0, 64, 0, 0, 64]
    case 4 => [64, 0, 0, 64, 0, 64, 64, 0]
    case 5 => [0, 64, 64, 0, 64, 0, 0, 64]
    case 6 => [0, 64, 64, 0, 64, 0, 0, 64]
    case _ => [64, 0, 0, 64, 0, 64, 64, 0]
  }

  function Parity(c: nat): (p: int)
    ensures p == 0 || p == 64
  {
    ParityRow(c / 8)[c % 8]
  }

  /** A six-row half column with its parity bit. */
  function WithParity(c: nat): byte
    requires c < 64
  {
    c + (64 - Parity(c))
  }

  function Half(card: Card, q: nat): (c: nat)
    requires q < 160
    ensures c < 64
  {
    if q % 2 == 0 then card[q / 2] / 64 else card[q / 2] % 64
  }

  /** Two bytes with parity for each column, the first byte carrying the record mark. */
  function CbnRecord(card: Card): (r: seq<byte>)
    ensures |r| == 160 && r[0] == 128 + WithParity(Half(card, 0))
    ensures forall q :: 1 <= q < 160 ==> r[q] == WithParity(Half(card, q))
  {
    seq<byte>(160, q requires 0 <= q < 160 => HalfPunched(card, q))
  }

  function HalfPunched(card: Card, q: nat): (b: byte)
    requires q < 160
    ensures b == WithParity(Half(card, q)) + if q == 0 then 128 else 0
  {
    hide Half, Parity;
    if q == 0 then 128 + WithParity(Half(card, q)) else WithParity(Half(card, q))
  }

  /** The table entry cut to a byte: 0 for a column outside the table. */
  function EbcdicByte(h: column): byte {
    FirstEbcdic(h, 256) % 256
  }

  function EbcdicRecord(card: Card): (r: seq<byte>)
    ensures |r| == 80
    ensures forall k :: 0 <= k < 80 ==> r[k] == EbcdicByte(card[k])
  {
    seq<byte>(80, k requires 0 <= k < 80 => EbcdicByte(card[k]))
  }

  function CardBytes(mode: PunchMode, code: Code, card: Card): (r: seq<byte>)
    ensures 1 <= |r| <= 327
  {
    match mode
    case Auto => if IsText(code, card) then TextLine(code, card) else OctalLine(card)
    case Text => TextLine(code, card)
    case Octal => OctalLine(card)
    case Binary => BinaryRecord(card)
    case Cbn => CbnRecord(card)
    case Ebcdic => EbcdicRecord(card)
  }

  /** What a deck punched in one mode leaves in an empty file. */
  function DeckBytes(mode: PunchMode, code: Code, deck: seq<Card>): seq<byte> {
    if deck == [] then [] else CardBytes(mode, code, deck[0]) + DeckBytes(mode, code, deck[1..])
  }

  // ------------------------------------------------------------------ the punch

  class Punch {
    const code: Code
    const holToAscii: seq<byte>
    const holToEbcdic: seq<int>
    var file: seq<byte>
    var punchCount: nat

    ghost predicate Valid() {
      && |holToAscii| == |holToEbcdic| == 0x1000
      && (forall h: column :: holToAscii[h] == Ascii(code, h))
      && (forall h: column :: holToEbcdic[h] == FirstEbcdic(h, 256))
    }

    /** Attach to an empty file. */
    constructor (code: Code)
      ensures Valid() && this.code == code && file == [] && punchCount == 0
    {
      this.code := code;
      this.file := [];
      this.punchCount := 0;
      var ascii := BuildHolToAscii(code);
      var ebcdic := BuildHolToEbcdic();
      this.holToAscii := ascii;
      this.holToEbcdic := ebcdic;
    }

    /** Appends the card to the file and clears the image. */
    method PunchCard(image: array<column>, mode: PunchMode)
      requires Valid() && image.Length == 80
      modifies this, image
      ensures file == old(file) + CardBytes(mode, code, old(image[..]))
      ensures punchCount == old(punchCount) + 1
      ensures forall k :: 0 <= k < 80 ==> image[k] == 0
    {
      hide CardBytes, Ascii, FirstEbcdic;
      var out := CardOut(image, mode);
      punchCount := punchCount + 1;
      file := file + out;
      var i := 0;
      while i < 80
        invariant 0 <= i <= 80
        invariant forall k :: 0 <= k < i ==> image[k] == 0
        invariant file == old(file) + out && punchCount == old(punchCount) + 1
      {
        image[i] := 0;
        i := i + 1;
      }
    }

    /** In AUTO mode a card that converts goes out as text and any other as octal. */
    method CardOut(image: array<column>, mode: PunchMode) returns (out: seq<byte>)
      requires Valid() && image.Length == 80
      ensures out == CardBytes(mode, code, image[..])
    {
      hide Ascii, FirstEbcdic, IsText, TextLine, OctalLine, BinaryRecord, CbnRecord, EbcdicRecord, Valid;
      match mode {
        case Auto =>
          var ok := AllConvert(image);
          if ok { out := TextOut(image); } else { out := OctalOut(image); }
        case Text => out := TextOut(image);
        case Octal => out := OctalOut(image);
        case Binary => out := BinaryOut(image);
        case Cbn => out := CbnOut(image);
        case Ebcdic => out := EbcdicOut(image);
      }
    }

    method AllConvert(image: array<column>) returns (ok: bool)
      requires Valid() && image.Length == 80
      ensures ok <==> IsText(code, image[..])
    {
      hide Ascii;
      ok := true;
      var i := 0;
      while i < 80
        invariant 0 <= i <= 80
        invariant ok <==> forall k :: 0 <= k < i ==> Ascii(code, image[k]) != NO_CHAR
      {
        if holToAscii[image[i]] == NO_CHAR {
          ok := false;
        }
        i := i + 1;
      }
    }

    /** Converts every column, then trims trailing blanks down to one character. */
    method TextOut(image: array<column>) returns (out: seq<byte>)
      requires Valid() && image.Length == 80
      ensures out == TextLine(code, image[..])
    {
      hide Ascii;
      var i := 0;
      out := [];
      while i < 80
        invariant 0 <= i <= 80 && |out| == i
        invariant forall k :: 0 <= k < i ==> out[k] == PunchChar(code, image[k])
      {
        var c := holToAscii[image[i]];
        out := out + [if c == NO_CHAR then QUERY else c];
        i := i + 1;
      }
      ghost var card: Card := image[..];
      var outp := 80;
      var more := true;
      while more
        invariant 0 <= outp <= 80
        invariant more ==> Used(card, outp) == Used(card, 80)
        invariant !more ==> outp < 80 && outp + 1 == TextLength(card)
        decreases more, outp
      {
        if outp > 0 {
          outp := outp - 1;
          PunchCharPrints(code, card[outp]);
          more := outp > 0 && out[outp] == BLANK;
        } else {
          more := false;
        }
      }
      out := out[..outp + 1] + [NL];
    }

    /** The last punched column, or -1. */
    method LastPunched(image: array<column>) returns (i: int)
      requires image.Length == 80
      ensures i == Used(image[..], 80) - 1
    {
      ghost var card: Card := image[..];
      i := 79;
      while i >= 0 && image[i] == 0
        invariant -1 <= i <= 79 && Used(card, 80) == Used(card, i + 1)
      {
        i := i - 1;
      }
    }

    method OctalOut(image: array<column>) returns (out: seq<byte>)
      requires Valid() && image.Length == 80
      ensures out == OctalLine(image[..])
    {
      hide Digits, Valid, Used;
      ghost var card: Card := image[..];
      out := [TILDE];
      var i := LastPunched(image);
      if i == 0 {
        out := out + [101, 111];
        if image[0] == EOR {
          return out + [114, NL];
        }
        if image[0] == EOF {
          return out + [102, NL];
        }
        if image[0] == EOI {
          return out + [102, NL];
        }
      }
      var digits := DigitsOut(image);
      out := out + [114, 97, 119] + digits + [NL];
    }

    method DigitsOut(image: array<column>) returns (out: seq<byte>)
      requires image.Length == 80
      ensures out == Digits(image[..])
    {
      hide Digit;
      ghost var card: Card := image[..];
      out := [];
      var i := 0;
      while i < 80
        invariant 0 <= i <= 80 && |out| == 4 * i
        invariant forall c, j :: 0 <= c < i && 0 <= j < 4 ==> out[4 * c + j] == 48 + Digit(card[c], j)
      {
        var col := image[i];
        DigitsOf(col);
        out := out + [48 + col / 512 % 8, 48 + col / 64 % 8, 48 + col / 8 % 8, 48 + col % 8];
        i := i + 1;
      }
      ghost var all := Digits(card);
      forall q | 0 <= q < 320 ensures out[q] == all[q] {
        assert q == 4 * (q / 4) + q % 4;
      }
    }

    method BinaryOut(image: array<column>) returns (out: seq<byte>)
      requires image.Length == 80
      ensures out == BinaryRecord(image[..])
    {
      hide BinaryRecord;
      ghost var card: Card := image[..];
      out := [];
      var i := 0;
      while i < 80
        invariant 0 <= i <= 80 && |out| == 2 * i
        invariant forall k :: 0 <= k < i ==>
          out[2 * k] == card[k] % 16 * 16 && out[2 * k + 1] == card[k] / 16
      {
        var col := image[i];
        out := out + [col % 16 * 16, col / 16];
        i := i + 1;
      }
      SamePairs(out, BinaryRecord(card));
    }

    method CbnOut(image: array<column>) returns (out: seq<byte>)
      requires image.Length == 80
      ensures out == CbnRecord(image[..])
    {
      ghost var card: Card := image[..];
      out := [];
      var i := 0;
      while i < 80
        invariant 0 <= i <= 80 && |out| == 2 * i
        invariant forall q :: 0 <= q < 2 * i ==> out[q] == Half(card, q)
      {
        var col := image[i];
        out := out + [col / 64, col % 64];
        i := i + 1;
      }
      i := 0;
      while i < 160
        invariant 0 <= i <= 160 && |out| == 160
        invariant forall q :: 0 <= q < 160 ==> out[q] == if q < i then WithParity(Half(card, q)) else Half(card, q)
      {
        out := out[i := out[i] + (64 - Parity(out[i]))];
        i := i + 1;
      }
      out := out[0 := out[0] + 128];
    }

    method EbcdicOut(image: array<column>) returns (out: seq<byte>)
      requires Valid() && image.Length == 80
      ensures out == EbcdicRecord(image[..])
    {
      hide FirstEbcdic, EbcdicRecord, Ascii;
      out := [];
      var i := 0;
      while i < 80
        invariant 0 <= i <= 80 && |out| == i
        invariant forall k :: 0 <= k < i ==> out[k] == EbcdicByte(image[k])
      {
        out := out + [holToEbcdic[image[i]] % 256];
        assert out[i] == EbcdicByte(image[i]);
        i := i + 1;
      }
    }
  }

  method ImageOf(card: Card) returns (image: array<column>)
    ensures fresh(image) && image.Length == 80 && image[..] == card
  {
    image := new column[80](k requires 0 <= k < 80 => card[k]);
  }

  /** A deck punched card by card on a newly attached unit. */
  method PunchDeck(deck: seq<Card>, mode: PunchMode, code: Code) returns (file: seq<byte>)
    ensures file == DeckBytes(mode, code, deck)
  {
    hide CardBytes, DeckBytes, Punch.Valid;
    var unit := new Punch(code);
    var n := 0;
    assert deck[0..] == deck;
    while n < |deck|
      invariant 0 <= n <= |deck| && unit.Valid() && unit.code == code && fresh(unit)
      invariant unit.file + DeckBytes(mode, code, deck[n..]) == DeckBytes(mode, code, deck)
    {
      NextBytes(unit.file, mode, code, deck, n);
      var image := ImageOf(deck[n]);
      unit.PunchCard(image, mode);
      n := n + 1;
    }
    NoBytes(mode, code, deck);
    file := unit.file;
  }

  lemma NextBytes(f: seq<byte>, mode: PunchMode, code: Code, deck: seq<Card>, n: nat)
    requires n < |deck|
    ensures f + DeckBytes(mode, code, deck[n..]) ==
            (f + CardBytes(mode, code, deck[n])) + DeckBytes(mode, code, deck[n + 1..])
  {
    hide CardBytes;
    assert deck[n..][1..] == deck[n + 1..];
  }

  lemma NoBytes(mode: PunchMode, code: Code, deck: seq<Card>)
    ensures DeckBytes(mode, code, deck[|deck|..]) == []
  {
  }
}
