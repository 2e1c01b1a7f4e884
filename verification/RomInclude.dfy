/** sim_BuildROMs.c: the writer of ROM include files, their reader, and the decision whether
    an existing file is current. */
module RomInclude {
  import opened Bytes
  import opened Options

  const MAX_CONCURRENT_ROMS := 4
  const LINE_LIMIT := 254

  // ------------------------------------------------------------------ text

  function HexChar(d: nat): (c: char)
    requires d < 16
    ensures HexValue(c) == d
  {
    if d < 10 then '0' + d as char else 'A' + (d - 10) as char
  }

  function HexValue(c: char): (v: nat)
    ensures v <= 16
  {
    if '0' <= c <= '9' then (c - '0') as int
    else if 'A' <= c <= 'F' then (c - 'A') as int + 10
    else if 'a' <= c <= 'f' then (c - 'a') as int + 10
    else 16
  }

  /** At most `width` digits of n. */
  function Number(n: nat, base: nat, width: nat): (s: string)
    requires 2 <= base <= 16
    ensures |s| <= width
    ensures forall i :: 0 <= i < |s| ==> HexValue(s[i]) < 16
    decreases width
  {
    hide HexValue, HexChar;
    if width == 0 then ""
    else if n < base then [HexChar(n)]
    else Number(n / base, base, width - 1) + [HexChar(LastDigit(n, base))]
  }

  function LastDigit(n: nat, base: nat): (d: nat)
    requires base > 0
    ensures d < base
  {
    n % base
  }

  /** The number that digits stand for, in hexadecimal or in decimal. */
  function ValueOf(s: string, hex: bool): nat {
    if s == "" then 0
    else ValueOf(s[..|s| - 1], hex) * (if hex then 16 else 10) + HexValue(s[|s| - 1])
  }

  /** The first number with more than `width` digits. */
  function Limit(hex: bool, width: nat): nat {
    if width == 0 then 1 else Limit(hex, width - 1) * if hex then 16 else 10
  }

  lemma DigitIs(d: nat)
    requires d < 16
    ensures HexValue(HexChar(d)) == d && (HexChar(d) == '0' <==> d == 0)
    ensures '0' <= HexChar(d) <= '9' || (d >= 10 && 'A' <= HexChar(d) <= 'F')
  {
  }

  lemma OneMoreDigit(t: string, c: char, hex: bool)
    ensures ValueOf(t + [c], hex) == (if hex then ValueOf(t, hex) * 16 else ValueOf(t, hex) * 10) + HexValue(c)
  {
    assert (t + [c])[..|t|] == t;
  }

  lemma NothingYet(hex: bool)
    ensures ValueOf("", hex) == 0 && Limit(hex, 0) == 1
  {
  }

  /** The digits give the number, none is beyond the base, and only 0 begins with a zero. */
  predicate Reads(s: string, n: nat, hex: bool) {
    && s != "" && ValueOf(s, hex) == n && (s[0] == '0' <==> n == 0)
    && forall i :: 0 <= i < |s| ==> '0' <= s[i] <= '9' || (hex && 'A' <= s[i] <= 'F')
  }

  lemma {:induction false} HexReads(n: nat, width: nat)
    requires width > 0 && n < Limit(true, width)
    ensures Reads(Number(n, 16, width), n, true)
    decreases width
  {
    hide HexValue, HexChar, ValueOf;
    NothingYet(true);
    DigitIs(n % 16);
    if n < 16 {
      OneMoreDigit("", HexChar(n), true);
      assert "" + [HexChar(n)] == [HexChar(n)];
    } else if width > 1 {
      assert n < Limit(true, width - 1) * 16;
      HexReads(n / 16, width - 1);
      OneMoreDigit(Number(n / 16, 16, width - 1), HexChar(n % 16), true);
    }
  }

  lemma {:induction false} DecimalReads(n: nat, width: nat)
    requires width > 0 && n < Limit(false, width)
    ensures Reads(Number(n, 10, width), n, false)
    decreases width
  {
    hide HexValue, HexChar, ValueOf;
    NothingYet(false);
    DigitIs(n % 10);
    if n < 10 {
      OneMoreDigit("", HexChar(n), false);
      assert "" + [HexChar(n)] == [HexChar(n)];
    } else if width > 1 {
      assert n < Limit(false, width - 1) * 10;
      DecimalReads(n / 10, width - 1);
      OneMoreDigit(Number(n / 10, 10, width - 1), HexChar(n % 10), false);
    }
  }

  /** A number that has room for its digits is read back from them. */
  lemma NumberReads(n: nat, hex: bool, width: nat)
    requires width > 0 && n < Limit(hex, width)
    ensures Reads(Number(n, if hex then 16 else 10, width), n, hex)
  {
    hide Number, Limit, Reads;
    if hex {
      HexReads(n, width);
    } else {
      DecimalReads(n, width);
    }
  }

  /** Text that neither ends a line nor closes the array. */
  predicate Clean(s: string) {
    forall i :: 0 <= i < |s| ==> s[i] != '\n' && s[i] != '}'
  }

  /** fgets: up to 254 characters, through the first newline. */
  function LineLength(text: string, n: nat): (k: nat)
    requires n <= |text| && n <= LINE_LIMIT
    ensures n <= k <= |text| && k <= LINE_LIMIT
    ensures text != "" && n == 0 ==> k > 0
    decreases LINE_LIMIT - n
  {
    if n == |text| || n == LINE_LIMIT then n
    else if text[n] == '\n' then n + 1
    else LineLength(text, n + 1)
  }

  /** A line ends behind its newline, at the end of the text or after 254 characters. */
  lemma {:induction false} LineLengthIs(text: string, n: nat)
    requires n <= |text| && n <= 254 && forall i :: 0 <= i < n ==> text[i] != '\n'
    ensures var k := LineLength(text, n);
      && n <= k <= |text| && k <= 254 && (forall i :: 0 <= i < k - 1 ==> text[i] != '\n')
      && (k == |text| || k == 254 || (k > 0 && text[k - 1] == '\n'))
    decreases 254 - n
  {
    if n < |text| && n < LINE_LIMIT && text[n] != '\n' {
      LineLengthIs(text, n + 1);
    }
  }

  function SplitLines(text: string): seq<string> {
    if text == "" then []
    else var n := LineLength(text, 0); [text[..n]] + SplitLines(text[n..])
  }

  function Flatten(lines: seq<string>): string {
    if lines == [] then "" else lines[0] + Flatten(lines[1..])
  }

  /** A line fgets returns whole. */
  predicate Line(s: string) {
    Ended(s) && |s| <= LINE_LIMIT
  }

  /** One line, however long. */
  predicate Ended(s: string) {
    1 <= |s| && s[|s| - 1] == '\n' && forall i :: 0 <= i < |s| - 1 ==> s[i] != '\n'
  }

  lemma {:induction false} LineEnd(line: string, rest: string, n: nat)
    requires Line(line) && n < |line|
    ensures LineLength(line + rest, n) == |line|
    decreases |line| - n
  {
    if n < |line| - 1 {
      LineEnd(line, rest, n + 1);
    }
  }

  lemma SplitOne(line: string, tail: string)
    requires Line(line)
    ensures SplitLines(line + tail) == [line] + SplitLines(tail)
  {
    LineEnd(line, tail, 0);
    hide Line;
    var text := line + tail;
    assert text[..|line|] == line && text[|line|..] == tail;
  }

  lemma {:induction false} SplitFlatten(lines: seq<string>, rest: string)
    requires forall i :: 0 <= i < |lines| ==> Line(lines[i])
    ensures SplitLines(Flatten(lines) + rest) == lines + SplitLines(rest)
  {
    hide Line, SplitLines;
    if lines == [] {
      assert Flatten(lines) + rest == rest;
    } else {
      var tail := Flatten(lines[1..]) + rest;
      SplitFlatten(lines[1..], rest);
      assert Flatten(lines) + rest == lines[0] + tail;
      SplitOne(lines[0], tail);
      assert lines + SplitLines(rest) == [lines[0]] + (lines[1..] + SplitLines(rest));
    }
  }

  lemma {:induction false} FlattenParts(a: seq<string>, b: seq<string>)
    ensures Flatten(a + b) == Flatten(a) + Flatten(b)
  {
    if a == [] {
      assert a + b == b;
    } else {
      assert (a + b)[1..] == a[1..] + b;
      FlattenParts(a[1..], b);
    }
  }

  // ------------------------------------------------------------------ the reader

  /** What the reader has gathered so far. */
  datatype Scan = Scan(data: seq<byte>, name: Option<string>, sizeFound: bool, fileFound: bool, arrayFound: bool, stopped: bool)

  const START := Scan([], None, false, false, false, false)

  function SizeDefine(): string { "#define BOOT_CODE_SIZE" }
  function FileDefine(): string { "#define BOOT_CODE_FILENAME" }
  function ArrayDefine(): string { "#define BOOT_CODE_ARRAY" }
  function LastRom(): string { "_4 " }

  predicate StartsWith(line: string, prefix: string) {
    |prefix| <= |line| && line[..|prefix|] == prefix
  }

  predicate IsSpace(c: char) {
    c == ' ' || '\t' <= c <= '\r'
  }

  /** Characters as the reader classifies them. */
  lemma ReaderClasses(c: char, line: string, prefix: string)
    ensures IsSpace(c) <==> c in " \t\n\r" || c == 0x0B as char || c == 0x0C as char
    ensures HexValue(c) < 16 <==> '0' <= c <= '9' || c in "ABCDEFabcdef"
    ensures StartsWith(line, prefix) <==> exists rest :: line == prefix + rest
  {
    if StartsWith(line, prefix) {
      assert line == prefix + line[|prefix|..];
    }
    SmallHex(c);
  }

  lemma SmallHex(c: char)
    ensures HexValue(c) < 16 <==> '0' <= c <= '9' || c in "ABCDEFabcdef"
  {
  }

  function SkipSpace(s: string): string {
    if s != "" && IsSpace(s[0]) then SkipSpace(s[1..]) else s
  }

  function Token(s: string): string {
    if s == "" || IsSpace(s[0]) then "" else [s[0]] + Token(s[1..])
  }

  function CutAt(s: string, c: char): string {
    if s == "" || s[0] == c then "" else [s[0]] + CutAt(s[1..], c)
  }

  /** sscanf (line, "unsigned char %s[]"), cut at the first bracket; "" when it fails. */
  function ScanName(line: string): string {
    if !StartsWith(line, "unsigned") then ""
    else
      var rest := SkipSpace(line[8..]);
      if !StartsWith(rest, "char") then "" else CutAt(Token(SkipSpace(rest[4..])), '[')
  }

  /** sscanf (c, "0x%2Xd,"): one or two hexadecimal digits. */
  function ScanByte(c: string): Option<byte> {
    if |c| < 3 || c[0] != '0' || c[1] != 'x' || HexValue(c[2]) == 16 then None
    else if |c| > 3 && HexValue(c[3]) < 16 then Some(16 * HexValue(c[2]) + HexValue(c[3]))
    else Some(HexValue(c[2]))
  }

  function ScanRow(c: string): seq<byte> {
    match ScanByte(c)
    case None => []
    case Some(b) => [b] + if |c| < 5 then [] else ScanRow(c[5..])
  }

  /** One line, by its first character; a line with a closing brace is the last one. */
  function TakeLine(s: Scan, line: string): Scan {
    var t :=
      if line == "" then s
      else if line[0] == '#' then
        s.(sizeFound := s.sizeFound || StartsWith(line, SizeDefine() + LastRom()),
           fileFound := s.fileFound || StartsWith(line, FileDefine() + LastRom()),
           arrayFound := s.arrayFound || StartsWith(line, ArrayDefine() + LastRom()))
      else if line[0] == 'u' then s.(name := Some(ScanName(line)))
      else if line[0] == '0' then s.(data := s.data + ScanRow(line))
      else s;
    t.(stopped := '}' in line)
  }

  function TakeLines(s: Scan, lines: seq<string>): Scan
    decreases |lines|
  {
    if lines == [] || s.stopped then s else TakeLines(TakeLine(s, lines[0]), lines[1..])
  }

  lemma {:induction false} TakeParts(s: Scan, a: seq<string>, b: seq<string>)
    ensures TakeLines(s, a + b) == TakeLines(TakeLines(s, a), b)
    decreases |a|
  {
    hide TakeLine;
    if a == [] || s.stopped {
      assert a == [] ==> a + b == b;
    } else {
      assert (a + b)[1..] == a[1..] + b && (a + b)[0] == a[0];
      TakeParts(TakeLine(s, a[0]), a[1..], b);
    }
  }

  method SumOf(data: seq<byte>) returns (c: uint32)
    ensures c == Checksum(data)
  {
    hide ByteSum;
    NoBytes(data);
    var i, sum := 0, 0;
    while i < |data|
      invariant 0 <= i <= |data| && 0 <= sum < W32 && sum == ByteSum(data[..i]) % W32
    {
      OneMoreByte(data, i);
      sum := (sum + data[i]) % W32;
      i := i + 1;
    }
    assert data[..i] == data;
    c := W32 - 1 - sum;
  }

  /** What the reader reports about a file. */
  datatype Content = Content(size: nat, data: seq<byte>, checksum: uint32, name: Option<string>, definesFound: bool)

  ghost function Reported(s: Scan): Content {
    Content(|s.data|, s.data, Checksum(s.data), s.name, s.sizeFound && s.fileFound && s.arrayFound)
  }

  ghost function ContentOf(text: string): Content {
    Reported(TakeLines(START, SplitLines(text)))
  }

  lemma RowStep(more: seq<byte>, c: string)
    ensures var b := ScanByte(c);
      more + ScanRow(c) ==
        if b.None? then more
        else if |c| < 5 then more + [b.value] else (more + [b.value]) + ScanRow(c[5..])
  {
    hide ScanByte;
    var b := ScanByte(c);
    if b.Some? {
      Appended(more, b.value, if |c| < 5 then [] else ScanRow(c[5..]));
    } else {
      assert more + [] == more;
    }
  }

  lemma Appended(more: seq<byte>, b: byte, rest: seq<byte>)
    ensures more + ([b] + rest) == (more + [b]) + rest
    ensures (more + [b]) + [] == more + [b]
  {
  }

  method ReadRow(line: string, data: seq<byte>) returns (more: seq<byte>)
    ensures more == data + ScanRow(line)
  {
    hide ScanByte, ScanRow;
    more := data;
    var c := line;
    var going := true;
    while going
      invariant if going then more + ScanRow(c) == data + ScanRow(line) else more == data + ScanRow(line)
      decreases going, |c|
    {
      var b := ScanByte(c);
      RowStep(more, c);
      if b.None? || |c| < 5 {
        going := false;
      }
      if b.Some? {
        more := more + [b.value];
        if |c| >= 5 {
          c := c[5..];
        }
      }
    }
  }

  /** sim_read_ROM_include. */
  method ReadInclude(text: string) returns (r: Content)
    ensures r == ContentOf(text)
  {
    hide StartsWith, ScanName, ScanRow, LineLength;
    var rest, st := text, START;
    while rest != "" && !st.stopped
      invariant TakeLines(st, SplitLines(rest)) == TakeLines(START, SplitLines(text))
      decreases |rest|
    {
      var n := LineLength(rest, 0);
      var line := rest[..n];
      rest := rest[n..];
      ghost var before := st;
      if line[0] == '#' {
        if StartsWith(line, SizeDefine() + LastRom()) {
          st := st.(sizeFound := true);
        }
        if StartsWith(line, FileDefine() + LastRom()) {
          st := st.(fileFound := true);
        }
        if StartsWith(line, ArrayDefine() + LastRom()) {
          st := st.(arrayFound := true);
        }
      } else if line[0] == 'u' {
        st := st.(name := Some(ScanName(line)));
      } else if line[0] == '0' {
        var data := ReadRow(line, st.data);
        st := st.(data := data);
      }
      st := st.(stopped := '}' in line);
      assert st == TakeLine(before, line);
    }
    var checksum := SumOf(st.data);
    r := Content(|st.data|, st.data, checksum, st.name, st.sizeFound && st.fileFound && st.arrayFound);
  }

  // ------------------------------------------------------------------ the writer

  /** One entry of the table of ROMs and what the generated comment mentions. */
  datatype Rom = Rom(romFile: string, includeFile: string, name: string, comments: Option<string>,
                     producedAt: string, modifiedAt: string)

  function Eol(): string { "\r\n" }

  function LoadName(path: string): (r: string)
    ensures |r| <= |path| && forall c :: c in r ==> c in path
    decreases |path|
  {
    if '/' !in path then path else LoadName(AfterSlash(path))
  }

  function AfterSlash(path: string): (r: string)
    requires '/' in path
    ensures |r| < |path|
    ensures forall c :: c in r ==> c in path
  {
    if path[0] == '/' then path[1..] else AfterSlash(path[1..])
  }

  function Preamble(d: Rom, size: nat, checksum: nat): seq<string> {
    ["#ifndef ROM_" + d.name + "_H" + Eol(),
     "#define ROM_" + d.name + "_H 0" + Eol(),
     "/*" + Eol(),
     "   " + d.includeFile + ("         produced at " + d.producedAt) + Eol(),
     "   from " + d.romFile + (" which was last modified at " + d.modifiedAt) + Eol(),
     "   file size: " + Number(size, 10, 10)
       + (" (0x" + Number(size, 16, 8) + ") - checksum: 0x" + Padded(checksum)) + Eol(),
     "   This file is a generated file and" + " should NOT be edited or changed" + " by hand." + Eol()]
  }

  /** %08X */
  function Padded(n: nat): (s: string)
    ensures |s| == 8
  {
    var h := Number(n, 16, 8);
    seq(8 - |h|, i => '0') + h
  }

  function Remark(d: Rom): seq<string> {
    if d.comments.None? then [] else ["\n", "   " + d.comments.value + "" + Eol(), Eol()]
  }

  function Defines(d: Rom, size: nat): seq<string> {
    ["*/" + Eol(),
     "#undef BOOT_CODE_SIZE" + Eol(),
     "#define BOOT_CODE_SIZE 0x" + Number(size, 16, 8) + "" + Eol(),
     "#undef BOOT_CODE_FILENAME" + Eol(),
     "#define BOOT_CODE_FILENAME \"" + LoadName(d.romFile) + "\"" + Eol(),
     "#undef BOOT_CODE_ARRAY" + Eol(),
     "#define BOOT_CODE_ARRAY " + d.name + "" + Eol()]
  }

  /** The defines of one of the concurrent ROMs; `tag` is "_1 " to "_4 ". */
  function RomDefines(d: Rom, size: nat, rom: nat): seq<string>
    requires 1 <= rom <= MAX_CONCURRENT_ROMS
  {
    var tag := RomTag(rom);
    [(if rom == 1 then "#if" else "#elif") + " !defined(BOOT_CODE_SIZE_" + ([HexChar(rom)] + ")") + Eol(),
     (SizeDefine() + tag) + ("0x" + Number(size, 16, 8)) + "" + Eol(),
     (FileDefine() + tag) + ("\"" + LoadName(d.romFile) + "\"") + "" + Eol(),
     (ArrayDefine() + tag) + d.name + "" + Eol()]
  }

  function RomTag(rom: nat): string
    requires 1 <= rom <= MAX_CONCURRENT_ROMS
  {
    "_" + [HexChar(rom)] + " "
  }

  function Cell(b: byte): string {
    ['0', 'x', HexChar(b / 16), HexChar(b % 16), ',']
  }

  function Row(data: seq<byte>): string {
    if data == [] then "" else Cell(data[0]) + Row(data[1..])
  }

  /** The lines of data after the array's opening brace. */
  function DataLines(data: seq<byte>): seq<string> {
    if |data| <= 16 then [Row(data) + "};" + Eol()] else [Row(data[..16]) + Eol()] + DataLines(data[16..])
  }

  function ArrayLine(d: Rom, rest: string): string {
    "unsigned char " + d.name + "[] = {" + rest
  }

  function BodyLines(d: Rom, data: seq<byte>): seq<string> {
    if data == [] then [ArrayLine(d, "};" + Eol())] else [ArrayLine(d, Eol())] + DataLines(data)
  }

  function HeadLines(d: Rom, size: nat, checksum: nat): seq<string> {
    Preamble(d, size, checksum) + Remark(d) + Defines(d, size)
    + RomDefines(d, size, 1) + RomDefines(d, size, 2) + RomDefines(d, size, 3)
  }

  function IncludeLines(d: Rom, data: seq<byte>): seq<string> {
    HeadLines(d, |data|, Checksum(data)) + RomDefines(d, |data|, 4) + ["#endif" + Eol()]
    + BodyLines(d, data) + ["#endif /* ROM_" + d.name + "_H */" + Eol()]
  }

  /** The include file written for a ROM. */
  function IncludeText(d: Rom, data: seq<byte>): string {
    Flatten(IncludeLines(d, data))
  }

  // ------------------------------------------------------------------ reading back what was written

  /** The eight digits of a checksum, leading zeros and all. */
  lemma PaddedReads(n: uint32)
    ensures ValueOf(Padded(n), true) == n
    ensures forall i :: 0 <= i < 8 ==> '0' <= Padded(n)[i] <= '9' || 'A' <= Padded(n)[i] <= 'F'
  {
    hide Number, ValueOf;
    assert Limit(true, 8) == W32 by {
      Limits();
    }
    NumberReads(n, true, 8);
    var h := Number(n, 16, 8);
    ZerosInFront(h, 8 - |h|);
  }

  lemma Limits()
    ensures Limit(true, 8) == W32 && Limit(false, 10) == 10000000000
  {
    assert Limit(true, 4) == 0x1_0000 && Limit(false, 5) == 100000;
  }

  lemma {:induction false} ZerosInFront(h: string, k: nat)
    ensures ValueOf(seq(k, i => '0') + h, true) == ValueOf(h, true)
    decreases k + |h|
  {
    var s := seq(k, i => '0') + h;
    if h != "" {
      var m := |h| - 1;
      ZerosInFront(h[..m], k);
      assert s[..|s| - 1] == seq(k, i => '0') + h[..m];
    } else if k > 0 {
      ZerosInFront(h, k - 1);
      assert s[..|s| - 1] == seq(k - 1, i => '0') + h;
    } else {
      assert s == "";
    }
  }

  /** The file name written is what follows the last slash. */
  lemma {:induction false} LoadNameIsLast(path: string)
    ensures '/' !in LoadName(path)
    ensures var at := |path| - |LoadName(path)|;
      path[at..] == LoadName(path) && (at == 0 || path[at - 1] == '/')
    decreases |path|
  {
    hide AfterSlash;
    if '/' in path {
      var rest := AfterSlash(path);
      AfterSlashIs(path);
      LoadNameIsLast(rest);
      EndOfEnd(path, |path| - |rest|, |rest| - |LoadName(rest)|);
    }
  }

  lemma EndOfEnd(path: string, i: nat, j: nat)
    requires i + j <= |path|
    ensures path[i..][j..] == path[i + j..] && (j > 0 ==> path[i..][j - 1] == path[i + j - 1])
  {
  }

  lemma {:induction false} AfterSlashIs(path: string)
    requires '/' in path
    ensures var at := |path| - |AfterSlash(path)|; at > 0 && path[at..] == AfterSlash(path) && path[at - 1] == '/'
  {
    if path[0] != '/' {
      AfterSlashIs(path[1..]);
      var at := |path| - |AfterSlash(path)|;
      assert path[at..] == path[1..][at - 1..];
    }
  }

  /** What the compiler finds in the file: the size of the ROM, the name of its file and that
      of its array, each a whole line. */
  lemma Defined(d: Rom, data: seq<byte>) returns (h: string)
    requires |data| < W32
    ensures "#define BOOT_CODE_SIZE 0x" + h + "\r\n" in IncludeLines(d, data) && ValueOf(h, true) == |data|
    ensures "#define BOOT_CODE_FILENAME \"" + LoadName(d.romFile) + "\"\r\n" in IncludeLines(d, data)
    ensures "#define BOOT_CODE_ARRAY " + d.name + "\r\n" in IncludeLines(d, data)
  {
    hide Number, ValueOf, Preamble, Remark, RomDefines, BodyLines, LoadName;
    Limits();
    NumberReads(|data|, true, 8);
    h := Number(|data|, 16, 8);
    var lines := Defines(d, |data|);
    assert lines[2] == "#define BOOT_CODE_SIZE 0x" + h + "\r\n" && lines[2] in lines;
    assert lines[4] == "#define BOOT_CODE_FILENAME \"" + LoadName(d.romFile) + "\"\r\n" && lines[4] in lines;
    assert lines[6] == "#define BOOT_CODE_ARRAY " + d.name + "\r\n" && lines[6] in lines;
    hide Defines;
    assert forall line :: line in lines ==> line in HeadLines(d, |data|, Checksum(data));
  }

  /** The defines of the four concurrent ROMs, each under its own guard. */
  lemma RomDefined(d: Rom, data: seq<byte>, rom: nat)
    requires |data| < W32 && 1 <= rom <= 4
    ensures var k := ["1", "2", "3", "4"][rom - 1]; var lines := IncludeLines(d, data);
      && (if rom == 1 then "#if" else "#elif") + " !defined(BOOT_CODE_SIZE_" + k + ")" + "\r\n" in lines
      && "#define BOOT_CODE_SIZE" + "_" + k + " 0x" + Number(|data|, 16, 8) + "\r\n" in lines
      && "#define BOOT_CODE_FILENAME" + "_" + k + " \"" + LoadName(d.romFile) + "\"" + "\r\n" in lines
      && "#define BOOT_CODE_ARRAY" + "_" + k + " " + d.name + "\r\n" in lines
  {
    hide Number, LoadName, RomDefines, IncludeLines;
    var lines := RomDefines(d, |data|, rom);
    RomLines(d, |data|, rom);
    InFile(d, data, rom, lines[0]);
    InFile(d, data, rom, lines[1]);
    InFile(d, data, rom, lines[2]);
    InFile(d, data, rom, lines[3]);
  }

  lemma InFile(d: Rom, data: seq<byte>, rom: nat, line: string)
    requires 1 <= rom <= 4 && line in RomDefines(d, |data|, rom)
    ensures line in IncludeLines(d, data)
  {
    hide RomDefines, Preamble, Remark, Defines, BodyLines;
  }

  lemma RomLines(d: Rom, size: nat, rom: nat)
    requires 1 <= rom <= 4
    ensures var k := ["1", "2", "3", "4"][rom - 1]; var lines := RomDefines(d, size, rom);
      && |lines| == 4
      && lines[0] == (if rom == 1 then "#if" else "#elif") + " !defined(BOOT_CODE_SIZE_" + k + ")" + "\r\n"
      && lines[1] == "#define BOOT_CODE_SIZE" + "_" + k + " 0x" + Number(size, 16, 8) + "\r\n"
      && lines[2] == "#define BOOT_CODE_FILENAME" + "_" + k + " \"" + LoadName(d.romFile) + "\"" + "\r\n"
      && lines[3] == "#define BOOT_CODE_ARRAY" + "_" + k + " " + d.name + "\r\n"
  {
    hide Number, LoadName;
    var k := ["1", "2", "3", "4"][rom - 1];
    assert [HexChar(rom)] == k;
    TaggedLine(SizeDefine(), k, "0x", Number(size, 16, 8), "");
    TaggedLine(FileDefine(), k, "\"", LoadName(d.romFile), "\"");
    TaggedLine(ArrayDefine(), k, "", d.name, "");
    assert " " + "0x" == " 0x" && " " + "\"" == " \"" && " " + "" == " ";
  }

  lemma TaggedLine(define: string, k: string, before: string, value: string, behind: string)
    ensures (define + ("_" + k + " ")) + (before + value + behind) + "" + Eol()
         == define + "_" + k + (" " + before) + value + behind + "\r\n"
  {
  }

  /** No name or comment ends a line or closes the array; an array name is one word. */
  predicate NamesOk(d: Rom) {
    && Clean(d.romFile) && Clean(d.includeFile) && Clean(d.name)
    && (d.comments.Some? ==> Clean(d.comments.value))
    && Clean(d.producedAt) && Clean(d.modifiedAt)
    && forall i :: 0 <= i < |d.name| ==> !IsSpace(d.name[i]) && d.name[i] != '['
  }

  /** Every line fits in the reader's line buffer. */
  predicate Fits(lines: seq<string>) {
    forall i :: 0 <= i < |lines| ==> |lines[i]| <= LINE_LIMIT
  }

  /** A line the reader passes over, except that it may find a define on it. */
  predicate Quiet(s: string) {
    Ended(s) && '}' !in s && s[0] in ['#', ' ', '/', '*', '\r', '\n']
  }

  lemma QuietLine(a: string, b: string, c: string)
    requires Clean(a) && Clean(b) && Clean(c)
    requires a != "" && a[0] in ['#', ' ', '/', '*']
    ensures Quiet(a + b + c + Eol())
  {
  }

  lemma QuietText(a: string)
    requires Clean(a) && a != "" && a[0] in ['#', ' ', '/', '*']
    ensures Quiet(a + Eol())
  {
  }

  lemma CleanNumber(n: nat, base: nat, width: nat)
    requires 2 <= base <= 16
    ensures Clean(Number(n, base, width))
  {
    hide Number;
    var s := Number(n, base, width);
    forall i | 0 <= i < |s| ensures s[i] != '\n' && s[i] != '}' {
      assert HexValue(s[i]) < 16;
    }
  }

  lemma CleanLoadName(path: string)
    requires Clean(path)
    ensures Clean("\"" + LoadName(path) + "\"") && Clean(LoadName(path))
  {
    var r := LoadName(path);
    forall i | 0 <= i < |r| ensures r[i] != '\n' && r[i] != '}' {
      assert r[i] in r && r[i] in path;
    }
  }

  lemma CleanJoin(a: string, b: string)
    requires Clean(a) && Clean(b)
    ensures Clean(a + b)
  {
  }

  lemma PreambleWords()
    ensures Clean("#ifndef ROM_") && Clean("_H") && Clean("#define ROM_") && Clean("_H 0")
    ensures Clean("/*") && Clean("   ") && Clean("         produced at ")
    ensures Clean("   from ") && Clean("   file size: ")
  {
  }

  lemma MoreWords()
    ensures Clean(" which was last modified at ")
    ensures Clean(" (0x") && Clean(") - checksum: 0x")
  {
  }

  lemma WarningWords()
    ensures Clean("   This file is a generated file and")
    ensures Clean(" should NOT be edited or changed") && Clean(" by hand.")
  {
  }

  lemma PreambleQuiet(d: Rom, size: nat, checksum: nat)
    requires NamesOk(d)
    ensures forall i :: 0 <= i < |Preamble(d, size, checksum)| ==> Quiet(Preamble(d, size, checksum)[i])
  {
    hide Quiet, Number, Clean, Eol, Padded;
    FileSizeQuiet(size, checksum);
    PreambleWords();
    MoreWords();
    WarningWords();
    QuietLine("#ifndef ROM_", d.name, "_H");
    QuietLine("#define ROM_", d.name, "_H 0");
    QuietText("/*");
    CleanJoin("         produced at ", d.producedAt);
    QuietLine("   ", d.includeFile, "         produced at " + d.producedAt);
    CleanJoin(" which was last modified at ", d.modifiedAt);
    QuietLine("   from ", d.romFile, " which was last modified at " + d.modifiedAt);
    QuietLine("   This file is a generated file and", " should NOT be edited or changed", " by hand.");
  }

  lemma FileSizeQuiet(size: nat, checksum: nat)
    ensures Quiet("   file size: " + Number(size, 10, 10)
      + (" (0x" + Number(size, 16, 8) + ") - checksum: 0x" + Padded(checksum)) + Eol())
  {
    hide Quiet, Number, Clean, Eol;
    CleanNumber(size, 10, 10);
    CleanNumber(size, 16, 8);
    CleanPadded(checksum);
    PreambleWords();
    MoreWords();
    CleanJoin(" (0x", Number(size, 16, 8));
    CleanJoin(" (0x" + Number(size, 16, 8), ") - checksum: 0x");
    CleanJoin(" (0x" + Number(size, 16, 8) + ") - checksum: 0x", Padded(checksum));
    QuietLine("   file size: ", Number(size, 10, 10), " (0x" + Number(size, 16, 8) + ") - checksum: 0x" + Padded(checksum));
  }

  lemma CleanPadded(n: nat)
    ensures Clean(Padded(n))
  {
    CleanNumber(n, 16, 8);
  }

  lemma RemarkQuiet(d: Rom)
    requires NamesOk(d)
    ensures forall i :: 0 <= i < |Remark(d)| ==> Quiet(Remark(d)[i])
  {
    assert Quiet("\n") && Quiet(Eol());
    hide Quiet;
    if d.comments.Some? {
      QuietLine("   ", d.comments.value, "");
    }
  }

  lemma DefineWords()
    ensures Clean("*/") && Clean("#undef BOOT_CODE_SIZE") && Clean("#define BOOT_CODE_SIZE 0x")
    ensures Clean("#undef BOOT_CODE_FILENAME") && Clean("#define BOOT_CODE_FILENAME \"")
  {
  }

  lemma ArrayWords()
    ensures Clean("#undef BOOT_CODE_ARRAY") && Clean("#define BOOT_CODE_ARRAY ")
    ensures Clean("\"") && Clean("")
  {
  }

  lemma DefinesQuiet(d: Rom, size: nat)
    requires NamesOk(d)
    ensures forall i :: 0 <= i < |Defines(d, size)| ==> Quiet(Defines(d, size)[i])
  {
    hide Quiet, Number, Clean, Eol, LoadName;
    CleanNumber(size, 16, 8);
    CleanLoadName(d.romFile);
    DefineWords();
    ArrayWords();
    QuietText("*/");
    QuietText("#undef BOOT_CODE_SIZE");
    QuietLine("#define BOOT_CODE_SIZE 0x", Number(size, 16, 8), "");
    QuietText("#undef BOOT_CODE_FILENAME");
    QuietLine("#define BOOT_CODE_FILENAME \"", LoadName(d.romFile), "\"");
    QuietText("#undef BOOT_CODE_ARRAY");
    QuietLine("#define BOOT_CODE_ARRAY ", d.name, "");
  }

  lemma RomWords(rom: nat)
    requires 1 <= rom <= MAX_CONCURRENT_ROMS
    ensures Clean(RomTag(rom)) && Clean([HexChar(rom)] + ")") && Clean("0x")
    ensures Clean(" !defined(BOOT_CODE_SIZE_") && Clean("#if") && Clean("#elif")
  {
  }

  lemma RomPrefixes()
    ensures Clean(SizeDefine()) && SizeDefine()[0] == '#' && Clean(FileDefine()) && FileDefine()[0] == '#'
    ensures Clean(ArrayDefine()) && ArrayDefine()[0] == '#'
  {
  }

  lemma RomDefinesQuiet(d: Rom, size: nat, rom: nat)
    requires NamesOk(d) && 1 <= rom <= MAX_CONCURRENT_ROMS
    ensures forall i :: 0 <= i < |RomDefines(d, size, rom)| ==> Quiet(RomDefines(d, size, rom)[i])
  {
    RomPrefixes();
    RomWords(rom);
    ArrayWords();
    hide Quiet, Number, Clean, Eol, LoadName, RomTag, SizeDefine, FileDefine, ArrayDefine, HexChar;
    CleanNumber(size, 16, 8);
    CleanLoadName(d.romFile);
    var tag := RomTag(rom);
    CleanJoin(SizeDefine(), tag);
    CleanJoin(FileDefine(), tag);
    CleanJoin(ArrayDefine(), tag);
    CleanJoin("0x", Number(size, 16, 8));
    QuietLine(if rom == 1 then "#if" else "#elif", " !defined(BOOT_CODE_SIZE_", [HexChar(rom)] + ")");
    QuietLine(SizeDefine() + tag, "0x" + Number(size, 16, 8), "");
    QuietLine(FileDefine() + tag, "\"" + LoadName(d.romFile) + "\"", "");
    QuietLine(ArrayDefine() + tag, d.name, "");
  }

  predicate Carries(line: string, prefix: string) {
    line != "" && line[0] == '#' && StartsWith(line, prefix)
  }

  /** Quiet lines change neither data nor name, and leave every define they carry found. */
  lemma {:induction false} QuietSteps(s: Scan, lines: seq<string>)
    requires !s.stopped && forall i :: 0 <= i < |lines| ==> Quiet(lines[i])
    ensures var t := TakeLines(s, lines);
      && t.data == s.data && t.name == s.name && !t.stopped
      && (s.sizeFound ==> t.sizeFound) && (s.fileFound ==> t.fileFound) && (s.arrayFound ==> t.arrayFound)
      && (forall i :: 0 <= i < |lines| && Carries(lines[i], SizeDefine() + LastRom()) ==> t.sizeFound)
      && (forall i :: 0 <= i < |lines| && Carries(lines[i], FileDefine() + LastRom()) ==> t.fileFound)
      && (forall i :: 0 <= i < |lines| && Carries(lines[i], ArrayDefine() + LastRom()) ==> t.arrayFound)
    decreases |lines|
  {
    hide StartsWith, ScanName, ScanRow, Ended, SizeDefine, FileDefine, ArrayDefine, LastRom;
    if lines != [] {
      var first, rest := lines[0], lines[1..];
      assert Quiet(first);
      var t := TakeLine(s, first);
      QuietSteps(t, rest);
      assert forall i :: 1 <= i < |lines| ==> lines[i] == rest[i - 1];
    }
  }

  /** The defines of the last concurrent ROM are the ones the reader looks for. */
  lemma LastRomFound(s: Scan, d: Rom, size: nat)
    requires !s.stopped && NamesOk(d)
    ensures var t := TakeLines(s, RomDefines(d, size, 4)); t.sizeFound && t.fileFound && t.arrayFound
  {
    RomDefinesQuiet(d, size, 4);
    QuietSteps(s, RomDefines(d, size, 4));
    RomPrefixes();
    assert RomTag(4) == LastRom() by {
      assert HexChar(4) == '4';
    }
    hide Quiet, TakeLines, SizeDefine, FileDefine, ArrayDefine, Number, LoadName, LastRom, RomTag, NamesOk;
    var lines := RomDefines(d, size, 4);
    PrefixStarts(SizeDefine() + LastRom(), "0x" + Number(size, 16, 8), "");
    PrefixStarts(FileDefine() + LastRom(), "\"" + LoadName(d.romFile) + "\"", "");
    PrefixStarts(ArrayDefine() + LastRom(), d.name, "");
    assert Carries(lines[1], SizeDefine() + LastRom()) && Carries(lines[2], FileDefine() + LastRom());
    assert Carries(lines[3], ArrayDefine() + LastRom());
  }

  lemma PrefixStarts(a: string, b: string, c: string)
    ensures StartsWith(a + b + c + Eol(), a)
    ensures a != "" ==> (a + b + c + Eol())[0] == a[0]
  {
  }

  // the array

  lemma {:induction false} RowIsRead(data: seq<byte>, tail: string)
    requires tail != "" && tail[0] != '0'
    ensures ScanRow(Row(data) + tail) == data
    ensures |Row(data)| == 5 * |data|
  {
    hide ScanByte, ScanRow, Cell;
    if data == [] {
      assert Row(data) + tail == tail;
      TailIsNoByte(tail);
    } else {
      var more := Row(data[1..]) + tail;
      RowIsRead(data[1..], tail);
      assert Row(data) + tail == Cell(data[0]) + more;
      CellIsRead(data[0], more);
      assert [data[0]] + data[1..] == data;
      CellSize(data[0]);
    }
  }

  lemma CellSize(b: byte)
    ensures |Cell(b)| == 5
  {
  }

  lemma TailIsNoByte(tail: string)
    requires tail != "" && tail[0] != '0'
    ensures ScanRow(tail) == []
  {
  }

  lemma CellIsRead(b: byte, more: string)
    ensures ScanRow(Cell(b) + more) == [b] + ScanRow(more)
  {
    hide HexValue, HexChar;
    var c := Cell(b) + more;
    assert c[0] == Cell(b)[0] && c[1] == Cell(b)[1] && c[2] == Cell(b)[2] && c[3] == Cell(b)[3];
    assert ScanByte(c) == Some(b);
    assert c[5..] == more;
  }

  lemma {:induction false} RowChars(data: seq<byte>)
    ensures |Row(data)| == 5 * |data| && Clean(Row(data))
    ensures data != [] ==> Row(data)[0] == '0'
  {
    if data != [] {
      RowChars(data[1..]);
      CellClean(data[0]);
      CleanJoin(Cell(data[0]), Row(data[1..]));
    }
  }

  lemma CellClean(b: byte)
    ensures Clean(Cell(b))
  {
  }

  lemma RowLine(data: seq<byte>)
    requires 0 < |data| <= 16
    ensures var line := Row(data) + Eol();
      line != "" && Ended(line) && line[0] == '0' && '}' !in line && ScanRow(line) == data
  {
    hide Row, ScanRow, Clean, Ended;
    RowChars(data);
    RowIsRead(data, Eol());
    ArrayLineWords(false);
    CleanEnded(Row(data), Eol());
  }

  lemma LastRowLine(data: seq<byte>)
    requires 0 < |data| <= 16
    ensures var line := Row(data) + "};" + Eol();
      Ended(line) && line[0] == '0' && '}' in line && ScanRow(line) == data
  {
    hide Row, ScanRow, Clean, Ended, Eol;
    RowChars(data);
    var tail := "};" + Eol();
    ArrayLineWords(true);
    BraceFirst(Eol());
    RowIsRead(data, tail);
    CleanEnded(Row(data), tail);
    assert Row(data) + "};" + Eol() == Row(data) + tail;
  }

  lemma BraceFirst(rest: string)
    ensures "};" + rest != "" && ("};" + rest)[0] == '}'
  {
  }

  lemma {:induction false} DataLinesWhole(data: seq<byte>)
    requires data != []
    ensures forall i :: 0 <= i < |DataLines(data)| ==> Ended(DataLines(data)[i])
    decreases |data|
  {
    hide Ended, ScanRow, Row;
    if |data| <= 16 {
      LastRowLine(data);
    } else {
      RowLine(data[..16]);
      DataLinesWhole(data[16..]);
    }
  }

  lemma {:induction false} DataIsRead(s: Scan, data: seq<byte>)
    requires data != [] && !s.stopped
    ensures TakeLines(s, DataLines(data)) == s.(data := s.data + data, stopped := true)
    decreases |data|
  {
    hide Ended, ScanRow, Row, Eol, TakeLine;
    if |data| <= 16 {
      var line := Row(data) + "};" + Eol();
      LastRowTaken(s, data);
      assert TakeLines(TakeLine(s, line), []) == TakeLine(s, line);
    } else {
      RowTaken(s, data[..16]);
      var t := s.(data := s.data + data[..16]);
      DataIsRead(t, data[16..]);
      var lines := [Row(data[..16]) + Eol()] + DataLines(data[16..]);
      assert lines[1..] == DataLines(data[16..]);
      Halves(s.data, data, 16);
    }
  }

  lemma Halves(a: seq<byte>, b: seq<byte>, n: nat)
    requires n <= |b|
    ensures a + b[..n] + b[n..] == a + b
  {
  }

  lemma RowTaken(s: Scan, data: seq<byte>)
    requires !s.stopped && 0 < |data| <= 16
    ensures TakeLine(s, Row(data) + Eol()) == s.(data := s.data + data)
  {
    hide Ended, ScanRow, Row, Eol, StartsWith, ScanName, SizeDefine, FileDefine, ArrayDefine, LastRom;
    RowLine(data);
  }

  lemma LastRowTaken(s: Scan, data: seq<byte>)
    requires 0 < |data| <= 16
    ensures TakeLine(s, Row(data) + "};" + Eol()) == s.(data := s.data + data, stopped := true)
  {
    hide Ended, ScanRow, Row, Eol, StartsWith, ScanName, SizeDefine, FileDefine, ArrayDefine, LastRom;
    LastRowLine(data);
  }

  // the array's name

  lemma {:induction false} NameToken(name: string, rest: string)
    requires forall i :: 0 <= i < |name| ==> !IsSpace(name[i]) && name[i] != '['
    ensures CutAt(Token(name + "[] = {" + rest), '[') == name
  {
    if name == "" {
      assert (name + "[] = {" + rest)[0] == '[';
    } else {
      NameToken(name[1..], rest);
      assert (name + "[] = {" + rest)[1..] == name[1..] + "[] = {" + rest;
    }
  }

  lemma NameIsRead(d: Rom, rest: string)
    requires NamesOk(d)
    ensures ScanName(ArrayLine(d, rest)) == d.name
  {
    hide Token, CutAt;
    var line, after := ArrayLine(d, rest), d.name + "[] = {" + rest;
    NameToken(d.name, rest);
    assert line[..8] == "unsigned" && line[8..] == " char " + after;
    assert SkipSpace(" char " + after) == "char " + after by {
      assert (" char " + after)[1..] == "char " + after;
    }
    assert ("char " + after)[..4] == "char" && ("char " + after)[4..] == " " + after;
    assert (" " + after)[1..] == after;
    assert !IsSpace(after[0]);
    assert SkipSpace(" " + after) == after;
  }

  lemma HeadQuiet(d: Rom, size: nat, checksum: nat)
    requires NamesOk(d)
    ensures forall i :: 0 <= i < |HeadLines(d, size, checksum)| ==> Quiet(HeadLines(d, size, checksum)[i])
  {
    hide NamesOk, Quiet, Preamble, Remark, Defines, RomDefines;
    PreambleQuiet(d, size, checksum);
    RemarkQuiet(d);
    DefinesQuiet(d, size);
    RomDefinesQuiet(d, size, 1);
    RomDefinesQuiet(d, size, 2);
    RomDefinesQuiet(d, size, 3);
  }

  lemma EndifQuiet(d: Rom)
    requires NamesOk(d)
    ensures Quiet("#endif" + Eol()) && Ended("#endif /* ROM_" + d.name + "_H */" + Eol())
  {
    QuietLine("#endif /* ROM_", d.name, "_H */");
    QuietText("#endif");
  }

  lemma ArrayLineTaken(s: Scan, d: Rom, last: bool)
    requires NamesOk(d) && !s.stopped
    ensures var line := ArrayLine(d, if last then "};" + Eol() else Eol());
      Ended(line) && TakeLine(s, line) == s.(name := Some(d.name), stopped := last)
  {
    var rest := if last then "};" + Eol() else Eol();
    NameIsRead(d, rest);
    ArrayLineShape(d, rest, last);
    hide ScanName, Ended, NamesOk, ArrayLine, StartsWith, ScanRow, SizeDefine, FileDefine, ArrayDefine,
      LastRom;
  }

  lemma ArrayLineShape(d: Rom, rest: string, last: bool)
    requires NamesOk(d) && rest == if last then "};" + Eol() else Eol()
    ensures var line := ArrayLine(d, rest);
      Ended(line) && line[0] == 'u' && ('}' in line <==> last)
  {
    hide Clean, Ended, Eol;
    ArrayLineWords(last);
    CleanJoin("unsigned char ", d.name);
    CleanJoin("unsigned char " + d.name, "[] = {");
    var head := "unsigned char " + d.name + "[] = {";
    CleanEnded(head, rest);
    assert (head + rest)[0] == 'u';
  }

  lemma ArrayLineWords(last: bool)
    ensures Clean("unsigned char ") && Clean("[] = {")
    ensures var rest := if last then "};" + Eol() else Eol(); Ended(rest) && ('}' in rest <==> last)
  {
    assert ("};" + Eol())[0] == '}';
  }

  lemma CleanEnded(head: string, rest: string)
    requires Clean(head) && Ended(rest)
    ensures Ended(head + rest) && ('}' in head + rest <==> '}' in rest)
  {
  }

  lemma BodyIsRead(s: Scan, d: Rom, data: seq<byte>)
    requires NamesOk(d) && !s.stopped
    ensures forall i :: 0 <= i < |BodyLines(d, data)| ==> Ended(BodyLines(d, data)[i])
    ensures TakeLines(s, BodyLines(d, data)) == s.(data := s.data + data, name := Some(d.name), stopped := true)
  {
    hide Ended, NamesOk, ArrayLine, TakeLine, Eol;
    ArrayLineTaken(s, d, data == []);
    if data == [] {
      assert TakeLines(TakeLine(s, ArrayLine(d, "};" + Eol())), []) == TakeLine(s, ArrayLine(d, "};" + Eol()));
    } else {
      DataLinesWhole(data);
      DataIsRead(s.(name := Some(d.name)), data);
      assert BodyLines(d, data)[1..] == DataLines(data);
    }
  }

  /** Reading the file written for a ROM gives back its bytes, its checksum and its array's
      name, and finds the defines. */
  lemma RoundTrip(d: Rom, data: seq<byte>)
    requires NamesOk(d) && Fits(IncludeLines(d, data))
    ensures ContentOf(IncludeText(d, data)) == Content(|data|, data, Checksum(data), Some(d.name), true)
  {
    hide NamesOk, Quiet, HeadLines, RomDefines, TakeLines, TakeLine, BodyLines, Ended, Checksum, Eol;
    var size, checksum := |data|, Checksum(data);
    var head, roms, endif := HeadLines(d, size, checksum), RomDefines(d, size, 4), ["#endif" + Eol()];
    var body, tail := BodyLines(d, data), ["#endif /* ROM_" + d.name + "_H */" + Eol()];
    HeadQuiet(d, size, checksum);
    RomDefinesQuiet(d, size, 4);
    EndifQuiet(d);
    var s0 := TakeLines(START, head);
    QuietSteps(START, head);
    var s1 := TakeLines(s0, roms);
    QuietSteps(s0, roms);
    LastRomFound(s0, d, size);
    var s2 := TakeLines(s1, endif);
    QuietSteps(s1, endif);
    BodyIsRead(s2, d, data);
    var s3 := TakeLines(s2, body);
    StoppedStays(s3, tail);
    TakeParts(START, head, roms);
    TakeParts(START, head + roms, endif);
    TakeParts(START, head + roms + endif, body);
    TakeParts(START, head + roms + endif + body, tail);
    QuietIsEnded();
    AllEnded(head, roms, endif, body, tail);
    WholeLines(IncludeLines(d, data));
    SplitFlatten(IncludeLines(d, data), "");
    assert Flatten(IncludeLines(d, data)) + "" == IncludeText(d, data);
    assert IncludeLines(d, data) + SplitLines("") == IncludeLines(d, data);
    assert SplitLines(IncludeText(d, data)) == IncludeLines(d, data);
    assert START.data + data == data;
    assert TakeLines(START, IncludeLines(d, data)) == s3;
  }

  lemma WholeLines(lines: seq<string>)
    requires Fits(lines) && forall i :: 0 <= i < |lines| ==> Ended(lines[i])
    ensures forall i :: 0 <= i < |lines| ==> Line(lines[i])
  {
    hide Ended;
  }

  lemma QuietIsEnded()
    ensures forall s :: Quiet(s) ==> Ended(s)
  {
    hide Ended;
  }

  lemma AllEnded(a: seq<string>, b: seq<string>, c: seq<string>, e: seq<string>, f: seq<string>)
    requires forall i :: 0 <= i < |a| ==> Ended(a[i])
    requires forall i :: 0 <= i < |b| ==> Ended(b[i])
    requires forall i :: 0 <= i < |c| ==> Ended(c[i])
    requires forall i :: 0 <= i < |e| ==> Ended(e[i])
    requires forall i :: 0 <= i < |f| ==> Ended(f[i])
    ensures forall i :: 0 <= i < |a + b + c + e + f| ==> Ended((a + b + c + e + f)[i])
  {
    hide Ended;
  }

  lemma StoppedStays(s: Scan, lines: seq<string>)
    requires s.stopped
    ensures TakeLines(s, lines) == s
  {
  }

  // ------------------------------------------------------------------ writing

  /** What the byte loop prints, starting at a column of sixteen. */
  function Emitted(data: seq<byte>, col: nat): string {
    if data == [] then ""
    else (if col == 0 then Eol() else "") + Cell(data[0]) + Emitted(data[1..], NextColumn(col))
  }

  function NextColumn(col: nat): nat {
    if col >= 15 then 0 else col + 1
  }

  lemma Assoc(a: string, b: string, c: string)
    ensures a + b + c == a + (b + c)
  {
  }

  lemma {:induction false} EmittedRow(a: seq<byte>, b: seq<byte>, col: nat)
    requires 1 <= col <= 16 && (col + |a| == 16 || (b == [] && col + |a| <= 16))
    ensures Emitted(a + b, if col == 16 then 0 else col) == Row(a) + Emitted(b, 0)
    decreases |a|
  {
    hide Cell, Emitted;
    if a == [] {
      assert a + b == b;
      if b == [] {
        EmittedNothing(col);
      }
    } else {
      var all := a + b;
      assert all[1..] == a[1..] + b && all[0] == a[0];
      EmittedRow(a[1..], b, col + 1);
      EmittedCell(all, col);
      Assoc(Cell(a[0]), Row(a[1..]), Emitted(b, 0));
    }
  }

  lemma EmittedNothing(col: nat)
    requires col <= 16
    ensures Emitted([], if col == 16 then 0 else col) == "" == Emitted([], 0)
  {
  }

  lemma EmittedCell(data: seq<byte>, col: nat)
    requires data != [] && 1 <= col < 16
    ensures Emitted(data, col) == Cell(data[0]) + Emitted(data[1..], if col + 1 == 16 then 0 else col + 1)
  {
    hide Cell;
    assert "" + Cell(data[0]) == Cell(data[0]);
  }

  lemma RowFirst(data: seq<byte>)
    ensures data != [] ==> Row(data) == Cell(data[0]) + Row(data[1..])
  {
    hide Cell;
  }

  lemma BlockSlices(data: seq<byte>, n: nat)
    requires 1 <= n <= |data|
    ensures data[1..] == data[1..n] + data[n..] && data[..n][1..] == data[1..n] && data[..n][0] == data[0]
  {
  }

  /** The byte loop prints up to sixteen bytes on a new line. */
  lemma EmittedBlock(data: seq<byte>)
    requires data != []
    ensures var n := Min(16, |data|); Emitted(data, 0) == Eol() + (Row(data[..n]) + Emitted(data[n..], 0))
  {
    hide Cell, Eol, Row;
    var n := Min(16, |data|);
    var row, rest := data[1..n], data[n..];
    BlockSlices(data, n);
    RowFirst(data[..n]);
    EmittedRow(row, rest, 1);
    Assoc(Eol(), Cell(data[0]), Row(row) + Emitted(rest, 0));
    Assoc(Cell(data[0]), Row(row), Emitted(rest, 0));
  }

  lemma {:induction false} EmittedLines(data: seq<byte>)
    requires data != []
    ensures Emitted(data, 0) + ("};" + Eol()) == Eol() + Flatten(DataLines(data))
    decreases |data|
  {
    hide Row, Eol, Emitted, Flatten;
    EmittedBlock(data);
    if |data| <= 16 {
      assert data[..|data|] == data && data[|data|..] == [];
      NothingEmitted(0);
      LastBlock(Row(data));
    } else {
      EmittedLines(data[16..]);
      FlattenMore(Row(data[..16]) + Eol(), DataLines(data[16..]));
      Joined(Row(data[..16]), Emitted(data[16..], 0), Flatten(DataLines(data[16..])));
    }
  }

  lemma LastBlock(row: string)
    ensures Eol() + (row + "") + ("};" + Eol()) == Eol() + Flatten([row + "};" + Eol()])
  {
    hide Eol;
    FlattenOne(row + "};" + Eol());
    hide Flatten;
    assert row + "" == row;
    Assoc(Eol(), row, "};" + Eol());
    Assoc(row, "};", Eol());
  }

  lemma Joined(row: string, more: string, lines: string)
    requires more + ("};" + Eol()) == Eol() + lines
    ensures Eol() + (row + more) + ("};" + Eol()) == Eol() + (row + Eol() + lines)
  {
    hide Eol;
    Assoc(Eol(), row + more, "};" + Eol());
    Assoc(row, more, "};" + Eol());
    Assoc(row, Eol(), lines);
  }

  lemma FlattenMore(line: string, lines: seq<string>)
    ensures Flatten([line] + lines) == line + Flatten(lines)
  {
    assert ([line] + lines)[1..] == lines;
  }

  lemma FlattenOne(line: string)
    ensures Flatten([line]) == line
  {
    assert Flatten([]) == "" && line + "" == line;
  }

  lemma NothingEmitted(col: nat)
    ensures Emitted([], col) == ""
  {
  }

  lemma EmittedNext(text: string, data: seq<byte>, i: nat)
    requires i < |data|
    ensures text + Emitted(data[i..], i % 16) ==
      ((if i % 16 == 0 then text + Eol() else text) + Cell(data[i])) + Emitted(data[i + 1..], (i + 1) % 16)
  {
    hide Cell, Eol;
    assert data[i..][1..] == data[i + 1..];
    assert NextColumn(i % 16) == (i + 1) % 16;
  }

  method WriteBody(d: Rom, data: seq<byte>) returns (text: string)
    ensures text == Flatten(BodyLines(d, data))
  {
    hide Cell, Eol, Emitted;
    var i := 0;
    text := "unsigned char " + d.name + "[] = {";
    ghost var open := text;
    assert data[0..] == data;
    while i < |data|
      invariant 0 <= i <= |data|
      invariant text + Emitted(data[i..], i % 16) == open + Emitted(data, 0)
    {
      EmittedNext(text, data, i);
      if i % 16 == 0 {
        text := text + Eol();
      }
      text := text + Cell(data[i]);
      i := i + 1;
    }
    NothingEmitted(i % 16);
    assert data[i..] == [] && text + "" == text;
    BodyText(d, data);
    text := text + ("};" + Eol());
  }

  lemma BodyText(d: Rom, data: seq<byte>)
    ensures "unsigned char " + d.name + "[] = {" + Emitted(data, 0) + ("};" + Eol()) == Flatten(BodyLines(d, data))
  {
    hide Eol, Emitted, Flatten;
    var open, tail := "unsigned char " + d.name + "[] = {", "};" + Eol();
    if data == [] {
      NothingEmitted(0);
      FlattenOne(open + tail);
      assert open + "" == open;
    } else {
      EmittedLines(data);
      FlattenMore(open + Eol(), DataLines(data));
      Assoc(open, Emitted(data, 0), tail);
      Assoc(open, Eol(), Flatten(DataLines(data)));
    }
  }

  /** The whole file, in the order of the print statements. */
  method WriteInclude(d: Rom, data: seq<byte>) returns (text: string)
    ensures text == IncludeText(d, data)
  {
    hide Preamble, Remark, Defines, RomDefines, BodyLines, Eol, Flatten;
    var size := |data|;
    var checksum := SumOf(data);
    var head := Preamble(d, size, checksum) + Remark(d) + Defines(d, size);
    text := Flatten(head);
    ghost var lines := head;
    var rom := 1;
    while rom <= MAX_CONCURRENT_ROMS
      invariant 1 <= rom <= MAX_CONCURRENT_ROMS + 1
      invariant text == Flatten(lines)
      invariant lines == head
        + (if rom > 1 then RomDefines(d, size, 1) else []) + (if rom > 2 then RomDefines(d, size, 2) else [])
        + (if rom > 3 then RomDefines(d, size, 3) else []) + (if rom > 4 then RomDefines(d, size, 4) else [])
    {
      FlattenParts(lines, RomDefines(d, size, rom));
      text := text + Flatten(RomDefines(d, size, rom));
      lines := lines + RomDefines(d, size, rom);
      rom := rom + 1;
    }
    var endif, guard := ["#endif" + Eol()], ["#endif /* ROM_" + d.name + "_H */" + Eol()];
    FlattenParts(lines, endif);
    text := text + Flatten(endif);
    var body := WriteBody(d, data);
    FlattenParts(lines + endif, BodyLines(d, data));
    text := text + body;
    FlattenParts(lines + endif + BodyLines(d, data), guard);
    text := text + Flatten(guard);
  }

  /** Does an include file hold this content under this name? */
  predicate Current(c: Content, size: nat, checksum: uint32, name: string) {
    c.checksum == checksum && c.size == size && c.name == Some(name) && c.definesFound
  }

  /** sim_make_ROM_include: without the ROM file an existing include file is only checked;
      with it, the include file is written unless it is current.  `rewritten` is the new
      contents of the include file. */
  method MakeInclude(d: Rom, expectedSize: nat, expectedChecksum: uint32,
                     rom: Option<seq<byte>>, existing: Option<string>)
      returns (ok: bool, rewritten: Option<string>)
    ensures rom.None? ==> rewritten.None?
    ensures rom.None? ==>
      (ok <==> existing.Some? && Current(ContentOf(existing.value), expectedSize, expectedChecksum, d.name))
    ensures rom.Some? ==>
      (ok <==> |rom.value| == expectedSize && (expectedChecksum == 0 || Checksum(rom.value) == expectedChecksum))
    ensures rom.Some? && ok ==>
      (rewritten.None? <==> (existing.Some? && ContentOf(existing.value).data == rom.value
                             && Current(ContentOf(existing.value), expectedSize, expectedChecksum, d.name)))
    ensures rewritten.Some? ==> ok && rom.Some? && rewritten.value == IncludeText(d, rom.value)
  {
    hide ContentOf, IncludeText, Checksum;
    if rom.None? {
      if existing.None? {
        return false, None;
      }
      var c := ReadInclude(existing.value);
      return Current(c, expectedSize, expectedChecksum, d.name), None;
    }
    var data := rom.value;
    if |data| != expectedSize {
      return false, None;
    }
    var checksum := SumOf(data);
    if expectedChecksum != 0 && checksum != expectedChecksum {
      return false, None;
    }
    if existing.Some? {
      var c := ReadInclude(existing.value);
      if Current(c, expectedSize, expectedChecksum, d.name) && c.data == data {
        return true, None;
      }
    }
    var text := WriteInclude(d, data);
    return true, Some(text);
  }

  lemma ContentSums(text: string)
    ensures ContentOf(text).checksum == Checksum(ContentOf(text).data)
  {
  }

  /** No ROM of fewer than 16 million bytes has checksum 0. */
  lemma {:induction false} SmallSum(data: seq<byte>)
    ensures ByteSum(data) <= 255 * |data|
  {
    if data != [] {
      SmallSum(data[..|data| - 1]);
    }
  }

  lemma ZeroDescriptor(data: seq<byte>)
    requires |data| <= 0x100_0000
    ensures Checksum(data) != 0
  {
    SmallSum(data);
  }

  /** A second run on the file just written rewrites nothing exactly when the descriptor
      names the checksum; with a descriptor of 0 every run writes the file again. */
  method SecondRun(d: Rom, again: Rom, expectedChecksum: uint32, data: seq<byte>, existing: Option<string>)
      returns (rewritten: Option<string>)
    requires NamesOk(d) && Fits(IncludeLines(d, data)) && again.name == d.name
    requires expectedChecksum == 0 || Checksum(data) == expectedChecksum
    ensures rewritten.None? <==> expectedChecksum == Checksum(data)
  {
    hide IncludeText, Checksum, ContentOf, NamesOk;
    var ok, first := MakeInclude(d, |data|, expectedChecksum, Some(data), existing);
    var file := if first.Some? then first.value else existing.value;
    RoundTrip(d, data);
    ContentSums(file);
    ok, rewritten := MakeInclude(again, |data|, expectedChecksum, Some(data), Some(file));
  }
}
