/** The lines around a body: what the encoder writes of its metadata, and what processYencHeader
    reads out of such lines. */
module YencHeaders {
  import opened Bytes
  import Crc = Crc32

  // ----- the words of the three lines

  // =ybegin
  const YBEGIN: seq<byte> := [61, 121, 98, 101, 103, 105, 110]
  // =ypart
  const YPART: seq<byte> := [61, 121, 112, 97, 114, 116]
  // =yend
  const YEND: seq<byte> := [61, 121, 101, 110, 100]
  // part= after a space
  const PART: seq<byte> := [32, 112, 97, 114, 116, 61]
  // total= after a space
  const TOTAL: seq<byte> := [32, 116, 111, 116, 97, 108, 61]
  // line= after a space
  const LINE: seq<byte> := [32, 108, 105, 110, 101, 61]
  // size= after a space
  const SIZE: seq<byte> := [32, 115, 105, 122, 101, 61]
  // name= after a space
  const NAME: seq<byte> := [32, 110, 97, 109, 101, 61]
  // begin= after a space
  const BEGIN: seq<byte> := [32, 98, 101, 103, 105, 110, 61]
  // end= after a space
  const END: seq<byte> := [32, 101, 110, 100, 61]
  // pcrc32= after a space
  const PCRC32: seq<byte> := [32, 112, 99, 114, 99, 51, 50, 61]
  // crc32= after a space
  const CRC32: seq<byte> := [32, 99, 114, 99, 51, 50, 61]

  // ----- numbers written

  function Digit(d: nat): byte
    requires d < 16
  {
    (if d < 10 then '0' as int + d else 'a' as int + d - 10) as byte
  }

  function Natural(n: nat): seq<byte> {
    if n < 10 then [Digit(n)] else Natural(n / 10) + [Digit(n % 10)]
  }

  // %d
  function Decimal(n: int): seq<byte> {
    if n < 0 then [45] + Natural(-n) else Natural(n)
  }

  // %0*x
  function Hex(n: nat, width: nat): seq<byte> {
    if width == 0 then [] else Hex(n / 16, width - 1) + [Digit(n % 16)]
  }

  // ----- lines written

  datatype Meta = Meta(fileName: seq<byte>, fileSize: int, partNumber: int, totalParts: int, offset: int, partSize: int) {
    /** validate */
    predicate Valid() {
      fileName != [] && 0 < fileSize && 0 < partNumber <= totalParts && 0 <= offset && 0 < partSize
    }

    function Begin(): int { offset + 1 }

    function End(): int { offset + partSize }
  }

  function BeginLine(m: Meta, lineLength: int): seq<byte> {
    YBEGIN + PART + Decimal(m.partNumber) + TOTAL + Decimal(m.totalParts)
    + LINE + Decimal(lineLength) + SIZE + Decimal(m.fileSize)
    + NAME + m.fileName
  }

  function PartLine(m: Meta): seq<byte> {
    YPART + BEGIN + Decimal(m.Begin()) + END + Decimal(m.End())
  }

  function EndLine(m: Meta, crc: Crc.reg): seq<byte> {
    YEND + SIZE + Decimal(m.partSize) + PART + Decimal(m.partNumber)
    + PCRC32 + Hex(crc as nat, 8)
  }

  function Header(m: Meta, lineLength: int): seq<byte> {
    BeginLine(m, lineLength) + NEWLINE + (PartLine(m) + NEWLINE)
  }

  function Trailer(m: Meta, crc: Crc.reg): seq<byte> {
    NEWLINE + EndLine(m, crc) + NEWLINE
  }

  /** The trailer begins with CR LF and the control line's words. */
  lemma TrailerBegins(m: Meta, crc: Crc.reg)
    ensures [13, 10, 61, 121, 101, 110, 100, 32, 115, 105, 122, 101, 61] <= Trailer(m, crc)
    ensures Trailer(m, crc) == [13, 10, 61, 121] + Trailer(m, crc)[4..]
  {
    hide Decimal, Hex;
    var t := Trailer(m, crc);
    assert t[..13] == NEWLINE + YEND + SIZE;
  }

  // ----- numbers read

  /** What a digit is worth, in either case; 16 if it is none. */
  function Worth(c: byte): (w: nat)
    ensures w <= 16
  {
    if 48 <= c <= 57 then c as nat - 48
    else if 97 <= c <= 102 then c as nat - 87
    else if 65 <= c <= 70 then c as nat - 55
    else 16
  }

  /** From the left: sixteen times what came before and the digit. */
  function HexValue(s: seq<byte>): nat {
    if s == [] then 0 else 16 * HexValue(s[..|s| - 1]) + Worth(s[|s| - 1])
  }

  predicate AllHex(s: seq<byte>) {
    forall i :: 0 <= i < |s| ==> Worth(s[i]) < 16
  }

  function Power(b: nat, n: nat): nat {
    if n == 0 then 1 else b * Power(b, n - 1)
  }

  lemma DigitWorth(d: nat)
    requires d < 16
    ensures Worth(Digit(d)) == d && (d < 10 ==> 48 <= Digit(d) <= 57 && Digit(d) as nat == 48 + d)
    ensures d >= 10 ==> 97 <= Digit(d) <= 102 && Worth(Digit(d) - 32) == d
  {
  }

  /** The digits written read as the number, in so many places. */
  lemma {:induction false} HexReads(n: nat, width: nat)
    ensures |Hex(n, width)| == width && AllHex(Hex(n, width)) && Stopless(Hex(n, width))
    ensures n < Power(16, width) ==> HexValue(Hex(n, width)) == n
  {
    hide Digit, Worth;
    if width > 0 {
      HexReads(n / 16, width - 1);
      DigitWorth(n % 16);
      DivideWithin(n, Power(16, width - 1));
      var s := Hex(n / 16, width - 1);
      assert (s + [Digit(n % 16)])[..|s|] == s;
    }
  }

  lemma DivideWithin(n: nat, p: nat)
    ensures n < 16 * p ==> n / 16 < p
  {
  }

  /** A register takes eight places. */
  lemma EightPlaces(w: Crc.reg)
    ensures HexValue(Hex(w as nat, 8)) == w as nat
  {
    HexReads(w as nat, 8);
    assert Power(16, 8) == 0x1_0000_0000 by {
      assert Power(16, 2) == 256 && Power(16, 3) == 4096 && Power(16, 4) == 65536;
      assert Power(16, 5) == 0x10_0000 && Power(16, 6) == 0x100_0000 && Power(16, 7) == 0x1000_0000;
    }
  }

  /** ParseUint's outcomes: no number, too large for 64 bits, or a number. */
  datatype Parsed = Syntax | Range | Value(n: nat)

  const TWO_63 := 0x8000_0000_0000_0000
  const TWO_64 := 0x1_0000_0000_0000_0000

  function ParseDigits(s: seq<byte>, n: nat): Parsed {
    if s == [] then Value(n)
    else if !(48 <= s[0] <= 57) then Syntax
    else
      var next := 10 * n + (s[0] as nat - 48);
      if TWO_64 <= next then Range else ParseDigits(s[1..], next)
  }

  /** strconv.ParseInt in base 10 with 64 bits: the nearest number if there is one too large. */
  function ParseInt(s: seq<byte>): (r: (int, bool)) {
    var negative := s != [] && s[0] == 45;
    var digits := if s != [] && (s[0] == 43 || s[0] == 45) then s[1..] else s;
    if digits == [] then (0, false)
    else
      match ParseDigits(digits, 0)
      case Syntax => (0, false)
      case Range => (if negative then -TWO_63 else TWO_63 - 1, false)
      case Value(n) =>
        if !negative && TWO_63 <= n then (TWO_63 - 1, false)
        else if negative && TWO_63 < n then (-TWO_63, false)
        else (if negative then 0 - n else n, true)
  }

  lemma {:induction false} ParseThen(a: seq<byte>, b: seq<byte>, n: nat)
    requires ParseDigits(a, n).Value?
    ensures ParseDigits(a + b, n) == ParseDigits(b, ParseDigits(a, n).n)
    decreases |a|
  {
    if a == [] {
      assert a + b == b;
    } else {
      ParseThen(a[1..], b, 10 * n + (a[0] as nat - 48));
      assert (a + b)[1..] == a[1..] + b;
    }
  }

  lemma {:induction false} NaturalReads(n: nat)
    requires n < TWO_64
    ensures ParseDigits(Natural(n), 0) == Value(n) && Stopless(Natural(n))
    ensures Natural(n) != [] && 48 <= Natural(n)[0] <= 57 && (Natural(n)[0] == 48 ==> n == 0)
  {
    hide Worth, Digit, ParseDigits, IsStop;
    var d := n % 10;
    ParseOne(d, n / 10);
    if n < 10 {
      assert Natural(n) == [Digit(n)];
    } else {
      NaturalReads(n / 10);
      ParseThen(Natural(n / 10), [Digit(d)], 0);
      assert Natural(n) == Natural(n / 10) + [Digit(d)];
    }
  }

  lemma ParseOne(d: nat, n: nat)
    requires d < 10 && 10 * n + d < TWO_64
    ensures ParseDigits([Digit(d)], n) == Value(10 * n + d)
    ensures !IsStop(Digit(d)) && 48 <= Digit(d) <= 57 && (Digit(d) == 48 ==> d == 0)
  {
    DigitWorth(d);
    hide Digit;
    assert [Digit(d)][1..] == [];
  }

  /** Whatever number of 64 bits is written reads as itself. */
  lemma DecimalReads(n: int)
    requires -TWO_63 <= n < TWO_63
    ensures ParseInt(Decimal(n)) == (n, true) && Stopless(Decimal(n))
  {
    hide Natural, ParseDigits;
    NaturalReads(if n < 0 then -n else n);
    if n < 0 {
      assert Decimal(n)[1..] == Natural(-n);
    }
  }

  // ----- fields

  predicate IsStop(c: byte) {
    c == 0 || c == 32 || c == 13 || c == 10
  }

  predicate Stopless(s: seq<byte>) {
    forall i :: 0 <= i < |s| ==> !IsStop(s[i])
  }

  predicate Occurs(data: seq<byte>, key: seq<byte>, j: nat) {
    j <= |data| && key <= data[j..]
  }

  /** bytes.Index: where key first occurs, or -1. */
  function Index(data: seq<byte>, key: seq<byte>): (i: int)
    ensures -1 <= i && (0 <= i ==> Occurs(data, key, i) && i + |key| <= |data|)
    ensures forall j: nat :: Occurs(data, key, j) ==> 0 <= i <= j
  {
    if key <= data then assert data[0..] == data; 0
    else if data == [] then -1
    else
      assert forall j: nat :: 0 < j <= |data| ==> data[j..] == data[1..][j - 1..];
      assert forall j: nat :: Occurs(data, key, j) ==> 0 < j && Occurs(data[1..], key, j - 1);
      var i := Index(data[1..], key);
      if i < 0 then -1 else i + 1
  }

  // The bytes up to the first stop; a name may hold spaces.
  function Until(data: seq<byte>, spaced: bool): (t: seq<byte>)
    ensures t <= data
  {
    if data == [] || (IsStop(data[0]) && !(spaced && data[0] == 32)) then []
    else [data[0]] + Until(data[1..], spaced)
  }

  datatype Option<T> = None | Some(value: T)

  function After(line: seq<byte>, key: seq<byte>): Option<seq<byte>> {
    var i := Index(line, key);
    if i < 0 then None else Some(line[i + |key|..])
  }

  /** extractString */
  function ExtractString(line: seq<byte>, key: seq<byte>): seq<byte> {
    match After(line, key)
    case None => []
    case Some(rest) => Until(rest, true)
  }

  /** extractInt */
  function ExtractInt(line: seq<byte>, key: seq<byte>): (int, bool) {
    match After(line, key)
    case None => (0, false)
    case Some(rest) => ParseInt(Until(rest, false))
  }

  /** extractCRC: the last eight characters, filled up with zeros. */
  function ExtractCrc(line: seq<byte>, key: seq<byte>): Option<nat> {
    match After(line, key)
    case None => None
    case Some(rest) =>
      var data := Until(rest, false);
      var last := if |data| <= 8 then data else data[|data| - 8..];
      if AllHex(last) then Some(HexValue(last)) else None
  }

  // ----- processYencHeader

  /** What a response knows of its part. */
  datatype Known = Known(fileName: seq<byte>, fileSize: int, partNumber: int, totalParts: int, offset: int,
    partSize: int, endSize: int, expectedCrc: nat, hasBegin: bool, hasPart: bool, hasEnd: bool, hasCrc: bool, body: bool)

  const NOTHING := Known([], 0, 0, 0, 0, 0, 0, 0, false, false, false, false, false)

  function ReadBegin(k: Known, line: seq<byte>): Known {
    var (part, multi) := ExtractInt(line, PART);
    var size := ExtractInt(line, SIZE).0;
    k.(hasBegin := true, fileSize := size, fileName := ExtractString(line, NAME), partNumber := part,
      totalParts := ExtractInt(line, TOTAL).0,
      body := k.body || !multi, partSize := if multi then k.partSize else size)
  }

  function ReadPart(k: Known, line: seq<byte>): Known {
    var (b, okB) := ExtractInt(line, BEGIN);
    var (e, okE) := ExtractInt(line, END);
    var begin := if okB && 1 <= b then b else 0;
    var offset := if okB && 1 <= b then b - 1 else k.offset;
    k.(hasPart := true, body := true, offset := offset, partSize := if okE && begin <= e then e - offset else k.partSize)
  }

  function ReadEnd(k: Known, line: seq<byte>): Known {
    var p, w := ExtractCrc(line, PCRC32), ExtractCrc(line, CRC32);
    var crc := if p.Some? then p else w;
    k.(hasEnd := true, hasCrc := k.hasCrc || crc.Some?, expectedCrc := if crc.Some? then crc.value else k.expectedCrc,
      endSize := ExtractInt(line, SIZE).0)
  }

  function Read(k: Known, line: seq<byte>): Known {
    if YBEGIN + [SPACE] <= line then ReadBegin(k, line[7..])
    else if YPART + [SPACE] <= line then ReadPart(k, line[6..])
    else if YEND + [SPACE] <= line then ReadEnd(k, line[5..])
    else k
  }

  // ----- what is written is read

  predicate IsKey(key: seq<byte>) {
    key != [] && key[0] == 32 && forall i :: 0 < i < |key| ==> !IsStop(key[i])
  }

  function Field(key: seq<byte>, n: int): seq<byte> {
    key + Decimal(n)
  }

  // A field that differs from the key somewhere is passed over.
  lemma Later(field: seq<byte>, rest: seq<byte>, key: seq<byte>, t: nat)
    requires IsKey(field) && IsKey(key) && t < |key| && t < |field| && key[t] != field[t]
    ensures After(field + rest, key) == After(rest, key)
  {
    hide Occurs, IsKey;
    var line := field + rest;
    var i, k := Index(line, key), Index(rest, key);
    if 0 <= k {
      OccursLater(field, rest, key, t, |field| + k);
    }
    if 0 <= i {
      OccursLater(field, rest, key, t, i);
      assert line[i + |key|..] == rest[i - |field| + |key|..];
    }
  }

  lemma OccursAt(line: seq<byte>, key: seq<byte>, j: nat, i: nat)
    requires Occurs(line, key, j) && i < |key|
    ensures j + i < |line| && line[j + i] == key[i]
  {
    assert line[j..][i] == key[i];
  }

  lemma OccursLater(field: seq<byte>, rest: seq<byte>, key: seq<byte>, t: nat, j: nat)
    requires IsKey(field) && IsKey(key) && t < |key| && t < |field| && key[t] != field[t]
    ensures Occurs(field + rest, key, j) <==> |field| <= j && Occurs(rest, key, j - |field|)
  {
    var line := field + rest;
    if j < |field| {
      if Occurs(line, key, j) {
        OccursAt(line, key, j, 0);
        OccursAt(line, key, j, t);
      }
    } else if j <= |line| {
      assert line[j..] == rest[j - |field|..];
    }
  }

  lemma Here(key: seq<byte>, rest: seq<byte>)
    ensures After(key + rest, key) == Some(rest)
  {
    assert (key + rest)[0..] == key + rest;
    assert Occurs(key + rest, key, 0);
    assert (key + rest)[|key|..] == rest;
  }

  lemma {:induction false} UntilStop(s: seq<byte>, rest: seq<byte>, spaced: bool)
    requires forall i :: 0 <= i < |s| ==> !IsStop(s[i]) || (spaced && s[i] == 32)
    requires rest == [] || (IsStop(rest[0]) && !(spaced && rest[0] == 32))
    ensures Until(s + rest, spaced) == s
    decreases |s|
  {
    if s == [] {
      assert s + rest == rest;
    } else {
      assert (s + rest)[1..] == s[1..] + rest;
      UntilStop(s[1..], rest, spaced);
    }
  }

  predicate Wide(n: int) {
    -TWO_63 <= n < TWO_63
  }

  lemma FieldIsKey(key: seq<byte>, n: int)
    requires IsKey(key) && Wide(n)
    ensures IsKey(Field(key, n)) && key <= Field(key, n)
  {
    hide ParseInt, Decimal;
    DecimalReads(n);
  }

  lemma IntHere(key: seq<byte>, n: int, rest: seq<byte>)
    requires IsKey(key) && Wide(n) && (rest == [] || IsStop(rest[0]))
    ensures ExtractInt(Field(key, n) + rest, key) == (n, true)
  {
    hide ParseInt, Decimal;
    DecimalReads(n);
    assert Field(key, n) + rest == key + (Decimal(n) + rest);
    Here(key, Decimal(n) + rest);
    UntilStop(Decimal(n), rest, false);
  }

  lemma PastField(other: seq<byte>, n: int, rest: seq<byte>, key: seq<byte>, t: nat)
    requires IsKey(other) && IsKey(key) && Wide(n) && t < |other| && t < |key| && other[t] != key[t]
    ensures After(Field(other, n) + rest, key) == After(rest, key)
  {
    hide Decimal;
    FieldIsKey(other, n);
    Later(Field(other, n), rest, key, t);
  }

  // The keys, and where they differ.
  lemma Keys()
    ensures IsKey(PART) && IsKey(TOTAL) && IsKey(LINE) && IsKey(SIZE)
    ensures IsKey(NAME) && IsKey(BEGIN) && IsKey(END) && IsKey(PCRC32) && IsKey(CRC32)
    ensures CRC32[1] == 99
    ensures PART[1] == 112 && TOTAL[1] == 116 && LINE[1] == 108
    ensures SIZE[1] == 115 && NAME[1] == 110 && BEGIN[1] == 98
    ensures END[1] == 101 && PCRC32[1] == 112
    ensures PART[2] == 97 && PCRC32[2] == 99
  {
  }

  /** The numbers of the metadata are numbers of 64 bits, the part's end included. */
  predicate Written64(m: Meta) {
    && Wide(m.fileSize) && Wide(m.partNumber) && Wide(m.totalParts) && Wide(m.partSize)
    && Wide(m.offset) && Wide(m.Begin()) && Wide(m.End())
  }

  /** A name that a line can hold. */
  predicate OneLine(name: seq<byte>) {
    forall i :: 0 <= i < |name| ==> name[i] != 0 && name[i] != 13 && name[i] != 10
  }

  lemma BeginFields(m: Meta, lineLength: int)
    ensures YBEGIN + [SPACE] <= BeginLine(m, lineLength)
    ensures BeginLine(m, lineLength)[7..]
      == Field(PART, m.partNumber) + (Field(TOTAL, m.totalParts)
        + (Field(LINE, lineLength) + (Field(SIZE, m.fileSize) + (NAME + m.fileName))))
  {
    hide Decimal;
  }

  /** Of the first line, everything; of a name that a line can hold all, and of no other. */
  lemma BeginReads(k: Known, m: Meta, lineLength: int)
    requires Written64(m) && Wide(lineLength)
    ensures var r := Read(k, BeginLine(m, lineLength));
      && r == k.(hasBegin := true, fileSize := m.fileSize, partNumber := m.partNumber, totalParts := m.totalParts,
          fileName := r.fileName)
      && (r.fileName == m.fileName <==> OneLine(m.fileName))
  {
    hide Decimal, ParseInt, After, Until, Field;
    BeginFields(m, lineLength);
    Keys();
    var rest5 := NAME + m.fileName;
    var rest4 := Field(SIZE, m.fileSize) + rest5;
    var rest3 := Field(LINE, lineLength) + rest4;
    var rest2 := Field(TOTAL, m.totalParts) + rest3;
    FieldIsKey(SIZE, m.fileSize);
    FieldIsKey(LINE, lineLength);
    FieldIsKey(TOTAL, m.totalParts);
    IntHere(PART, m.partNumber, rest2);
    PastField(PART, m.partNumber, rest2, TOTAL, 1);
    IntHere(TOTAL, m.totalParts, rest3);
    PastField(PART, m.partNumber, rest2, SIZE, 1);
    PastField(TOTAL, m.totalParts, rest3, SIZE, 1);
    PastField(LINE, lineLength, rest4, SIZE, 1);
    IntHere(SIZE, m.fileSize, rest5);
    PastField(PART, m.partNumber, rest2, NAME, 1);
    PastField(TOTAL, m.totalParts, rest3, NAME, 1);
    PastField(LINE, lineLength, rest4, NAME, 1);
    PastField(SIZE, m.fileSize, rest5, NAME, 1);
    Here(NAME, m.fileName);
    NameReads(m.fileName);
  }

  lemma {:induction false} NameReads(name: seq<byte>)
    ensures Until(name, true) == name <==> OneLine(name)
    decreases |name|
  {
    if name != [] {
      NameReads(name[1..]);
      assert name == [name[0]] + name[1..];
      assert OneLine(name) <==> name[0] != 0 && name[0] != 13 && name[0] != 10 && OneLine(name[1..]) by {
        assert forall i :: 0 <= i < |name[1..]| ==> name[1..][i] == name[i + 1];
        assert forall i :: 0 < i < |name| ==> name[i] == name[1..][i - 1];
      }
      if Until(name, true) == name {
        assert Until(name, true)[1..] == Until(name[1..], true);
      }
    }
  }

  /** Of the second line, the part's place and size. */
  lemma PartReads(k: Known, m: Meta)
    requires Written64(m) && 0 <= m.offset && 0 < m.partSize
    ensures Read(k, PartLine(m)) == k.(hasPart := true, body := true, offset := m.offset, partSize := m.partSize)
  {
    hide Decimal, ParseInt, After, Until, Field;
    PartFields(m);
    Keys();
    var rest := Field(END, m.End()) + [];
    FieldIsKey(END, m.End());
    IntHere(BEGIN, m.Begin(), rest);
    PastField(BEGIN, m.Begin(), rest, END, 1);
    IntHere(END, m.End(), []);
  }

  lemma PartFields(m: Meta)
    ensures YPART + [SPACE] <= PartLine(m) && !(YBEGIN + [SPACE] <= PartLine(m))
    ensures PartLine(m)[6..] == Field(BEGIN, m.Begin()) + (Field(END, m.End()) + [])
  {
    hide Decimal;
    assert PartLine(m)[2] == 112 && YBEGIN[2] == 98;
  }

  /** Of the last line, the checksum and the size. */
  lemma EndReads(k: Known, m: Meta, crc: Crc.reg)
    requires Written64(m)
    ensures Read(k, EndLine(m, crc)) == k.(hasEnd := true, hasCrc := true, expectedCrc := crc as nat, endSize := m.partSize)
  {
    EightPlaces(crc);
    EndReadsAs(k, m, crc, crc as nat);
  }

  lemma EndReadsAs(k: Known, m: Meta, crc: Crc.reg, v: nat)
    requires Written64(m) && v == crc as nat && HexValue(Hex(v, 8)) == v
    ensures Read(k, EndLine(m, crc)) == k.(hasEnd := true, hasCrc := true, expectedCrc := v, endSize := m.partSize)
  {
    hide Decimal, ParseInt, After, Until, Field, Hex, HexValue, EndLine;
    EndFields(m, crc, v);
    Keys();
    var rest3 := PCRC32 + Hex(v, 8);
    var rest2 := Field(PART, m.partNumber) + rest3;
    FieldIsKey(PART, m.partNumber);
    IntHere(SIZE, m.partSize, rest2);
    PastField(SIZE, m.partSize, rest2, PCRC32, 1);
    PastField(PART, m.partNumber, rest3, PCRC32, 2);
    CrcHere(v);
  }

  lemma CrcHere(v: nat)
    requires HexValue(Hex(v, 8)) == v
    ensures ExtractCrc(PCRC32 + Hex(v, 8), PCRC32) == Some(v)
  {
    hide Hex, HexValue, After, Until;
    Here(PCRC32, Hex(v, 8));
    HexReads(v, 8);
    assert Hex(v, 8) + [] == Hex(v, 8);
    UntilStop(Hex(v, 8), [], false);
  }

  lemma EndFields(m: Meta, crc: Crc.reg, v: nat)
    requires v == crc as nat
    ensures var line := EndLine(m, crc);
      && YEND + [SPACE] <= line && !(YBEGIN + [SPACE] <= line) && !(YPART + [SPACE] <= line)
      && line[5..] == Field(SIZE, m.partSize) + (Field(PART, m.partNumber) + (PCRC32 + Hex(v, 8)))
  {
    Regroup(YEND, SIZE, Decimal(m.partSize), PART, Decimal(m.partNumber), PCRC32 + Hex(v, 8));
    assert EndLine(m, crc) == YEND + SIZE + Decimal(m.partSize) + PART + Decimal(m.partNumber) + (PCRC32 + Hex(v, 8)) by {
      hide Decimal, Hex;
    }
    WholeFileLine(m.partSize, Field(PART, m.partNumber) + (PCRC32 + Hex(v, 8)));
    hide *;
  }

  lemma Regroup(a: seq<byte>, b: seq<byte>, c: seq<byte>, d: seq<byte>, e: seq<byte>, f: seq<byte>)
    ensures a + b + c + d + e + f == a + ((b + c) + ((d + e) + f))
  {
  }

  /** The first line of a file in one part: its body follows, and its size is the file's. A name in
      which a part number could be seen is the exception. */
  lemma SingleReads(k: Known, lineLength: int, size: int, name: seq<byte>)
    requires Wide(lineLength) && Wide(size)
    ensures var r := Read(k, YBEGIN + (Field(LINE, lineLength) + (Field(SIZE, size) + (NAME + name))));
      && r.hasBegin && r.fileSize == size && (r.fileName == name <==> OneLine(name))
      && (Index(NAME + name, PART) < 0 ==> r.body && r.partSize == size)
  {
    hide Decimal, ParseInt, Until, Field, Index;
    Keys();
    var rest2 := NAME + name;
    var rest1 := Field(SIZE, size) + rest2;
    var line := YBEGIN + (Field(LINE, lineLength) + rest1);
    FieldIsKey(LINE, lineLength);
    assert line[7..] == Field(LINE, lineLength) + rest1;
    PastField(LINE, lineLength, rest1, SIZE, 1);
    IntHere(SIZE, size, rest2);
    PastField(LINE, lineLength, rest1, NAME, 1);
    PastField(SIZE, size, rest2, NAME, 1);
    Here(NAME, name);
    NameReads(name);
    PastField(LINE, lineLength, rest1, PART, 1);
    PastField(SIZE, size, rest2, PART, 1);
  }

  /** The last line of such a file, with a checksum of up to eight digits in either case. */
  lemma WholeFileReads(k: Known, size: int, digits: seq<byte>)
    requires Wide(size) && AllHex(digits) && |digits| <= 8
    ensures CRC32 == [32, 99, 114, 99, 51, 50, 61]
    ensures Read(k, YEND + (Field(SIZE, size) + (CRC32 + digits)))
      == k.(hasEnd := true, hasCrc := true, expectedCrc := HexValue(digits), endSize := size)
  {
    hide ExtractInt, ExtractCrc, Field, HexValue;
    WholeFileLine(size, CRC32 + digits);
    WholeFileCrc(size, digits);
    Keys();
    IntHere(SIZE, size, CRC32 + digits);
  }

  lemma WholeFileLine(size: int, rest: seq<byte>)
    ensures var line := YEND + (Field(SIZE, size) + rest);
      && YEND + [SPACE] <= line && !(YBEGIN + [SPACE] <= line) && !(YPART + [SPACE] <= line)
      && line[5..] == Field(SIZE, size) + rest
  {
    hide Decimal;
    var line := YEND + (Field(SIZE, size) + rest);
    assert line[2] == 101 && YBEGIN[2] == 98 && YPART[2] == 112 && line[5] == 32;
  }

  lemma WholeFileCrc(size: int, digits: seq<byte>)
    requires Wide(size) && AllHex(digits) && |digits| <= 8
    ensures ExtractCrc(Field(SIZE, size) + (CRC32 + digits), PCRC32) == None
    ensures ExtractCrc(Field(SIZE, size) + (CRC32 + digits), CRC32) == Some(HexValue(digits))
  {
    hide After, Until, Field, HexValue, IsKey, Stopless, AllHex;
    var rest := CRC32 + digits;
    Keys();
    HexStopless(digits);
    LongerKey(CRC32, digits);
    PastField(SIZE, size, rest, PCRC32, 1);
    assert rest + [] == rest;
    Later(rest, [], PCRC32, 1);
    NoKey(PCRC32);
    PastField(SIZE, size, rest, CRC32, 1);
    CrcAfter(digits);
  }

  lemma CrcAfter(digits: seq<byte>)
    requires AllHex(digits) && |digits| <= 8
    ensures ExtractCrc(CRC32 + digits, CRC32) == Some(HexValue(digits))
  {
    hide After, Until, HexValue, AllHex;
    HexStopless(digits);
    Here(CRC32, digits);
    assert digits + [] == digits;
    UntilStop(digits, [], false);
  }

  lemma LongerKey(key: seq<byte>, more: seq<byte>)
    requires IsKey(key) && Stopless(more)
    ensures IsKey(key + more)
  {
    hide IsStop;
  }

  lemma HexStopless(s: seq<byte>)
    requires AllHex(s)
    ensures Stopless(s)
  {
  }

  lemma NoKey(key: seq<byte>)
    requires key != []
    ensures After([], key) == None
  {
  }

  /** A number as its digits say it: each ten times what came before and the digit. */
  function DecimalValue(s: seq<byte>): int {
    if s == [] then 0 else 10 * DecimalValue(s[..|s| - 1]) + (s[|s| - 1] as int - 48)
  }

  predicate AllDigits(s: seq<byte>) {
    forall i :: 0 <= i < |s| ==> 48 <= s[i] <= 57
  }

  lemma {:induction false} DigitsMean(s: seq<byte>)
    requires AllDigits(s)
    ensures 0 <= DecimalValue(s)
    ensures ParseDigits(s, 0) == if DecimalValue(s) < TWO_64 then Value(DecimalValue(s)) else Range
  {
    if s != [] {
      var a, d := s[..|s| - 1], s[|s| - 1];
      DigitsMean(a);
      assert s == a + [d];
      if DecimalValue(a) < TWO_64 {
        ParseThen(a, [d], 0);
        assert [d][1..] == [];
      } else {
        RangeStays(a, [d], 0);
      }
    }
  }

  lemma {:induction false} RangeStays(a: seq<byte>, b: seq<byte>, n: nat)
    requires ParseDigits(a, n) == Range
    ensures ParseDigits(a + b, n) == Range
    decreases |a|
  {
    assert (a + b)[1..] == a[1..] + b;
    var next := 10 * n + (a[0] as nat - 48);
    if next < TWO_64 {
      RangeStays(a[1..], b, next);
    }
  }

  /** ParseInt of digits, with a sign or without: the number, or the nearest of 64 bits. */
  lemma IntMeans(s: seq<byte>)
    requires AllDigits(s) && s != []
    ensures var n := DecimalValue(s);
      && ParseInt(s) == ParseInt([43] + s)
      && ParseInt(s) == (if n < 0x8000_0000_0000_0000 then (n, true) else (0x7FFF_FFFF_FFFF_FFFF, false))
      && ParseInt([45] + s) == (if n <= 0x8000_0000_0000_0000 then (-n, true) else (-0x8000_0000_0000_0000, false))
  {
    hide DecimalValue, ParseDigits;
    DigitsMean(s);
    assert s[0] != 43 && s[0] != 45;
    assert ([43] + s)[1..] == s && ([45] + s)[1..] == s;
  }

  // ----- the reader's object

  class HeaderReader {
    var known: Known

    constructor ()
      ensures known == NOTHING
    {
      known := NOTHING;
    }

    /** processYencHeader */
    method ProcessYencHeader(line: seq<byte>)
      modifies this
      ensures known == Read(old(known), line)
    {
      hide ExtractInt, ExtractString, ExtractCrc;
      if YBEGIN + [SPACE] <= line {
        known := known.(hasBegin := true);
        var rest := line[|YBEGIN|..];
        var (size, _) := ExtractInt(rest, SIZE);
        var (part, multi) := ExtractInt(rest, PART);
        known := known.(fileSize := size, fileName := ExtractString(rest, NAME), partNumber := part);
        if !multi {
          // a single part: its body starts right after this line
          known := known.(body := true, partSize := known.fileSize);
        }
        known := known.(totalParts := ExtractInt(rest, TOTAL).0);
      } else if YPART + [SPACE] <= line {
        known := known.(hasPart := true, body := true);
        var rest, begin := line[|YPART|..], 0;
        var (b, okB) := ExtractInt(rest, BEGIN);
        if okB && b >= 1 {
          begin := b;
          known := known.(offset := begin - 1);
        }
        var (end, okE) := ExtractInt(rest, END);
        if okE && end >= begin {
          known := known.(partSize := end - known.offset);
        }
      } else if YEND + [SPACE] <= line {
        known := known.(hasEnd := true);
        var rest := line[|YEND|..];
        var crc := ExtractCrc(rest, PCRC32);
        if crc.None? {
          crc := ExtractCrc(rest, CRC32);
        }
        if crc.Some? {
          known := known.(expectedCrc := crc.value, hasCrc := true);
        }
        known := known.(endSize := ExtractInt(rest, SIZE).0);
      }
    }

    /** metaError, of a yEnc response that produced so many bytes with such a checksum. */
    method MetaError(produced: nat, crc: nat) returns (v: Verdict)
      ensures v == VerdictOn(known, produced, crc)
      ensures v == DataMissing <==> !known.hasBegin
      ensures v == Fine <==>
        && known.hasBegin && known.hasEnd && (known.hasCrc ==> known.expectedCrc == crc)
        && (known.hasPart ==> known.partSize == produced)
        && (!known.hasPart && known.fileSize >= 1 ==> known.fileSize == produced)
      ensures v == CrcMismatch ==> known.hasCrc && known.expectedCrc != crc
    {
      if !known.hasBegin {
        return DataMissing;
      }
      if !known.hasEnd {
        return DataCorruption;
      }
      if (!known.hasPart && known.fileSize > 0 && known.fileSize != produced) || (known.hasPart && known.partSize != produced) {
        return DataCorruption;
      }
      if known.hasCrc && known.expectedCrc != crc {
        return CrcMismatch;
      }
      return Fine;
    }
  }

  datatype Verdict = Fine | DataMissing | DataCorruption | CrcMismatch

  function VerdictOn(k: Known, produced: nat, crc: nat): Verdict {
    var size := if k.hasPart then k.partSize else if k.fileSize > 0 then k.fileSize else produced;
    if !k.hasBegin then DataMissing
    else if !k.hasEnd || size != produced then DataCorruption
    else if k.hasCrc && k.expectedCrc != crc then CrcMismatch
    else Fine
  }

  /** The three lines of a part, written and read: everything comes back, the name if a line can
      hold it; and the part is accepted exactly with its size and its checksum. */
  method ReadLines(m: Meta, lineLength: int, crc: Crc.reg, produced: nat, found: nat)
    returns (h: HeaderReader, v: Verdict)
    requires m.Valid() && Written64(m) && Wide(lineLength)
    ensures h.known == Known(h.known.fileName, m.fileSize, m.partNumber, m.totalParts, m.offset, m.partSize, m.partSize,
      crc as nat, true, true, true, true, true)
    ensures h.known.fileName == m.fileName <==> OneLine(m.fileName)
    ensures v == if produced != m.partSize then DataCorruption else if found != crc as nat then CrcMismatch else Fine
  {
    hide BeginLine, PartLine, EndLine, Read;
    h := new HeaderReader();
    BeginReads(h.known, m, lineLength);
    h.ProcessYencHeader(BeginLine(m, lineLength));
    PartReads(h.known, m);
    h.ProcessYencHeader(PartLine(m));
    EndReads(h.known, m, crc);
    h.ProcessYencHeader(EndLine(m, crc));
    v := h.MetaError(produced, found);
  }

  /** For one: the lines around a part that is the byte `a`, field by field. */
  lemma LinesExample()
    ensures var m := Meta([97], 1, 1, 1, 0, 1);
      && BeginLine(m, 128)
        == [61, 121, 98, 101, 103, 105, 110] + [32, 112, 97, 114, 116, 61] + [49]
          + [32, 116, 111, 116, 97, 108, 61] + [49] + [32, 108, 105, 110, 101, 61] + [49, 50, 56]
          + [32, 115, 105, 122, 101, 61] + [49] + [32, 110, 97, 109, 101, 61] + [97]
      && PartLine(m)
        == [61, 121, 112, 97, 114, 116] + [32, 98, 101, 103, 105, 110, 61] + [49] + [32, 101, 110, 100, 61] + [49]
      && EndLine(m, 0xE8B7_BE43)
        == [61, 121, 101, 110, 100] + [32, 115, 105, 122, 101, 61] + [49] + [32, 112, 97, 114, 116, 61] + [49]
          + [32, 112, 99, 114, 99, 51, 50, 61] + [101, 56, 98, 55, 98, 101, 52, 51]
  {
    hide Decimal, Hex;
    var w: Crc.reg := 0xE8B7_BE43;
    assert w as nat == 0xE8B7_BE43;
    DecimalsExample();
    HexExample();
  }

  lemma DecimalsExample()
    ensures Decimal(1) == [49] && Decimal(128) == [49, 50, 56]
  {
    assert Natural(12) == [Digit(1), Digit(2)];
    assert Natural(128) == Natural(12) + [Digit(8)];
  }

  lemma HexExample()
    ensures Hex(0xE8B7_BE43, 8) == [101, 56, 98, 55, 98, 101, 52, 51]
  {
    HexNext(0xE8B7_BE4, 3, 7); HexNext(0xE8B7_BE, 4, 6); HexNext(0xE8B7_B, 14, 5); HexNext(0xE8B7, 11, 4);
    HexNext(0xE8B, 7, 3); HexNext(0xE8, 11, 2); HexNext(0xE, 8, 1); HexNext(0, 14, 0);
    DigitsExample();
    hide *;
  }

  lemma DigitsExample()
    ensures Digit(14) == 101 && Digit(11) == 98 && Digit(8) == 56 && Digit(7) == 55 && Digit(4) == 52 && Digit(3) == 51
  {
  }

  lemma HexNext(n: nat, d: nat, width: nat)
    requires d < 16
    ensures Hex(16 * n + d, width + 1) == Hex(n, width) + [Digit(d)] && Hex(0, 0) == []
  {
    hide Digit;
  }
}
