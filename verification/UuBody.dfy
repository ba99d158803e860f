/** The uuencoded body of a response: decodeUU, line by line. */
module UuBody {
  import opened Bytes
  import Crc = Crc32

  const BACKTICK: byte := 96
  const END_LINE: seq<byte> := [101, 110, 100]
  const SIGNATURE: seq<byte> := [45, 45, 32]
  const POSTED_VIA: seq<byte> := [80, 111, 115, 116, 101, 100, 32, 118, 105, 97, 32]
  const BEGIN: seq<byte> := [98, 101, 103, 105, 110, 32]
  const LETTER_M: byte := 77

  // ----- characters and groups

  function DecodeChar(c: byte): byte {
    if c == BACKTICK then 0 else (c - SPACE) & 0x3F
  }

  // Some encoders count the length character among the ones it counts.
  function DecodeCharWorkaround(c: byte): nat {
    (((c - SPACE) & 0x3F) as nat * 4 + 5) / 3
  }

  // The three bytes of a group, from the six bits of each of its characters.
  function Byte0(c0: byte, c1: byte): byte { (c0 << 2) | (c1 >> 4) }

  function Byte1(c1: byte, c2: byte): byte { (c1 << 4) | (c2 >> 2) }

  function Byte2(c2: byte, c3: byte): byte { (c2 << 6) | c3 }

  /** The first k bytes of a group of four characters. */
  function Group(chars: seq<byte>, k: nat): (bytes: seq<byte>)
    requires 4 <= |chars|
    ensures |bytes| == if k == 0 then 0 else if k < 3 then k else 3
  {
    var c0, c1, c2, c3 := DecodeChar(chars[0]), DecodeChar(chars[1]), DecodeChar(chars[2]), DecodeChar(chars[3]);
    var all := [Byte0(c0, c1), Byte1(c1, c2), Byte2(c2, c3)];
    all[..if k < 3 then k else 3]
  }

  /** A line's characters decoded, up to n bytes or the last whole group. */
  function Groups(chars: seq<byte>, n: int): seq<byte>
    decreases |chars|
  {
    if n <= 0 || |chars| < 4 then [] else Group(chars, n) + Groups(chars[4..], n - 3)
  }

  // The line ran out before n bytes.
  predicate RunsShort(chars: seq<byte>, n: int)
    decreases |chars|
  {
    n > 0 && (|chars| < 4 || RunsShort(chars[4..], n - 3))
  }

  /** A character stands for its code less 32; 96 for 0. */
  lemma CharMeans(c: byte)
    ensures 32 <= c < 96 ==> DecodeChar(c) as nat == c as nat - 32
    ensures DecodeChar(96) == 0
    ensures c != 96 ==> DecodeChar(c) == (c - 32) & 63 && (DecodeChar(c) & 0xC0) == 0
  {
  }

  /** The workaround reads 3 in 4 of the declared characters as bytes the other way round, rounded up. */
  lemma WorkaroundMeans(c: byte)
    requires 32 <= c < 96
    ensures var n := c as nat - 32; 3 * DecodeCharWorkaround(c) <= 4 * n + 5 < 3 * DecodeCharWorkaround(c) + 3
  {
    CharMeans(c);
    assert c < 96 ==> (c - 32) & 63 == c - 32;
  }

  /** Four characters' bits, highest first, are the three bytes' bits. */
  lemma GroupMeans(c0: byte, c1: byte, c2: byte, c3: byte)
    requires c0 < 64 && c1 < 64 && c2 < 64 && c3 < 64
    ensures ((Byte0(c0, c1) as bv24) << 16) | ((Byte1(c1, c2) as bv24) << 8) | (Byte2(c2, c3) as bv24)
      == ((c0 as bv24) << 18) | ((c1 as bv24) << 12) | ((c2 as bv24) << 6) | (c3 as bv24)
  {
  }

  /** How many bytes come out, and when the line has run out: three for every whole group, and too few
      groups for the bytes declared. */
  lemma {:induction false} GroupsCount(chars: seq<byte>, n: int)
    ensures RunsShort(chars, n) <==> |chars| / 4 < (n + 2) / 3
    ensures n >= 0 ==> |Groups(chars, n)| == if RunsShort(chars, n) then 3 * (|chars| / 4) else n
    decreases |chars|
  {
    hide Group;
    if n > 0 && |chars| >= 4 {
      GroupsCount(chars[4..], n - 3);
      LastGroup(chars, n);
      FewerFours(|chars|);
    }
  }

  lemma FewerFours(k: nat)
    ensures 4 <= k ==> (k - 4) / 4 == k / 4 - 1
  {
  }

  lemma LastGroup(chars: seq<byte>, n: int)
    requires 4 <= |chars| && 0 < n
    ensures Groups(chars, n) == Group(chars, n) + Groups(chars[4..], n - 3)
    ensures n <= 3 ==> Groups(chars[4..], n - 3) == []
  {
  }

  /** The decoding loop. */
  method DecodeGroups(line: seq<byte>, effLen: nat) returns (decoded: seq<byte>, short: bool)
    ensures decoded == Groups(line, effLen) && short == RunsShort(line, effLen)
  {
    hide Group;
    decoded := [];
    var left: int, pos := effLen, 0;
    while left > 0 && |line| - pos >= 4
      invariant 0 <= pos && (left > 0 ==> pos <= |line|)
      invariant left > 0 ==> decoded + Groups(line[pos..], left) == Groups(line, effLen)
      invariant left > 0 ==> RunsShort(line[pos..], left) == RunsShort(line, effLen)
      invariant left <= 0 ==> decoded == Groups(line, effLen) && !RunsShort(line, effLen)
      decreases left
    {
      var chars := line[pos..];
      GroupsNext(chars, left, decoded);
      var bytes, used := DecodeGroup(chars, left);
      decoded := decoded + bytes;
      pos := pos + used;
      assert 3 < left ==> chars[4..] == line[pos..];
      left := left - 3;
    }
    short := left > 0;
  }

  // One group: a last, partial one is not read to its end.
  method DecodeGroup(chars: seq<byte>, left: nat) returns (bytes: seq<byte>, used: nat)
    requires 4 <= |chars| && 0 < left
    ensures bytes == Group(chars, left) && used <= 4 && (3 <= left ==> used == 4)
  {
    hide DecodeChar, Byte0, Byte1, Byte2;
    var chunk := if left < 3 then left else 3;
    var c0, c1, c2, c3 := DecodeChar(chars[0]), DecodeChar(chars[1]), 0, 0;
    bytes := [Byte0(c0, c1)];
    used := 2;
    if chunk > 1 {
      c2 := DecodeChar(chars[2]);
      bytes := bytes + [Byte1(c1, c2)];
      used := 3;
    }
    if chunk > 2 {
      c3 := DecodeChar(chars[3]);
      bytes := bytes + [Byte2(c2, c3)];
      used := 4;
    }
  }

  lemma GroupsNext(chars: seq<byte>, n: int, before: seq<byte>)
    requires n > 0 && 4 <= |chars|
    ensures before + Groups(chars, n) == before + Group(chars, n) + Groups(chars[4..], n - 3)
    ensures n <= 3 ==> Groups(chars[4..], n - 3) == []
    ensures RunsShort(chars, n) == RunsShort(chars[4..], n - 3)
  {
  }

  // ----- lines

  function Unstuffed(line: seq<byte>): seq<byte> {
    if |line| >= 2 && line[0] == DOT && line[1] == DOT then line[1..] else line
  }

  /** How many bytes a line declares, by either reading of its first character. */
  function EffectiveLength(line: seq<byte>): nat
    requires line != []
  {
    var n := DecodeChar(line[0]) as nat;
    if n <= |line| - 1 then n else DecodeCharWorkaround(line[0])
  }

  datatype Kind = EndOfBody | Junk | Bad | Data(bytes: seq<byte>, short: bool)

  /** What a line of the body is. */
  function KindOf(line: seq<byte>): Kind {
    if line == [BACKTICK] || line == END_LINE then EndOfBody
    else if line == [] || line == SIGNATURE || POSTED_VIA <= line then Junk
    else
      var l := Unstuffed(line);
      if EffectiveLength(l) > |l| - 1 then Bad
      else Data(Groups(l[1..], EffectiveLength(l)), RunsShort(l[1..], EffectiveLength(l)))
  }

  /** Which lines end a body and which are skipped: a backtick or `end`; nothing, `-- `, and what
      begins with `Posted via `. */
  lemma KindMeans(line: seq<byte>)
    ensures KindOf(line) == EndOfBody <==> line == [96] || line == [101, 110, 100]
    ensures KindOf(line) == Junk <==>
      || line == [] || line == [45, 45, 32]
      || [80, 111, 115, 116, 101, 100, 32, 118, 105, 97, 32] <= line
  {
    hide Groups, RunsShort, EffectiveLength;
  }

  // ----- uuencoding and dot-stuffing

  function Low6(b: byte): byte { b & 0x3F }

  /** A character for six bits. Some encoders write zeros as spaces and some as backticks. */
  predicate Stands(c: byte, b: byte) {
    c == SPACE + Low6(b) || (c == BACKTICK && Low6(b) == 0)
  }

  function Six0(g0: byte): byte { g0 >> 2 }

  function Six1(g0: byte, g1: byte): byte { (g0 << 4) | (g1 >> 4) }

  function Six2(g1: byte, g2: byte): byte { (g1 << 2) | (g2 >> 6) }

  function Nth(data: seq<byte>, i: nat): byte {
    if i < |data| then data[i] else 0
  }

  function Rest(data: seq<byte>): seq<byte> {
    if |data| <= 3 then [] else data[3..]
  }

  /** Four characters for every three bytes, the last group filled up with zeros. */
  predicate IsUu(data: seq<byte>, chars: seq<byte>)
    decreases |data|
  {
    if data == [] then chars == []
    else 4 <= |chars| && IsGroup(data, chars) && IsUu(Rest(data), chars[4..])
  }

  predicate IsGroup(data: seq<byte>, chars: seq<byte>)
    requires data != [] && 4 <= |chars|
  {
    var g0, g1, g2 := data[0], Nth(data, 1), Nth(data, 2);
    && Stands(chars[0], Six0(g0)) && Stands(chars[1], Six1(g0, g1))
    && Stands(chars[2], Six2(g1, g2)) && Stands(chars[3], g2)
  }

  predicate IsUuLine(data: seq<byte>, line: seq<byte>) {
    1 <= |data| <= 63 && line != [] && Stands(line[0], |data| as byte) && IsUu(data, line[1..])
  }

  /** What a news server makes of a line that starts with a dot. */
  function Stuffed(line: seq<byte>): seq<byte> {
    if line != [] && line[0] == DOT then [DOT] + line else line
  }

  lemma CharRoundTrip(c: byte, b: byte)
    requires Stands(c, b)
    ensures DecodeChar(c) == Low6(b) && SPACE <= c <= BACKTICK
  {
  }

  lemma GroupRoundTrip(g0: byte, g1: byte, g2: byte)
    ensures Byte0(Low6(Six0(g0)), Low6(Six1(g0, g1))) == g0
    ensures Byte1(Low6(Six1(g0, g1)), Low6(Six2(g1, g2))) == g1
    ensures Byte2(Low6(Six2(g1, g2)), Low6(g2)) == g2
  {
  }

  lemma FirstGroup(data: seq<byte>, chars: seq<byte>)
    requires data != [] && 4 <= |chars| && IsGroup(data, chars)
    ensures Group(chars, |data|) == data[..if |data| < 3 then |data| else 3]
  {
    var g0, g1, g2 := data[0], Nth(data, 1), Nth(data, 2);
    hide DecodeChar, Stands, Low6, Six0, Six1, Six2, Byte0, Byte1, Byte2;
    CharRoundTrip(chars[0], Six0(g0));
    CharRoundTrip(chars[1], Six1(g0, g1));
    CharRoundTrip(chars[2], Six2(g1, g2));
    CharRoundTrip(chars[3], g2);
    GroupRoundTrip(g0, g1, g2);
    assert Group(chars, |data|) == [g0, g1, g2][..if |data| < 3 then |data| else 3];
  }

  /** Whatever was encoded comes back, whichever way its zeros were written. */
  lemma {:induction false} CharsRoundTrip(data: seq<byte>, chars: seq<byte>)
    requires IsUu(data, chars)
    ensures Groups(chars, |data|) == data && !RunsShort(chars, |data|)
    ensures |data| <= |chars|
    decreases |data|
  {
    hide IsGroup, Group;
    if data != [] {
      FirstGroup(data, chars);
      if |data| <= 3 {
        assert data[..|data|] == data;
      } else {
        CharsRoundTrip(data[3..], chars[4..]);
        assert data == data[..3] + data[3..];
      }
    }
  }

  /** The round trip of one line: whatever its bytes, it is neither taken for the end nor for
      junk, its stuffed dot is removed again, and the length declared is the one meant. */
  lemma LineRoundTrip(data: seq<byte>, line: seq<byte>)
    requires IsUuLine(data, line)
    ensures KindOf(Stuffed(line)) == Data(data, false)
  {
    hide Groups, RunsShort, IsUu, Stands, DecodeChar;
    CharsRoundTrip(data, line[1..]);
    FirstChar(data, line[1..]);
    LengthChar(line[0], |data|);
    assert Unstuffed(Stuffed(line)) == line by {
      if line[0] == DOT {
        assert Stuffed(line)[1..] == line;
      }
    }
  }

  /** A line cut short anywhere is found out, as bad or as having run out; only where a signature is
      left is it skipped. */
  lemma CutLineIsBad(data: seq<byte>, line: seq<byte>, cut: seq<byte>)
    requires IsUuLine(data, line) && cut != [] && cut < line
    ensures var kind := KindOf(Stuffed(cut)); kind == Bad || (kind.Data? && kind.short) || cut == [45, 45, 32]
  {
    hide Groups, RunsShort, IsUu, Stands, DecodeChar;
    CharsCount(data, line[1..]);
    LengthChar(line[0], |data|);
    FirstChar(data, line[1..]);
    assert |cut| >= 2 ==> cut[1] == line[1..][0];
    assert Unstuffed(Stuffed(cut)) == cut by {
      if cut[0] == DOT {
        assert Stuffed(cut)[1..] == cut;
      }
    }
    if |data| <= |cut| - 1 {
      GroupsCount(cut[1..], |data|);
      FewerGroups(|cut| - 1, (|data| + 2) / 3);
    } else {
      WorkaroundMore(line[0], |data|);
    }
    StuffedKind(cut);
  }

  lemma FewerGroups(chars: nat, groups: nat)
    ensures chars < 4 * groups ==> chars / 4 < groups
  {
  }

  lemma WorkaroundMore(c: byte, n: nat)
    requires DecodeChar(c) as nat == n && SPACE < c < BACKTICK
    ensures n < DecodeCharWorkaround(c)
  {
    CharMeans(c);
    WorkaroundMeans(c);
  }

  // A length character keeps a line from being taken for anything else but a signature.
  lemma StuffedKind(cut: seq<byte>)
    requires cut != [] && SPACE < cut[0] < BACKTICK
    requires |cut| < 2 || cut[1] <= BACKTICK
    ensures Stuffed(cut) != [] && Stuffed(cut) != [BACKTICK] && Stuffed(cut) != END_LINE
    ensures !(POSTED_VIA <= Stuffed(cut)) && (Stuffed(cut) == SIGNATURE ==> cut == [45, 45, 32])
  {
  }

  lemma {:induction false} CharsCount(data: seq<byte>, chars: seq<byte>)
    requires IsUu(data, chars)
    ensures |chars| == 4 * ((|data| + 2) / 3)
    decreases |data|
  {
    hide IsGroup;
    if data != [] {
      CharsCount(Rest(data), chars[4..]);
    }
  }

  /** A full line, of 45 bytes, looks like one, so a body may begin without its begin line. */
  lemma FullLineShows(data: seq<byte>, line: seq<byte>)
    requires IsUuLine(data, line) && |data| == 45
    ensures |line| == 61 && line[0] == 77 && LooksFull(line)
  {
    hide IsUu, Stands;
    CharsCount(data, line[1..]);
    FortyFive(line[0]);
  }

  lemma FortyFive(c: byte)
    requires Stands(c, 45)
    ensures c == 77
  {
  }

  lemma LengthChar(c: byte, n: nat)
    requires 1 <= n <= 63 && Stands(c, n as byte)
    ensures DecodeChar(c) as nat == n && SPACE < c < BACKTICK
  {
    CharRoundTrip(c, n as byte);
    SmallByte(c, n as byte);
    hide *;
  }

  lemma SmallByte(c: byte, b: byte)
    requires 0 < b < 64 && Stands(c, b)
    ensures Low6(b) == b && SPACE < c < BACKTICK
  {
  }

  // A line's characters stay below the lower-case letters.
  lemma FirstChar(data: seq<byte>, chars: seq<byte>)
    requires data != [] && IsUu(data, chars)
    ensures 4 <= |chars| && chars[0] <= BACKTICK
  {
    hide Stands;
    CharRoundTrip(chars[0], Six0(data[0]));
  }

  /** Both kinds of encoder write such lines. */
  function Encoded(data: seq<byte>, zero: byte): (chars: seq<byte>)
    requires zero == SPACE || zero == BACKTICK
    ensures IsUu(data, chars)
    decreases |data|
  {
    if data == [] then []
    else
      var g0, g1, g2 := data[0], Nth(data, 1), Nth(data, 2);
      [EncodeChar(Six0(g0), zero), EncodeChar(Six1(g0, g1), zero), EncodeChar(Six2(g1, g2), zero), EncodeChar(g2, zero)]
      + Encoded(Rest(data), zero)
  }

  function EncodeChar(b: byte, zero: byte): (c: byte)
    requires zero == SPACE || zero == BACKTICK
    ensures Stands(c, b)
  {
    if Low6(b) == 0 then zero else SPACE + Low6(b)
  }

  // ----- the response

  function Skip(line: seq<byte>, lo: byte, hi: byte): (rest: seq<byte>)
    ensures rest == [] || !(lo <= rest[0] <= hi)
  {
    if line != [] && lo <= line[0] <= hi then Skip(line[1..], lo, hi) else line
  }

  predicate Within(s: seq<byte>, lo: byte, hi: byte) {
    forall i :: 0 <= i < |s| ==> lo <= s[i] <= hi
  }

  lemma {:induction false} SkipAll(a: seq<byte>, rest: seq<byte>, lo: byte, hi: byte)
    requires Within(a, lo, hi) && (rest == [] || !(lo <= rest[0] <= hi))
    ensures Skip(a + rest, lo, hi) == rest
    decreases |a|
  {
    hide Within;
    if a == [] {
      assert a + rest == rest;
    } else {
      WithinRest(a, lo, hi);
      SkipAll(a[1..], rest, lo, hi);
      SkipOne(a + rest, lo, hi);
      assert (a + rest)[1..] == a[1..] + rest;
    }
  }

  lemma WithinRest(a: seq<byte>, lo: byte, hi: byte)
    requires Within(a, lo, hi) && a != []
    ensures lo <= a[0] <= hi && Within(a[1..], lo, hi)
  {
  }

  lemma SkipOne(line: seq<byte>, lo: byte, hi: byte)
    requires line != [] && lo <= line[0] <= hi
    ensures Skip(line, lo, hi) == Skip(line[1..], lo, hi)
  {
  }

  /** `begin `, any spaces, permissions in digits, spaces and a name: the name is what is taken. */
  lemma NameIsTaken(a: seq<byte>, permissions: seq<byte>, b: seq<byte>, name: seq<byte>)
    requires Within(a, 32, 32) && Within(permissions, 48, 57) && Within(b, 32, 32)
    requires permissions != [] && b != [] && (name == [] || name[0] != 32)
    ensures NameOn([98, 101, 103, 105, 110, 32] + (a + (permissions + (b + name)))) == name
  {
    hide Skip;
    var line := [98, 101, 103, 105, 110, 32] + (a + (permissions + (b + name)));
    assert line[|BEGIN|..] == a + (permissions + (b + name));
    SkipAll(a, permissions + (b + name), SPACE, SPACE);
    SkipAll(permissions, b + name, 48, 57);
    SkipAll(b, name, SPACE, SPACE);
  }

  /** The name on a begin line, after its spaces and permissions. */
  function NameOn(line: seq<byte>): seq<byte>
    requires BEGIN <= line
  {
    Skip(Skip(Skip(line[|BEGIN|..], SPACE, SPACE), 48, 57), SPACE, SPACE)
  }

  predicate LooksFull(line: seq<byte>) {
    (|line| == 60 || |line| == 61) && line[0] == LETTER_M
  }

  class Response {
    var data: seq<byte>
    var body: bool
    var badData: bool
    var bytesProduced: nat
    var crc: Crc.reg
    var fileName: seq<byte>
    var fileSize: nat

    ghost predicate Accounted()
      reads this
    {
      crc == Crc.Update(0, data) && bytesProduced == |data|
    }

    constructor ()
      ensures Accounted() && data == [] && !body && !badData
    {
      data, body, badData, bytesProduced, crc, fileName, fileSize := [], false, false, 0, 0, [], 0;
      Crc.InvertedTwice(0);
    }

    // A line of the body that is neither its end nor junk.
    method DecodeDataLine(stuffed: seq<byte>)
      requires Accounted() && stuffed != []
      modifies `data, `badData, `bytesProduced, `crc
      ensures Accounted()
      ensures var line := Unstuffed(stuffed);
        var effLen := EffectiveLength(line);
        if effLen > |line| - 1 then badData && data == old(data)
        else
          && data == old(data) + Groups(line[1..], effLen)
          && badData == (old(badData) || RunsShort(line[1..], effLen))
    {
      hide Crc.Update, Groups, RunsShort;
      var line := stuffed;
      if |line| >= 2 && line[0] == DOT && line[1] == DOT {
        line := line[1..];
      }
      var effLen := DecodeChar(line[0]) as nat;
      if effLen > |line| - 1 {
        effLen := DecodeCharWorkaround(line[0]);
        if effLen > |line| - 1 {
          badData := true;
          return;
        }
      }
      var decoded, short := DecodeGroups(line[1..], effLen);
      if short {
        badData := true;
      }
      Crc.UpdateConcat(0, data, decoded);
      if |decoded| > 0 {
        crc := Crc.UpdateCrc(crc, decoded);
        data := data + decoded;
        bytesProduced := bytesProduced + |decoded|;
      } else {
        assert data + decoded == data;
      }
    }

    /** decodeUU. */
    method DecodeUu(line: seq<byte>)
      requires Accounted()
      modifies this
      ensures Accounted()
      ensures !old(body) && BEGIN <= line ==>
        body && data == old(data) && badData == old(badData) && fileName == NameOn(line)
      ensures !old(body) && !(BEGIN <= line) && !((|line| == 60 || |line| == 61) && line[0] == 77) ==>
        !body && data == old(data) && badData == old(badData) && fileName == old(fileName)
      ensures old(body) || (!(BEGIN <= line) && (|line| == 60 || |line| == 61) && line[0] == 77) ==>
        match KindOf(line)
        case EndOfBody => !body && data == old(data) && badData == old(badData) && fileSize == |data|
        case Junk => body && data == old(data) && badData == old(badData)
        case Bad => body && data == old(data) && badData
        case Data(bytes, short) => body && data == old(data) + bytes && badData == (old(badData) || short)
    {
      hide Crc.Update, Groups, RunsShort, Skip;
      if !body {
        if BEGIN <= line {
          fileName := NameOn(line);
          body := true;
          return;
        }
        if LooksFull(line) {
          body := true;
        }
      }
      if body && (line == [BACKTICK] || line == END_LINE) {
        body := false;
        fileSize := bytesProduced;
        return;
      }
      if body {
        if |line| == 0 || line == SIGNATURE || POSTED_VIA <= line {
          return;
        }
        DecodeDataLine(line);
      }
    }

    /** A body's lines, as the line reader hands them over: every byte that was encoded comes back,
        and nothing is marked bad. */
    method DecodeLines(lines: seq<seq<byte>>, encoded: seq<seq<byte>>)
      requires Accounted() && body
      requires |lines| == |encoded| && forall i :: 0 <= i < |lines| ==> IsUuLine(lines[i], encoded[i])
      modifies this
      ensures Accounted() && body
      ensures data == old(data) + Concat(lines) && badData == old(badData)
    {
      hide Crc.Update, KindOf, IsUuLine, Stuffed;
      assert data + [] == data;
      for i := 0 to |lines|
        invariant Accounted() && body
        invariant data == old(data) + Concat(lines[..i]) && badData == old(badData)
      {
        assert lines[..i + 1][..i] == lines[..i];
        LineRoundTrip(lines[i], encoded[i]);
        DecodeUu(Stuffed(encoded[i]));
        assert old(data) + (Concat(lines[..i]) + lines[i]) == (old(data) + Concat(lines[..i])) + lines[i];
      }
      assert lines[..|lines|] == lines;
    }
  }
}
