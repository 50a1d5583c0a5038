/** The base64 text codec of the gateway (RFC 4648 section 4, lines as in RFC 2045 section 6.8). */
module Base64 {
  import opened Arithmetic
  import opened Sequences

  type Byte = n: int | 0 <= n < 256 witness 0

  // ---------------------------------------------------------------------------
  // The alphabet
  // ---------------------------------------------------------------------------

  /** An encoding table and a decoding table, as the two functions hold them. */
  datatype Alphabet = Alphabet(letters: string, codes: seq<nat>) {

    /** The decoding table undoes the encoding table; no letter is padding or a line break. */
    ghost predicate Valid() {
      && |letters| == 64 && '=' as int < |codes|
      && (forall k: nat :: k < 64 ==> IsLetter(letters[k]) && codes[letters[k] as int] == k)
      && (forall c :: 0 <= c < |codes| ==> codes[c] < 64)
    }

    ghost predicate IsLetter(c: char) {
      InTable(c) && c != '=' && c != '\r' && c != '\n'
    }

    predicate InTable(c: char) {
      c as int < |codes|
    }

    /** Every character of a group that is looked up has an entry in the decoding table. */
    predicate Readable(g: string)
      requires |g| == 4
    {
      InTable(g[0]) && InTable(g[1]) && (g[2] == '=' || (InTable(g[2]) && (g[3] == '=' || InTable(g[3]))))
    }
  }

  function Run(first: char, count: nat): string
    requires first as int + count <= 0x80
  {
    seq(count, i requires 0 <= i < count => (first as int + i) as char)
  }

  function Rising(first: nat, count: nat): seq<nat>
  {
    seq(count, i requires 0 <= i < count => first + i)
  }

  function Zeros(count: nat): seq<nat> {
    seq(count, i => 0)
  }

  /** The tables of the two functions: the standard alphabet, 0 for any other character. */
  const STANDARD: Alphabet :=
    Alphabet(
      Run('A', 26) + Run('a', 26) + Run('0', 10) + "+/",
      Zeros(43) + [62] + Zeros(3) + [63] + Rising(52, 10) + Zeros(7) + Rising(0, 26) + Zeros(6) + Rising(26, 26))

  const UPPER := "ABCDEFGHIJKLMNOPQRSTUVWXYZ"
  const LOWER := "abcdefghijklmnopqrstuvwxyz"
  const DIGITS := "0123456789"

  /** The letters in the order of table 1 of RFC 4648. */
  lemma LettersAreStandard()
    ensures STANDARD.letters == UPPER + LOWER + DIGITS + "+/"
  {
    assert Run('A', 26) == UPPER;
    assert Run('a', 26) == LOWER;
    assert Run('0', 10) == DIGITS;
  }

  lemma StandardIsValid()
    ensures STANDARD.Valid() && |STANDARD.codes| == 'z' as int + 1
  {
    forall k: nat | k < 64
      ensures STANDARD.IsLetter(STANDARD.letters[k]) && STANDARD.codes[STANDARD.letters[k] as int] == k {
    }
  }

  // ---------------------------------------------------------------------------
  // Encoding
  // ---------------------------------------------------------------------------

  /** Three bytes as four numbers of six bits. */
  function Sextets(b1: Byte, b2: Byte, b3: Byte): seq<nat> {
    [b1 / 4, b1 % 4 * 16 + b2 / 16, b2 % 16 * 4 + b3 / 64, b3 % 64]
  }

  /** The same 24 bits, most significant first. */
  lemma SextetsHoldTheBits(b1: Byte, b2: Byte, b3: Byte)
    ensures var s := Sextets(b1, b2, b3);
            && (forall k :: 0 <= k < 4 ==> s[k] < 64)
            && s[0] * 0x4_0000 + s[1] * 0x1000 + s[2] * 0x40 + s[3] == b1 * 0x1_0000 + b2 * 0x100 + b3
  {
  }

  /** Four letters for three bytes. */
  function Letters(a: Alphabet, b1: Byte, b2: Byte, b3: Byte): string
    requires |a.letters| == 64
  {
    var s := Sextets(b1, b2, b3);
    [a.letters[s[0]], a.letters[s[1]], a.letters[s[2]], a.letters[s[3]]]
  }

  /** The padded groups for two bytes and for one. */
  function TwoLeft(a: Alphabet, b1: Byte, b2: Byte): string
    requires |a.letters| == 64
  {
    [a.letters[b1 / 4], a.letters[b1 % 4 * 16 + b2 / 16], a.letters[b2 % 16 * 4], '=']
  }

  function OneLeft(a: Alphabet, b1: Byte): string
    requires |a.letters| == 64
  {
    [a.letters[b1 / 4], a.letters[b1 % 4 * 16], '=', '=']
  }

  /** The length of the current line after `groups` groups; a line is full at 76. */
  function Column(groups: nat): nat {
    if groups == 0 || Column(groups - 1) + 4 == 76 then 0 else Column(groups - 1) + 4
  }

  function LineBreak(groups: nat): string {
    if Column(groups) == 0 then "\r\n" else ""
  }

  /** The first `groups` groups of three bytes, a line break after every 19 of them. */
  function Body(a: Alphabet, data: seq<Byte>, groups: nat): string
    requires |a.letters| == 64 && 3 * groups <= |data|
  {
    if groups == 0 then ""
    else
      Body(a, data, groups - 1)
      + Letters(a, data[3 * groups - 3], data[3 * groups - 2], data[3 * groups - 1])
      + LineBreak(groups)
  }

  /**
    * The padded last group. It is written also when no byte is left over; the byte read
    * then is the one after the data, `beyond`.
    */
  function Tail(a: Alphabet, left: seq<Byte>, beyond: Byte): string
    requires |a.letters| == 64 && |left| < 3
  {
    if |left| == 2 then TwoLeft(a, left[0], left[1])
    else OneLeft(a, if |left| == 1 then left[0] else beyond)
  }

  /** The last group of section 4 of RFC 4648: the bits that are missing are zero, and '=' stands for
      each letter that holds none of the data. */
  lemma TailIsPadded(a: Alphabet, left: seq<Byte>, beyond: Byte)
    requires |a.letters| == 64 && 1 <= |left| < 3
    ensures var filled := Letters(a, left[0], if |left| == 2 then left[1] else 0, 0);
            Tail(a, left, beyond) == filled[..|left| + 1] + if |left| == 2 then "=" else "=="
  {
  }

  function LeftOver(data: seq<Byte>): (r: seq<Byte>)
    ensures |r| == |data| % 3 && data == data[..3 * (|data| / 3)] + r
  {
    data[3 * (|data| / 3)..]
  }

  function Encoded(a: Alphabet, data: seq<Byte>, beyond: Byte): string
    requires |a.letters| == 64
  {
    Body(a, data, |data| / 3) + Tail(a, LeftOver(data), beyond)
  }

  lemma BodyStep(a: Alphabet, data: seq<Byte>, i: nat)
    requires |a.letters| == 64 && 3 * i + 3 <= |data|
    ensures Body(a, data, i + 1)
         == Body(a, data, i) + Letters(a, data[3 * i], data[3 * i + 1], data[3 * i + 2]) + LineBreak(i + 1)
  {
    assert 3 * (i + 1) - 3 == 3 * i;
  }

  method EncodeBase(a: Alphabet, data: seq<Byte>, beyond: Byte) returns (text: string)
    requires |a.letters| == 64
    ensures text == Encoded(a, data, beyond)
  {
    text := "";
    var length := 0;
    for i := 0 to |data| / 3
      invariant text == Body(a, data, i) && length == Column(i)
    {
      text := text + Letters(a, data[3 * i], data[3 * i + 1], data[3 * i + 2]);
      length := length + 4;
      BodyStep(a, data, i);
      if length == 76 {
        text := text + "\r\n";
        length := 0;
      }
    }
    var mod := |data| % 3;
    if mod == 2 {
      text := text + TwoLeft(a, data[|data| - 2], data[|data| - 1]);
    } else {
      text := text + OneLeft(a, if mod == 1 then data[|data| - 1] else beyond);
    }
  }

  // ---------------------------------------------------------------------------
  // Decoding
  // ---------------------------------------------------------------------------

  /** The three bytes of a 24-bit value. */
  function Top(value: nat): Byte { value / 0x1_0000 % 256 }

  function Middle(value: nat): Byte { value / 0x100 % 256 }

  function Low(value: nat): Byte { value % 256 }

  /** The bytes one group of four letters stands for; '=' cuts them short. */
  function GroupBytes(a: Alphabet, g: string): seq<Byte>
    requires |g| == 4 && a.Readable(g)
  {
    var value := a.codes[g[0] as int] * 0x4_0000 + a.codes[g[1] as int] * 0x1000;
    if g[2] == '=' then [Top(value)]
    else
      var value2 := value + a.codes[g[2] as int] * 0x40;
      if g[3] == '=' then [Top(value), Middle(value2)]
      else [Top(value), Middle(value2), Low(value2 + a.codes[g[3] as int])]
  }

  predicate IsBreak(c: char) { c == '\r' || c == '\n' }

  function Stripped(text: string): string {
    if text == "" then ""
    else if IsBreak(text[0]) then Stripped(text[1..])
    else [text[0]] + Stripped(text[1..])
  }

  /** Every whole group can be looked up; what is left over at the end may be anything. */
  predicate ReadableGroups(a: Alphabet, letters: string) {
    |letters| < 4 || (a.Readable(letters[..4]) && ReadableGroups(a, letters[4..]))
  }

  predicate Decodable(a: Alphabet, text: string) {
    ReadableGroups(a, Stripped(text))
  }

  /** Whole groups of four; what is left over at the end is dropped. */
  function DecodedGroups(a: Alphabet, letters: string): seq<Byte>
    requires ReadableGroups(a, letters)
  {
    if |letters| < 4 then []
    else GroupBytes(a, letters[..4]) + DecodedGroups(a, letters[4..])
  }

  function Decoded(a: Alphabet, text: string): seq<Byte>
    requires Decodable(a, text)
  {
    DecodedGroups(a, Stripped(text))
  }

  /** Reads the next four letters that are not line breaks. */
  method NextGroup(text: string, start: nat) returns (code: string, i: nat)
    requires start <= |text|
    ensures start <= i <= |text| && |code| <= 4 && (|code| > 0 ==> start < i)
    ensures code + Stripped(text[i..]) == Stripped(text[start..])
    ensures |code| < 4 ==> i == |text|
  {
    code, i := "", start;
    while i < |text| && |code| < 4
      invariant start <= i <= |text| && |code| <= 4 && (|code| > 0 ==> start < i)
      invariant code + Stripped(text[i..]) == Stripped(text[start..])
    {
      var c := text[i];
      assert text[i..][1..] == text[i + 1..];
      ghost var rest := Stripped(text[i + 1..]);
      i := i + 1;
      if !IsBreak(c) {
        assert code + ([c] + rest) == (code + [c]) + rest;
        code := code + [c];
      }
    }
  }

  /** Appends the bytes of one group, stopping at the padding. */
  method AppendGroup(a: Alphabet, decoded: seq<Byte>, code: string) returns (r: seq<Byte>)
    requires |code| == 4 && a.Readable(code)
    ensures r == decoded + GroupBytes(a, code)
  {
    var value := a.codes[code[0] as int] * 0x4_0000 + a.codes[code[1] as int] * 0x1000;
    r := decoded + [Top(value)];
    if code[2] == '=' {
      return;
    }
    value := value + a.codes[code[2] as int] * 0x40;
    r := r + [Middle(value)];
    if code[3] == '=' {
      return;
    }
    value := value + a.codes[code[3] as int];
    r := r + [Low(value)];
  }

  method DecodeBase(a: Alphabet, text: string) returns (decoded: seq<Byte>)
    requires Decodable(a, text)
    ensures decoded == Decoded(a, text)
  {
    decoded := [];
    var i := 0;
    assert text[0..] == text;
    while true
      invariant 0 <= i <= |text| && Decodable(a, text[i..])
      invariant decoded + DecodedGroups(a, Stripped(text[i..])) == Decoded(a, text)
      decreases |text| - i
    {
      ghost var letters := Stripped(text[i..]);
      var code, next := NextGroup(text, i);
      i := next;
      if |code| != 4 { break; }
      assert letters[..4] == code && letters[4..] == Stripped(text[i..]);
      Associate(decoded, GroupBytes(a, code), DecodedGroups(a, letters[4..]));
      decoded := AppendGroup(a, decoded, code);
    }
  }

  // ---------------------------------------------------------------------------
  // Round trip
  // ---------------------------------------------------------------------------

  lemma TopByte(b1: Byte, m: nat)
    requires m < 16
    ensures Top(b1 / 4 * 0x4_0000 + (b1 % 4 * 16 + m) * 0x1000) == b1
  {
    var value := b1 / 4 * 0x4_0000 + (b1 % 4 * 16 + m) * 0x1000;
    assert value == b1 * 0x1_0000 + m * 0x1000;
  }

  lemma MiddleByte(x: nat, b2: Byte, m: nat)
    requires m < 4
    ensures Middle(x * 0x1_0000 + b2 / 16 * 0x1000 + (b2 % 16 * 4 + m) * 0x40) == b2
  {
    var value := x * 0x1_0000 + b2 / 16 * 0x1000 + (b2 % 16 * 4 + m) * 0x40;
    assert value == x * 0x1_0000 + b2 * 0x100 + m * 0x40;
    assert value / 0x100 == x * 0x100 + b2;
  }

  lemma LowByte(x: nat, b3: Byte)
    ensures Low(x * 0x100 + b3 / 64 * 0x40 + b3 % 64) == b3
  {
    assert b3 / 64 * 0x40 + b3 % 64 == b3;
  }

  lemma BytesFromSextets(b1: Byte, b2: Byte, b3: Byte)
    ensures var s := Sextets(b1, b2, b3);
            var v := s[0] * 0x4_0000 + s[1] * 0x1000;
            Top(v) == b1 && Middle(v + s[2] * 0x40) == b2 && Low(v + s[2] * 0x40 + s[3]) == b3
  {
    TopByte(b1, b2 / 16);
    MiddleByte(b1, b2, b3 / 64);
    LowByte(b1 * 0x100 + b2, b3);
  }

  /** Letters and padding only. */
  ghost predicate Printed(a: Alphabet, text: string) {
    forall k :: 0 <= k < |text| ==> a.IsLetter(text[k]) || text[k] == '='
  }

  lemma {:induction false} PrintedIsKept(a: Alphabet, text: string)
    requires a.Valid() && Printed(a, text)
    ensures Stripped(text) == text
  {
    if text != "" {
      PrintedIsKept(a, text[1..]);
      assert text == [text[0]] + text[1..];
    }
  }

  /** One group as a text of its own. */
  lemma SingleGroup(a: Alphabet, text: string)
    requires a.Valid() && |text| == 4 && Printed(a, text)
    ensures a.Readable(text) && ReadableGroups(a, text) && Stripped(text) == text
    ensures DecodedGroups(a, text) == GroupBytes(a, text)
  {
    PrintedIsKept(a, text);
    assert text[..4] == text && text[4..] == "";
  }

  lemma LettersRoundTrip(a: Alphabet, b1: Byte, b2: Byte, b3: Byte)
    requires a.Valid()
    ensures var l := Letters(a, b1, b2, b3);
            Printed(a, l) && a.Readable(l) && GroupBytes(a, l) == [b1, b2, b3]
  {
    var s := Sextets(b1, b2, b3);
    BytesFromSextets(b1, b2, b3);
    SextetsRoundTrip(a, s[0], s[1], s[2], s[3]);
  }

  lemma SextetsRoundTrip(a: Alphabet, s0: nat, s1: nat, s2: nat, s3: nat)
    requires a.Valid() && s0 < 64 && s1 < 64 && s2 < 64 && s3 < 64
    ensures var l := [a.letters[s0], a.letters[s1], a.letters[s2], a.letters[s3]];
            var v := s0 * 0x4_0000 + s1 * 0x1000;
            && Printed(a, l) && a.Readable(l)
            && GroupBytes(a, l) == [Top(v), Middle(v + s2 * 0x40), Low(v + s2 * 0x40 + s3)]
  {
  }

  lemma TailRoundTrip(a: Alphabet, left: seq<Byte>, beyond: Byte)
    requires a.Valid() && |left| < 3
    ensures var t := Tail(a, left, beyond);
            |t| == 4 && Printed(a, t) && a.Readable(t) && GroupBytes(a, t) == left + if left == [] then [beyond] else []
  {
    if |left| == 2 {
      BytesFromSextets(left[0], left[1], 0);
    } else {
      BytesFromSextets(if |left| == 1 then left[0] else beyond, 0, 0);
    }
  }

  lemma {:induction false} StrippedConcat(x: string, y: string)
    ensures Stripped(x + y) == Stripped(x) + Stripped(y)
  {
    if x == "" {
      assert x + y == y;
    } else {
      assert (x + y)[1..] == x[1..] + y;
      StrippedConcat(x[1..], y);
    }
  }

  lemma {:induction false} DecodedConcat(a: Alphabet, x: string, y: string, groups: nat)
    requires |x| == 4 * groups && ReadableGroups(a, x) && ReadableGroups(a, y)
    ensures ReadableGroups(a, x + y)
    ensures DecodedGroups(a, x + y) == DecodedGroups(a, x) + DecodedGroups(a, y)
    decreases groups
  {
    if groups == 0 {
      assert x + y == y;
    } else {
      var first, rest := x[..4], x[4..];
      SplitAtFour(x, y);
      DecodedConcat(a, rest, y, groups - 1);
      Associate(GroupBytes(a, first), DecodedGroups(a, rest), DecodedGroups(a, y));
    }
  }

  lemma SplitAtFour(x: string, y: string)
    requires |x| >= 4
    ensures (x + y)[..4] == x[..4] && (x + y)[4..] == x[4..] + y
  {
  }

  lemma BreakIsStripped(a: Alphabet, groups: nat)
    requires a.Valid()
    ensures Stripped(LineBreak(groups)) == ""
  {
    assert "\r\n"[1..] == "\n" && "\n"[1..] == "";
  }

  lemma {:induction false} BodyRoundTrip(a: Alphabet, data: seq<Byte>, groups: nat)
    requires a.Valid() && 3 * groups <= |data|
    ensures var b := Body(a, data, groups);
            Decodable(a, b) && |Stripped(b)| == 4 * groups && Decoded(a, b) == data[..3 * groups]
  {
    if groups > 0 {
      var i := groups - 1;
      BodyRoundTrip(a, data, i);
      var letters := GroupInBody(a, data, i);
      GroupAppended(a, Body(a, data, i), letters, groups);
      TakeThreeMore(data, i);
    }
  }

  /** What group `i` adds to the text. */
  lemma GroupInBody(a: Alphabet, data: seq<Byte>, i: nat) returns (letters: string)
    requires a.Valid() && 3 * i + 3 <= |data|
    ensures |letters| == 4 && Printed(a, letters) && a.Readable(letters)
    ensures GroupBytes(a, letters) == [data[3 * i], data[3 * i + 1], data[3 * i + 2]]
    ensures Body(a, data, i + 1) == Body(a, data, i) + letters + LineBreak(i + 1)
  {
    letters := Letters(a, data[3 * i], data[3 * i + 1], data[3 * i + 2]);
    BodyStep(a, data, i);
    LettersRoundTrip(a, data[3 * i], data[3 * i + 1], data[3 * i + 2]);
  }

  lemma TakeThreeMore<T>(s: seq<T>, i: nat)
    requires 3 * i + 3 <= |s|
    ensures s[..3 * (i + 1)] == s[..3 * i] + [s[3 * i], s[3 * i + 1], s[3 * i + 2]]
  {
    assert s[..3 * (i + 1)][..3 * i] == s[..3 * i];
  }

  /** One more group of letters at the end of a text decodes to its bytes at the end. */
  lemma GroupAppended(a: Alphabet, before: string, letters: string, groups: nat)
    requires a.Valid() && groups > 0 && Decodable(a, before) && |Stripped(before)| == 4 * (groups - 1)
    requires |letters| == 4 && Printed(a, letters) && a.Readable(letters)
    ensures var t := before + letters + LineBreak(groups);
            && Decodable(a, t) && |Stripped(t)| == 4 * groups
            && Decoded(a, t) == Decoded(a, before) + GroupBytes(a, letters)
  {
    BreakIsStripped(a, groups);
    SingleGroup(a, letters);
    StrippedConcat(before + letters, LineBreak(groups));
    StrippedConcat(before, letters);
    DecodedConcat(a, Stripped(before), letters, groups - 1);
    assert Stripped(before) + letters + "" == Stripped(before) + letters;
  }

  lemma TailInText(a: Alphabet, data: seq<Byte>, beyond: Byte) returns (tail: string)
    requires a.Valid()
    ensures |tail| == 4 && Printed(a, tail) && a.Readable(tail)
    ensures Encoded(a, data, beyond) == Body(a, data, |data| / 3) + tail
    ensures GroupBytes(a, tail) == LeftOver(data) + if |data| % 3 == 0 then [beyond] else []
  {
    tail := Tail(a, LeftOver(data), beyond);
    TailRoundTrip(a, LeftOver(data), beyond);
  }

  lemma TailAppended(a: Alphabet, before: string, tail: string, groups: nat)
    requires a.Valid() && Decodable(a, before) && |Stripped(before)| == 4 * groups
    requires |tail| == 4 && Printed(a, tail) && a.Readable(tail)
    ensures Decodable(a, before + tail)
    ensures Decoded(a, before + tail) == Decoded(a, before) + GroupBytes(a, tail)
  {
    SingleGroup(a, tail);
    StrippedConcat(before, tail);
    DecodedConcat(a, Stripped(before), tail, groups);
  }

  /** Decoding gives the data back, and the byte after it when the length is a multiple of three. */
  lemma RoundTrip(a: Alphabet, data: seq<Byte>, beyond: Byte)
    requires a.Valid()
    ensures Decodable(a, Encoded(a, data, beyond))
    ensures Decoded(a, Encoded(a, data, beyond)) == data + if |data| % 3 == 0 then [beyond] else []
  {
    var groups := |data| / 3;
    var tail := TailInText(a, data, beyond);
    BodyRoundTrip(a, data, groups);
    TailAppended(a, Body(a, data, groups), tail, groups);
    Associate(data[..3 * groups], LeftOver(data), if |data| % 3 == 0 then [beyond] else []);
  }

  /** Exactly which inputs come back unchanged; every input comes back as a prefix. */
  lemma ExactIff(a: Alphabet, data: seq<Byte>, beyond: Byte)
    requires a.Valid()
    ensures Decodable(a, Encoded(a, data, beyond))
    ensures Decoded(a, Encoded(a, data, beyond)) == data <==> |data| % 3 != 0
    ensures data <= Decoded(a, Encoded(a, data, beyond))
  {
    RoundTrip(a, data, beyond);
  }

  // ---------------------------------------------------------------------------
  // Lines
  // ---------------------------------------------------------------------------

  /** Every full line is 76 characters and a CR LF; nothing else is a line break. */
  ghost predicate BrokenAt76(text: string) {
    forall p :: 0 <= p < |text| ==> BreakFits(text[p], p)
  }

  ghost predicate BreakFits(c: char, p: nat) {
    && (c == '\r' <==> p % 78 == 76)
    && (c == '\n' <==> p % 78 == 77)
  }

  lemma {:induction false} ColumnIs(groups: nat)
    ensures Column(groups) == 4 * (groups % 19)
  {
    if groups > 0 {
      ColumnIs(groups - 1);
      NextRemainder(groups - 1);
    }
  }

  lemma NextRemainder(i: nat)
    ensures (i + 1) % 19 == if i % 19 == 18 then 0 else i % 19 + 1
  {
  }

  /** Where the next group goes. */
  function Position(groups: nat): nat {
    78 * (groups / 19) + 4 * (groups % 19)
  }

  lemma PlaceInLine(groups: nat, k: nat)
    requires 4 * (groups % 19) + k < 78
    ensures (Position(groups) + k) % 78 == 4 * (groups % 19) + k
  {
    DivModUnique(Position(groups) + k, groups / 19, 4 * (groups % 19) + k, 78);
  }

  lemma NextPosition(groups: nat)
    ensures Position(groups + 1) == Position(groups) + if groups % 19 == 18 then 6 else 4
  {
  }

  /** Four more letters fit on the line, and a break after them is due exactly at its end. */
  lemma LettersExtend(a: Alphabet, text: string, letters: string, groups: nat)
    requires a.Valid() && BrokenAt76(text) && |text| == Position(groups)
    requires |letters| == 4 && Printed(a, letters)
    ensures BrokenAt76(text + letters)
    ensures var t := text + letters + LineBreak(groups + 1);
            BrokenAt76(t) && |t| == Position(groups + 1)
  {
    var t := text + letters + LineBreak(groups + 1);
    ColumnIs(groups);
    NextPosition(groups);
    forall p | |text| <= p < |t| ensures BreakFits(t[p], p) {
      PlaceInLine(groups, p - |text|);
    }
    assert forall p :: 0 <= p < |text| ==> t[p] == text[p];
    assert forall p :: 0 <= p < |text| + 4 ==> (text + letters)[p] == t[p];
  }

  lemma {:induction false} BodyLines(a: Alphabet, data: seq<Byte>, groups: nat)
    requires a.Valid() && 3 * groups <= |data|
    ensures BrokenAt76(Body(a, data, groups))
    ensures |Body(a, data, groups)| == Position(groups)
  {
    if groups > 0 {
      var i := groups - 1;
      BodyLines(a, data, i);
      var letters := GroupInBody(a, data, i);
      LettersExtend(a, Body(a, data, i), letters, i);
    }
  }

  /** The encoded text: full lines of 76, a last one no longer and not broken off. */
  lemma EncodedLines(a: Alphabet, data: seq<Byte>, beyond: Byte)
    requires a.Valid()
    ensures BrokenAt76(Encoded(a, data, beyond))
    ensures |Encoded(a, data, beyond)| == Position(|data| / 3) + 4
  {
    BodyLines(a, data, |data| / 3);
    var tail := TailInText(a, data, beyond);
    LettersExtend(a, Body(a, data, |data| / 3), tail, |data| / 3);
  }

  // ---------------------------------------------------------------------------
  // Characters used
  // ---------------------------------------------------------------------------

  lemma GroupUses(a: Alphabet, data: seq<Byte>, i: nat, c: char) returns (letters: string)
    requires |a.letters| == 64 && 3 * i + 3 <= |data| && c !in a.letters && !IsBreak(c)
    ensures c !in letters && c !in LineBreak(i + 1)
    ensures Body(a, data, i + 1) == Body(a, data, i) + letters + LineBreak(i + 1)
  {
    letters := Letters(a, data[3 * i], data[3 * i + 1], data[3 * i + 2]);
    BodyStep(a, data, i);
  }

  lemma NotInThree(x: string, y: string, z: string, c: char)
    requires c !in x && c !in y && c !in z
    ensures c !in x + y + z
  {
  }

  lemma {:induction false} BodyUses(a: Alphabet, data: seq<Byte>, groups: nat, c: char)
    requires a.Valid() && 3 * groups <= |data| && c !in a.letters && !IsBreak(c)
    ensures c !in Body(a, data, groups)
  {
    if groups > 0 {
      var i := groups - 1;
      BodyUses(a, data, i, c);
      var letters := GroupUses(a, data, i, c);
      NotInThree(Body(a, data, i), letters, LineBreak(i + 1), c);
    }
  }

  /** The text holds letters, padding and line breaks only. */
  lemma EncodedUses(a: Alphabet, data: seq<Byte>, beyond: Byte, c: char)
    requires a.Valid() && c !in a.letters && c != '=' && !IsBreak(c)
    ensures c !in Encoded(a, data, beyond)
  {
    BodyUses(a, data, |data| / 3, c);
    assert c !in Tail(a, LeftOver(data), beyond);
  }
}
