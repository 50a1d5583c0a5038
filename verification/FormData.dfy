/** Form fields of a POST body: finding one, undoing its percent-encoding, decoding its base64. */
module FormData {
  import opened Wrappers
  import opened Sequences
  import opened Base64

  // ---------------------------------------------------------------------------
  // Percent-encoding
  // ---------------------------------------------------------------------------

  /** The value of a hexadecimal digit, -1 for any other character. */
  function CharDec(c: char): int {
    if '0' <= c <= '9' then c as int - '0' as int
    else if 'a' <= c <= 'f' then c as int - 'a' as int + 10
    else if 'A' <= c <= 'F' then c as int - 'A' as int + 10
    else -1
  }

  /** The character made of two digits; a number below 0 wraps around to a byte. */
  function Unhex(high: char, low: char): char {
    ((CharDec(high) * 16 + CharDec(low)) % 256) as char
  }

  const LOWER_DIGITS := "0123456789abcdef"
  const UPPER_DIGITS := "0123456789ABCDEF"

  /** Exactly the digits of base 16, in either case, have a value: their place. */
  lemma CharDecIs(c: char)
    ensures CharDec(c) >= 0 <==> c in LOWER_DIGITS || c in UPPER_DIGITS
    ensures forall n :: 0 <= n < 16 && (c == LOWER_DIGITS[n] || c == UPPER_DIGITS[n]) ==> CharDec(c) == n
  {
    var n := CharDec(c);
    assert n >= 0 ==> c == LOWER_DIGITS[n] || c == UPPER_DIGITS[n];
  }

  /** What an escape with a wrong digit is read as: the value of the good one, off by a fixed number. */
  lemma WrongDigits(high: char, low: char)
    ensures CharDec(high) < 0 && CharDec(low) >= 0 ==> Unhex(high, low) as int == 240 + CharDec(low)
    ensures CharDec(high) > 0 && CharDec(low) < 0 ==> Unhex(high, low) as int == 16 * CharDec(high) - 1
    ensures CharDec(high) == 0 && CharDec(low) < 0 ==> Unhex(high, low) as int == 255
    ensures CharDec(high) < 0 && CharDec(low) < 0 ==> Unhex(high, low) as int == 239
  {
  }

  /**
    * No '%' is the last character: the two characters after it are read without a check.
    * The terminating NUL still is there to be read.
    */
  predicate EscapesEnd(text: string) {
    if text == "" then true
    else if text[0] != '%' then EscapesEnd(text[1..])
    else |text| == 2 || (|text| > 2 && EscapesEnd(text[3..]))
  }

  function Unescaped(text: string): string
    requires EscapesEnd(text)
  {
    if text == "" then ""
    else if text[0] != '%' then [text[0]] + Unescaped(text[1..])
    else if |text| == 2 then [Unhex(text[1], '\0')]
    else [Unhex(text[1], text[2])] + Unescaped(text[3..])
  }

  method DeData(text: string) returns (result: string)
    requires EscapesEnd(text)
    ensures result == Unescaped(text)
  {
    result := "";
    var i := 0;
    assert text[0..] == text;
    while i < |text|
      invariant 0 <= i && (i <= |text| ==> EscapesEnd(text[i..]))
      invariant i <= |text| ==> result + Unescaped(text[i..]) == Unescaped(text)
      invariant i > |text| ==> result == Unescaped(text)
    {
      ghost var before, rest := result, text[i..];
      var data := text[i];
      if data != '%' {
        assert rest[1..] == text[i + 1..];
        result := result + [data];
        assert result + Unescaped(rest[1..]) == before + Unescaped(rest);
      } else {
        var data1 := text[i + 1];
        var data0 := if i + 2 < |text| then text[i + 2] else '\0';
        assert |rest| > 2 ==> rest[3..] == text[i + 3..];
        i := i + 2;
        result := result + [Unhex(data1, data0)];
        assert |rest| > 2 ==> result + Unescaped(rest[3..]) == before + Unescaped(rest);
      }
      i := i + 1;
    }
    assert i == |text| ==> text[i..] == "";
  }

  /** How a client may write one character. */
  datatype Style = Literal | Upper | Lower

  function HexDigit(n: nat, style: Style): char
    requires n < 16
  {
    if n < 10 then ('0' as int + n) as char
    else ((if style.Lower? then 'a' as int else 'A' as int) + (n - 10)) as char
  }

  /** Section 2.1 of RFC 3986; '%' itself is never left as it is. */
  function EscapedChar(c: char, style: Style): string
    requires c as int < 256
  {
    if style.Literal? && c != '%' then [c]
    else ['%', HexDigit(c as int / 16, style), HexDigit(c as int % 16, style)]
  }

  ghost predicate Bytes(text: string) {
    forall k :: 0 <= k < |text| ==> text[k] as int < 256
  }

  function Escaped(text: string, styles: seq<Style>): string
    requires Bytes(text) && |styles| == |text|
  {
    if text == "" then ""
    else EscapedChar(text[0], styles[0]) + Escaped(text[1..], styles[1..])
  }

  lemma UnhexUndoes(c: char, style: Style)
    requires c as int < 256
    ensures Unhex(HexDigit(c as int / 16, style), HexDigit(c as int % 16, style)) == c
  {
  }

  /** Whatever mix of literal characters and escapes a client sends, the text comes back. */
  lemma {:induction false} EscapeRoundTrip(text: string, styles: seq<Style>)
    requires Bytes(text) && |styles| == |text|
    ensures EscapesEnd(Escaped(text, styles))
    ensures Unescaped(Escaped(text, styles)) == text
  {
    if text != "" {
      EscapeRoundTrip(text[1..], styles[1..]);
      UnhexUndoes(text[0], styles[0]);
      var first, rest := EscapedChar(text[0], styles[0]), Escaped(text[1..], styles[1..]);
      assert (first + rest)[|first|..] == rest;
      assert text == [text[0]] + text[1..];
    }
  }

  /** The encoding uses no ampersand unless the text holds a literal one. */
  lemma {:induction false} EscapedHasNoAmpersand(text: string, styles: seq<Style>)
    requires Bytes(text) && |styles| == |text|
    requires forall k :: 0 <= k < |text| ==> text[k] != '&'
    ensures '&' !in Escaped(text, styles)
  {
    if text != "" {
      EscapedHasNoAmpersand(text[1..], styles[1..]);
    }
  }

  // ---------------------------------------------------------------------------
  // Finding a field
  // ---------------------------------------------------------------------------

  predicate OccursAt(text: string, key: string, k: nat) {
    k + |key| <= |text| && text[k..k + |key|] == key
  }

  /** The first occurrence at or after `from`. */
  function Find(text: string, key: string, from: nat): (r: Option<nat>)
    requires from <= |text|
    ensures r.None? ==> forall k :: from <= k ==> !OccursAt(text, key, k)
    ensures r.Some? ==> from <= r.value && OccursAt(text, key, r.value)
    ensures r.Some? ==> forall k :: from <= k < r.value ==> !OccursAt(text, key, k)
    decreases |text| - from
  {
    if OccursAt(text, key, from) then Some(from)
    else if from == |text| then None
    else Find(text, key, from + 1)
  }

  /** Everything between the first `name=` and the ampersand after it. */
  function GetData(post: string, name: string): string {
    var key := name + "=";
    match Find(post, key, 0)
    case None => ""
    case Some(start) =>
      var sub := post[start..];
      match Find(sub, "&", 0)
      case None => post[start + |key|..]
      case Some(end) =>
        // a count below 0 is a huge one, which reaches to the end
        if end < |key| then post[start + |key|..] else post[start + |key|..start + end]
  }

  /** The key of a field also ends or lies inside what comes before the field. */
  ghost predicate KeyEarlier(prefix: string, name: string) {
    exists k :: 0 <= k < |prefix| && OccursAt(prefix + (name + "="), name + "=", k)
  }

  /** An occurrence that starts before the field ends before its value, whatever follows. */
  lemma OccursEarlier(prefix: string, key: string, more: string, k: nat)
    requires k < |prefix|
    ensures OccursAt(prefix + key + more, key, k) <==> OccursAt(prefix + key, key, k)
  {
    assert (prefix + key + more)[k..k + |key|] == (prefix + key)[k..k + |key|];
  }

  /** The value after an occurrence of the key ends at the first ampersand after it. */
  lemma GetDataFrom(post: string, name: string, k: nat, end: nat)
    requires '&' !in name && OccursAt(post, name + "=", k)
    requires forall i :: 0 <= i < k ==> !OccursAt(post, name + "=", i)
    requires k + |name| + 1 <= end <= |post| && (end == |post| || post[end] == '&')
    requires forall i :: k + |name| + 1 <= i < end ==> post[i] != '&'
    ensures GetData(post, name) == post[k + |name| + 1..end]
  {
    var key := name + "=";
    assert Find(post, key, 0) == Some(k);
    var sub := post[k..];
    forall i | 0 <= i < end - k ensures !OccursAt(sub, "&", i) {
      assert sub[i] == post[k + i];
      if i < |key| {
        assert post[k + i] == post[k..k + |key|][i] == key[i];
      }
      assert sub[i..i + 1][0] == sub[i];
    }
    if end < |post| {
      assert sub[end - k] == '&';
      assert OccursAt(sub, "&", end - k);
    }
  }

  /** Without the key there is no value. */
  lemma NoKeyNoValue(post: string, name: string)
    requires forall i :: 0 <= i < |post| ==> !OccursAt(post, name + "=", i)
    ensures GetData(post, name) == ""
  {
    assert !OccursAt(post, name + "=", |post|);
  }

  /** A name that holds an ampersand ends its own field: its value is all that follows the key. */
  lemma AmpersandInName(post: string, name: string, k: nat)
    requires '&' in name && OccursAt(post, name + "=", k)
    requires forall i :: 0 <= i < k ==> !OccursAt(post, name + "=", i)
    ensures GetData(post, name) == post[k + |name| + 1..]
  {
    var key := name + "=";
    assert Find(post, key, 0) == Some(k);
    var sub := post[k..];
    var i :| 0 <= i < |name| && name[i] == '&';
    assert sub[i] == post[k..k + |key|][i] == '&';
    assert OccursAt(sub, "&", i);
  }

  /** A field is found when its key does not already occur further left. */
  lemma GetDataFinds(prefix: string, name: string, value: string, rest: string)
    requires '&' !in name && '&' !in value && (rest == "" || rest[0] == '&')
    requires !KeyEarlier(prefix, name)
    ensures GetData(prefix + (name + "=") + value + rest, name) == value
  {
    var key := name + "=";
    var post := prefix + key + value + rest;
    assert post == prefix + key + (value + rest);
    assert post[|prefix|..|prefix| + |key|] == key;
    forall i | 0 <= i < |prefix| ensures !OccursAt(post, key, i) {
      OccursEarlier(prefix, key, value + rest, i);
    }
    var start := |prefix + key|;
    assert post[start..start + |value|] == value;
    assert forall i :: start <= i < start + |value| ==> post[i] == value[i - start];
    GetDataFrom(post, name, |prefix|, start + |value|);
  }

  /** The first place where the key occurs, if it occurs at all. */
  lemma {:induction false} FirstOccurrence(text: string, key: string, k: nat) returns (first: nat)
    requires OccursAt(text, key, k) && k <= |text|
    ensures first <= k && OccursAt(text, key, first)
    ensures forall i :: 0 <= i < first ==> !OccursAt(text, key, i)
  {
    first := Find(text, key, 0).value;
  }

  /** Where the value found ends: at an ampersand before the field, or at the end of its value. */
  lemma {:induction false} ValueEnd(text: string, from: nat) returns (end: nat)
    requires from <= |text|
    ensures from <= end <= |text| && (end == |text| || text[end] == '&')
    ensures '&' !in text[from..end] && forall i :: from <= i < end ==> text[i] != '&'
    decreases |text| - from
  {
    if from == |text| || text[from] == '&' {
      end := from;
    } else {
      end := ValueEnd(text, from + 1);
    }
  }

  /** With the key further left, what is found does not depend on the value. */
  lemma EarlierKeyHides(prefix: string, name: string, rest: string) returns (value: string)
    requires '&' !in name && (rest == "" || rest[0] == '&') && KeyEarlier(prefix, name)
    ensures '&' !in value && GetData(prefix + (name + "=") + value + rest, name) != value
  {
    var first, end := EarlierField(prefix, name);
    var head := prefix + (name + "=");
    var found := head[first + |name| + 1..end];
    value := if end < |head| then found + "x" else "";
    FoundInstead(prefix, name, value + rest, first, end);
    Associate(head, value, rest);
  }

  /** Where the key occurs first and where the value after it ends, as far as the text before the value goes. */
  lemma EarlierField(prefix: string, name: string) returns (first: nat, end: nat)
    requires KeyEarlier(prefix, name)
    ensures first < |prefix| && EarlierAt(prefix, name, first, end)
    ensures '&' !in (prefix + (name + "="))[first + |name| + 1..end]
  {
    var key := name + "=";
    var k :| 0 <= k < |prefix| && OccursAt(prefix + key, key, k);
    first := FirstOccurrence(prefix + key, key, k);
    end := ValueEnd(prefix + key, first + |key|);
  }

  /** The key occurs first at `first`, and `end` is the ampersand after it or the end. */
  ghost predicate EarlierAt(prefix: string, name: string, first: nat, end: nat) {
    var key := name + "=";
    var head := prefix + key;
    && OccursAt(head, key, first) && (forall i :: 0 <= i < first ==> !OccursAt(head, key, i))
    && first + |key| <= end <= |head| && (end < |head| ==> head[end] == '&')
    && (forall i :: first + |key| <= i < end ==> head[i] != '&')
  }

  /** Nothing after the key of the field moves an earlier occurrence or what follows it. */
  lemma FoundInstead(prefix: string, name: string, more: string, first: nat, end: nat)
    requires '&' !in name && first < |prefix| && EarlierAt(prefix, name, first, end)
    requires end == |prefix + (name + "=")| && more != "" ==> more[0] == '&'
    ensures var head := prefix + (name + "=");
            GetData(head + more, name) == head[first + |name| + 1..end]
  {
    var key := name + "=";
    var head := prefix + key;
    var post := head + more;
    forall i | 0 <= i <= first ensures OccursAt(post, key, i) <==> OccursAt(head, key, i) {
      OccursEarlier(prefix, key, more, i);
    }
    assert forall i :: 0 <= i < |head| ==> post[i] == head[i];
    GetDataFrom(post, name, first, end);
    assert post[first + |key|..end] == head[first + |key|..end];
  }

  /** Exactly when a field comes back whatever its value: its key does not occur further left. */
  lemma GetDataFindsIff(prefix: string, name: string, rest: string)
    requires '&' !in name && (rest == "" || rest[0] == '&')
    ensures (forall value | '&' !in value :: GetData(prefix + (name + "=") + value + rest, name) == value)
       <==> !KeyEarlier(prefix, name)
  {
    if KeyEarlier(prefix, name) {
      var value := EarlierKeyHides(prefix, name, rest);
    } else {
      forall value | '&' !in value ensures GetData(prefix + (name + "=") + value + rest, name) == value {
        GetDataFinds(prefix, name, value, rest);
      }
    }
  }

  /** The search does not stop at the start of a field: a longer name hides a shorter one. */
  lemma LongerNameHides()
    ensures GetData("myname=1&name=2", "name") == "1"
    ensures KeyEarlier("myname=1&", "name")
  {
    assert ("myname=1&" + ("name" + "="))[2..7] == "name" + "=";
    assert OccursAt("myname=1&" + ("name" + "="), "name" + "=", 2);
    var post, key := "myname=1&name=2", "name" + "=";
    assert key == "name=" && post[2..7] == key;
    OtherCharacter(post, key, 0);
    OtherCharacter(post, key, 1);
    GetDataFrom(post, "name", 2, 8);
    assert post[7..8] == "1";
  }

  lemma OtherCharacter(text: string, key: string, k: nat)
    requires k < |text| && key != "" && text[k] != key[0]
    ensures !OccursAt(text, key, k)
  {
    assert k + |key| <= |text| ==> text[k..k + |key|][0] == text[k];
  }

  lemma StandardHasNoAmpersand()
    ensures '&' !in STANDARD.letters
  {
  }

  /** The text a file is sent as. */
  function FileText(data: seq<Byte>, beyond: Byte): (r: string)
    ensures Bytes(r)
  {
    EncodedIsBytes(data, beyond);
    Encoded(STANDARD, data, beyond)
  }

  lemma EncodedIsBytes(data: seq<Byte>, beyond: Byte)
    ensures Bytes(Encoded(STANDARD, data, beyond))
  {
    var text := Encoded(STANDARD, data, beyond);
    StandardIsValid();
    forall k | 0 <= k < |text| ensures text[k] as int < 256 {
      if text[k] != '=' && !IsBreak(text[k]) {
        if text[k] !in STANDARD.letters { EncodedUses(STANDARD, data, beyond, text[k]); }
        var i :| 0 <= i < 64 && STANDARD.letters[i] == text[k];
        assert STANDARD.IsLetter(STANDARD.letters[i]);
      }
    }
  }

  /**
    * A file sent as a form field: encoded as base64, percent-encoded in any style, put
    * after any other fields that do not hold its key.
    */
  lemma UploadRoundTrip(prefix: string, name: string, data: seq<Byte>, beyond: Byte, styles: seq<Style>, rest: string)
    requires |styles| == |FileText(data, beyond)|
    requires '&' !in name && (rest == "" || rest[0] == '&')
    requires !KeyEarlier(prefix, name)
    ensures var value := GetData(prefix + (name + "=") + Escaped(FileText(data, beyond), styles) + rest, name);
            && EscapesEnd(value)
            && Decodable(STANDARD, Unescaped(value))
            && Decoded(STANDARD, Unescaped(value)) == data + if |data| % 3 == 0 then [beyond] else []
  {
    var text := FileText(data, beyond);
    StandardIsValid();
    StandardHasNoAmpersand();
    EncodedUses(STANDARD, data, beyond, '&');
    EscapedHasNoAmpersand(text, styles);
    GetDataFinds(prefix, name, Escaped(text, styles), rest);
    EscapeRoundTrip(text, styles);
    RoundTrip(STANDARD, data, beyond);
  }
}
