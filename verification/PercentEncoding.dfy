/** Percent-encoding of the bytes that a character set marks, and percent-decoding
    (src/util/ada_url.cpp). A C++ char is a byte, so the texts here hold characters below 256. */
module PercentEncoding {

  ghost predicate Bytes(s: string) {
    forall i :: 0 <= i < |s| ==> s[i] as int < 256
  }

  function HexDigit(d: nat): char
    requires d < 16
  {
    if d < 10 then '0' + d as char else 'A' + (d - 10) as char
  }

  function EncodeByte(c: char): string
    requires c as int < 256
  {
    ['%', HexDigit(c as int / 16), HexDigit(c as int % 16)]
  }

  function Encode(s: string, marked: char -> bool): string
    requires Bytes(s)
  {
    if s == "" then ""
    else (if marked(s[0]) then EncodeByte(s[0]) else [s[0]]) + Encode(s[1..], marked)
  }

  lemma {:induction false} EncodeAppend(s: string, t: string, marked: char -> bool)
    requires Bytes(s) && Bytes(t)
    ensures Bytes(s + t) && Encode(s + t, marked) == Encode(s, marked) + Encode(t, marked)
  {
    if s == "" {
      assert s + t == t;
    } else {
      assert (s + t)[1..] == s[1..] + t;
      EncodeAppend(s[1..], t, marked);
    }
  }

  lemma {:induction false} EncodeUnmarked(s: string, marked: char -> bool)
    requires Bytes(s) && forall i :: 0 <= i < |s| ==> !marked(s[i])
    ensures Encode(s, marked) == s
  {
    if s != "" { EncodeUnmarked(s[1..], marked); }
  }

  /** The position of the first marked byte, or the length. */
  method PercentEncodeIndex(s: string, marked: char -> bool) returns (idx: nat)
    requires Bytes(s)
    ensures idx <= |s|
    ensures forall i :: 0 <= i < idx ==> !marked(s[i])
    ensures idx < |s| ==> marked(s[idx])
    ensures Bytes(s[idx..]) && Encode(s, marked) == s[..idx] + Encode(s[idx..], marked)
  {
    idx := 0;
    while idx < |s| && !marked(s[idx])
      invariant idx <= |s|
      invariant forall i :: 0 <= i < idx ==> !marked(s[i])
    {
      idx := idx + 1;
    }
    assert s == s[..idx] + s[idx..];
    EncodeAppend(s[..idx], s[idx..], marked);
    EncodeUnmarked(s[..idx], marked);
  }

  /** The overload that appends to a buffer: false, and no change, when nothing is marked. */
  method PercentEncodeAppend(s: string, marked: char -> bool, out: string)
    returns (required: bool, result: string)
    requires Bytes(s)
    ensures required ==> result == out + Encode(s, marked)
    ensures !required ==> result == out && Encode(s, marked) == s
  {
    var pointer := PercentEncodeIndex(s, marked);
    if pointer == |s| {
      assert s[..pointer] == s;
      return false, out;
    }
    result := out + s[..pointer];
    ghost var start, front := pointer, result;
    hide Encode, EncodeByte;
    assert Encode("", marked) == "" by { EncodeNothing(marked); }
    while pointer < |s|
      invariant start <= pointer <= |s|
      invariant result == front + Encode(s[start..pointer], marked)
    {
      EncodeOneMore(s, start, pointer, marked);
      var piece := if marked(s[pointer]) then EncodeByte(s[pointer]) else [s[pointer]];
      Associate(front, Encode(s[start..pointer], marked), piece);
      result := result + piece;
      pointer := pointer + 1;
    }
    assert s[start..pointer] == s[start..];
    Associate(out, s[..start], Encode(s[start..], marked));
    return true, result;
  }

  lemma Associate(a: string, b: string, c: string)
    ensures a + b + c == a + (b + c)
  {
  }

  lemma EncodeNothing(marked: char -> bool)
    ensures Encode("", marked) == ""
  {
  }

  lemma EncodeOneMore(s: string, start: nat, pointer: nat, marked: char -> bool)
    requires start <= pointer < |s| && Bytes(s)
    ensures Bytes(s[start..pointer]) && Bytes(s[start..pointer + 1])
    ensures Encode(s[start..pointer + 1], marked) ==
      Encode(s[start..pointer], marked) + if marked(s[pointer]) then EncodeByte(s[pointer]) else [s[pointer]]
  {
    EncodeAppend(s[start..pointer], [s[pointer]], marked);
    assert s[start..pointer + 1] == s[start..pointer] + [s[pointer]];
    assert [s[pointer]][1..] == "";
    EncodeNothing(marked);
    assert Encode([s[pointer]], marked) == (if marked(s[pointer]) then EncodeByte(s[pointer]) else [s[pointer]]) + "";
  }

  /** The overload that builds a string of its own. */
  method PercentEncode(s: string, marked: char -> bool) returns (result: string)
    requires Bytes(s)
    ensures result == Encode(s, marked)
  {
    var required, encoded := PercentEncodeAppend(s, marked, "");
    result := if required then encoded else s;
  }

  // ---------------------------------------------------------------- decoding

  predicate IsHex(c: char) {
    '0' <= c <= '9' || 'A' <= c <= 'F' || 'a' <= c <= 'f'
  }

  /** The entries of the table that convert_hex_to_binary looks up, for the digits and both cases. */
  function HexValue(c: char): (d: nat)
    requires IsHex(c)
    ensures d < 16
  {
    var i := c as int - '0' as int;
    if i < 10 then i else if i < 23 then i - 7 else i - 39
  }

  /** The digits are read in capitals and small letters, and nothing else is a digit. */
  lemma HexDigitsRead(c: char)
    ensures IsHex(c) <==> exists d: nat :: d < 16 && (c == "0123456789ABCDEF"[d] || c == "0123456789abcdef"[d])
    ensures forall d: nat :: d < 16 ==>
      HexValue("0123456789ABCDEF"[d]) == d && HexValue("0123456789abcdef"[d]) == d
  {
    if IsHex(c) { assert c == "0123456789ABCDEF"[HexValue(c)] || c == "0123456789abcdef"[HexValue(c)]; }
  }

  predicate EscapeAt(s: string, i: nat) {
    i + 2 < |s| && s[i] == '%' && IsHex(s[i + 1]) && IsHex(s[i + 2])
  }

  function Decode(s: string): string {
    if s == "" then ""
    else if EscapeAt(s, 0) then [(HexValue(s[1]) * 16 + HexValue(s[2])) as char] + Decode(s[3..])
    else [s[0]] + Decode(s[1..])
  }

  lemma DecodeFrom(s: string, i: nat)
    requires i < |s|
    ensures Decode(s[i..]) ==
      if EscapeAt(s, i) then [(HexValue(s[i + 1]) * 16 + HexValue(s[i + 2])) as char] + Decode(s[i + 3..])
      else [s[i]] + Decode(s[i + 1..])
  {
    hide HexValue;
    assert s[i..][1..] == s[i + 1..];
    if EscapeAt(s, i) { assert s[i..][3..] == s[i + 3..]; }
  }

  /** `firstPercent` is where the caller has found a "%", or -1 if there is none; nothing is decoded
      ahead of it. */
  method PercentDecode(s: string, firstPercent: int) returns (result: string)
    requires -1 <= firstPercent <= |s|
    ensures firstPercent == -1 ==> result == s
    ensures firstPercent != -1 ==> result == s[..firstPercent] + Decode(s[firstPercent..])
  {
    if firstPercent == -1 {
      return s;
    }
    hide Decode, HexValue;
    result := s[..firstPercent];
    var pointer := firstPercent;
    ghost var whole := result + Decode(s[firstPercent..]);
    assert Decode("") == "" by { DecodeNothing(); }
    while pointer < |s|
      invariant firstPercent <= pointer <= |s|
      invariant whole == result + Decode(s[pointer..])
    {
      DecodeFrom(s, pointer);
      if EscapeAt(s, pointer) {
        var c := (HexValue(s[pointer + 1]) * 16 + HexValue(s[pointer + 2])) as char;
        Associate(result, [c], Decode(s[pointer + 3..]));
        result := result + [c];
        pointer := pointer + 3;
      } else {
        Associate(result, [s[pointer]], Decode(s[pointer + 1..]));
        result := result + [s[pointer]];
        pointer := pointer + 1;
      }
    }
  }

  lemma DecodeNothing()
    ensures Decode("") == ""
  {
  }

  /** Ahead of the first "%" there is nothing to decode: with that hint the result is the decoding. */
  lemma {:induction false} NothingToDecode(s: string, i: nat)
    requires i <= |s| && forall j :: 0 <= j < i ==> s[j] != '%'
    ensures s[..i] + Decode(s[i..]) == Decode(s)
  {
    hide Decode, HexValue;
    if i > 0 {
      NothingToDecode(s, i - 1);
      DecodeFrom(s, i - 1);
      assert s[..i] == s[..i - 1] + [s[i - 1]];
    }
  }

  /** An escape is a "%" and two digits, in capitals, of the byte. */
  lemma EscapeOfByte(c: char)
    requires c as int < 256
    ensures var e := EncodeByte(c);
      && |e| == 3 && e[0] == '%'
      && (forall i :: 1 <= i < 3 ==> '0' <= e[i] <= '9' || 'A' <= e[i] <= 'F')
      && EscapeAt(e, 0) && HexValue(e[1]) * 16 + HexValue(e[2]) == c as int
  {
    HexDigitReads(c as int / 16);
    HexDigitReads(c as int % 16);
  }

  lemma HexDigitReads(d: nat)
    requires d < 16
    ensures '0' <= HexDigit(d) <= '9' || 'A' <= HexDigit(d) <= 'F'
    ensures HexValue(HexDigit(d)) == d
  {
  }

  /** An unmarked "%" with two unmarked hexadecimal digits behind it: it stays, and is then read as
      an escape. */
  ghost predicate FalseEscape(s: string, marked: char -> bool, i: nat) {
    EscapeAt(s, i) && !marked(s[i]) && !marked(s[i + 1]) && !marked(s[i + 2])
  }

  lemma EncodeFirst(s: string, marked: char -> bool)
    requires Bytes(s) && s != ""
    ensures Bytes(s[1..])
    ensures Encode(s, marked) == (if marked(s[0]) then EncodeByte(s[0]) else [s[0]]) + Encode(s[1..], marked)
  {
  }

  /** What the encoding of a text starts with. */
  lemma EncodeStarts(s: string, marked: char -> bool)
    requires Bytes(s)
    ensures Encode(s, marked) == "" <==> s == ""
    ensures s != "" ==> Encode(s, marked)[0] == if marked(s[0]) then '%' else s[0]
  {
  }

  lemma EscapeKept(s: string, marked: char -> bool)
    requires Bytes(s) && s != "" && !marked(s[0])
    ensures EscapeAt(Encode(s, marked), 0) <==> FalseEscape(s, marked, 0)
  {
    hide EncodeByte, Encode;
    EncodeFirst(s, marked);
    EncodeStarts(s[1..], marked);
    if |s| > 1 && !marked(s[1]) {
      EncodeFirst(s[1..], marked);
      assert s[1..][1..] == s[2..];
      EncodeStarts(s[2..], marked);
      assert Encode(s, marked) == [s[0], s[1]] + Encode(s[2..], marked);
    }
  }

  /** The first byte of a text comes back from its encoding, if no false escape starts there. */
  lemma FirstByteReadsBack(s: string, marked: char -> bool)
    requires Bytes(s) && s != "" && !FalseEscape(s, marked, 0)
    ensures Decode(Encode(s, marked)) == [s[0]] + Decode(Encode(s[1..], marked))
  {
    hide EncodeByte, HexValue, Encode;
    EncodeFirst(s, marked);
    var e, rest := Encode(s, marked), Encode(s[1..], marked);
    if marked(s[0]) {
      EscapeOfByte(s[0]);
      var b := EncodeByte(s[0]);
      assert e[0] == b[0] && e[1] == b[1] && e[2] == b[2] && e[3..] == rest;
    } else {
      EscapeKept(s, marked);
      assert e[0] == s[0] && e[1..] == rest;
    }
  }

  /** Decoding an encoding never gives more than the text. */
  lemma {:induction false} DecodedLength(s: string, marked: char -> bool)
    requires Bytes(s)
    ensures |Decode(Encode(s, marked))| <= |s|
    decreases |s|
  {
    hide EncodeByte, HexValue, Encode;
    if s == "" {
      EncodeStarts(s, marked);
    } else if FalseEscape(s, marked, 0) {
      FalseEscapeReads(s, marked);
      DecodedLength(s[3..], marked);
    } else {
      FirstByteReadsBack(s, marked);
      DecodedLength(s[1..], marked);
    }
  }

  lemma FalseEscapeReads(s: string, marked: char -> bool)
    requires Bytes(s) && FalseEscape(s, marked, 0)
    ensures |Decode(Encode(s, marked))| == 1 + |Decode(Encode(s[3..], marked))|
  {
    hide EncodeByte, HexValue, Encode;
    EncodeFirst(s, marked);
    EncodeFirst(s[1..], marked);
    EncodeFirst(s[2..], marked);
    assert s[1..][1..] == s[2..] && s[2..][1..] == s[3..];
    var e := Encode(s, marked);
    assert e == [s[0], s[1], s[2]] + Encode(s[3..], marked);
    assert e[3..] == Encode(s[3..], marked);
  }

  /** Decoding gives an encoded text back if and only if no unmarked "%" has two unmarked
      hexadecimal digits behind it, so always where "%" is marked. */
  lemma {:induction false} EncodedReadsBackWhen(s: string, marked: char -> bool)
    requires Bytes(s)
    ensures Decode(Encode(s, marked)) == s <==> forall i: nat :: !FalseEscape(s, marked, i)
    decreases |s|
  {
    hide EncodeByte, HexValue, Encode, EscapeAt;
    if s == "" {
      EncodeStarts(s, marked);
      assert forall i: nat :: !FalseEscape(s, marked, i) by { NoEscapeInNothing(marked); }
    } else if FalseEscape(s, marked, 0) {
      FalseEscapeReads(s, marked);
      EscapeIsLong(s, marked);
      DecodedLength(s[3..], marked);
    } else {
      FirstByteReadsBack(s, marked);
      EncodedReadsBackWhen(s[1..], marked);
      var rest := s[1..];
      assert s == [s[0]] + rest;
      forall i: nat ensures FalseEscape(s, marked, i + 1) <==> FalseEscape(rest, marked, i) {
        EscapeFurther(s, marked, i);
      }
      if i: nat :| FalseEscape(s, marked, i) {
        assert FalseEscape(rest, marked, i - 1);
      }
    }
  }

  lemma NoEscapeInNothing(marked: char -> bool)
    ensures forall i: nat :: !FalseEscape("", marked, i)
  {
  }

  lemma EscapeIsLong(s: string, marked: char -> bool)
    requires FalseEscape(s, marked, 0)
    ensures |s| >= 3
  {
  }

  lemma EscapeFurther(s: string, marked: char -> bool, i: nat)
    requires s != ""
    ensures FalseEscape(s, marked, i + 1) <==> FalseEscape(s[1..], marked, i)
  {
  }
}
