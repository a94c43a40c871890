/** URL percent coding: the encoder, and the decoder that rewrites its input in place. */
module UrlCoding {
  import opened BlobFraming

  /** Section 2.3 of RFC 3986: letters, digits, hyphen, period, underscore, tilde. */
  predicate Unreserved(c: Byte) {
    48 <= c <= 57 || 65 <= c <= 90 || 97 <= c <= 122 || c == 45 || c == 46 || c == 95 || c == 126
  }

  /** The same by name. */
  lemma UnreservedCharacters(c: Byte)
    ensures var x := c as char;
      Unreserved(c)
      <==> 'A' <= x <= 'Z' || 'a' <= x <= 'z' || '0' <= x <= '9' || x == '-' || x == '.' || x == '_' || x == '~'
  {
  }

  const PERCENT: Byte := 37

  function HexToStringUpperCase(digit: nat): Byte
    requires digit < 16
  {
    if digit < 10 then 48 + digit else 55 + digit
  }

  /** The parsing table: both cases are read, anything that is no hexadecimal digit counts as zero. */
  function HexParsingValue(c: Byte): nat {
    if 48 <= c <= 57 then c - 48 else if 65 <= c <= 70 then c - 55 else if 97 <= c <= 102 then c - 87 else 0
  }

  function EncodedByte(c: Byte): Bytes {
    if Unreserved(c) then [c] else [PERCENT, HexToStringUpperCase(c / 16), HexToStringUpperCase(c % 16)]
  }

  function UrlEncoded(input: Bytes): Bytes {
    if input == [] then [] else UrlEncoded(input[..|input| - 1]) + EncodedByte(input[|input| - 1])
  }

  /** What decoding gives; it stops at a percent sign without two characters behind it. */
  function Decoded(s: Bytes): Bytes
    decreases |s|
  {
    if s == [] then []
    else if s[0] != PERCENT then [s[0]] + Decoded(s[1..])
    else if |s| > 2 then [HexParsingValue(s[1]) * 16 + HexParsingValue(s[2])] + Decoded(s[3..])
    else []
  }

  /** Section 2.1: only unreserved characters and triples of a percent sign and two upper-case digits. */
  predicate OnlyEncodedOctets(s: Bytes)
    decreases |s|
  {
    s == []
    || (Unreserved(s[0]) && OnlyEncodedOctets(s[1..]))
    || (|s| > 2 && s[0] == PERCENT && IsUpperHex(s[1]) && IsUpperHex(s[2]) && OnlyEncodedOctets(s[3..]))
  }

  predicate IsUpperHex(c: Byte) {
    48 <= c <= 57 || 65 <= c <= 70
  }

  lemma {:induction false} EncodedInFront(c: Byte, input: Bytes)
    ensures UrlEncoded([c] + input) == EncodedByte(c) + UrlEncoded(input)
  {
    var all := [c] + input;
    if input == [] {
      assert all[..0] == [] && UrlEncoded([]) == [] && all[0] == c;
      assert EncodedByte(c) + [] == [] + EncodedByte(c);
    } else {
      assert all[..|all| - 1] == [c] + input[..|input| - 1];
      EncodedInFront(c, input[..|input| - 1]);
    }
  }

  lemma DecodeOne(c: Byte, tail: Bytes)
    ensures Decoded(EncodedByte(c) + tail) == [c] + Decoded(tail)
    ensures OnlyEncodedOctets(tail) ==> OnlyEncodedOctets(EncodedByte(c) + tail)
    ensures 1 <= |EncodedByte(c)| <= 3
  {
    var s := EncodedByte(c) + tail;
    if Unreserved(c) {
      assert s[0] == c && s[1..] == tail;
    } else {
      assert s[0] == PERCENT && s[3..] == tail;
      assert HexParsingValue(s[1]) == c / 16 && HexParsingValue(s[2]) == c % 16;
    }
  }

  /** Decoding undoes encoding; the encoding has only allowed octets and is at most three times as long. */
  lemma {:induction false} DecodeUndoesEncode(input: Bytes)
    ensures Decoded(UrlEncoded(input)) == input && OnlyEncodedOctets(UrlEncoded(input))
    ensures |input| <= |UrlEncoded(input)| <= 3 * |input|
  {
    if input != [] {
      var c, rest := input[0], input[1..];
      assert input == [c] + rest;
      EncodedInFront(c, rest);
      DecodeUndoesEncode(rest);
      DecodeOne(c, UrlEncoded(rest));
    }
  }

  /** Where the encoder writes a text back unchanged: exactly when all its characters are unreserved. */
  lemma {:induction false} EncodesToItself(input: Bytes)
    ensures UrlEncoded(input) == input <==> forall i | 0 <= i < |input| :: Unreserved(input[i])
  {
    if input != [] {
      var front, c := input[..|input| - 1], input[|input| - 1];
      assert input == front + [c];
      EncodesToItself(front);
      DecodeUndoesEncode(front);
      if UrlEncoded(input) == input {
        assert |UrlEncoded(front)| == |front| && |EncodedByte(c)| == 1;
        assert UrlEncoded(front) == UrlEncoded(input)[..|front|] == front;
      }
    }
  }

  function HexToStringLowerCase(digit: nat): Byte
    requires digit < 16
  {
    if digit < 10 then 48 + digit else 87 + digit
  }

  /** Digits of either case are read alike, and nothing else is read as a digit. */
  lemma HexDigitsRead(c: Byte, digit: nat)
    requires digit < 16
    ensures HexParsingValue(HexToStringUpperCase(digit)) == HexParsingValue(HexToStringLowerCase(digit)) == digit
    ensures digit > 0 ==>
      (HexParsingValue(c) == digit <==> c == HexToStringUpperCase(digit) || c == HexToStringLowerCase(digit))
  {
  }

  /** One digit of a triple, in either case. */
  predicate SameDigit(x: Byte, y: Byte) {
    x == y || exists digit: nat | digit < 16 ::
      && (x == HexToStringUpperCase(digit) || x == HexToStringLowerCase(digit))
      && (y == HexToStringUpperCase(digit) || y == HexToStringLowerCase(digit))
  }

  /** Section 2.1: two texts that differ only in the case of the digits behind percent signs. */
  predicate SameTriples(s: Bytes, t: Bytes)
    decreases |s|
  {
    if s == [] || t == [] then s == t
    else if s[0] != PERCENT then t[0] == s[0] && SameTriples(s[1..], t[1..])
    else
      && t[0] == PERCENT && (|s| > 2 <==> |t| > 2)
      && (|s| > 2 ==> SameDigit(s[1], t[1]) && SameDigit(s[2], t[2]) && SameTriples(s[3..], t[3..]))
  }

  /** Such texts are equivalent: they are decoded alike. */
  lemma {:induction false} CaseOfDigitsDoesNotMatter(s: Bytes, t: Bytes)
    requires SameTriples(s, t)
    ensures Decoded(s) == Decoded(t)
    decreases |s|
  {
    if s != [] && t != [] {
      if s[0] != PERCENT {
        CaseOfDigitsDoesNotMatter(s[1..], t[1..]);
      } else if |s| > 2 {
        CaseOfDigitsDoesNotMatter(s[3..], t[3..]);
      }
    }
  }

  lemma {:induction false} DecodedLength(s: Bytes)
    ensures |Decoded(s)| <= |s|
    decreases |s|
  {
    if s != [] {
      if s[0] != PERCENT { DecodedLength(s[1..]); } else if |s| > 2 { DecodedLength(s[3..]); }
    }
  }

  /** A text is left alone by decoding exactly when it has no percent sign, well placed or not. */
  lemma {:induction false} DecodesToItself(s: Bytes)
    ensures Decoded(s) == s <==> forall i | 0 <= i < |s| :: s[i] != PERCENT
    decreases |s|
  {
    if s != [] {
      if s[0] != PERCENT {
        var rest := s[1..];
        DecodesToItself(rest);
        assert s == [s[0]] + rest;
        assert Decoded(s) == s <==> Decoded(rest) == rest by {
          assert Decoded(s)[1..] == Decoded(rest);
        }
        assert forall i | 0 < i < |s| :: s[i] == rest[i - 1];
      } else if |s| > 2 {
        DecodedLength(s[3..]);
      }
    }
  }

  /** percentEncode with the table of reserved characters; nothing is written when the output might be too small. */
  method UrlEncode(input: Bytes, output: array<Byte>) returns (size: nat)
    modifies output
    ensures if 3 * |input| > output.Length then size == 0 && output[..] == old(output[..])
      else size <= output.Length && output[..size] == UrlEncoded(input)
  {
    if |input| * 3 > output.Length { return 0; }
    size := 0;
    for i := 0 to |input|
      invariant size <= 3 * i <= output.Length && output[..size] == UrlEncoded(input[..i])
    {
      assert input[..i + 1][..i] == input[..i];
      var c := input[i];
      if !Unreserved(c) {
        output[size] := PERCENT;
        output[size + 1] := HexToStringUpperCase(c / 16);
        output[size + 2] := HexToStringUpperCase(c % 16);
        assert output[..size + 3] == output[..size] + EncodedByte(c);
        size := size + 3;
      } else {
        output[size] := c;
        assert output[..size + 1] == output[..size] + EncodedByte(c);
        size := size + 1;
      }
    }
    assert input[..|input|] == input;
  }

  lemma DecodeNext(text: Bytes, at: nat, before: Bytes)
    requires at < |text|
    ensures text[at] != PERCENT ==> before + Decoded(text[at..]) == before + [text[at]] + Decoded(text[at + 1..])
    ensures text[at] == PERCENT && at + 2 < |text| ==>
      before + Decoded(text[at..])
      == before + [HexParsingValue(text[at + 1]) * 16 + HexParsingValue(text[at + 2])] + Decoded(text[at + 3..])
    ensures text[at] == PERCENT && at + 2 >= |text| ==> Decoded(text[at..]) == []
  {
    var tail := text[at..];
    assert tail[0] == text[at] && tail[1..] == text[at + 1..];
    if at + 2 < |text| { assert tail[1] == text[at + 1] && tail[2] == text[at + 2] && tail[3..] == text[at + 3..]; }
  }

  /** The write position never passes the read position, so nothing unread is overwritten. */
  method DecodeUrlEncodingInPlace(value: array<Byte>, length: nat) returns (written: nat)
    requires length <= value.Length
    modifies value
    ensures written <= length && value[..written] == Decoded(old(value[..length]))
    ensures value[length..] == old(value[length..])
  {
    var source, size := 0, length;
    written := 0;
    ghost var text := value[..length];
    assert value[..0] + Decoded(text[0..]) == Decoded(text) by { assert text[0..] == text; }
    hide Decoded, HexParsingValue;
    while size > 0
      invariant written <= source <= length && source + size == length
      invariant forall k | source <= k < value.Length :: value[k] == old(value[k])
      invariant value[..written] + Decoded(text[source..]) == Decoded(text)
    {
      DecodeNext(text, source, value[..written]);
      ghost var before := value[..written];
      if value[source] == PERCENT {
        if size > 2 {
          value[written] := HexParsingValue(value[source + 1]) * 16 + HexParsingValue(value[source + 2]);
          size := size - 2;
          source := source + 2;
        } else {
          source, size := length, 0;
          break;
        }
      } else {
        value[written] := value[source];
      }
      assert value[..written + 1] == before + [value[written]];
      size := size - 1;
      written := written + 1;
      source := source + 1;
    }
    DecodedNothing(text);
  }

  lemma DecodedNothing(text: Bytes)
    ensures Decoded(text[|text|..]) == []
  {
  }
}
