// FieldValue.ParseFieldName: a field name that starts with one of the
// special characters is encoded as "_xHHHH_" followed by the name without
// that character.

module FieldNames {
  import opened Wrappers
  import opened Text

  /** Encoding.ASCII.GetBytes(c.ToString())[0]: the code of an ASCII
      character, and '?' (0x3F) for any other. */
  function AsciiCode(c: char): (b: nat)
    ensures b < 128
    ensures (c as int) < 128 ==> b == c as int
    ensures (c as int) >= 128 ==> b == 0x3F
  {
    if (c as int) < 128 then c as int else 0x3F
  }

  const HexDigits: string := "0123456789ABCDEF"

  /** `b.ToString("x4").ToUpper()` for a byte. */
  function Hex4(b: nat): (r: string)
    requires b < 256
    ensures |r| == 4 && r[0] == '0' && r[1] == '0'
    ensures forall i | 0 <= i < 4 :: r[i] in HexDigits
  {
    ['0', '0', HexDigits[b / 16], HexDigits[b % 16]]
  }

  /** The value of an upper-case hexadecimal digit. */
  function DigitValue(c: char): nat
  {
    if '0' <= c <= '9' then c as int - '0' as int
    else if 'A' <= c <= 'F' then c as int - 'A' as int + 10
    else 0
  }

  /** The value of a four-digit hexadecimal string. */
  function HexValue(h: string): nat
    requires |h| == 4
  {
    DigitValue(h[0]) * 4096 + DigitValue(h[1]) * 256 + DigitValue(h[2]) * 16 + DigitValue(h[3])
  }

  lemma DigitRoundTrip(d: nat)
    requires d < 16
    ensures DigitValue(HexDigits[d]) == d
  {
  }

  /** The four digits are the code they encode. */
  lemma Hex4RoundTrip(b: nat)
    requires b < 256
    ensures HexValue(Hex4(b)) == b
  {
    DigitRoundTrip(b / 16);
    DigitRoundTrip(b % 16);
  }

  /** The encoding of a name that starts with a special character. */
  function Encoded(value: string): string
    requires |value| > 0
  {
    "_x" + Hex4(AsciiCode(value[0])) + "_" + RemoveChar(value, value[0])
  }

  /** What ParseFieldName returns for a non-null value and list: every special
      character the value starts with is its first character, so the last such
      match and the first give the same encoding. */
  function ParsedName(value: string, specialChars: seq<char>): (r: string)
    ensures !(|value| > 0 && value[0] in specialChars) ==> r == value
    ensures |value| > 0 && value[0] in specialChars ==> |r| >= 7 && r[..2] == "_x" && r[6] == '_'
  {
    if |value| > 0 && value[0] in specialChars then Encoded(value) else value
  }

  /** The encoded name: "_x", four digits that read back as the code of the
      first character, "_", then the name without any occurrence of it. */
  lemma ParsedNameEncoded(value: string, specialChars: seq<char>)
    requires |value| > 0 && value[0] in specialChars
    ensures var r := ParsedName(value, specialChars);
            |r| == |value| - Count(value, value[0]) + 7 &&
            r[..2] == "_x" && r[6] == '_' && value[0] !in r[7..] &&
            r[2..6] == Hex4(AsciiCode(value[0])) && HexValue(r[2..6]) == AsciiCode(value[0]) &&
            r[7..] == RemoveChar(value, value[0])
  {
    var r := ParsedName(value, specialChars);
    Hex4RoundTrip(AsciiCode(value[0]));
    EncodedLayout(r, Hex4(AsciiCode(value[0])), RemoveChar(value, value[0]));
  }

  /** Where the parts of an encoded name sit. */
  lemma EncodedLayout(r: string, digits: string, rest: string)
    requires |digits| == 4 && r == "_x" + digits + "_" + rest
    ensures |r| == |rest| + 7 && r[..2] == "_x" && r[2..6] == digits && r[6] == '_' && r[7..] == rest
  {
  }

  /** FieldValue.ParseFieldName: a null value throws, a null list leaves the
      value as it is, and otherwise the loop over the list keeps the encoding
      of the last special character the value starts with. */
  method ParseFieldName(value: Option<string>, specialChars: Option<seq<char>>) returns (r: Result<string>)
    ensures value.None? ==> r == Fail(ArgumentNull)
    ensures value.Some? && specialChars.None? ==> r == Ok(value.value)
    ensures value.Some? && specialChars.Some? ==> r == Ok(ParsedName(value.value, specialChars.value))
  {
    if value.None? {
      return Fail(ArgumentNull);
    }
    var v := value.value;
    if specialChars.None? {
      return Ok(v);
    }
    var chars := specialChars.value;
    var parsedField := v;
    var i := 0;
    while i < |chars|
      invariant 0 <= i <= |chars|
      invariant parsedField == if |v| > 0 && v[0] in chars[..i] then Encoded(v) else v
    {
      var c := chars[i];
      assert chars[..i + 1] == chars[..i] + [c];
      assert |v| > 0 ==> (v[0] in chars[..i + 1] <==> v[0] in chars[..i] || v[0] == c);
      if |v| > 0 && v[0] == c {
        var cleaned := RemoveChar(v, c);
        parsedField := "_x" + Hex4(AsciiCode(c)) + "_" + cleaned;
        assert parsedField == Encoded(v);
      }
      i := i + 1;
    }
    assert chars[..|chars|] == chars;
    assert parsedField == ParsedName(v, chars);
    return Ok(parsedField);
  }

  /** ParseFieldName as FieldValue.GetValue calls it, with a name and a list. */
  method Parse(value: string, specialChars: seq<char>) returns (r: string)
    ensures r == ParsedName(value, specialChars)
  {
    var p := ParseFieldName(Some(value), Some(specialChars));
    r := p.value;
  }
}
