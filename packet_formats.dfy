// The packed-date input formats of a PacketField: PacketField.GetInputFormat
// and the three re-slicing rules of FieldValue.GetValue / GetRawValue.

module PacketFormats {
  import opened Text

  /** KnownInputPacketFormat: each constant's value is its own name. */
  const ShortDateFormat: string := "ShortDateFormat"
  const LongDateFormat: string := "LongDateFormat"
  const FullDateFormat: string := "FullDateFormat"

  /** PacketField.GetInputFormat: the three known names map to constants
      equal to themselves and anything else passes through, so it is the identity. */
  function GetInputFormat(format: string): (r: string)
    ensures r == format
  {
    if format == "ShortDateFormat" then ShortDateFormat
    else if format == "LongDateFormat" then LongDateFormat
    else if format == "FullDateFormat" then FullDateFormat
    else format
  }

  function Zeros(n: nat): (r: string)
    ensures |r| == n && forall i | 0 <= i < n :: r[i] == '0'
  {
    seq(n, i => '0')
  }

  /** The last `n` characters of `n` zeros followed by `value`. */
  function Adjusted(value: string, n: nat): (r: string)
    ensures |r| == n
    ensures |value| >= n ==> r == value[|value| - n..]
    ensures |value| < n ==> r == Zeros(n - |value|) + value
  {
    var padded := Zeros(n) + value;
    padded[|padded| - n..]
  }

  /** `string.IsNullOrEmpty(v) || v.Trim().Equals("0")`: a packed value with no date in it. */
  predicate IsBlank(v: string)
  {
    v == "" || Trim(v) == "0"
  }

  /** FullDateFormat: "yyyyMMddHHmmss" becomes "dd/MM/yyyy HH:mm:ss". */
  function FormatFull(v: string): (r: string)
    ensures IsBlank(v) <==> r == ""
    ensures !IsBlank(v) ==> |r| == 19 && r[2] == '/' && r[5] == '/' && r[10] == ' ' && r[13] == ':' && r[16] == ':'
  {
    if IsBlank(v) then ""
    else
      var a := Adjusted(v, 14);
      a[6..8] + "/" + a[4..6] + "/" + a[0..4] + " " + a[8..10] + ":" + a[10..12] + ":" + a[12..14]
  }

  /** LongDateFormat: "yyyyMMdd" becomes "yyyy/MM/dd". */
  function FormatLong(v: string): (r: string)
    ensures IsBlank(v) <==> r == ""
    ensures !IsBlank(v) ==> |r| == 10 && r[4] == '/' && r[7] == '/'
  {
    if IsBlank(v) then ""
    else
      var a := Adjusted(v, 8);
      a[0..4] + "/" + a[4..6] + "/" + a[6..8]
  }

  /** ShortDateFormat: "yyMMdd" becomes "yy/MM/dd". */
  function FormatShort(v: string): (r: string)
    ensures IsBlank(v) <==> r == ""
    ensures !IsBlank(v) ==> |r| == 8 && r[2] == '/' && r[5] == '/'
  {
    if IsBlank(v) then ""
    else
      var a := Adjusted(v, 6);
      a[0..2] + "/" + a[2..4] + "/" + a[4..6]
  }

  /** The inner switch of the Packet branch: an unknown input format gives "". */
  function FormatPacket(inputFormat: string, v: string): (r: string)
    ensures (inputFormat != FullDateFormat && inputFormat != LongDateFormat &&
             inputFormat != ShortDateFormat) ==> r == ""
    ensures IsBlank(v) ==> r == ""
  {
    if inputFormat == FullDateFormat then FormatFull(v)
    else if inputFormat == LongDateFormat then FormatLong(v)
    else if inputFormat == ShortDateFormat then FormatShort(v)
    else ""
  }

  /** Reading the digits of a full date back in their packed order. */
  function UnformatFull(r: string): string
    requires |r| == 19
  {
    r[6..10] + r[3..5] + r[0..2] + r[11..13] + r[14..16] + r[17..19]
  }

  /** The full-date layout loses nothing: its digits, read back in packed
      order, are the zero-padded last 14 characters of the input. */
  lemma FullRoundTrip(v: string)
    requires !IsBlank(v)
    ensures UnformatFull(FormatFull(v)) == Adjusted(v, 14)
  {
    FullLayoutRoundTrip(Adjusted(v, 14));
  }

  /** The full-date layout of fourteen digits, read back in packed order. */
  lemma FullLayoutRoundTrip(a: string)
    requires |a| == 14
    ensures UnformatFull(a[6..8] + "/" + a[4..6] + "/" + a[0..4] + " " + a[8..10] + ":" + a[10..12] + ":" + a[12..14]) == a
  {
    var r := a[6..8] + "/" + a[4..6] + "/" + a[0..4] + " " + a[8..10] + ":" + a[10..12] + ":" + a[12..14];
    assert r[6..10] == a[0..4] && r[3..5] == a[4..6] && r[0..2] == a[6..8];
    assert r[11..13] == a[8..10] && r[14..16] == a[10..12] && r[17..19] == a[12..14];
    assert a == a[0..4] + a[4..6] + a[6..8] + a[8..10] + a[10..12] + a[12..14];
  }

  /** Deleting the two '/' of a long date gives the zero-padded last 8 characters. */
  lemma LongRoundTrip(v: string)
    requires !IsBlank(v)
    ensures var r := FormatLong(v); r[..4] + r[5..7] + r[8..] == Adjusted(v, 8)
  {
    SlashLayout(Adjusted(v, 8), 4, 2);
  }

  /** Deleting the two '/' of a short date gives the zero-padded last 6 characters. */
  lemma ShortRoundTrip(v: string)
    requires !IsBlank(v)
    ensures var r := FormatShort(v); r[..2] + r[3..5] + r[6..] == Adjusted(v, 6)
  {
    SlashLayout(Adjusted(v, 6), 2, 2);
  }

  /** Three slices of `a` joined by '/' lose nothing but the separators. */
  lemma SlashLayout(a: string, n: nat, m: nat)
    requires n + m <= |a|
    ensures var r := a[..n] + "/" + a[n..n + m] + "/" + a[n + m..];
            r[..n] + r[n + 1..n + 1 + m] + r[n + m + 2..] == a
  {
    var r := a[..n] + "/" + a[n..n + m] + "/" + a[n + m..];
    assert r[..n] == a[..n] && r[n + 1..n + 1 + m] == a[n..n + m] && r[n + m + 2..] == a[n + m..];
    assert a == a[..n] + a[n..n + m] + a[n + m..];
  }
}
