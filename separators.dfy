// GroupField.GetSeparatorChar: the separator names a group item may use.

module Separators {
  import Text

  /** KnownItemGroupSeparator, with the characters each name stands for. */
  const EmptySeparator: string := ""
  const SpaceSeparator: string := " "
  const BackslashSeparator: string := "\\"
  const DashSeparator: string := "-"
  const DotSeparator: string := "."
  const CommaSeparator: string := ","
  const ColonSeparator: string := ":"
  const SlashSeparator: string := "/"
  const SemiColonSeparator: string := ";"
  const NewLineSeparator: string := "\n"

  /** The ten names GetSeparatorChar recognises (compared exactly, case-sensitively). */
  predicate IsSeparatorName(s: string)
  {
    s == "None" || s == "Space" || s == "Backslash" || s == "Dash" || s == "Dot" ||
    s == "Comma" || s == "Colon" || s == "Slash" || s == "Semi Colon" || s == "New Line"
  }

  /** GroupField.GetSeparatorChar: a known name gives its separator, of at most
      one character; "None" gives the empty separator; any other text is used as
      the separator itself. */
  function GetSeparatorChar(separator: string): (r: string)
    ensures !IsSeparatorName(separator) ==> r == separator
    ensures IsSeparatorName(separator) ==> |r| <= 1 && r != separator
    ensures separator == "None" <==> r == EmptySeparator && separator != EmptySeparator
  {
    match separator
    case "None" => EmptySeparator
    case "Space" => SpaceSeparator
    case "Backslash" => BackslashSeparator
    case "Dash" => DashSeparator
    case "Dot" => DotSeparator
    case "Comma" => CommaSeparator
    case "Colon" => ColonSeparator
    case "Slash" => SlashSeparator
    case "Semi Colon" => SemiColonSeparator
    case "New Line" => NewLineSeparator
    case _ => separator
  }

  /** A separator is never itself a separator name, so mapping twice is mapping once. */
  lemma GetSeparatorCharIdempotent(separator: string)
    ensures GetSeparatorChar(GetSeparatorChar(separator)) == GetSeparatorChar(separator)
  {
  }

  /** No two separator names differ only in the case of their letters. */
  lemma NamesDifferIgnoringCase(m: string, n: string)
    requires IsSeparatorName(m) && IsSeparatorName(n) && m != n
    ensures !Text.EqualsIgnoreCase(m, n)
  {
    if |m| == |n| {
      assert Text.Upper(m)[0] != Text.Upper(n)[0] || Text.Upper(m)[1] != Text.Upper(n)[1] ||
             Text.Upper(m)[2] != Text.Upper(n)[2];
    }
  }

  /** Matching is case-sensitive: a text that spells a separator name in
      other letter cases, without being that name, is no name at all and is
      used as the separator itself (so "none" and "COMMA" pass through). */
  lemma GetSeparatorCharCaseSensitive(name: string, s: string)
    requires IsSeparatorName(name) && s != name && Text.EqualsIgnoreCase(s, name)
    ensures !IsSeparatorName(s) && GetSeparatorChar(s) == s
  {
    if IsSeparatorName(s) {
      NamesDifferIgnoringCase(s, name);
    }
  }
}
