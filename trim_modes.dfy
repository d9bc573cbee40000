// Piece.ParseValue and GroupItem.ParseValue: the same trim rule, written once.

module TrimModes {
  import opened Text
  import opened Known

  /** The value after the element's Trim/TrimMode settings are applied. */
  function ParseValue(trim: YesNo, mode: KnownTrimMode, value: string): (r: string)
    ensures trim == No ==> r == value
    ensures |r| <= |value|
  {
    if trim != Yes then value
    else
      match mode
      case All =>
        TrimIsSlice(value);
        Trim(value)
      case Start => TrimStart(value)
      case End => TrimEnd(value)
  }

  /** `r` is the slice [k, k + |r|) of `value`, and everything outside that
      slice is white space. */
  predicate Cut(value: string, k: int, r: string)
  {
    0 <= k && k + |r| <= |value| && r == value[k..k + |r|] &&
    (forall i | 0 <= i < k :: IsWhiteSpace(value[i])) &&
    (forall i | k + |r| <= i < |value| :: IsWhiteSpace(value[i]))
  }

  /** The trimmed value is a contiguous part of the value and what is cut
      off is white space: Start keeps a suffix, End keeps a prefix, and All
      keeps the slice that starts after the leading white space. No white
      space is left at an end the mode trims, so the cut parts are the
      longest ones. */
  lemma {:induction false} ParseValueMeaning(trim: YesNo, mode: KnownTrimMode, value: string)
    ensures var r := ParseValue(trim, mode, value);
            Contains(value, r) &&
            (trim == Yes && mode != End && r != [] ==> !IsWhiteSpace(r[0])) &&
            (trim == Yes && mode != Start && r != [] ==> !IsWhiteSpace(r[|r| - 1]))
    ensures var r := ParseValue(trim, mode, value);
            (trim == Yes && mode == Start ==> Cut(value, |value| - |r|, r)) &&
            (trim == Yes && mode == End ==> Cut(value, 0, r)) &&
            (trim == Yes && mode == All ==> Cut(value, |value| - |TrimStart(value)|, r))
  {
    if trim != Yes {
      assert value[0..0 + |value|] == value;
      assert OccursAt(value, value, 0);
    } else {
      match mode
      case All =>
        TrimIsSlice(value);
        TrimEndKeepsHeadAll(value);
        TrimAllCuts(value);
      case Start =>
        TrimStartIsSlice(value);
        TrimStartCuts(value);
      case End =>
        TrimEndIsSlice(value);
        TrimEndCuts(value);
    }
  }

  lemma {:induction false} TrimStartCuts(value: string)
    ensures Cut(value, |value| - |TrimStart(value)|, TrimStart(value))
  {
  }

  lemma {:induction false} TrimEndCuts(value: string)
    ensures Cut(value, 0, TrimEnd(value))
  {
  }

  /** Trim cuts a white-space prefix and a white-space suffix around the
      slice it keeps. */
  lemma {:induction false} TrimAllCuts(value: string)
    ensures Cut(value, |value| - |TrimStart(value)|, Trim(value))
  {
    var a := TrimStart(value);
    CutOfParts(value, |value| - |a|, a, TrimEnd(a));
  }

  /** A white-space suffix cut from a suffix left after a white-space prefix
      was cut leaves a Cut of the whole. */
  lemma {:induction false} CutOfParts(value: string, k: int, a: string, r: string)
    requires 0 <= k <= |value| && a == value[k..] && |r| <= |a| && r == a[..|r|]
    requires forall i | 0 <= i < k :: IsWhiteSpace(value[i])
    requires forall i | |r| <= i < |a| :: IsWhiteSpace(a[i])
    ensures Cut(value, k, r)
  {
    assert r == value[k..k + |r|];
    forall i | k + |r| <= i < |value|
      ensures IsWhiteSpace(value[i])
    {
      assert value[i] == a[i - k];
    }
  }

  /** Trim leaves a non-white-space first character. */
  lemma TrimEndKeepsHeadAll(value: string)
    ensures Trim(value) != [] ==> !IsWhiteSpace(Trim(value)[0])
  {
    var a := TrimStart(value);
    if a != [] {
      TrimEndKeepsHead(a);
    }
  }

  /** Applying the same trim setting twice is the same as applying it once. */
  lemma ParseValueIdempotent(trim: YesNo, mode: KnownTrimMode, value: string)
    ensures ParseValue(trim, mode, ParseValue(trim, mode, value)) == ParseValue(trim, mode, value)
  {
    if trim == Yes {
      match mode
      case All => TrimIdempotent(value);
      case Start => TrimStartIdempotent(value);
      case End => TrimEndIdempotent(value);
    }
  }
}
