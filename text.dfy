// The handful of System.String operations the modelled code uses, over
// `string` = `seq<char>`, with the facts about them that the rest of the
// model relies on.

module Text {

  /** Char.IsWhiteSpace: the Unicode space, line and paragraph separators,
      the controls U+0009..U+000D, and U+0085. */
  predicate IsWhiteSpace(c: char)
  {
    var n := c as int;
    n == 0x20 || (0x09 <= n <= 0x0D) || n == 0x85 || n == 0xA0 || n == 0x1680 ||
    (0x2000 <= n <= 0x200A) || n == 0x2028 || n == 0x2029 || n == 0x202F ||
    n == 0x205F || n == 0x3000
  }

  /** String.TrimStart(): drops the longest all-white-space prefix. */
  function TrimStart(s: string): (r: string)
    ensures |r| <= |s| && r == s[|s| - |r|..]
    ensures forall i | 0 <= i < |s| - |r| :: IsWhiteSpace(s[i])
    ensures r == [] || !IsWhiteSpace(r[0])
  {
    if |s| > 0 && IsWhiteSpace(s[0]) then TrimStart(s[1..]) else s
  }

  /** String.TrimEnd(): drops the longest all-white-space suffix. */
  function TrimEnd(s: string): (r: string)
    ensures |r| <= |s| && r == s[..|r|]
    ensures forall i | |r| <= i < |s| :: IsWhiteSpace(s[i])
    ensures r == [] || !IsWhiteSpace(r[|r| - 1])
  {
    if |s| > 0 && IsWhiteSpace(s[|s| - 1]) then TrimEnd(s[..|s| - 1]) else s
  }

  /** String.Trim(): both ends. */
  function Trim(s: string): string
  {
    TrimEnd(TrimStart(s))
  }

  /** `t` occurs in `s` at position `i`. */
  predicate OccursAt(s: string, t: string, i: int)
  {
    0 <= i && i + |t| <= |s| && s[i..i + |t|] == t
  }

  /** String.Contains(string), ordinal. */
  predicate Contains(s: string, t: string)
  {
    exists i | 0 <= i <= |s| - |t| :: OccursAt(s, t, i)
  }

  lemma {:induction false} TrimStartIdempotent(s: string)
    ensures TrimStart(TrimStart(s)) == TrimStart(s)
  {
    var r := TrimStart(s);
    assert r == [] || !IsWhiteSpace(r[0]);
  }

  lemma {:induction false} TrimEndIdempotent(s: string)
    ensures TrimEnd(TrimEnd(s)) == TrimEnd(s)
  {
    var r := TrimEnd(s);
    assert r == [] || !IsWhiteSpace(r[|r| - 1]);
  }

  /** A string that starts with a non-white-space character keeps it under TrimEnd. */
  lemma {:induction false} TrimEndKeepsHead(s: string)
    requires s != [] && !IsWhiteSpace(s[0])
    ensures TrimEnd(s) != [] && TrimEnd(s)[0] == s[0]
  {
    var r := TrimEnd(s);
    assert !IsWhiteSpace(s[0]);
  }

  /** Trim strips white space from both ends, and doing it twice changes nothing. */
  lemma {:induction false} TrimIdempotent(s: string)
    ensures Trim(Trim(s)) == Trim(s)
  {
    var a := TrimStart(s);
    var b := TrimEnd(a);
    if b != [] {
      TrimEndKeepsHead(a);
      assert !IsWhiteSpace(b[0]);
      assert TrimStart(b) == b;
    }
    TrimEndIdempotent(a);
  }

  /** The result of Trim is a contiguous piece of its input. */
  lemma {:induction false} TrimIsSlice(s: string)
    ensures Contains(s, Trim(s)) && |Trim(s)| <= |s|
  {
    var a := TrimStart(s);
    var b := TrimEnd(a);
    var k := |s| - |a|;
    assert b == a[..|b|];
    assert s[k..k + |b|] == b;
    assert OccursAt(s, b, k);
  }

  lemma {:induction false} TrimStartIsSlice(s: string)
    ensures Contains(s, TrimStart(s))
  {
    var r := TrimStart(s);
    assert s[|s| - |r|..|s| - |r| + |r|] == r;
    assert OccursAt(s, r, |s| - |r|);
  }

  lemma {:induction false} TrimEndIsSlice(s: string)
    ensures Contains(s, TrimEnd(s))
  {
    var r := TrimEnd(s);
    assert s[0..0 + |r|] == r;
    assert OccursAt(s, r, 0);
  }

  /** Char.ToUpperInvariant on the ASCII letters; other characters are kept. */
  function UpperChar(c: char): char
  {
    if 'a' <= c <= 'z' then (c as int - 32) as char else c
  }

  /** Char.ToLowerInvariant on the ASCII letters; other characters are kept. */
  function LowerChar(c: char): char
  {
    if 'A' <= c <= 'Z' then (c as int + 32) as char else c
  }

  /** String.ToUpperInvariant (ASCII letters only). */
  function Upper(s: string): (r: string)
    ensures |r| == |s|
  {
    seq(|s|, i requires 0 <= i < |s| => UpperChar(s[i]))
  }

  /** String.ToLowerInvariant (ASCII letters only). */
  function Lower(s: string): (r: string)
    ensures |r| == |s|
  {
    seq(|s|, i requires 0 <= i < |s| => LowerChar(s[i]))
  }

  /** Upper-casing is idempotent: an upper-cased string has no ASCII lower-case letter left. */
  lemma UpperIdempotent(s: string)
    ensures Upper(Upper(s)) == Upper(s)
    ensures forall i | 0 <= i < |s| :: !('a' <= Upper(s)[i] <= 'z')
  {
  }

  /** Upper-casing forgets an earlier lower-casing. */
  lemma UpperOfLower(s: string)
    ensures Upper(Lower(s)) == Upper(s)
  {
  }

  /** String.EqualsIgnoreCase (OrdinalIgnoreCase on ASCII letters). */
  predicate EqualsIgnoreCase(s: string, t: string)
  {
    Upper(s) == Upper(t)
  }

  /** Number of occurrences of `c` in `s`. */
  function Count(s: string, c: char): nat
  {
    multiset(s)[c]
  }

  /** Position of the first `c` in `s`. */
  function IndexOf(s: string, c: char): (i: nat)
    requires c in s
    ensures i < |s| && s[i] == c && c !in s[..i]
  {
    if s[0] == c then 0 else 1 + IndexOf(s[1..], c)
  }

  /** String.Split(char): every piece, empty ones included, in order. */
  function Split(s: string, sep: char): (r: seq<string>)
    ensures |r| >= 1
    ensures forall k | 0 <= k < |r| :: sep !in r[k]
    decreases |s|
  {
    if sep !in s then [s]
    else
      var i := IndexOf(s, sep);
      [s[..i]] + Split(s[i + 1..], sep)
  }

  /** String.Join(char, pieces): the inverse of Split. */
  function Join(pieces: seq<string>, sep: char): string
    requires |pieces| >= 1
  {
    if |pieces| == 1 then pieces[0] else pieces[0] + [sep] + Join(pieces[1..], sep)
  }

  /** Splitting and joining back gives the original string. */
  lemma {:induction false} JoinSplit(s: string, sep: char)
    ensures Join(Split(s, sep), sep) == s
    decreases |s|
  {
    if sep in s {
      var i := IndexOf(s, sep);
      var rest := Split(s[i + 1..], sep);
      var pieces := [s[..i]] + rest;
      assert Split(s, sep) == pieces;
      assert pieces[0] == s[..i] && pieces[1..] == rest;
      JoinSplit(s[i + 1..], sep);
      assert Join(pieces, sep) == s[..i] + [sep] + Join(rest, sep);
      assert s == s[..i] + [sep] + s[i + 1..];
    }
  }

  /** Split yields one more piece than there are separators. */
  lemma {:induction false} SplitCount(s: string, sep: char)
    ensures |Split(s, sep)| == Count(s, sep) + 1
    decreases |s|
  {
    if sep in s {
      var i := IndexOf(s, sep);
      SplitCount(s[i + 1..], sep);
      assert s == s[..i] + [sep] + s[i + 1..];
      assert multiset(s) == multiset(s[..i]) + multiset{sep} + multiset(s[i + 1..]);
    } else {
      assert multiset(s)[sep] == 0;
    }
  }

  /** String.Replace(char, char): every `a` becomes `b`. */
  function ReplaceChar(s: string, a: char, b: char): (r: string)
    ensures |r| == |s|
    ensures forall i | 0 <= i < |s| :: r[i] == (if s[i] == a then b else s[i])
  {
    seq(|s|, i requires 0 <= i < |s| => if s[i] == a then b else s[i])
  }

  /** String.Replace(char, "") : `s` with every `c` removed. */
  function RemoveChar(s: string, c: char): (r: string)
    ensures multiset(r) == multiset(s)[c := 0]
    ensures c !in r
    ensures |r| == |s| - Count(s, c)
  {
    if s == [] then []
    else
      assert s == [s[0]] + s[1..];
      assert multiset(s) == multiset{s[0]} + multiset(s[1..]);
      (if s[0] == c then [] else [s[0]]) + RemoveChar(s[1..], c)
  }

  /** Removing a character keeps the order of the others: it works piece by
      piece over a concatenation. */
  lemma {:induction false} RemoveCharAppend(a: string, b: string, c: char)
    ensures RemoveChar(a + b, c) == RemoveChar(a, c) + RemoveChar(b, c)
  {
    if a == [] {
      assert a + b == b;
    } else {
      var head := RemoveCharHead(a, b, c);
      RemoveCharAppend(a[1..], b, c);
      RegroupConcat(RemoveChar(a + b, c), RemoveChar(a, c), head, RemoveChar(a[1..], c), RemoveChar(b, c));
    }
  }

  /** Concatenation regrouped: `head + (rest + tail)` read as `(head + rest) + tail`. */
  lemma RegroupConcat(whole: string, front: string, head: string, rest: string, tail: string)
    requires whole == head + (rest + tail) && front == head + rest
    ensures whole == front + tail
  {
  }

  /** The first character of a non-empty `a` is kept or dropped on its own,
      alone or followed by `b`. */
  lemma {:induction false} RemoveCharHead(a: string, b: string, c: char) returns (head: string)
    requires a != []
    ensures head == if a[0] == c then [] else [a[0]]
    ensures RemoveChar(a, c) == head + RemoveChar(a[1..], c)
    ensures RemoveChar(a + b, c) == head + RemoveChar(a[1..] + b, c)
  {
    head := if a[0] == c then [] else [a[0]];
    assert (a + b)[0] == a[0];
    assert (a + b)[1..] == a[1..] + b;
  }

  /** String.Replace(string, string), ordinal, left to right and without overlap. */
  function Replace(s: string, pat: string, rep: string): string
    requires |pat| > 0
    decreases |s|
  {
    if |s| == 0 then []
    else if |pat| <= |s| && s[..|pat|] == pat then rep + Replace(s[|pat|..], pat, rep)
    else [s[0]] + Replace(s[1..], pat, rep)
  }

  /** A string without the pattern is left as it is. */
  lemma {:induction false} ReplaceAbsent(s: string, pat: string, rep: string)
    requires |pat| > 0 && !Contains(s, pat)
    ensures Replace(s, pat, rep) == s
    decreases |s|
  {
    if |s| > 0 {
      assert !OccursAt(s, pat, 0);
      assert !Contains(s[1..], pat) by {
        forall i | OccursAt(s[1..], pat, i) ensures OccursAt(s, pat, i + 1) {
          assert s[i + 1..i + 1 + |pat|] == s[1..][i..i + |pat|];
        }
      }
      ReplaceAbsent(s[1..], pat, rep);
    }
  }

  /** A prefix `a` in which no occurrence of the pattern starts is copied as
      it is, and the replacement goes on with the rest. */
  lemma {:induction false} ReplaceAfter(a: string, s: string, pat: string, rep: string)
    requires |pat| > 0
    requires forall i | 0 <= i < |a| :: !OccursAt(a + s, pat, i)
    ensures Replace(a + s, pat, rep) == a + Replace(s, pat, rep)
    decreases |a|
  {
    if a == [] {
      assert a + s == s;
    } else {
      var w := a + s;
      assert !OccursAt(w, pat, 0);
      assert |pat| <= |w| ==> w[..|pat|] == w[0..0 + |pat|];
      assert Replace(w, pat, rep) == [a[0]] + Replace(w[1..], pat, rep);
      assert w[1..] == a[1..] + s;
      forall i | 0 <= i < |a[1..]|
        ensures !OccursAt(a[1..] + s, pat, i)
      {
        assert !OccursAt(w, pat, i + 1);
        if i + |pat| <= |w[1..]| {
          assert w[i + 1..i + 1 + |pat|] == w[1..][i..i + |pat|];
        }
      }
      ReplaceAfter(a[1..], s, pat, rep);
      RegroupConcat(Replace(w, pat, rep), a, [a[0]], a[1..], Replace(s, pat, rep));
    }
  }

  /** Every character of `w[1..]` is a character of `w`. */
  lemma TailChars(w: string)
    requires |w| > 0
    ensures forall c | c in w[1..] :: c in w
  {
    forall c | c in w[1..] ensures c in w {
      var j :| 0 <= j < |w[1..]| && w[1..][j] == c;
      assert w[j + 1] == c;
    }
  }

  /** If the replaced text starts with `w`, and `w` has none of the replacement's
      characters, the original text starts with `w` too. */
  lemma {:induction false} ReplacePrefix(s: string, pat: string, rep: string, w: string)
    requires |pat| > 0 && |rep| > 0
    requires forall c | c in rep :: c !in w
    ensures |w| <= |Replace(s, pat, rep)| && Replace(s, pat, rep)[..|w|] == w ==>
              |w| <= |s| && s[..|w|] == w
    decreases |s|
  {
    var r := Replace(s, pat, rep);
    if |w| > 0 && |s| > 0 {
      if |pat| <= |s| && s[..|pat|] == pat {
        assert r == rep + Replace(s[|pat|..], pat, rep);
        assert r[0] == rep[0];
        assert rep[0] !in w;
      } else {
        var t := Replace(s[1..], pat, rep);
        assert r == [s[0]] + t;
        TailChars(w);
        ReplacePrefix(s[1..], pat, rep, w[1..]);
        if |w| <= |r| && r[..|w|] == w {
          assert t[..|w| - 1] == w[1..];
          assert |w| <= |s|;
          assert s[..|w|] == [s[0]] + s[1..][..|w| - 1];
        }
      }
    }
  }

  /** After Replace the pattern no longer occurs, provided the replacement
      shares no character with the pattern. */
  lemma {:induction false} ReplaceRemovesAll(s: string, pat: string, rep: string)
    requires |pat| > 0 && |rep| > 0
    requires forall c | c in rep :: c !in pat
    ensures !Contains(Replace(s, pat, rep), pat)
    decreases |s|
  {
    var r := Replace(s, pat, rep);
    if |s| > 0 {
      if |pat| <= |s| && s[..|pat|] == pat {
        ReplaceRemovesAll(s[|pat|..], pat, rep);
        var t := Replace(s[|pat|..], pat, rep);
        assert r == rep + t;
        forall i | 0 <= i <= |r| - |pat| ensures !OccursAt(r, pat, i) {
          if i < |rep| {
            assert r[i..i + |pat|][0] == rep[i];
            assert rep[i] in rep;
          } else {
            assert r[i..i + |pat|] == t[i - |rep|..i - |rep| + |pat|];
            assert !OccursAt(t, pat, i - |rep|);
          }
        }
      } else {
        ReplaceRemovesAll(s[1..], pat, rep);
        var t := Replace(s[1..], pat, rep);
        assert r == [s[0]] + t;
        forall i | 0 <= i <= |r| - |pat| ensures !OccursAt(r, pat, i) {
          if i == 0 {
            TailChars(pat);
            ReplacePrefix(s[1..], pat, rep, pat[1..]);
            assert r[..|pat|][1..] == t[..|pat| - 1] && r[0] == s[0];
            assert |pat| <= |s| ==> s[..|pat|] == [s[0]] + s[1..][..|pat| - 1];
          } else {
            assert r[i..i + |pat|] == t[i - 1..i - 1 + |pat|];
            assert !OccursAt(t, pat, i - 1);
          }
        }
      }
    }
  }
}
