/**
 * Page-text normalisation: every maximal run of blank characters is replaced
 * by a single space, as the extractor does to a page body before matching
 * its templates against it.
 */
module TextNormalization {

  /**
   * The character class [\s\x00-\x1F]. Java's default \s is [ \t\n\x0B\f\r],
   * so together with the control range the class is exactly U+0000..U+0020.
   */
  predicate IsBlank(c: char) {
    c <= ' '
  }

  /** The suffix of `s` left after its leading blanks. */
  function SkipBlanks(s: string): (r: string)
    ensures |r| <= |s|
    ensures r == [] || !IsBlank(r[0])
  {
    if s != [] && IsBlank(s[0]) then SkipBlanks(s[1..]) else s
  }

  /** What SkipBlanks drops is a run of blanks, and what it keeps is a suffix of its input. */
  lemma {:induction false} SkipBlanksSuffix(s: string)
    ensures SkipBlanks(s) == s[|s| - |SkipBlanks(s)|..]
    ensures forall i | 0 <= i < |s| - |SkipBlanks(s)| :: IsBlank(s[i])
  {
    if s != [] && IsBlank(s[0]) {
      SkipBlanksSuffix(s[1..]);
    }
  }

  /**
   * The normalised text: a left-to-right greedy replacement of each maximal
   * run of blanks by one space. The result is never longer than the input,
   * is empty only for the empty input, and starts with a space exactly when
   * the input starts with a blank.
   */
  function Normalize(s: string): (r: string)
    ensures |r| <= |s|
    ensures r == [] <==> s == []
    ensures r != [] ==> r[0] == if IsBlank(s[0]) then ' ' else s[0]
    decreases |s|
  {
    if s == [] then []
    else if IsBlank(s[0]) then [' '] + Normalize(SkipBlanks(s[1..]))
    else [s[0]] + Normalize(s[1..])
  }

  /**
   * The shape of a normalised text: the only blank it holds is the space
   * (so no character in U+0000..U+001F), and no two blanks are adjacent.
   */
  ghost predicate IsNormal(r: string) {
    (forall i | 0 <= i < |r| :: IsBlank(r[i]) ==> r[i] == ' ') &&
    (forall i | 0 < i < |r| :: !(IsBlank(r[i - 1]) && IsBlank(r[i])))
  }

  /** The characters of `s` that are not blank, in their order. */
  function NonBlanks(s: string): (r: string)
    ensures |r| <= |s|
    ensures forall i | 0 <= i < |r| :: !IsBlank(r[i])
  {
    if s == [] then []
    else if IsBlank(s[0]) then NonBlanks(s[1..])
    else [s[0]] + NonBlanks(s[1..])
  }

  /** Putting one character before a normal text keeps it normal, when the character does not start a second blank. */
  lemma ConsNormal(c: char, rest: string)
    requires IsNormal(rest)
    requires IsBlank(c) ==> c == ' ' && (rest == [] || !IsBlank(rest[0]))
    ensures IsNormal([c] + rest)
  {
    var r := [c] + rest;
    assert forall i | 1 <= i < |r| :: r[i] == rest[i - 1];
  }

  /** Every normalised text has the normal shape. */
  lemma {:induction false} NormalizeIsNormal(s: string)
    ensures IsNormal(Normalize(s))
    decreases |s|
  {
    if s == [] {
    } else if IsBlank(s[0]) {
      var t := SkipBlanks(s[1..]);
      NormalizeIsNormal(t);
      ConsNormal(' ', Normalize(t));
    } else {
      NormalizeIsNormal(s[1..]);
      ConsNormal(s[0], Normalize(s[1..]));
    }
  }

  /** A text of the normal shape is left unchanged by normalisation. */
  lemma {:induction false} NormalIsFixedPoint(r: string)
    requires IsNormal(r)
    ensures Normalize(r) == r
  {
    if r != [] {
      assert IsNormal(r[1..]);
      NormalIsFixedPoint(r[1..]);
      if IsBlank(r[0]) {
        assert r[1..] == [] || !IsBlank(r[1..][0]);
        assert SkipBlanks(r[1..]) == r[1..];
      }
      assert r == [r[0]] + r[1..];
    }
  }

  /** The fixed points of normalisation are exactly the texts of normal shape. */
  lemma {:induction false} FixedPointIffNormal(r: string)
    ensures Normalize(r) == r <==> IsNormal(r)
  {
    NormalizeIsNormal(r);
    if IsNormal(r) {
      NormalIsFixedPoint(r);
    }
  }

  /** Normalisation is idempotent. */
  lemma NormalizeIdempotent(s: string)
    ensures Normalize(Normalize(s)) == Normalize(s)
  {
    NormalizeIsNormal(s);
    NormalIsFixedPoint(Normalize(s));
  }

  lemma {:induction false} NonBlanksOfSkipBlanks(s: string)
    ensures NonBlanks(SkipBlanks(s)) == NonBlanks(s)
  {
    if s != [] && IsBlank(s[0]) {
      NonBlanksOfSkipBlanks(s[1..]);
    }
  }

  /** Normalisation keeps every non-blank character, in its original order. */
  lemma {:induction false} NormalizeKeepsNonBlanks(s: string)
    ensures NonBlanks(Normalize(s)) == NonBlanks(s)
    decreases |s|
  {
    if s == [] {
    } else if IsBlank(s[0]) {
      var t := SkipBlanks(s[1..]);
      NormalizeKeepsNonBlanks(t);
      NonBlanksOfSkipBlanks(s[1..]);
      assert ([' '] + Normalize(t))[1..] == Normalize(t);
    } else {
      NormalizeKeepsNonBlanks(s[1..]);
      assert ([s[0]] + Normalize(s[1..]))[1..] == Normalize(s[1..]);
    }
  }

  /**
   * What position `i` of `s` contributes to the normalised text, judged from
   * that character and its left neighbour alone: a non-blank character is
   * kept, the first blank of a maximal run becomes one space, and every
   * later blank of the run vanishes.
   */
  function Contribution(s: string, i: nat): string
    requires i < |s|
  {
    if !IsBlank(s[i]) then [s[i]]
    else if i > 0 && IsBlank(s[i - 1]) then []
    else [' ']
  }

  /** The contributions of the first `n` positions of `s`, concatenated. */
  function ByPosition(s: string, n: nat): string
    requires n <= |s|
  {
    if n == 0 then [] else ByPosition(s, n - 1) + Contribution(s, n - 1)
  }

  lemma {:induction false} SkipBlanksSnoc(t: string, c: char)
    ensures SkipBlanks(t + [c]) == if SkipBlanks(t) != [] then SkipBlanks(t) + [c] else SkipBlanks([c])
  {
    if t != [] {
      assert (t + [c])[0] == t[0];
      if IsBlank(t[0]) {
        assert (t + [c])[1..] == t[1..] + [c];
        SkipBlanksSnoc(t[1..], c);
      }
    }
  }

  /** The contribution of an appended character depends only on the last character before it. */
  lemma ContributionOfLast(s: string, t: string, c: char)
    requires s != [] && t != [] && s[|s| - 1] == t[|t| - 1]
    ensures Contribution(s + [c], |s|) == Contribution(t + [c], |t|)
  {
    assert (s + [c])[|s|] == c && (s + [c])[|s| - 1] == s[|s| - 1];
    assert (t + [c])[|t|] == c && (t + [c])[|t| - 1] == t[|t| - 1];
  }

  /** Appending one character to the input extends the normalised text by that character's contribution. */
  lemma {:induction false} NormalizeSnoc(s: string, c: char)
    ensures Normalize(s + [c]) == Normalize(s) + Contribution(s + [c], |s|)
    decreases |s|
  {
    if s == [] {
      assert s + [c] == [c];
      assert SkipBlanks([]) == [];
    } else if IsBlank(s[0]) {
      BlankHeadSnoc(s, c);
    } else {
      var t := s[1..];
      assert (s + [c])[1..] == t + [c];
      assert Normalize(s + [c]) == [s[0]] + Normalize(t + [c]);
      NormalizeSnoc(t, c);
      if t != [] {
        ContributionOfLast(s, t, c);
      } else {
        assert s + [c] == [s[0], c];
      }
    }
  }

  lemma {:induction false} BlankHeadSnoc(s: string, c: char)
    requires s != [] && IsBlank(s[0])
    ensures Normalize(s + [c]) == Normalize(s) + Contribution(s + [c], |s|)
    decreases |s|, 0
  {
    var t := s[1..];
    var u := SkipBlanks(t);
    if u == [] {
      AllBlankSnoc(s, c);
    } else {
      assert (s + [c])[1..] == t + [c];
      SkipBlanksSnoc(t, c);
      NormalizeSnoc(u, c);
      SkipBlanksKeepsLast(t);
      assert u[|u| - 1] == s[|s| - 1];
      ContributionOfLast(s, u, c);
      PrependAssoc(' ', Normalize(u), Contribution(u + [c], |u|));
    }
  }

  lemma SkipBlanksKeepsLast(t: string)
    requires SkipBlanks(t) != []
    ensures t != [] && SkipBlanks(t)[|SkipBlanks(t)| - 1] == t[|t| - 1]
  {
    SkipBlanksSuffix(t);
  }

  lemma PrependAssoc(c: char, a: string, b: string)
    ensures [c] + (a + b) == ([c] + a) + b
  {
  }

  /** The case of BlankHeadSnoc where `s` holds nothing but blanks. */
  lemma AllBlankSnoc(s: string, c: char)
    requires s != [] && IsBlank(s[0]) && SkipBlanks(s[1..]) == []
    ensures Normalize(s + [c]) == Normalize(s) + Contribution(s + [c], |s|)
  {
    var t := s[1..];
    assert (s + [c])[1..] == t + [c];
    SkipBlanksSnoc(t, c);
    var v := if IsBlank(c) then [] else [c];
    assert SkipBlanks([c]) == v;
    assert Normalize(v) == v;
    assert Normalize(s + [c]) == [' '] + v;
    assert Normalize(s) == [' '];
    SkipBlanksSuffix(t);
    assert IsBlank(s[|s| - 1]);
    assert Contribution(s + [c], |s|) == v;
  }

  /**
   * Normalisation agrees with the position-by-position reading: each maximal
   * run of blanks contributes exactly one space and every other character is
   * copied through.
   */
  lemma {:induction false} NormalizeByPosition(s: string)
    ensures Normalize(s) == ByPosition(s, |s|)
  {
    PrefixByPosition(s, |s|);
    assert s[..|s|] == s;
  }

  lemma {:induction false} PrefixByPosition(s: string, n: nat)
    requires n <= |s|
    ensures Normalize(s[..n]) == ByPosition(s, n)
  {
    if n > 0 {
      PrefixByPosition(s, n - 1);
      assert s[..n] == s[..n - 1] + [s[n - 1]];
      NormalizeSnoc(s[..n - 1], s[n - 1]);
      assert Contribution(s[..n - 1] + [s[n - 1]], n - 1) == Contribution(s, n - 1);
    }
  }
}
