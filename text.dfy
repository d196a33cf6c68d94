/**
 * The two string helpers of Go's standard library that the book store's
 * checks rely on: strings.TrimSpace (with unicode.IsSpace) and
 * strings.EqualFold. Strings are sequences of Unicode scalar values; the
 * UTF-8 encoding of Go strings is not modelled.
 */
module Text {

  /** unicode.IsSpace: the Latin-1 spaces and the Unicode White_Space characters. */
  predicate IsSpace(c: char) {
    c == ' ' || c == '\t' || c == '\n' || c == '\U{B}' || c == '\U{C}' || c == '\r'
    || c == '\U{85}' || c == '\U{A0}' || c == '\U{1680}'
    || ('\U{2000}' <= c <= '\U{200A}')
    || c == '\U{2028}' || c == '\U{2029}' || c == '\U{202F}' || c == '\U{205F}' || c == '\U{3000}'
  }

  /** Drops the leading white space. */
  function TrimLeft(s: string): string {
    if s != [] && IsSpace(s[0]) then TrimLeft(s[1..]) else s
  }

  /** What TrimLeft keeps is a suffix of `s` that does not start with a space, and all it drops is space. */
  lemma {:induction false} TrimLeftDropsLeadingSpace(s: string)
    ensures var r := TrimLeft(s);
      && |r| <= |s| && r == s[|s| - |r|..]
      && (forall i :: 0 <= i < |s| - |r| ==> IsSpace(s[i]))
      && (r != [] ==> !IsSpace(r[0]))
  {
    if s != [] && IsSpace(s[0]) {
      var t := s[1..];
      TrimLeftDropsLeadingSpace(t);
      var r := TrimLeft(t);
      assert s[|s| - |r|..] == t[|t| - |r|..];
      forall i | 0 <= i < |s| - |r|
        ensures IsSpace(s[i])
      {
        if i > 0 {
          assert s[i] == t[i - 1];
        }
      }
    }
  }

  /** Drops the trailing white space. */
  function TrimRight(s: string): string {
    if s != [] && IsSpace(s[|s| - 1]) then TrimRight(s[..|s| - 1]) else s
  }

  /** What TrimRight keeps is a prefix of `s` that does not end with a space, and all it drops is space. */
  lemma {:induction false} TrimRightDropsTrailingSpace(s: string)
    ensures var r := TrimRight(s);
      && |r| <= |s| && r == s[..|r|]
      && (forall i :: |r| <= i < |s| ==> IsSpace(s[i]))
      && (r != [] ==> !IsSpace(r[|r| - 1]))
  {
    if s != [] && IsSpace(s[|s| - 1]) {
      var t := s[..|s| - 1];
      TrimRightDropsTrailingSpace(t);
      var r := TrimRight(t);
      assert s[..|r|] == t[..|r|];
      forall i | |r| <= i < |s|
        ensures IsSpace(s[i])
      {
        if i < |t| {
          assert s[i] == t[i];
        }
      }
    }
  }

  /** strings.TrimSpace: `s` without its leading and trailing white space. */
  function TrimSpace(s: string): string {
    TrimRight(TrimLeft(s))
  }

  /** main.go's test for a missing field (lines 56, 59): nothing is left after trimming. */
  predicate IsBlank(s: string) {
    TrimSpace(s) == []
  }

  /** A string is blank exactly when every one of its characters is white space. */
  lemma BlankIffAllSpace(s: string)
    ensures IsBlank(s) <==> forall i :: 0 <= i < |s| ==> IsSpace(s[i])
  {
    var l := TrimLeft(s);
    TrimLeftDropsLeadingSpace(s);
    TrimRightDropsTrailingSpace(l);
    if !(forall i :: 0 <= i < |s| ==> IsSpace(s[i])) {
      assert |l| > 0;
    }
  }

  /** `c` and `d` are the upper- and lower-case forms of one ASCII letter, in either order. */
  predicate CasePartners(c: char, d: char) {
    ('A' <= c <= 'Z' && d as int == c as int + 32) || ('A' <= d <= 'Z' && c as int == d as int + 32)
  }

  /** Simple case folding, restricted to ASCII letters. */
  function FoldChar(c: char): (d: char)
    ensures !('A' <= d <= 'Z')
    ensures d == c || CasePartners(c, d)
  {
    if 'A' <= c <= 'Z' then (c as int + 32) as char else c
  }

  /** Two characters fold alike exactly when they are equal or case partners. */
  lemma SameFoldIffCasePartners(c: char, d: char)
    ensures FoldChar(c) == FoldChar(d) <==> c == d || CasePartners(c, d)
  {
    if 'A' <= c <= 'Z' {
      if 'A' <= d <= 'Z' {
        assert FoldChar(c) as int - FoldChar(d) as int == c as int - d as int;
      }
    } else if 'A' <= d <= 'Z' {
      assert FoldChar(d) as int == d as int + 32;
    }
  }

  /** Folding a folded character changes nothing. */
  lemma FoldCharIdempotent(c: char)
    ensures FoldChar(FoldChar(c)) == FoldChar(c)
  {
  }

  /** The case-folded form of a whole string. */
  function Fold(s: string): (r: string)
    ensures |r| == |s|
    ensures forall i :: 0 <= i < |s| ==> !('A' <= r[i] <= 'Z') && (r[i] == s[i] || CasePartners(s[i], r[i]))
  {
    seq(|s|, i requires 0 <= i < |s| => FoldChar(s[i]))
  }

  /** Folding a folded string changes nothing. */
  lemma FoldIdempotent(s: string)
    ensures Fold(Fold(s)) == Fold(s)
  {
    forall i | 0 <= i < |s|
      ensures Fold(Fold(s))[i] == Fold(s)[i]
    {
      FoldCharIdempotent(s[i]);
    }
  }

  /** strings.EqualFold: the two strings match character by character up to case. */
  predicate EqualFold(s: string, t: string) {
    if s == [] || t == [] then s == [] && t == []
    else FoldChar(s[0]) == FoldChar(t[0]) && EqualFold(s[1..], t[1..])
  }

  /** EqualFold compares the folded forms, so it is an equivalence relation. */
  lemma {:induction false} EqualFoldIffSameFold(s: string, t: string)
    ensures EqualFold(s, t) <==> Fold(s) == Fold(t)
    decreases |s|
  {
    if s != [] && t != [] {
      EqualFoldIffSameFold(s[1..], t[1..]);
      assert Fold(s) == [FoldChar(s[0])] + Fold(s[1..]);
      assert Fold(t) == [FoldChar(t[0])] + Fold(t[1..]);
    }
  }

  /**
   * Strings that match up to case have the same length: no trimming takes
   * place, so "Dune " does not match "Dune".
   */
  lemma {:induction false} EqualFoldSameLength(s: string, t: string)
    requires EqualFold(s, t)
    ensures |s| == |t|
    decreases |s|
  {
    if s != [] && t != [] {
      EqualFoldSameLength(s[1..], t[1..]);
    }
  }

  /** Every string matches itself up to case. */
  lemma EqualFoldReflexive(s: string)
    ensures EqualFold(s, s)
  {
    EqualFoldIffSameFold(s, s);
  }

  /** Matching up to case is symmetric and transitive. */
  lemma EqualFoldSymmetricTransitive(s: string, t: string, u: string)
    ensures EqualFold(s, t) ==> EqualFold(t, s)
    ensures EqualFold(s, t) && EqualFold(t, u) ==> EqualFold(s, u)
  {
    EqualFoldIffSameFold(s, t);
    EqualFoldIffSameFold(t, s);
    EqualFoldIffSameFold(t, u);
    EqualFoldIffSameFold(s, u);
  }

  /**
   * The meaning of the match: equal lengths, and at every position the same
   * character or its ASCII case partner.
   */
  lemma {:induction false} EqualFoldIffCasePartners(s: string, t: string)
    ensures EqualFold(s, t) <==> |s| == |t| && forall i :: 0 <= i < |s| ==> s[i] == t[i] || CasePartners(s[i], t[i])
    decreases |s|
  {
    if s != [] && t != [] {
      EqualFoldIffCasePartners(s[1..], t[1..]);
      SameFoldIffCasePartners(s[0], t[0]);
      if |s| == |t| && forall i :: 0 <= i < |s| ==> s[i] == t[i] || CasePartners(s[i], t[i]) {
        forall i | 0 <= i < |s| - 1
          ensures s[1..][i] == t[1..][i] || CasePartners(s[1..][i], t[1..][i])
        {
          assert s[1..][i] == s[i + 1] && t[1..][i] == t[i + 1];
        }
      }
      if EqualFold(s, t) {
        forall i | 0 <= i < |s|
          ensures s[i] == t[i] || CasePartners(s[i], t[i])
        {
          if i > 0 {
            assert s[i] == s[1..][i - 1] && t[i] == t[1..][i - 1];
          }
        }
      }
    }
  }
}
