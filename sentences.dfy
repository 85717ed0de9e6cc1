/**
  The sentence split of the text stage: `re.split(r'(?<=[.!?])\s+', text)`.
  The pattern matches a run of white space that directly follows `.`, `!` or `?`;
  the run is taken greedily, and the search resumes where the run ends.
 */
module Sentences {
  import opened Text

  predicate IsTerminator(c: char) {
    c == '.' || c == '!' || c == '?'
  }

  /** The pattern can start a match at index `m` of `s`: the look-behind sees a terminator and `\s` sees white space. */
  predicate IsBoundary(s: string, m: int) {
    1 <= m < |s| && IsTerminator(s[m - 1]) && IsSpace(s[m])
  }

  /** `p` holds no place where the pattern could match. */
  predicate NoBoundary(p: string) {
    forall m :: 0 <= m < |p| ==> !IsBoundary(p, m)
  }

  /** The first index at or after `k` where a match can start, or `|s|` when there is none. */
  function NextBoundary(s: string, k: nat): (i: nat)
    ensures i <= |s|
    ensures i < |s| ==> k <= i && IsBoundary(s, i)
    ensures forall m :: k <= m < i ==> !IsBoundary(s, m)
    ensures i == |s| ==> forall m :: k <= m ==> !IsBoundary(s, m)
    decreases |s| - k
  {
    if k >= |s| then |s|
    else if IsBoundary(s, k) then k
    else NextBoundary(s, k + 1)
  }

  /** Where the greedy `\s+` that starts at `i` stops. */
  function RunEnd(s: string, i: nat): (j: nat)
    requires i <= |s|
    ensures i <= j <= |s|
    ensures forall m :: i <= m < j ==> IsSpace(s[m])
    ensures j < |s| ==> !IsSpace(s[j])
    decreases |s| - i
  {
    if i < |s| && IsSpace(s[i]) then RunEnd(s, i + 1) else i
  }

  /** The list `re.split` returns: the pieces between the matches, in order. */
  function Split(s: string): (pieces: seq<string>)
    ensures pieces != [] && pieces[0] <= s
    decreases |s|
  {
    var i := NextBoundary(s, 1);
    if i == |s| then [s]
    else [s[..i]] + Split(s[RunEnd(s, i)..])
  }

  /** The white-space runs `re.split` cut out, in order. */
  ghost function Separators(s: string): seq<string>
    decreases |s|
  {
    var i := NextBoundary(s, 1);
    if i == |s| then []
    else var j := RunEnd(s, i); [s[i..j]] + Separators(s[j..])
  }

  /** `ps[0] + ss[0] + ps[1] + ss[1] + ... + ps[|ss|]` */
  function Interleave(ps: seq<string>, ss: seq<string>): string
    requires |ps| == |ss| + 1
    decreases |ss|
  {
    if ss == [] then ps[0] else ps[0] + ss[0] + Interleave(ps[1..], ss[1..])
  }

  /**
    What it means for `ps` and `ss` to be the sentence split of `s`: pieces and
    separators alternate to give back `s`; no piece holds a place where the pattern
    could match; every piece but the last ends with a terminator; and the separator
    after it is a non-empty run of white space that is maximal, since what follows
    it is empty or does not start with white space.
   */
  ghost predicate IsSentenceSplit(s: string, ps: seq<string>, ss: seq<string>)
    decreases |ss|
  {
    && |ps| == |ss| + 1
    && Interleave(ps, ss) == s
    && NoBoundary(ps[0])
    && (ss != [] ==>
          var rest := Interleave(ps[1..], ss[1..]);
          && ps[0] != [] && IsTerminator(ps[0][|ps[0]| - 1])
          && ss[0] != [] && AllSpace(ss[0])
          && (rest == [] || !IsSpace(rest[0]))
          && IsSentenceSplit(rest, ps[1..], ss[1..]))
  }

  /** `Split` and `Separators` are a sentence split of their input. */
  lemma {:induction false} SplitIsSentenceSplit(s: string)
    ensures IsSentenceSplit(s, Split(s), Separators(s))
    decreases |s|
  {
    var i := NextBoundary(s, 1);
    if i == |s| {
      assert NoBoundary(s);
    } else {
      var j := RunEnd(s, i);
      var rest := s[j..];
      SplitIsSentenceSplit(rest);
      var ps, ss := Split(s), Separators(s);
      assert ps[0] == s[..i] && ps[1..] == Split(rest);
      assert ss[0] == s[i..j] && ss[1..] == Separators(rest);
      assert s == s[..i] + s[i..j] + rest;
      assert s[i..j][0] == s[i];
      assert AllSpace(s[i..j]) by {
        forall m | 0 <= m < j - i ensures IsSpace(s[i..j][m]) {
          assert s[i..j][m] == s[i + m];
        }
      }
      assert NoBoundary(s[..i]) by {
        forall m | 0 <= m < i ensures !IsBoundary(s[..i], m) {
          assert !IsBoundary(s, m);
        }
      }
      assert rest != [] ==> rest[0] == s[j];
    }
  }

  /** A sentence split of `s` is the one `re.split` computes: the split is determined by the text. */
  lemma {:induction false} SentenceSplitUnique(s: string, ps: seq<string>, ss: seq<string>)
    requires IsSentenceSplit(s, ps, ss)
    ensures ps == Split(s) && ss == Separators(s)
    decreases |ss|
  {
    if ss == [] {
      assert NextBoundary(s, 1) == |s|;
    } else {
      var p, sep := ps[0], ss[0];
      var rest := Interleave(ps[1..], ss[1..]);
      var i, j := |p|, |p| + |sep|;
      assert s == p + sep + rest;
      assert s[..i] == p && s[i..j] == sep && s[j..] == rest;
      FirstBoundaryAfterPiece(s, p, sep + rest);
      assert sep + rest == s[i..];
      forall m | i <= m < j ensures IsSpace(s[m]) {
        assert s[m] == sep[m - i];
      }
      assert j < |s| ==> s[j] == rest[0];
      RunEndAt(s, i, j);
      SentenceSplitUnique(rest, ps[1..], ss[1..]);
      assert ps == [p] + ps[1..] && ss == [sep] + ss[1..];
    }
  }

  /** A non-empty piece without matches that ends in a terminator, followed by white space, puts the first match right after it. */
  lemma FirstBoundaryAfterPiece(s: string, p: string, tail: string)
    requires s == p + tail && p != [] && IsTerminator(p[|p| - 1]) && NoBoundary(p)
    requires tail != [] && IsSpace(tail[0])
    ensures NextBoundary(s, 1) == |p|
  {
    assert IsBoundary(s, |p|) by {
      assert s[|p| - 1] == p[|p| - 1] && s[|p|] == tail[0];
    }
    forall m | 1 <= m < |p| ensures !IsBoundary(s, m) {
      assert !IsBoundary(p, m);
      assert s[m - 1] == p[m - 1] && s[m] == p[m];
    }
  }

  /** A run of white space that is followed by something else, or by the end, is where `RunEnd` stops. */
  lemma {:induction false} RunEndAt(s: string, i: nat, j: nat)
    requires i <= j <= |s|
    requires forall m :: i <= m < j ==> IsSpace(s[m])
    requires j < |s| ==> !IsSpace(s[j])
    ensures RunEnd(s, i) == j
    decreases j - i
  {
    if i < j {
      RunEndAt(s, i + 1, j);
    }
  }

  /** Re-joining the pieces with the separators they were split on gives back the text. */
  lemma Reconstruction(s: string)
    ensures |Split(s)| == |Separators(s)| + 1
    ensures Interleave(Split(s), Separators(s)) == s
  {
    SplitIsSentenceSplit(s);
  }

  /** Text without a terminator followed by white space is one piece; `re.split` on empty text gives `['']`. */
  lemma SplitWithoutBoundary(s: string)
    requires NoBoundary(s)
    ensures Split(s) == [s]
  {
    assert NextBoundary(s, 1) == |s|;
  }

  /**
    A terminator and white space at the very end of the text leave an empty last piece,
    so the document gets one more break (`"Hi. "` splits into `"Hi."` and `""`).
   */
  lemma {:induction false} TrailingPieceIsEmpty(x: string, t: string)
    requires x != [] && IsTerminator(x[|x| - 1])
    requires t != [] && AllSpace(t)
    ensures Split(x + t)[|Split(x + t)| - 1] == ""
    decreases |x|
  {
    var s := x + t;
    assert IsBoundary(s, |x|) by {
      assert s[|x| - 1] == x[|x| - 1] && s[|x|] == t[0];
    }
    var i := NextBoundary(s, 1);
    assert i <= |x|;
    var j := RunEnd(s, i);
    assert Split(s) == [s[..i]] + Split(s[j..]);
    if i == |x| {
      forall m | |x| <= m < |s| ensures IsSpace(s[m]) {
        assert s[m] == t[m - |x|];
      }
      RunEndAt(s, i, |s|);
      SplitWithoutBoundary([]);
      assert s[j..] == [];
    } else {
      assert s[|x| - 1] == x[|x| - 1];
      assert j < |x|;
      var y := s[j..|x|];
      assert s[j..] == y + t;
      assert y[|y| - 1] == x[|x| - 1];
      TrailingPieceIsEmpty(y, t);
    }
  }
}
