/**
  The string operations of Python that the two stages use: `str.isspace` (which is
  also what the regular expression `\s` and `str.strip()` mean by white space),
  `str.endswith`, `str.replace` and `str.strip`.
 */
module Text {

  /** Python's white space: the characters for which `str.isspace()` is true. */
  predicate IsSpace(c: char) {
    var n := c as int;
    (0x09 <= n <= 0x0D) || (0x1C <= n <= 0x20) || n == 0x85 || n == 0xA0 || n == 0x1680
    || (0x2000 <= n <= 0x200A) || n == 0x2028 || n == 0x2029 || n == 0x202F || n == 0x205F
    || n == 0x3000
  }

  predicate AllSpace(s: string) {
    forall k :: 0 <= k < |s| ==> IsSpace(s[k])
  }

  /** `s.endswith(suffix)` */
  predicate EndsWith(s: string, suffix: string) {
    |suffix| <= |s| && s[|s| - |suffix|..] == suffix
  }

  /** `pat` occurs in `s` starting at index `i`. */
  predicate OccursAt(s: string, pat: string, i: int) {
    0 <= i && i + |pat| <= |s| && s[i..i + |pat|] == pat
  }

  /** `pat` occurs nowhere in `s`. */
  predicate Free(s: string, pat: string) {
    forall i :: 0 <= i < |s| ==> !OccursAt(s, pat, i)
  }

  /** No proper prefix of `pat` is also a suffix of it, so two occurrences never overlap. */
  predicate Borderless(pat: string) {
    forall k :: 0 < k < |pat| ==> pat[..k] != pat[|pat| - k..]
  }

  /**
    `s.replace(pat, rep)`: scan from the left and replace every non-overlapping
    occurrence of `pat`; an empty `pat` matches before every character and at the end.
   */
  function ReplaceAll(s: string, pat: string, rep: string): string
    decreases |s|
  {
    if pat == [] then
      if s == [] then rep else rep + [s[0]] + ReplaceAll(s[1..], pat, rep)
    else if |s| < |pat| then s
    else if s[..|pat|] == pat then rep + ReplaceAll(s[|pat|..], pat, rep)
    else [s[0]] + ReplaceAll(s[1..], pat, rep)
  }

  /** A string without an occurrence of `pat` is left as it is. */
  lemma {:induction false} ReplaceAllFree(s: string, pat: string, rep: string)
    requires pat != [] && Free(s, pat)
    ensures ReplaceAll(s, pat, rep) == s
    decreases |s|
  {
    if |s| >= |pat| {
      assert !OccursAt(s, pat, 0);
      forall i ensures !OccursAt(s[1..], pat, i) {
        if OccursAt(s[1..], pat, i) {
          assert s[i + 1..i + 1 + |pat|] == s[1..][i..i + |pat|];
          assert OccursAt(s, pat, i + 1);
        }
      }
      ReplaceAllFree(s[1..], pat, rep);
    }
  }

  /**
    The first occurrence of `pat` is replaced, and the scan goes on after it: when
    `pat` does not start anywhere inside `a`, `a + pat + b` becomes `a + rep` followed
    by the replacement of `b`.
   */
  lemma {:induction false} ReplaceAllFirst(a: string, b: string, pat: string, rep: string)
    requires pat != []
    requires forall i :: 0 <= i < |a| ==> !OccursAt(a + pat, pat, i)
    ensures ReplaceAll(a + pat + b, pat, rep) == a + rep + ReplaceAll(b, pat, rep)
    decreases |a|
  {
    var s := a + pat + b;
    if a == [] {
      assert s[..|pat|] == pat && s[|pat|..] == b;
    } else {
      OccursBeforeTail(a, pat, b, 0);
      assert !OccursAt(s, pat, 0);
      assert ReplaceAll(s, pat, rep) == [s[0]] + ReplaceAll(s[1..], pat, rep);
      assert s[1..] == a[1..] + pat + b;
      assert (a + pat)[1..] == a[1..] + pat;
      forall i | 0 <= i < |a| - 1 ensures !OccursAt(a[1..] + pat, pat, i) {
        OccursAfterFirst(a + pat, pat, i);
        assert !OccursAt(a + pat, pat, i + 1);
      }
      ReplaceAllFirst(a[1..], b, pat, rep);
      assert [a[0]] + a[1..] == a;
    }
  }

  /** An occurrence that starts inside `a` ends inside `a + pat`, whatever follows. */
  lemma OccursBeforeTail(a: string, pat: string, b: string, i: int)
    ensures 0 <= i < |a| && OccursAt(a + pat + b, pat, i) ==> OccursAt(a + pat, pat, i)
  {
    if 0 <= i < |a| && OccursAt(a + pat + b, pat, i) {
      assert (a + pat + b)[i..i + |pat|] == (a + pat)[i..i + |pat|];
    }
  }

  /** A `pat` whose first character occurs nowhere else in it has no border. */
  lemma BorderlessByLead(pat: string)
    requires pat != [] && forall k :: 0 < k < |pat| ==> pat[k] != pat[0]
    ensures Borderless(pat)
  {
    forall k | 0 < k < |pat| ensures pat[..k] != pat[|pat| - k..] {
      assert pat[..k][0] == pat[0] && pat[|pat| - k..][0] == pat[|pat| - k];
    }
  }

  /** Dropping the first character shifts every occurrence one place to the left. */
  lemma OccursAfterFirst(s: string, pat: string, i: int)
    requires s != [] && 0 <= i
    ensures OccursAt(s[1..], pat, i) <==> OccursAt(s, pat, i + 1)
  {
    if i + |pat| <= |s| - 1 {
      assert s[1..][i..i + |pat|] == s[i + 1..i + 1 + |pat|];
    }
  }

  /** The naming law: a name that ends in `pat`, and holds it nowhere else, keeps its stem and gets `rep` as its new ending. */
  lemma ReplaceSuffix(base: string, pat: string, rep: string)
    requires pat != []
    requires forall i :: 0 <= i < |base| ==> !OccursAt(base + pat, pat, i)
    ensures ReplaceAll(base + pat, pat, rep) == base + rep
  {
    ReplaceAllFirst(base, [], pat, rep);
    assert base + pat + [] == base + pat;
  }

  /** For a borderless `pat`, an occurrence in `base + pat` that starts inside `base` lies wholly inside `base`. */
  lemma NoStraddle(base: string, pat: string)
    requires pat != [] && Borderless(pat) && Free(base, pat)
    ensures forall i :: 0 <= i < |base| ==> !OccursAt(base + pat, pat, i)
  {
    forall i | 0 <= i < |base| ensures !OccursAt(base + pat, pat, i) {
      OccurrenceInPrefix(base, pat, i);
    }
  }

  /** Where an occurrence of `pat` in `base + pat` that starts at `i` inside `base` comes from. */
  lemma OccurrenceInPrefix(base: string, pat: string, i: int)
    ensures OccursAt(base + pat, pat, i) && i + |pat| <= |base| ==> OccursAt(base, pat, i)
    ensures OccursAt(base + pat, pat, i) && i < |base| < i + |pat|
            ==> pat[..i + |pat| - |base|] == pat[|base| - i..]
  {
    var s := base + pat;
    if OccursAt(s, pat, i) {
      if i + |pat| <= |base| {
        assert s[i..i + |pat|] == base[i..i + |pat|];
      } else if i < |base| {
        var k := i + |pat| - |base|;
        assert pat[..k] == s[|base|..i + |pat|];
        assert pat[|base| - i..] == s[|base|..i + |pat|];
      }
    }
  }

  /** When `rep` is longer than `pat`, replacing never shortens, and lengthens as soon as `pat` occurs. */
  lemma {:induction false} ReplaceAllGrows(s: string, pat: string, rep: string)
    requires 0 < |pat| < |rep|
    ensures |ReplaceAll(s, pat, rep)| >= |s|
    ensures (exists i :: OccursAt(s, pat, i)) ==> |ReplaceAll(s, pat, rep)| > |s|
    decreases |s|
  {
    if |s| >= |pat| {
      if s[..|pat|] == pat {
        ReplaceAllGrows(s[|pat|..], pat, rep);
      } else {
        ReplaceAllGrows(s[1..], pat, rep);
        if exists i :: OccursAt(s, pat, i) {
          var i :| OccursAt(s, pat, i);
          assert i != 0;
          assert s[1..][i - 1..i - 1 + |pat|] == s[i..i + |pat|];
          assert OccursAt(s[1..], pat, i - 1);
        }
      }
    }
  }

  /** A name that ends in a borderless `pat` ends in `rep` after the replacement: the final occurrence is always reached. */
  lemma {:induction false} ReplaceAllEndsWith(s: string, pat: string, rep: string)
    requires pat != [] && Borderless(pat) && EndsWith(s, pat)
    ensures EndsWith(ReplaceAll(s, pat, rep), rep)
    decreases |s|
  {
    if s[..|pat|] == pat {
      if |s| == |pat| {
        assert ReplaceAll(s, pat, rep) == rep + ReplaceAll([], pat, rep);
      } else {
        OverlapBorder(s, pat);
        var rest := s[|pat|..];
        assert rest[|rest| - |pat|..] == s[|s| - |pat|..];
        ReplaceAllEndsWith(rest, pat, rep);
      }
    } else {
      assert s[1..][|s| - 1 - |pat|..] == s[|s| - |pat|..];
      ReplaceAllEndsWith(s[1..], pat, rep);
    }
  }

  /** An occurrence at the start and one at the end of `s` that overlap make a border of `pat`. */
  lemma OverlapBorder(s: string, pat: string)
    ensures EndsWith(s, pat) && s[..|pat|] == pat && |pat| < |s| < 2 * |pat|
            ==> pat[..2 * |pat| - |s|] == pat[|s| - |pat|..]
  {
    if EndsWith(s, pat) && s[..|pat|] == pat && |pat| < |s| < 2 * |pat| {
      var k := |s| - |pat|;
      assert pat[k..] == s[k..|pat|];
      assert s[k..|pat|] == pat[..|pat| - k];
    }
  }

  /** `s.count(pat)` for a non-empty `pat`: the occurrences the same left-to-right scan finds. */
  function Count(s: string, pat: string): nat
    requires pat != []
    decreases |s|
  {
    if |s| < |pat| then 0
    else if s[..|pat|] == pat then 1 + Count(s[|pat|..], pat)
    else Count(s[1..], pat)
  }

  /** `s.lstrip()`: `s` without its leading white space. */
  function LStrip(s: string): string
  {
    if s != [] && IsSpace(s[0]) then LStrip(s[1..]) else s
  }

  /** `s.rstrip()`: `s` without its trailing white space. */
  function RStrip(s: string): string
  {
    if s != [] && IsSpace(s[|s| - 1]) then RStrip(s[..|s| - 1]) else s
  }

  /** `s.strip()`: `s` without its leading and trailing white space. */
  function Strip(s: string): string
  {
    RStrip(LStrip(s))
  }

  /** `LStrip` removes a prefix of white space and stops at the first other character. */
  lemma {:induction false} LStripSpec(s: string)
    ensures |LStrip(s)| <= |s| && LStrip(s) == s[|s| - |LStrip(s)|..]
    ensures AllSpace(s[..|s| - |LStrip(s)|])
    ensures LStrip(s) != [] ==> !IsSpace(LStrip(s)[0])
    decreases |s|
  {
    if s != [] && IsSpace(s[0]) {
      LStripSpec(s[1..]);
      var n := |s| - |LStrip(s)|;
      assert s[1..][..n - 1] == s[1..n];
      assert forall k :: 1 <= k < n ==> s[k] == s[1..n][k - 1];
    }
  }

  /** `RStrip` removes a suffix of white space and stops at the last other character. */
  lemma {:induction false} RStripSpec(s: string)
    ensures |RStrip(s)| <= |s| && RStrip(s) == s[..|RStrip(s)|]
    ensures AllSpace(s[|RStrip(s)|..])
    ensures RStrip(s) != [] ==> !IsSpace(RStrip(s)[|RStrip(s)| - 1])
    decreases |s|
  {
    if s != [] && IsSpace(s[|s| - 1]) {
      var t := s[..|s| - 1];
      RStripSpec(t);
      var n := |RStrip(s)|;
      assert t[..n] == s[..n];
      assert forall k :: n <= k < |s| - 1 ==> s[k] == t[n..][k - n];
    }
  }

  /**
    What `Strip` keeps: the part of `s` that starts after the leading white space
    (`|s| - |LStrip(s)|` characters), followed in `s` only by white space; it is empty
    exactly when `s` is all white space, and otherwise neither starts nor ends with
    white space.
   */
  lemma StripSpec(s: string)
    ensures var i, r := |s| - |LStrip(s)|, Strip(s);
      && 0 <= i && i + |r| <= |s| && r == s[i..i + |r|]
      && AllSpace(s[..i]) && AllSpace(s[i + |r|..])
      && (r == [] <==> AllSpace(s))
      && (r != [] ==> !IsSpace(r[0]) && !IsSpace(r[|r| - 1]))
  {
    var t := LStrip(s);
    LStripSpec(s);
    RStripSpec(t);
    var i, r := |s| - |t|, Strip(s);
    assert t == s[i..];
    assert s[i + |r|..] == t[|r|..];
    if r == [] {
      AllSpaceSplit(s, i);
    } else {
      assert r[0] == t[0] == s[i];
    }
  }

  /** White space all through `s` is white space in both parts, wherever it is cut. */
  lemma AllSpaceSplit(s: string, i: nat)
    requires i <= |s| && AllSpace(s[..i]) && AllSpace(s[i..])
    ensures AllSpace(s)
  {
    forall k | 0 <= k < |s| ensures IsSpace(s[k]) {
      if k < i {
        assert s[k] == s[..i][k];
      } else {
        assert s[k] == s[i..][k - i];
      }
    }
  }
}
