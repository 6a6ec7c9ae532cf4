/** Plain string matching and PHP's single-needle `str_replace`, over `seq<char>`. */
module Strings {

  /** `p` is a prefix of `s`; PHP's `0 === strpos(s, p)` for a non-empty `p`. */
  predicate IsPrefix(p: string, s: string)
  {
    |p| <= |s| && s[..|p|] == p
  }

  /** `p` occurs in `s` starting at index `i`. */
  predicate OccursAt(s: string, p: string, i: int)
  {
    0 <= i && i + |p| <= |s| && s[i..i + |p|] == p
  }

  /** `p` occurs somewhere in `s`. */
  predicate Contains(s: string, p: string)
  {
    exists i :: 0 <= i <= |s| && OccursAt(s, p, i)
  }

  /** PHP `str_replace(p, r, s)` with one needle: every leftmost, non-overlapping
      occurrence of `p` in `s`, scanning left to right, becomes `r`; the scan
      resumes after the replaced occurrence, so replaced text is never rescanned.
      An empty needle leaves the subject unchanged. */
  function ReplaceAll(s: string, p: string, r: string): (res: string)
    ensures |r| <= |p| ==> |res| <= |s|
    ensures |r| >= |p| ==> |res| >= |s|
    decreases |s|
  {
    if |p| == 0 || |s| < |p| then s
    else if s[..|p|] == p then r + ReplaceAll(s[|p|..], p, r)
    else [s[0]] + ReplaceAll(s[1..], p, r)
  }

  /** An occurrence in the tail of `s` is an occurrence in `s`, one place later. */
  lemma OccursInTail(s: string, p: string, i: int)
    requires |s| > 0 && OccursAt(s[1..], p, i)
    ensures OccursAt(s, p, i + 1)
  {
    assert s[1..][i..i + |p|] == s[i + 1..i + 1 + |p|];
  }

  /** An occurrence past the first character is an occurrence in the tail, one place earlier. */
  lemma OccursShift(s: string, p: string, i: int)
    requires i >= 1 && OccursAt(s, p, i)
    ensures OccursAt(s[1..], p, i - 1)
  {
    assert s[1..][i - 1..i - 1 + |p|] == s[i..i + |p|];
  }

  /** Prefixing the same head on both sides does not change prefixhood. */
  lemma PrefixAfterHead(h: string, p: string, t: string)
    ensures IsPrefix(h + p, h + t) <==> IsPrefix(p, t)
  {
    if IsPrefix(h + p, h + t) {
      assert (h + t)[..|h + p|][|h|..] == t[..|p|];
    }
    if IsPrefix(p, t) {
      assert (h + t)[..|h + p|] == h + t[..|p|];
    }
  }

  /** An occurrence in a suffix is an occurrence in the whole. */
  lemma ContainsSuffix(a: string, t: string, p: string)
    requires Contains(t, p)
    ensures Contains(a + t, p)
  {
    var i :| 0 <= i <= |t| && OccursAt(t, p, i);
    assert (a + t)[|a| + i..|a| + i + |p|] == t[i..i + |p|];
    assert OccursAt(a + t, p, |a| + i);
  }

  /** A subject that starts with the needle: the needle is replaced, the rest is scanned. */
  lemma ReplaceAllHead(p: string, t: string, r: string)
    requires |p| > 0
    ensures ReplaceAll(p + t, p, r) == r + ReplaceAll(t, p, r)
  {
    assert (p + t)[..|p|] == p;
    assert (p + t)[|p|..] == t;
  }

  /** If `p` is a prefix of `q`, every occurrence of `q` is one of `p`. */
  lemma ContainsPrefix(s: string, p: string, q: string)
    requires IsPrefix(p, q) && Contains(s, q)
    ensures Contains(s, p)
  {
    var i :| 0 <= i <= |s| && OccursAt(s, q, i);
    assert s[i..i + |p|] == s[i..i + |q|][..|p|];
    assert OccursAt(s, p, i);
  }

  /** A string that lacks some character of `p` cannot contain `p`. */
  lemma MissingCharAbsent(s: string, p: string, k: int)
    requires 0 <= k < |p| && p[k] !in s
    ensures !Contains(s, p)
  {
    forall i | 0 <= i <= |s|
      ensures !OccursAt(s, p, i)
    {
      if i + |p| <= |s| {
        assert s[i..i + |p|][k] in s;
      }
    }
  }

  /** Appending a character different from the last character of `p` creates no occurrence. */
  lemma AppendKeepsAbsent(v: string, c: char, p: string)
    requires |p| > 0 && p[|p| - 1] != c && !Contains(v, p)
    ensures !Contains(v + [c], p)
  {
    var s := v + [c];
    forall i | 0 <= i <= |s| && i + |p| <= |v|
      ensures !OccursAt(s, p, i)
    {
      assert s[i..i + |p|] == v[i..i + |p|];
      assert !OccursAt(v, p, i);
    }
    forall i | 0 <= i <= |s| && i + |p| > |v|
      ensures !OccursAt(s, p, i)
    {
      if i + |p| == |s| {
        assert s[i..i + |p|][|p| - 1] == c;
      }
    }
  }

  /** With no occurrence of the needle, `str_replace` returns the subject unchanged. */
  lemma {:induction false} ReplaceAllAbsent(s: string, p: string, r: string)
    requires !Contains(s, p)
    ensures ReplaceAll(s, p, r) == s
    decreases |s|
  {
    if |p| == 0 || |s| < |p| {
    } else {
      assert !OccursAt(s, p, 0);
      forall i | 0 <= i <= |s[1..]|
        ensures !OccursAt(s[1..], p, i)
      {
        if OccursAt(s[1..], p, i) {
          OccursInTail(s, p, i);
        }
      }
      ReplaceAllAbsent(s[1..], p, r);
      assert s == [s[0]] + s[1..];
    }
  }

  /** No occurrence of `p` starts in `s` before index `i`. */
  predicate NoneBefore(s: string, p: string, i: int)
  {
    forall j :: 0 <= j < i ==> !OccursAt(s, p, j)
  }

  /** No occurrence before `i` in `s`: none before `i - 1` in its tail. */
  lemma NoneBeforeShift(s: string, p: string, i: int)
    requires 1 <= i <= |s| && NoneBefore(s, p, i)
    ensures NoneBefore(s[1..], p, i - 1) && !OccursAt(s, p, 0)
  {
    forall j | 0 <= j < i - 1
      ensures !OccursAt(s[1..], p, j)
    {
      if OccursAt(s[1..], p, j) {
        OccursInTail(s, p, j);
      }
    }
  }

  /** Without the needle at the front, the first character is copied. */
  lemma ReplaceAllStep(s: string, p: string, r: string)
    requires |p| > 0 && |p| <= |s| && !OccursAt(s, p, 0)
    ensures ReplaceAll(s, p, r) == [s[0]] + ReplaceAll(s[1..], p, r)
  {
  }

  /** `str_replace` over `s` copies `s[..i]`, replaces the occurrence of `p` at `i`
      by `r`, and carries on after that occurrence. */
  predicate ReplacesAt(s: string, p: string, r: string, i: int)
    requires 0 <= i && i + |p| <= |s|
  {
    ReplaceAll(s, p, r) == s[..i] + r + ReplaceAll(s[i + |p|..], p, r)
  }

  /** With the needle at the front, it is replaced and the scan resumes after it. */
  lemma ReplaceAllAtFront(s: string, p: string, r: string)
    requires |p| > 0 && OccursAt(s, p, 0)
    ensures ReplacesAt(s, p, r, 0)
  {
    assert s[..|p|] == p;
    assert s[..0] == [];
  }

  /** Sequence bookkeeping for one step of a left-to-right scan. */
  lemma ConsSlice(s: string, i: int, k: int, a: string, x: string)
    requires 1 <= i && i + k <= |s| && k >= 0
    ensures s[1..][i - 1 + k..] == s[i + k..]
    ensures [s[0]] + (s[1..][..i - 1] + a + x) == s[..i] + a + x
  {
    assert s[..i] == [s[0]] + s[1..][..i - 1];
  }

  /** One step of `ReplaceAllLeftmost`: a result for the tail gives the result for `s`. */
  lemma ReplaceAllCons(s: string, p: string, r: string, i: int)
    requires |p| > 0 && 1 <= i && i + |p| <= |s| && !OccursAt(s, p, 0)
    requires ReplacesAt(s[1..], p, r, i - 1)
    ensures ReplacesAt(s, p, r, i)
  {
    ReplaceAllStep(s, p, r);
    ConsSlice(s, i, |p|, r, ReplaceAll(s[i + |p|..], p, r));
  }

  /** The leftmost occurrence of the needle is the one replaced: everything before it
      is copied, it becomes `r`, and the scan resumes right after it. Together with
      `ReplaceAllAbsent` this pins `ReplaceAll` down completely. */
  lemma {:induction false} ReplaceAllLeftmost(s: string, p: string, r: string, i: int)
    requires |p| > 0 && OccursAt(s, p, i) && NoneBefore(s, p, i)
    ensures ReplacesAt(s, p, r, i)
    decreases i
  {
    if i == 0 {
      ReplaceAllAtFront(s, p, r);
    } else {
      ReplaceAllLeftmostTail(s, p, r, i);
      ReplaceAllCons(s, p, r, i);
    }
  }

  /** The step of `ReplaceAllLeftmost` past the first character: the occurrence moves
      one place left in the tail, which the induction hypothesis covers. */
  lemma {:induction false} ReplaceAllLeftmostTail(s: string, p: string, r: string, i: int)
    requires |p| > 0 && OccursAt(s, p, i) && NoneBefore(s, p, i) && i >= 1
    ensures !OccursAt(s, p, 0) && i + |p| <= |s|
    ensures ReplacesAt(s[1..], p, r, i - 1)
    decreases i, 0
  {
    NoneBeforeShift(s, p, i);
    OccursShift(s, p, i);
    ReplaceAllLeftmost(s[1..], p, r, i - 1);
  }

  /** A needle that occurs and a replacement of different length changes the length
      in the direction of the replacement; in particular the subject changes. */
  lemma {:induction false} ReplaceAllLength(s: string, p: string, r: string)
    requires |p| > 0 && Contains(s, p)
    ensures |r| < |p| ==> |ReplaceAll(s, p, r)| < |s|
    ensures |r| > |p| ==> |ReplaceAll(s, p, r)| > |s|
    decreases |s|
  {
    var i :| 0 <= i <= |s| && OccursAt(s, p, i);
    if s[..|p|] != p {
      OccursShift(s, p, i);
      ReplaceAllLength(s[1..], p, r);
    }
  }

  /** Splitting `a + t` after the first character of a non-empty `a`. */
  lemma HeadShape(a: string, t: string)
    requires a != []
    ensures (a + t)[0] == a[0] && (a + t)[1..] == a[1..] + t && [a[0]] + (a[1..] + t) == a + t
  {
  }

  /** Text in front of `t` in which no occurrence of `p` starts is copied through. */
  lemma {:induction false} ReplaceAllSkip(a: string, t: string, p: string, r: string)
    requires |p| > 0
    requires forall i :: 0 <= i < |a| ==> !OccursAt(a + t, p, i)
    ensures ReplaceAll(a + t, p, r) == a + ReplaceAll(t, p, r)
    decreases |a|
  {
    var s := a + t;
    if a == [] {
      assert s == t;
    } else if |s| < |p| {
    } else {
      HeadShape(a, t);
      assert !OccursAt(s, p, 0);
      forall i | 0 <= i < |a[1..]|
        ensures !OccursAt(a[1..] + t, p, i)
      {
        if OccursAt(a[1..] + t, p, i) {
          OccursInTail(s, p, i);
        }
      }
      ReplaceAllStep(s, p, r);
      ReplaceAllSkip(a[1..], t, p, r);
      HeadShape(a, ReplaceAll(t, p, r));
    }
  }

  /** A head that never holds the first character of `p` starts no occurrence of `p`. */
  lemma NoStartInHead(a: string, t: string, p: string)
    requires |p| > 0 && p[0] !in a
    ensures forall i :: 0 <= i < |a| ==> !OccursAt(a + t, p, i)
  {
    forall i | 0 <= i < |a|
      ensures !OccursAt(a + t, p, i)
    {
      if i + |p| <= |a + t| {
        assert (a + t)[i..i + |p|][0] == a[i];
      }
    }
  }

  /** An occurrence of `p` starting in `a` would either end inside `a`, putting the
      last character of `p` in `a`, or run over the last character of `a`, putting
      that character in `p`; when neither can happen, none starts in `a`. */
  lemma NoStartInSealedHead(a: string, t: string, p: string)
    requires |a| > 0 && |p| > 0
    requires a[|a| - 1] !in p && p[|p| - 1] !in a
    ensures NoneBefore(a + t, p, |a|)
  {
    var s := a + t;
    forall i | 0 <= i < |a|
      ensures !OccursAt(s, p, i)
    {
      if i + |p| <= |a| {
        assert s[i..i + |p|][|p| - 1] == a[i + |p| - 1];
      } else if i + |p| <= |s| {
        assert s[i..i + |p|][|a| - 1 - i] == a[|a| - 1];
      }
    }
  }

  /** No occurrence starting in the head and none in the rest: none at all. */
  lemma AbsentAfterHead(a: string, t: string, p: string)
    requires NoneBefore(a + t, p, |a|) && !Contains(t, p)
    ensures !Contains(a + t, p)
  {
    var s := a + t;
    forall i | |a| <= i <= |s|
      ensures !OccursAt(s, p, i)
    {
      if i + |p| <= |s| {
        assert s[i..i + |p|] == t[i - |a|..i - |a| + |p|];
        assert !OccursAt(t, p, i - |a|);
      }
    }
  }
}
