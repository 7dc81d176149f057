/**
  Facts about global replacement and splitting: every occurrence is
  replaced, a token is cut uniquely, and replacing one placeholder token
  leaves the occurrences of another token where they were.
 */
module Replacement {
  import opened Strings

  /** String concatenation is associative. */
  lemma Assoc(x: string, y: string, z: string)
    ensures x + y + z == x + (y + z)
  {
  }

  /** Regrouping a concatenation of four strings. */
  lemma Regroup(w: string, x: string, y: string, z: string)
    ensures w + (x + y + z) == w + x + y + z
  {
  }

  /** A prefix in which `t` never starts is copied through unchanged. */
  lemma {:induction false} ReplaceAllSkip(x: string, y: string, t: string, v: string)
    requires |t| > 0
    requires forall k :: 0 <= k < |x| ==> !OccursAt(x + y, t, k)
    ensures ReplaceAll(x + y, t, v) == x + ReplaceAll(y, t, v)
    decreases |x|
  {
    if |x| > 0 {
      var s := x + y;
      assert !StartsWith(s, t) by {
        assert !OccursAt(s, t, 0);
      }
      assert s[1..] == x[1..] + y;
      forall k | 0 <= k < |x[1..]| ensures !OccursAt(x[1..] + y, t, k) {
        assert !OccursAt(s, t, k + 1);
        if k + |t| <= |x[1..] + y| {
          assert (x[1..] + y)[k..k + |t|] == s[k + 1..k + 1 + |t|];
        }
      }
      ReplaceAllSkip(x[1..], y, t, v);
      assert [x[0]] + x[1..] == x;
    } else {
      assert x + y == y;
    }
  }

  /** An occurrence at the front is replaced and scanning resumes after it. */
  lemma ReplaceAllFront(t: string, y: string, v: string)
    requires |t| > 0
    ensures ReplaceAll(t + y, t, v) == v + ReplaceAll(y, t, v)
  {
    assert (t + y)[..|t|] == t;
    assert (t + y)[|t|..] == y;
  }

  /** A string without the pattern is left unchanged. */
  lemma ReplaceAllAbsent(s: string, pat: string, v: string)
    requires |pat| > 0
    requires !Contains(s, pat)
    ensures ReplaceAll(s, pat, v) == s
  {
    assert s + "" == s;
    ReplaceAllSkip(s, "", pat, v);
  }

  /** `s` as the text before its first occurrence of `t`, `t`, and the rest. */
  lemma CutAtFirst(s: string, t: string, i: int)
    requires 0 <= i && IndexOf(s, t) == i
    ensures s == s[..i] + (t + s[i + |t|..])
    ensures forall k :: 0 <= k < i ==> !OccursAt(s, t, k)
  {
    assert s[i..i + |t|] == t;
    assert s == s[..i] + s[i..i + |t|] + s[i + |t|..];
    IndexOfFirst(s, t);
  }

  /** Global replacement: the result is `s` cut at every occurrence of `pat`
      (the pieces are free of `pat` and rejoin to `s`), glued back with `v`. */
  lemma {:induction false} ReplaceAllReplacesEveryOccurrence(s: string, pat: string, v: string)
    requires |pat| > 0
    ensures ReplaceAll(s, pat, v) == Join(Split(s, pat), v)
    decreases |s|
  {
    var i := IndexOf(s, pat);
    if i >= 0 {
      var rest := s[i + |pat|..];
      ReplaceAllAtFirst(s, pat, v, i);
      ReplaceAllReplacesEveryOccurrence(rest, pat, v);
      assert ([s[..i]] + Split(rest, pat))[1..] == Split(rest, pat);
    } else {
      IndexOfFirst(s, pat);
      ReplaceAllAbsent(s, pat, v);
    }
  }

  /** No occurrence of token `t` can overlap a different token `m` placed
      right after `a`. */
  lemma NoOccurrenceAcrossToken(a: string, m: string, b: string, t: string, p: int)
    requires Token(t) && Token(m) && t != m
    requires p < |a| + |m| && p + |t| > |a|
    ensures !OccursAt(a + m + b, t, p)
  {
    var s := a + m + b;
    if 0 <= p && p + |t| <= |s| {
      var w := s[p..p + |t|];
      if p < |a| {
        assert w[|a| - p] == s[|a|] == m[0] == '{' != t[|a| - p];
      } else if p > |a| {
        assert w[0] == m[p - |a|] != '{';
      } else if |t| < |m| {
        assert w[|t| - 1] == m[|t| - 1] != '}';
      } else if |t| > |m| {
        assert w[|m| - 1] == m[|m| - 1] == '}' != t[|m| - 1];
      } else {
        assert w == m;
      }
    }
  }

  /** In `a + m + b`, token `t` starts before the end of another token `m`
      only where it lies wholly inside `a`. */
  lemma NoOccurrenceBeforeRight(a: string, m: string, b: string, t: string)
    requires Token(t) && Token(m) && t != m
    requires forall k :: 0 <= k <= |a| ==> !OccursAt(a, t, k)
    ensures forall k :: 0 <= k < |a + m| ==> !OccursAt(a + m + b, t, k)
  {
    forall k | 0 <= k < |a| + |m| ensures !OccursAt(a + m + b, t, k) {
      if k + |t| > |a| {
        NoOccurrenceAcrossToken(a, m, b, t, k);
      } else {
        OccursInConcat(a, m + b, t, k);
        assert a + m + b == a + (m + b);
      }
    }
  }

  /** Replacement at the first occurrence `i` of `t`: the text before it is
      kept, the occurrence becomes `v`, and the rest is rewritten. */
  lemma ReplaceAllAtFirst(s: string, t: string, v: string, i: int)
    requires |t| > 0 && 0 <= i && IndexOf(s, t) == i
    ensures ReplaceAll(s, t, v) == s[..i] + v + ReplaceAll(s[i + |t|..], t, v)
  {
    var rest := s[i + |t|..];
    CutAtFirst(s, t, i);
    ReplaceAllSkip(s[..i], t + rest, t, v);
    ReplaceAllFront(t, rest, v);
    Assoc(s[..i], v, ReplaceAll(rest, t, v));
  }

  /** The first occurrence of `t` in `a` is also the first in `a + z`. */
  lemma FirstStaysFirst(a: string, z: string, t: string, i: int)
    requires 0 <= i && IndexOf(a, t) == i
    ensures IndexOf(a + z, t) == i
    ensures (a + z)[..i] == a[..i] && (a + z)[i + |t|..] == a[i + |t|..] + z
  {
    IndexOfFirst(a, t);
    forall k | 0 <= k <= i ensures OccursAt(a + z, t, k) == OccursAt(a, t, k) {
      OccursInConcat(a, z, t, k);
    }
    IndexOfIs(a + z, t, i);
  }

  /** Text appended after `a` does not move the first replacement in `a`. */
  lemma ReplaceAllAfterFirst(a: string, z: string, t: string, v: string, i: int)
    requires |t| > 0 && 0 <= i && IndexOf(a, t) == i
    ensures ReplaceAll(a + z, t, v) == a[..i] + v + ReplaceAll(a[i + |t|..] + z, t, v)
  {
    FirstStaysFirst(a, z, t, i);
    ReplaceAllAtFirst(a + z, t, v, i);
  }

  /** One step of ReplaceAllAroundToken: cutting `a` at its first
      occurrence of `t` reduces the claim to the rest of `a`. */
  lemma AroundTokenStep(a: string, m: string, b: string, t: string, v: string, i: int)
    requires |t| > 0 && 0 <= i && IndexOf(a, t) == i
    requires ReplaceAll(a[i + |t|..] + m + b, t, v) == ReplaceAll(a[i + |t|..], t, v) + m + ReplaceAll(b, t, v)
    ensures ReplaceAll(a + m + b, t, v) == ReplaceAll(a, t, v) + m + ReplaceAll(b, t, v)
  {
    var rest := a[i + |t|..];
    ReplaceAllAtFirst(a, t, v, i);
    ReplaceAllAfterFirst(a, m + b, t, v, i);
    Assoc(a, m, b);
    Assoc(rest, m, b);
    Regroup(a[..i] + v, ReplaceAll(rest, t, v), m, ReplaceAll(b, t, v));
  }

  /** Replacing token `t` leaves an occurrence of another token `m` in place:
      the text on either side of `m` is rewritten on its own. */
  lemma {:induction false} ReplaceAllAroundToken(a: string, m: string, b: string, t: string, v: string)
    requires Token(t) && Token(m) && t != m
    ensures ReplaceAll(a + m + b, t, v) == ReplaceAll(a, t, v) + m + ReplaceAll(b, t, v)
    decreases |a|
  {
    var i := IndexOf(a, t);
    if i < 0 {
      IndexOfFirst(a, t);
      ReplaceAllAbsent(a, t, v);
      NoOccurrenceBeforeRight(a, m, b, t);
      ReplaceAllSkip(a + m, b, t, v);
    } else {
      ReplaceAllAroundToken(a[i + |t|..], m, b, t, v);
      AroundTokenStep(a, m, b, t, v, i);
    }
  }

  /** A string cut by a token `sep` is cut uniquely: any list of `sep`-free
      pieces joined by `sep` is exactly what Split recovers. */
  lemma {:induction false} SplitOfJoin(pieces: seq<string>, sep: string)
    requires Token(sep)
    requires |pieces| >= 1
    requires forall k :: 0 <= k < |pieces| ==> !Contains(pieces[k], sep)
    ensures Split(Join(pieces, sep), sep) == pieces
    decreases |pieces|
  {
    if |pieces| == 1 {
      IndexOfAbsent(pieces[0], sep);
    } else {
      var p := pieces[0];
      var tail := Join(pieces[1..], sep);
      var s := p + sep + tail;
      forall j | 0 <= j < |p| ensures !OccursAt(s, sep, j) {
        if j + |sep| <= |p| {
          OccursInConcat(p, sep + tail, sep, j);
          assert p + (sep + tail) == s;
        }
      }
      assert s[|p|..|p| + |sep|] == sep;
      IndexOfIs(s, sep, |p|);
      assert s[|p| + |sep|..] == tail;
      SplitOfJoin(pieces[1..], sep);
    }
  }

  /** In `t[..k] + t + t[k..]` no copy of token `t` starts before `k`. */
  lemma NoEarlierCopy(t: string, k: int)
    requires Token(t) && 0 < k < |t|
    ensures forall p | 0 <= p < |t[..k]| :: !OccursAt(t[..k] + (t + t[k..]), t, p)
  {
    var s := t[..k] + (t + t[k..]);
    forall p | 0 <= p < k ensures !OccursAt(s, t, p) {
      if p + |t| <= |s| {
        var w := s[p..p + |t|];
        if p == 0 {
          assert w[k] == s[k] == t[0] == '{' != t[k];
        } else {
          assert w[0] == t[p] != '{';
        }
      }
    }
  }

  /** A global replacement does not rescan its output: a token split by
      another copy of itself, as in `{gr{group}oup}`, comes back whole
      when the inner copy is replaced by the empty string. */
  lemma ReplacementCanLeaveToken(t: string, k: int)
    requires Token(t) && 0 < k < |t|
    ensures ReplaceAll(t[..k] + t + t[k..], t, "") == t
  {
    NoEarlierCopy(t, k);
    Assoc(t[..k], t, t[k..]);
    ReplaceAllSkip(t[..k], t + t[k..], t, "");
    ReplaceAllFront(t, t[k..], "");
    TailPieces(t, k);
    ReplaceAllAbsent(t[k..], t, "");
  }

  /** The pieces of `t` cut at `k`. */
  lemma TailPieces(t: string, k: int)
    requires 0 < k < |t|
    ensures "" + t[k..] == t[k..] && t[..k] + t[k..] == t
    ensures !Contains(t[k..], t)
  {
  }
}
