/**
  The string primitives the formatter relies on: `String.prototype.indexOf`,
  a global literal `replace`, and `Number.prototype.toString` on a count.
  Strings are `seq<char>`, sequences of Unicode scalar values; every
  pattern searched for is ASCII.
 */
module Strings {

  /** `pat` occurs in `s` starting at index `i`. */
  predicate OccursAt(s: string, pat: string, i: int)
  {
    0 <= i && i + |pat| <= |s| && s[i..i + |pat|] == pat
  }

  /** `pat` occurs somewhere in `s`. */
  predicate Contains(s: string, pat: string)
  {
    exists i | 0 <= i <= |s| :: OccursAt(s, pat, i)
  }

  /** `text.indexOf(pat)`: the index of the first occurrence of `pat`, or -1.
      That no earlier occurrence exists is lemma IndexOfFirst. */
  function IndexOf(s: string, pat: string): (r: int)
    ensures -1 <= r <= |s|
    ensures r >= 0 ==> OccursAt(s, pat, r)
  {
    IndexOfFrom(s, pat, 0)
  }

  /** `text.indexOf(pat, from)`: scan for `pat` from index `from` on. */
  function IndexOfFrom(s: string, pat: string, from: nat): (r: int)
    ensures r == -1 || from <= r <= |s|
    ensures r >= 0 ==> OccursAt(s, pat, r)
    decreases |s| - from
  {
    if from + |pat| > |s| then -1
    else if OccursAt(s, pat, from) then from
    else IndexOfFrom(s, pat, from + 1)
  }

  /** IndexOfFrom finds the first occurrence at or after `from`. */
  lemma {:induction false} IndexOfFromFirst(s: string, pat: string, from: nat)
    ensures forall j :: from <= j && (IndexOfFrom(s, pat, from) < 0 || j < IndexOfFrom(s, pat, from)) ==> !OccursAt(s, pat, j)
    decreases |s| - from
  {
    if from + |pat| <= |s| && !OccursAt(s, pat, from) {
      IndexOfFromFirst(s, pat, from + 1);
    }
  }

  /** IndexOf finds the first occurrence: there is none before it, and none
      at all when it reports -1. */
  lemma IndexOfFirst(s: string, pat: string)
    ensures forall j :: 0 <= j && (IndexOf(s, pat) < 0 || j < IndexOf(s, pat)) ==> !OccursAt(s, pat, j)
  {
    IndexOfFromFirst(s, pat, 0);
  }

  /** The first-occurrence characterisation pins down IndexOf. */
  lemma IndexOfIs(s: string, pat: string, k: int)
    requires OccursAt(s, pat, k)
    requires forall j :: 0 <= j < k ==> !OccursAt(s, pat, j)
    ensures IndexOf(s, pat) == k
  {
    IndexOfFirst(s, pat);
  }

  /** With no occurrence at all, IndexOf reports -1. */
  lemma IndexOfAbsent(s: string, pat: string)
    requires !Contains(s, pat)
    ensures IndexOf(s, pat) == -1
  {
  }

  /** How an occurrence in `x + y` relates to occurrences in `x` and in `y`. */
  lemma OccursInConcat(x: string, y: string, pat: string, j: int)
    ensures 0 <= j && j + |pat| <= |x| ==> (OccursAt(x + y, pat, j) <==> OccursAt(x, pat, j))
    ensures j >= |x| ==> (OccursAt(x + y, pat, j) <==> OccursAt(y, pat, j - |x|))
  {
    if 0 <= j && j + |pat| <= |x| {
      assert (x + y)[j..j + |pat|] == x[j..j + |pat|];
    }
    if j >= |x| && j + |pat| <= |x + y| {
      assert (x + y)[j..j + |pat|] == y[j - |x|..j - |x| + |pat|];
    }
  }

  /** `s` cut at each occurrence of `sep`, scanning left to right. */
  function Split(s: string, sep: string): (pieces: seq<string>)
    requires |sep| > 0
    ensures |pieces| >= 1
    ensures forall k :: 0 <= k < |pieces| ==> !Contains(pieces[k], sep)
    ensures Join(pieces, sep) == s
    decreases |s|
  {
    var i := IndexOf(s, sep);
    if i < 0 then
      IndexOfFirst(s, sep);
      [s]
    else
      var rest := Split(s[i + |sep|..], sep);
      assert !Contains(s[..i], sep) by {
        IndexOfFirst(s, sep);
        forall j | 0 <= j <= i ensures !OccursAt(s[..i], sep, j) {
          OccursInConcat(s[..i], s[i..], sep, j);
          assert s[..i] + s[i..] == s;
        }
      }
      assert ([s[..i]] + rest)[1..] == rest;
      assert s[..i] + sep + s[i + |sep|..] == s by {
        assert s[i..i + |sep|] == sep;
        assert s == s[..i] + s[i..i + |sep|] + s[i + |sep|..];
      }
      [s[..i]] + rest
  }

  /** `pieces.join(sep)`. */
  function Join(pieces: seq<string>, sep: string): string
  {
    if |pieces| == 0 then ""
    else if |pieces| == 1 then pieces[0]
    else pieces[0] + sep + Join(pieces[1..], sep)
  }

  /** `pat` is a prefix of `s`. */
  predicate StartsWith(s: string, pat: string)
  {
    |pat| <= |s| && s[..|pat|] == pat
  }

  /** `s.replace(/pat/g, v)` for a literal pattern: the string is scanned
      left to right; where `pat` starts, it is replaced by `v` and scanning
      resumes after it, otherwise one character is kept. So every leftmost,
      non-overlapping occurrence is replaced. */
  function ReplaceAll(s: string, pat: string, v: string): (r: string)
    requires |pat| > 0
    ensures v == pat ==> r == s
    decreases |s|
  {
    if |s| == 0 then ""
    else if StartsWith(s, pat) then v + ReplaceAll(s[|pat|..], pat, v)
    else [s[0]] + ReplaceAll(s[1..], pat, v)
  }

  /** A placeholder token `{name}`: a brace pair around a brace-free name. */
  predicate Token(t: string)
  {
    |t| >= 2 && t[0] == '{' && t[|t| - 1] == '}' &&
    forall k :: 0 < k < |t| - 1 ==> t[k] != '{' && t[k] != '}'
  }

  /** The decimal digit for `d < 10`. */
  function DigitChar(d: nat): char
    requires d < 10
  {
    "0123456789"[d]
  }

  /** The value of a decimal digit character. */
  function DigitValue(c: char): nat
  {
    if '0' <= c <= '9' then (c as int - '0' as int) as nat else 0
  }

  predicate IsDigit(c: char)
  {
    '0' <= c <= '9'
  }

  /** `n.toString()` for a non-negative integer: its decimal digits, with no
      leading zero. */
  function DecimalString(n: nat): (r: string)
    ensures |r| >= 1
    ensures forall k :: 0 <= k < |r| ==> IsDigit(r[k])
    ensures r[0] == '0' ==> n == 0 && r == "0"
  {
    if n < 10 then [DigitChar(n)] else DecimalString(n / 10) + [DigitChar(n % 10)]
  }

  /** The number a string of decimal digits denotes. */
  function DecimalValue(s: string): nat
  {
    if |s| == 0 then 0 else 10 * DecimalValue(s[..|s| - 1]) + DigitValue(s[|s| - 1])
  }

  /** Reading back the decimal string gives the count it was made from. */
  lemma {:induction false} DecimalRoundTrip(n: nat)
    ensures DecimalValue(DecimalString(n)) == n
  {
    var r := DecimalString(n);
    if n < 10 {
      assert r == [DigitChar(n)];
      assert r[..0] == [];
    } else {
      DecimalRoundTrip(n / 10);
      assert r[..|r| - 1] == DecimalString(n / 10);
    }
  }
}
