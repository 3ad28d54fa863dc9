/**
 The handful of Python string built-ins the service relies on, over
 `string` (a sequence of Unicode scalar values: close to a Python `str`,
 except that a `str` may also hold lone surrogates):
 `str.split(sep)` with an explicit one-character separator, `sep.join(parts)`,
 the slice reversal `seq[::-1]` and `str.strip()` with no argument.
 `Option` stands for "a `str` or Python's `None`".
 */
module PyStr {

  datatype Option<+T> = None | Some(value: T)

  /** Number of occurrences of `c` in `s`. */
  function Count(s: string, c: char): nat {
    multiset(s)[c]
  }

  // ---------------------------------------------------------------------------
  // str.split(d) and d.join(parts)
  // ---------------------------------------------------------------------------

  /** Python's `s.split(d)` for a one-character separator `d`: the maximal
      runs of non-`d` characters between separators, empty ones included,
      so there is always one more segment than there are separators. */
  function Split(s: string, d: char): (r: seq<string>)
    ensures |r| == Count(s, d) + 1
    ensures forall i | 0 <= i < |r| :: d !in r[i]
    decreases |s|
  {
    if s == [] then [""]
    else
      assert s == [s[0]] + s[1..];
      var rest := Split(s[1..], d);
      if s[0] == d then [""] + rest
      else [[s[0]] + rest[0]] + rest[1..]
  }

  /** Python's `d.join(parts)`: the parts with one `d` between neighbours. */
  function Join(parts: seq<string>, d: char): string {
    if |parts| == 0 then ""
    else if |parts| == 1 then parts[0]
    else parts[0] + [d] + Join(parts[1..], d)
  }

  /** A segment free of the separator is split into itself alone. */
  lemma {:induction false} SplitWithoutSeparator(p: string, d: char)
    requires d !in p
    ensures Split(p, d) == [p]
    decreases |p|
  {
    if p != [] {
      assert d !in p[1..];
      SplitWithoutSeparator(p[1..], d);
      assert [p[0]] + p[1..] == p;
    }
  }

  /** Splitting `p + d + t`, with `p` free of `d`, yields `p` followed by the
      segments of `t`. */
  lemma {:induction false} SplitAfterSegment(p: string, t: string, d: char)
    requires d !in p
    ensures Split(p + [d] + t, d) == [p] + Split(t, d)
    decreases |p|
  {
    var s := p + [d] + t;
    if p == [] {
      assert s[0] == d && s[1..] == t;
    } else {
      assert s[0] == p[0] && s[0] != d;
      assert s[1..] == p[1..] + [d] + t;
      assert d !in p[1..];
      SplitAfterSegment(p[1..], t, d);
      assert [p[0]] + p[1..] == p;
    }
  }

  /** Joining a non-empty tail after a first part puts one separator between. */
  lemma JoinCons(x: string, ps: seq<string>, d: char)
    requires |ps| >= 1
    ensures Join([x] + ps, d) == x + [d] + Join(ps, d)
  {
    assert ([x] + ps)[1..] == ps;
  }

  /** Prepending a character to the first part prepends it to the join. */
  lemma JoinPrependChar(c: char, ps: seq<string>, d: char)
    requires |ps| >= 1
    ensures Join([[c] + ps[0]] + ps[1..], d) == [c] + Join(ps, d)
  {
    if |ps| > 1 {
      assert ps == [ps[0]] + ps[1..];
      JoinCons([c] + ps[0], ps[1..], d);
      JoinCons(ps[0], ps[1..], d);
    }
  }

  /** Joining the segments of a split gives back the original string. */
  lemma {:induction false} JoinSplit(s: string, d: char)
    ensures Join(Split(s, d), d) == s
    decreases |s|
  {
    if s != [] {
      var rest := Split(s[1..], d);
      JoinSplit(s[1..], d);
      if s[0] == d {
        JoinCons("", rest, d);
      } else {
        JoinPrependChar(s[0], rest, d);
      }
      assert [s[0]] + s[1..] == s;
    }
  }

  /** Splitting a join of separator-free parts gives the parts back. */
  lemma {:induction false} SplitJoin(parts: seq<string>, d: char)
    requires |parts| >= 1
    requires forall i | 0 <= i < |parts| :: d !in parts[i]
    ensures Split(Join(parts, d), d) == parts
    decreases |parts|
  {
    if |parts| == 1 {
      SplitWithoutSeparator(parts[0], d);
    } else {
      SplitJoin(parts[1..], d);
      SplitAfterSegment(parts[0], Join(parts[1..], d), d);
      assert [parts[0]] + parts[1..] == parts;
    }
  }

  /** `s.split(d)[0]` is the text before the first `d`. */
  lemma SplitFirstSegment(s: string, d: char, i: nat)
    requires i < |s| && s[i] == d && d !in s[..i]
    ensures Split(s, d)[0] == s[..i]
  {
    assert s == s[..i] + [d] + s[i + 1..];
    SplitAfterSegment(s[..i], s[i + 1..], d);
  }

  /** Joining exactly four parts. */
  lemma JoinFour(a: string, b: string, c: string, e: string, d: char)
    ensures Join([a, b, c, e], d) == a + [d] + b + [d] + c + [d] + e
  {
    assert [c, e][1..] == [e];
    assert Join([c, e], d) == c + [d] + e;
    assert [b, c, e][1..] == [c, e];
    assert Join([b, c, e], d) == b + [d] + (c + [d] + e);
    assert [a, b, c, e][1..] == [b, c, e];
    assert Join([a, b, c, e], d) == a + [d] + (b + [d] + (c + [d] + e));
  }

  // ---------------------------------------------------------------------------
  // seq[::-1]
  // ---------------------------------------------------------------------------

  /** Python's slice reversal `s[::-1]`. */
  function Reverse<T>(s: seq<T>): (r: seq<T>)
    ensures |r| == |s|
    ensures forall i | 0 <= i < |s| :: r[i] == s[|s| - 1 - i]
  {
    if s == [] then [] else Reverse(s[1..]) + [s[0]]
  }

  /** Reversal is an involution. */
  lemma ReverseReverse<T>(s: seq<T>)
    ensures Reverse(Reverse(s)) == s
  {
  }

  // ---------------------------------------------------------------------------
  // str.strip()
  // ---------------------------------------------------------------------------

  /** The characters Python's `str.strip()` removes when given no argument:
      those for which `str.isspace()` holds. */
  const Whitespace: set<char> := {
      '\U{9}', '\U{A}', '\U{B}', '\U{C}', '\U{D}', '\U{1C}', '\U{1D}', '\U{1E}',
      '\U{1F}', '\U{20}', '\U{85}', '\U{A0}', '\U{1680}', '\U{2000}', '\U{2001}', '\U{2002}',
      '\U{2003}', '\U{2004}', '\U{2005}', '\U{2006}', '\U{2007}', '\U{2008}', '\U{2009}', '\U{200A}',
      '\U{2028}', '\U{2029}', '\U{202F}', '\U{205F}', '\U{3000}'
    }

  predicate IsSpace(c: char) {
    c in Whitespace
  }

  /** Every character of `s[lo..hi]` is whitespace. */
  predicate SpaceBetween(s: string, lo: int, hi: int)
    requires 0 <= lo <= hi <= |s|
  {
    forall k | lo <= k < hi :: IsSpace(s[k])
  }

  /** Where `s.strip()` starts keeping characters, scanning forward from `lo`. */
  function StripStart(s: string, lo: nat): (i: nat)
    requires lo <= |s|
    ensures lo <= i <= |s|
    ensures SpaceBetween(s, lo, i)
    ensures i < |s| ==> !IsSpace(s[i])
    decreases |s| - lo
  {
    if lo < |s| && IsSpace(s[lo]) then StripStart(s, lo + 1) else lo
  }

  /** Where `s.strip()` stops keeping characters, scanning backward from `hi`
      but not past `lo`. */
  function StripEnd(s: string, lo: nat, hi: nat): (j: nat)
    requires lo <= hi <= |s|
    ensures lo <= j <= hi
    ensures SpaceBetween(s, j, hi)
    ensures j > lo ==> !IsSpace(s[j - 1])
    decreases hi - lo
  {
    if lo < hi && IsSpace(s[hi - 1]) then StripEnd(s, lo, hi - 1) else hi
  }

  /** `s.strip()`: the slice between the leading and the trailing whitespace. */
  function Strip(s: string): (r: string)
    ensures r != [] ==> !IsSpace(r[0]) && !IsSpace(r[|r| - 1])
  {
    var i := StripStart(s, 0);
    s[i..StripEnd(s, i, |s|)]
  }

  /** What `strip()` keeps is a contiguous slice of its input, and only
      whitespace lies outside it. */
  lemma StripIsTrimmedSlice(s: string)
    ensures var i := StripStart(s, 0);
            var j := StripEnd(s, i, |s|);
            && Strip(s) == s[i..j]
            && SpaceBetween(s, 0, i)
            && SpaceBetween(s, j, |s|)
  {
  }

  /** The forward scan stops at the first non-whitespace character. */
  lemma StripStartAt(s: string, i: nat)
    requires i < |s| && SpaceBetween(s, 0, i) && !IsSpace(s[i])
    ensures StripStart(s, 0) == i
  {
  }

  /** The backward scan stops after the last non-whitespace character. */
  lemma StripEndAt(s: string, i: nat, j: nat)
    requires i < j <= |s| && SpaceBetween(s, j, |s|) && !IsSpace(s[j - 1])
    ensures StripEnd(s, i, |s|) == j
  {
  }

  /** Conversely, a slice `s[i..j]` with only whitespace outside it and none
      at either of its ends is exactly what `strip()` returns. */
  lemma StripUnique(s: string, i: nat, j: nat)
    requires i <= j <= |s|
    requires SpaceBetween(s, 0, i) && SpaceBetween(s, j, |s|)
    requires i < j ==> !IsSpace(s[i]) && !IsSpace(s[j - 1])
    ensures Strip(s) == s[i..j]
  {
    if i < j {
      StripStartAt(s, i);
      StripEndAt(s, i, j);
    }
  }

  /** Stripping a string that has no whitespace at either end changes
      nothing, so `strip()` is idempotent. */
  lemma StripUnpadded(s: string)
    requires s != [] ==> !IsSpace(s[0]) && !IsSpace(s[|s| - 1])
    ensures Strip(s) == s
  {
  }

  lemma StripIdempotent(s: string)
    ensures Strip(Strip(s)) == Strip(s)
  {
    StripUnpadded(Strip(s));
  }
}
