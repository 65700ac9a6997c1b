/**
 * Models of the built-in Python string operations the widget relies on:
 * `str.replace`, deleting one character with `replace(c, '')`, and `sep.join`.
 */
module Strings {

  /** `p` occurs in `s` starting at index `i`. */
  predicate OccursAt(s: string, p: string, i: nat)
  {
    i + |p| <= |s| && s[i..i + |p|] == p
  }

  /** `p` occurs nowhere in `s`. */
  ghost predicate Absent(s: string, p: string)
  {
    forall i: nat :: !OccursAt(s, p, i)
  }

  /** No occurrence of `p` in `s` begins before `cut` and ends after it. */
  ghost predicate NoStraddle(s: string, p: string, cut: nat)
  {
    forall q: nat :: q < cut < q + |p| ==> !OccursAt(s, p, q)
  }

  /**
   * `s.replace(target, replacement)`: scanning left to right, every
   * non-overlapping occurrence of `target` becomes `replacement`.
   */
  function ReplaceAll(s: string, target: string, replacement: string): string
    requires |target| > 0
    decreases |s|
  {
    if |s| < |target| then s
    else if s[..|target|] == target then replacement + ReplaceAll(s[|target|..], target, replacement)
    else [s[0]] + ReplaceAll(s[1..], target, replacement)
  }

  /** Dropping a prefix of `k` characters shifts every occurrence left by `k`. */
  lemma OccursAtDrop(s: string, p: string, i: nat, k: nat)
    requires k <= |s|
    ensures OccursAt(s[k..], p, i) <==> OccursAt(s, p, i + k)
  {
    if i + k + |p| <= |s| {
      assert s[k..][i..i + |p|] == s[i + k..i + k + |p|];
    }
  }

  /** Replacing a string that does not occur changes nothing. */
  lemma {:induction false} ReplaceAbsent(s: string, target: string, replacement: string)
    requires |target| > 0 && Absent(s, target)
    ensures ReplaceAll(s, target, replacement) == s
    decreases |s|
  {
    if |s| >= |target| {
      assert !OccursAt(s, target, 0);
      forall i: nat ensures !OccursAt(s[1..], target, i) {
        OccursAtDrop(s, target, i, 1);
      }
      ReplaceAbsent(s[1..], target, replacement);
      assert [s[0]] + s[1..] == s;
    }
  }

  /** Dropping `k` characters of `x` keeps the boundary with `y` free of straddling occurrences. */
  lemma NoStraddleDrop(x: string, y: string, target: string, k: nat)
    requires k <= |x| && NoStraddle(x + y, target, |x|)
    ensures NoStraddle(x[k..] + y, target, |x| - k)
  {
    var s := x + y;
    assert s[k..] == x[k..] + y;
    forall q: nat | q < |x| - k < q + |target| ensures !OccursAt(x[k..] + y, target, q) {
      OccursAtDrop(s, target, q, k);
    }
  }

  /** The step of `ReplaceSplit` where `x + y` starts with the target. */
  lemma ReplaceSplitAtTarget(x: string, y: string, target: string, replacement: string)
    requires |x| > 0 && |target| > 0 && NoStraddle(x + y, target, |x|)
    requires |target| <= |x + y| && (x + y)[..|target|] == target
    requires |target| <= |x| ==>
               ReplaceAll(x[|target|..] + y, target, replacement)
               == ReplaceAll(x[|target|..], target, replacement) + ReplaceAll(y, target, replacement)
    ensures |target| <= |x|
    ensures ReplaceAll(x + y, target, replacement)
         == ReplaceAll(x, target, replacement) + ReplaceAll(y, target, replacement)
  {
    var n := |target|;
    assert n <= |x| by {
      assert OccursAt(x + y, target, 0);
    }
    assert x[..n] == target;
    assert (x + y)[n..] == x[n..] + y;
  }

  /** The step of `ReplaceSplit` where `x + y` does not start with the target. */
  lemma ReplaceSplitPastHead(x: string, y: string, target: string, replacement: string)
    requires |x| > 0 && |target| > 0
    requires |target| <= |x + y| && (x + y)[..|target|] != target
    requires ReplaceAll(x[1..] + y, target, replacement)
          == ReplaceAll(x[1..], target, replacement) + ReplaceAll(y, target, replacement)
    ensures ReplaceAll(x + y, target, replacement)
         == ReplaceAll(x, target, replacement) + ReplaceAll(y, target, replacement)
  {
    var n := |target|;
    var rx := ReplaceAll(x[1..], target, replacement);
    var ry := ReplaceAll(y, target, replacement);
    assert (x + y)[1..] == x[1..] + y;
    assert ReplaceAll(x + y, target, replacement) == [x[0]] + (rx + ry);
    if |x| >= n {
      assert x[..n] == (x + y)[..n];
      assert ReplaceAll(x, target, replacement) == [x[0]] + rx;
    } else {
      assert rx == x[1..];
      assert ReplaceAll(x, target, replacement) == x == [x[0]] + rx;
    }
    ConsAssoc(x[0], rx, ry);
  }

  lemma ConsAssoc(c: char, a: string, b: string)
    ensures [c] + (a + b) == ([c] + a) + b
  {
  }

  /**
   * When no occurrence of `target` spans the boundary between `x` and `y`,
   * replacing in `x + y` is replacing in each part separately.
   */
  lemma {:induction false} ReplaceSplit(x: string, y: string, target: string, replacement: string)
    requires |target| > 0 && NoStraddle(x + y, target, |x|)
    ensures ReplaceAll(x + y, target, replacement)
         == ReplaceAll(x, target, replacement) + ReplaceAll(y, target, replacement)
    decreases |x|
  {
    var n := |target|;
    if |x| == 0 {
      assert x + y == y;
    } else if |x + y| < n {
      assert ReplaceAll(x, target, replacement) == x;
      assert ReplaceAll(y, target, replacement) == y;
    } else if (x + y)[..n] == target {
      if n <= |x| {
        NoStraddleDrop(x, y, target, n);
        ReplaceSplit(x[n..], y, target, replacement);
      }
      ReplaceSplitAtTarget(x, y, target, replacement);
    } else {
      NoStraddleDrop(x, y, target, 1);
      ReplaceSplit(x[1..], y, target, replacement);
      ReplaceSplitPastHead(x, y, target, replacement);
    }
  }

  /** `s.replace(c, '')`: `s` with every `c` deleted and the rest kept in order. */
  function Without(s: string, c: char): (r: string)
    ensures c !in r
    ensures |r| <= |s|
    ensures c !in s ==> r == s
  {
    if s == [] then []
    else (if s[0] == c then [] else [s[0]]) + Without(s[1..], c)
  }

  /** Every character other than `c` is kept as many times as it occurs. */
  lemma {:induction false} WithoutCounts(s: string, c: char)
    ensures multiset(Without(s, c)) == multiset(s)[c := 0]
    decreases |s|
  {
    if s != [] {
      WithoutCounts(s[1..], c);
      assert s == [s[0]] + s[1..];
    }
  }

  /**
   * On one character: deleted when it is `c`, kept otherwise. With
   * `WithoutConcat` this fixes the order of what is kept.
   */
  lemma WithoutSingle(x: char, c: char)
    ensures Without([x], c) == if x == c then [] else [x]
  {
    assert [x][1..] == [];
  }

  /** A leading copy of the deleted character disappears. */
  lemma WithoutDropHead(c: char, s: string)
    ensures Without([c] + s, c) == Without(s, c)
  {
    assert ([c] + s)[1..] == s;
  }

  lemma {:induction false} WithoutConcat(a: string, b: string, c: char)
    ensures Without(a + b, c) == Without(a, c) + Without(b, c)
    decreases |a|
  {
    if a != [] {
      assert (a + b)[0] == a[0];
      assert (a + b)[1..] == a[1..] + b;
      WithoutConcat(a[1..], b, c);
    } else {
      assert a + b == b;
    }
  }

  /** `sep.join(parts)`. */
  function Join(parts: seq<string>, sep: string): (r: string)
    ensures |parts| == 0 ==> r == ""
    ensures |parts| == 1 ==> r == parts[0]
    ensures |parts| > 0 ==> parts[0] <= r
  {
    if |parts| == 0 then ""
    else if |parts| == 1 then parts[0]
    else parts[0] + sep + Join(parts[1..], sep)
  }

  /** Joining one more part appends the separator and that part. */
  lemma {:induction false} JoinSnoc(parts: seq<string>, last: string, sep: string)
    requires |parts| >= 1
    ensures Join(parts + [last], sep) == Join(parts, sep) + sep + last
    decreases |parts|
  {
    if |parts| == 1 {
      assert (parts + [last])[1..] == [last];
    } else {
      assert (parts + [last])[1..] == parts[1..] + [last];
      JoinSnoc(parts[1..], last, sep);
    }
  }
}
