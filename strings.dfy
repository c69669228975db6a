/** The few Python `str` operations the handlers rely on: `lower()`,
    `strip()`, `startswith(...)` and the substring test `w in s`, restricted to
    ASCII (non-ASCII characters are left unchanged by `Lower` and are never
    whitespace for `Strip`). */
module Strings {

  /** Python's `str.isspace()` on ASCII: space, tab, line feed, vertical tab,
      form feed, carriage return and the separators 0x1C to 0x1F. */
  predicate IsSpace(c: char): (r: bool)
    ensures r <==> c in {' ', '\t', '\n', '\U{B}', '\U{C}', '\r', '\U{1C}', '\U{1D}', '\U{1E}', '\U{1F}'}
  {
    c == ' ' || ('\t' <= c <= '\r') || ('\U{1C}' <= c <= '\U{1F}')
  }

  predicate IsUpper(c: char)
  {
    'A' <= c <= 'Z'
  }

  /** Python's `str.lower()` on one ASCII character. */
  function LowerChar(c: char): (r: char)
    ensures !IsUpper(r)
    ensures IsUpper(c) ==> r as int == c as int + 32
    ensures !IsUpper(c) ==> r == c
  {
    if IsUpper(c) then (c as int + 32) as char else c
  }

  /** Python's `str.lower()`: every character lowered, nothing added or dropped. */
  function Lower(s: string): (r: string)
    ensures |r| == |s|
    ensures forall i :: 0 <= i < |s| ==> r[i] == LowerChar(s[i])
    decreases |s|
  {
    if |s| == 0 then [] else [LowerChar(s[0])] + Lower(s[1..])
  }

  /** Python's `s.startswith(p)`: `p` fits in `s` and agrees with it
      character by character. */
  predicate StartsWith(s: string, p: string): (r: bool)
    ensures r <==> |p| <= |s| && forall i :: 0 <= i < |p| ==> s[i] == p[i]
  {
    |p| <= |s| && s[..|p|] == p
  }

  /** `w` occurs in `s` starting at index `i`. */
  predicate OccursAt(s: string, w: string, i: nat)
  {
    i + |w| <= |s| && s[i..i + |w|] == w
  }

  /** The reference meaning of a substring: some index where `w` occurs. */
  ghost predicate Occurs(s: string, w: string)
  {
    exists i: nat :: OccursAt(s, w, i)
  }

  /** Python's `w in s` for two strings, as a left-to-right scan: it is
      true exactly when `w` occurs at some index of `s`. */
  predicate Contains(s: string, w: string): (r: bool)
    ensures r <==> Occurs(s, w)
    decreases |s|
  {
    if StartsWith(s, w) then
      assert OccursAt(s, w, 0);
      true
    else if |s| == 0 then
      false
    else
      OccursShift(s, w);
      Contains(s[1..], w)
  }

  /** When `w` does not start `s`, its occurrences in `s` are those in
      `s[1..]`, one index further on. */
  lemma OccursShift(s: string, w: string)
    requires |s| > 0 && !StartsWith(s, w)
    ensures Occurs(s, w) <==> Occurs(s[1..], w)
  {
    if Occurs(s, w) {
      var i: nat :| OccursAt(s, w, i);
      assert i != 0;
      assert s[1..][i - 1..i - 1 + |w|] == s[i..i + |w|];
      assert OccursAt(s[1..], w, i - 1);
    }
    if Occurs(s[1..], w) {
      var i: nat :| OccursAt(s[1..], w, i);
      assert s[1..][i..i + |w|] == s[i + 1..i + 1 + |w|];
      assert OccursAt(s, w, i + 1);
    }
  }

  /** `any(w in s for w in words)`: some word of the list occurs in `s`. */
  function ContainsAny(s: string, words: seq<string>): (r: bool)
    ensures r <==> exists k :: 0 <= k < |words| && Contains(s, words[k])
    decreases |words|
  {
    if |words| == 0 then false
    else Contains(s, words[0]) || ContainsAny(s, words[1..])
  }

  ghost predicate AllSpace(t: string)
  {
    forall j :: 0 <= j < |t| ==> IsSpace(t[j])
  }

  /** Number of leading whitespace characters. */
  function StripStart(s: string): (k: nat)
    ensures k <= |s|
    ensures forall j :: 0 <= j < k ==> IsSpace(s[j])
    ensures k < |s| ==> !IsSpace(s[k])
    decreases |s|
  {
    if |s| > 0 && IsSpace(s[0]) then 1 + StripStart(s[1..]) else 0
  }

  /** Length of `s` once its trailing whitespace is cut off. */
  function StripEnd(s: string): (k: nat)
    ensures k <= |s|
    ensures forall j :: k <= j < |s| ==> IsSpace(s[j])
    ensures 0 < k ==> !IsSpace(s[k - 1])
    decreases |s|
  {
    if |s| > 0 && IsSpace(s[|s| - 1]) then StripEnd(s[..|s| - 1]) else |s|
  }

  /** Python's `str.strip()` with no argument: `s` is whitespace, then the
      result, then whitespace, and the result neither starts nor ends with
      whitespace. */
  function Strip(s: string): (r: string)
    ensures exists a :: 0 <= a <= |s| - |r| && s[a..a + |r|] == r
                        && AllSpace(s[..a]) && AllSpace(s[a + |r|..])
    ensures |r| == 0 || (!IsSpace(r[0]) && !IsSpace(r[|r| - 1]))
  {
    var a := StripStart(s);
    var r := s[a..][..StripEnd(s[a..])];
    assert s[a..a + |r|] == r;
    assert AllSpace(s[..a]);
    var tail := s[a + |r|..];
    assert AllSpace(tail) by {
      forall j | 0 <= j < |tail| ensures IsSpace(tail[j]) {
        assert tail[j] == s[a..][|r| + j];
      }
    }
    r
  }

  /** Lowering twice is lowering once. */
  lemma LowerIdempotent(s: string)
    ensures Lower(Lower(s)) == Lower(s)
  {
  }

  /** Lowering commutes with taking a slice. */
  lemma LowerSlice(s: string, a: nat, b: nat)
    requires a <= b <= |s|
    ensures Lower(s[a..b]) == Lower(s)[a..b]
  {
  }

  /** Lowering distributes over concatenation. */
  lemma LowerConcat(s: string, t: string)
    ensures Lower(s + t) == Lower(s) + Lower(t)
  {
  }

  /** A string without upper-case letters is its own lower-case form. */
  lemma LowerOfLower(s: string)
    requires forall i :: 0 <= i < |s| ==> !IsUpper(s[i])
    ensures Lower(s) == s
  {
  }

  /** A string starts with `p` followed by anything. */
  lemma StartsWithConcat(p: string, t: string)
    ensures StartsWith(p + t, p)
  {
    assert (p + t)[..|p|] == p;
  }

  /** A string that starts with `p` is `p` followed by the rest. */
  lemma StartsWithSplit(s: string, p: string)
    requires StartsWith(s, p)
    ensures s == p + s[|p|..]
  {
    assert s == s[..|p|] + s[|p|..];
  }

  /** A word occurs in the middle of `pre + w + post`. */
  lemma ContainsInfix(pre: string, w: string, post: string)
    ensures Contains(pre + w + post, w)
  {
    assert (pre + w + post)[|pre|..|pre| + |w|] == w;
    assert OccursAt(pre + w + post, w, |pre|);
  }

  /** What occurs in a slice occurs in the whole string. */
  lemma ContainsInSlice(s: string, a: nat, b: nat, w: string)
    requires a <= b <= |s|
    requires Contains(s[a..b], w)
    ensures Contains(s, w)
  {
    var m := s[a..b];
    var i: nat :| OccursAt(m, w, i);
    SliceOfSlice(s, a, b, i, i + |w|);
    assert OccursAt(s, w, a + i);
  }

  /** A word with a character that `s` lacks does not occur in `s`. */
  lemma AbsentCharNotContained(s: string, w: string, j: nat)
    requires j < |w|
    requires forall i :: 0 <= i < |s| ==> s[i] != w[j]
    ensures !Contains(s, w)
  {
  }

  /** A non-empty word without whitespace that occurs in `s` lies inside the
      whitespace-free middle `s[a..b]`, so it occurs there too. */
  lemma ContainsInCore(s: string, a: nat, b: nat, w: string)
    requires a <= b <= |s|
    requires AllSpace(s[..a]) && AllSpace(s[b..])
    requires |w| > 0 && forall j :: 0 <= j < |w| ==> !IsSpace(w[j])
    requires Contains(s, w)
    ensures Contains(s[a..b], w)
  {
    var i: nat :| OccursAt(s, w, i);
    OccurrenceInCore(s, a, b, w, i);
  }

  lemma OccurrenceInCore(s: string, a: nat, b: nat, w: string, i: nat)
    requires a <= b <= |s|
    requires AllSpace(s[..a]) && AllSpace(s[b..])
    requires |w| > 0 && !IsSpace(w[0]) && !IsSpace(w[|w| - 1])
    requires OccursAt(s, w, i)
    ensures a <= i && i + |w| <= b && OccursAt(s[a..b], w, i - a)
  {
    var n := |w|;
    var occ := s[i..i + n];
    assert s[i] == w[0] by { assert occ[0] == s[i]; }
    assert s[i + n - 1] == w[n - 1] by { assert occ[n - 1] == s[i + n - 1]; }
    assert a <= i;
    assert i + n <= b;
    SliceOfSlice(s, a, b, i - a, i - a + n);
  }

  /** A slice of a slice is a slice of the original string. */
  lemma SliceOfSlice(s: string, a: nat, b: nat, i: nat, j: nat)
    requires a <= b <= |s| && i <= j <= b - a
    ensures s[a..b][i..j] == s[a + i..a + j]
  {
    var m := s[a..b];
    var l := m[i..j];
    var r := s[a + i..a + j];
    forall k | 0 <= k < j - i ensures l[k] == r[k] {
      assert l[k] == m[i + k];
    }
  }

  /** Lowering maps a run of whitespace to itself. */
  lemma LowerAllSpace(t: string)
    requires AllSpace(t)
    ensures AllSpace(Lower(t))
  {
  }

  /** Cutting whitespace off both ends of `t` does not change whether a
      non-empty, whitespace-free word occurs in it. */
  lemma ContainsCoreIff(t: string, a: nat, b: nat, w: string)
    requires a <= b <= |t|
    requires AllSpace(t[..a]) && AllSpace(t[b..])
    requires |w| > 0 && forall j :: 0 <= j < |w| ==> !IsSpace(w[j])
    ensures Contains(t[a..b], w) <==> Contains(t, w)
  {
    if Contains(t, w) {
      ContainsInCore(t, a, b, w);
    }
    if Contains(t[a..b], w) {
      ContainsInSlice(t, a, b, w);
    }
  }

  /** `Strip(s)` is the slice `s[a..b]` with only whitespace around it. */
  lemma StripBounds(s: string) returns (a: nat, b: nat)
    ensures a <= b <= |s|
    ensures Strip(s) == s[a..b]
    ensures AllSpace(s[..a]) && AllSpace(s[b..])
  {
    var r := Strip(s);
    a :| 0 <= a <= |s| - |r| && s[a..a + |r|] == r
         && AllSpace(s[..a]) && AllSpace(s[a + |r|..]);
    b := a + |r|;
  }

  /** Lowering keeps a slice with only whitespace around it in that shape. */
  lemma LowerAround(s: string, a: nat, b: nat)
    requires a <= b <= |s|
    requires AllSpace(s[..a]) && AllSpace(s[b..])
    ensures Lower(s[a..b]) == Lower(s)[a..b]
    ensures AllSpace(Lower(s)[..a]) && AllSpace(Lower(s)[b..])
  {
    LowerSlice(s, a, b);
    LowerPrefix(s, a);
    LowerSuffix(s, b);
    LowerAllSpace(s[..a]);
    LowerAllSpace(s[b..]);
  }

  /** The lowered form of `Strip(s)` is the lowered `s` with whitespace cut
      off both ends. */
  lemma LowerStrip(s: string) returns (a: nat, b: nat)
    ensures a <= b <= |s|
    ensures Lower(Strip(s)) == Lower(s)[a..b]
    ensures AllSpace(Lower(s)[..a]) && AllSpace(Lower(s)[b..])
  {
    a, b := StripBounds(s);
    LowerAround(s, a, b);
  }

  lemma LowerPrefix(s: string, a: nat)
    requires a <= |s|
    ensures Lower(s[..a]) == Lower(s)[..a]
  {
  }

  lemma LowerSuffix(s: string, b: nat)
    requires b <= |s|
    ensures Lower(s[b..]) == Lower(s)[b..]
  {
  }

  /** Stripping before lowering does not change whether a non-empty,
      whitespace-free word occurs in the lowered text. */
  lemma StripKeepsContains(s: string, w: string)
    requires |w| > 0 && forall j :: 0 <= j < |w| ==> !IsSpace(w[j])
    ensures Contains(Lower(Strip(s)), w) <==> Contains(Lower(s), w)
  {
    var a, b := LowerStrip(s);
    ContainsCoreIff(Lower(s), a, b, w);
  }

  /** A string that neither starts nor ends with whitespace is its own
      stripped form. */
  lemma StripOfCore(s: string)
    requires |s| == 0 || (!IsSpace(s[0]) && !IsSpace(s[|s| - 1]))
    ensures Strip(s) == s
  {
  }

  /** Stripping twice is stripping once. */
  lemma StripIdempotent(s: string)
    ensures Strip(Strip(s)) == Strip(s)
  {
  }
}
