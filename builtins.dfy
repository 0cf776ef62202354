/**
 * The Python built-ins the backend applies to strings and numbers:
 * `min`, `sep.join`, `s.split(sep)`, `s.rstrip(c)`, `s.strip()`,
 * `sub in s`, `s[:n]` and the `x or ""` idiom.
 */
module Builtins {
  import opened Wrappers

  function Min(a: int, b: int): int {
    if a <= b then a else b
  }

  function MinReal(a: real, b: real): (m: real)
    ensures m <= a && m <= b && (m == a || m == b)
  {
    if a <= b then a else b
  }

  /** `x or ""` for an optional string: a missing or null value reads as the empty string. */
  function OrEmpty(x: Option<string>): string {
    match x
    case Some(s) => s
    case None => ""
  }

  /** `c * k`: the string of k copies of c. */
  function Repeat(c: char, k: nat): (r: string)
    ensures |r| == k && forall i :: 0 <= i < k ==> r[i] == c
  {
    seq(k, _ => c)
  }

  /** `sep.join(xs)` (JoinEnds and SplitJoin state what it yields). */
  function Join(xs: seq<string>, sep: string): string
    decreases |xs|
  {
    if |xs| == 0 then ""
    else if |xs| == 1 then xs[0]
    else Join(xs[..|xs| - 1], sep) + sep + xs[|xs| - 1]
  }

  /** Joining one more string appends the separator and that string. */
  lemma JoinSnoc(xs: seq<string>, x: string, sep: string)
    requires xs != []
    ensures Join(xs + [x], sep) == Join(xs, sep) + sep + x
  {
    assert (xs + [x])[..|xs|] == xs;
  }

  /**
   * `sep.join(xs)` is empty for no strings; otherwise it starts with the
   * first string and ends with the last, and it is at least as long as
   * their separators put together.
   */
  lemma {:induction false} JoinEnds(xs: seq<string>, sep: string)
    ensures xs == [] ==> Join(xs, sep) == ""
    ensures xs != [] ==> xs[0] <= Join(xs, sep)
    ensures xs != [] ==> OccursAt(Join(xs, sep), xs[|xs| - 1], |Join(xs, sep)| - |xs[|xs| - 1]|)
    ensures xs != [] ==> |Join(xs, sep)| >= (|xs| - 1) * |sep|
    decreases |xs|
  {
    if |xs| >= 2 {
      var front := xs[..|xs| - 1];
      JoinEnds(front, sep);
      assert front[0] == xs[0];
      var r := Join(xs, sep);
      assert r == Join(front, sep) + sep + xs[|xs| - 1];
      assert r[|r| - |xs[|xs| - 1]|..] == xs[|xs| - 1];
    }
  }

  /** sub occurs in s starting at position i. */
  predicate OccursAt(s: string, sub: string, i: int) {
    0 <= i && i + |sub| <= |s| && s[i..i + |sub|] == sub
  }

  /** `sub in s`: sub occurs as a contiguous piece of s. */
  predicate Contains(s: string, sub: string) {
    exists i :: 0 <= i <= |s| && OccursAt(s, sub, i)
  }

  /** `s[:n]` for a non-negative n. */
  function Prefix(s: string, n: nat): (r: string)
    ensures r <= s
    ensures |r| == Min(n, |s|)
  {
    if n < |s| then s[..n] else s
  }

  /** Position of the last occurrence of c in s, or -1 when there is none. */
  function LastIndexOf(s: string, c: char): (i: int)
    ensures -1 <= i < |s|
    ensures 0 <= i ==> s[i] == c
    ensures forall j :: i < j < |s| ==> s[j] != c
  {
    if |s| == 0 then -1
    else if s[|s| - 1] == c then |s| - 1
    else LastIndexOf(s[..|s| - 1], c)
  }

  /** `s.split(sep)` for a one-character separator: never empty, and no part holds sep. */
  function Split(s: string, sep: char): (parts: seq<string>)
    ensures |parts| >= 1
    ensures forall k :: 0 <= k < |parts| ==> sep !in parts[k]
    decreases |s|
  {
    var i := LastIndexOf(s, sep);
    if i < 0 then [s] else Split(s[..i], sep) + [s[i + 1..]]
  }

  /** Joining the parts of a split with the separator gives back the string. */
  lemma {:induction false} SplitJoin(s: string, sep: char)
    ensures Join(Split(s, sep), [sep]) == s
    decreases |s|
  {
    var i := LastIndexOf(s, sep);
    if i >= 0 {
      var front := Split(s[..i], sep);
      SplitJoin(s[..i], sep);
      var last := s[i + 1..];
      assert Split(s, sep) == front + [last];
      JoinSnoc(front, last, [sep]);
      assert s == s[..i] + [sep] + last;
    } else {
      assert Split(s, sep) == [s];
    }
  }

  /** A split yields a single part exactly when the separator does not occur. */
  lemma SplitSingle(s: string, sep: char)
    ensures |Split(s, sep)| == 1 <==> sep !in s
  {
    var i := LastIndexOf(s, sep);
    if i >= 0 {
      assert |Split(s[..i], sep)| >= 1;
    }
  }

  /** Splitting a + sep + b, where b is free of sep, splits a and then adds b as the last part. */
  lemma SplitSnoc(a: string, b: string, sep: char)
    requires sep !in b
    ensures Split(a + [sep] + b, sep) == Split(a, sep) + [b]
  {
    var s := a + [sep] + b;
    var i := LastIndexOf(s, sep);
    assert s[|a|] == sep;
    forall j | |a| < j < |s| ensures s[j] != sep {
      assert s[j] == b[j - |a| - 1];
    }
    assert s[..i] == a;
    assert s[i + 1..] == b;
  }

  /** `s.rstrip(c)`: the longest prefix of s that does not end in c. */
  function RStrip(s: string, c: char): (r: string)
    ensures r <= s
    ensures forall i :: |r| <= i < |s| ==> s[i] == c
    ensures r == [] || r[|r| - 1] != c
    decreases |s|
  {
    if s != [] && s[|s| - 1] == c then RStrip(s[..|s| - 1], c) else s
  }

  /** Stripping a run of c from a string that does not itself end in c gives the string back. */
  lemma RStripRun(s: string, c: char, k: nat)
    requires s == [] || s[|s| - 1] != c
    ensures RStrip(s + Repeat(c, k), c) == s
  {
    var t := s + Repeat(c, k);
    var r := RStrip(t, c);
    if s != [] {
      assert t[|s| - 1] == s[|s| - 1];
    }
    forall j | |s| <= j < |t| ensures t[j] == c {
      assert t[j] == Repeat(c, k)[j - |s|];
    }
    assert r == t[..|r|];
    assert t[..|s|] == s;
  }

  /** Python's `str.isspace` for one character. */
  predicate IsSpace(c: char) {
    ('\t' <= c <= '\r') || ('\U{1C}' <= c <= ' ') || c == '\U{85}' || c == '\U{A0}' ||
    c == '\U{1680}' || ('\U{2000}' <= c <= '\U{200A}') || c == '\U{2028}' || c == '\U{2029}' ||
    c == '\U{202F}' || c == '\U{205F}' || c == '\U{3000}'
  }

  /** Every character of s is whitespace (the empty string included). */
  predicate IsBlank(s: string) {
    forall i :: 0 <= i < |s| ==> IsSpace(s[i])
  }

  /** `s.lstrip()`: drops the leading whitespace. */
  function TrimStart(s: string): (r: string)
    ensures |r| <= |s| && r == s[|s| - |r|..]
    ensures forall i :: 0 <= i < |s| - |r| ==> IsSpace(s[i])
    ensures r == [] || !IsSpace(r[0])
    decreases |s|
  {
    if s != [] && IsSpace(s[0]) then TrimStart(s[1..]) else s
  }

  /** `s.rstrip()`: drops the trailing whitespace. */
  function TrimEnd(s: string): (r: string)
    ensures r <= s
    ensures forall i :: |r| <= i < |s| ==> IsSpace(s[i])
    ensures r == [] || !IsSpace(r[|r| - 1])
    decreases |s|
  {
    if s != [] && IsSpace(s[|s| - 1]) then TrimEnd(s[..|s| - 1]) else s
  }

  /**
   * `s.strip()`: what is left of s once its leading and trailing whitespace
   * is removed: a contiguous piece of s, everything before and after it is
   * whitespace, and it neither starts nor ends with whitespace
   * (StripEmptyIffBlank says when it is empty).
   */
  function Strip(s: string): (r: string)
    ensures OccursAt(s, r, LeadingSpace(s))
    ensures IsBlank(s[..LeadingSpace(s)]) && IsBlank(s[LeadingSpace(s) + |r|..])
    ensures r == [] || (!IsSpace(r[0]) && !IsSpace(r[|r| - 1]))
  {
    StripTrims(s);
    TrimEnd(TrimStart(s))
  }

  /** The number of leading whitespace characters of s. */
  function LeadingSpace(s: string): (n: nat)
    ensures n <= |s|
  {
    |s| - |TrimStart(s)|
  }

  /** Strip's promises, stated of the trimmed string it returns. */
  lemma StripTrims(s: string)
    ensures OccursAt(s, TrimEnd(TrimStart(s)), LeadingSpace(s))
    ensures IsBlank(s[..LeadingSpace(s)]) && IsBlank(s[LeadingSpace(s) + |TrimEnd(TrimStart(s))|..])
    ensures TrimEnd(TrimStart(s)) == [] ||
      (!IsSpace(TrimEnd(TrimStart(s))[0]) && !IsSpace(TrimEnd(TrimStart(s))[|TrimEnd(TrimStart(s))| - 1]))
  {
    var t := TrimStart(s);
    var r := TrimEnd(t);
    StripParts(s, LeadingSpace(s), t, r);
  }

  /**
   * Dropping whitespace from the front of s (up to off) and from the back of
   * the rest leaves a piece of s at off with whitespace only around it, and
   * neither end of that piece is whitespace.
   */
  lemma StripParts(s: string, off: nat, t: string, r: string)
    requires off <= |s| && t == s[off..] && r <= t
    requires forall i :: 0 <= i < off ==> IsSpace(s[i])
    requires forall i :: |r| <= i < |t| ==> IsSpace(t[i])
    requires t == [] || !IsSpace(t[0])
    requires r == [] || !IsSpace(r[|r| - 1])
    ensures OccursAt(s, r, off) && IsBlank(s[..off]) && IsBlank(s[off + |r|..])
    ensures r == [] || (!IsSpace(r[0]) && !IsSpace(r[|r| - 1]))
  {
    assert s[off..off + |r|] == t[..|r|];
    var rest := s[off + |r|..];
    forall i | 0 <= i < |rest| ensures IsSpace(rest[i]) {
      assert rest[i] == t[|r| + i];
    }
    if r != [] {
      assert r[0] == t[0];
    }
  }

  /** `s.strip()` is empty (falsy) exactly when s is whitespace only. */
  lemma StripEmptyIffBlank(s: string)
    ensures Strip(s) == [] <==> IsBlank(s)
  {
    var t := TrimStart(s);
    var r := TrimEnd(t);
    assert Strip(s) == r;
    if r == [] {
      assert t == [];
    } else {
      assert r[0] == t[0] == s[|s| - |t|];
    }
  }

  /**
   * `[f(x) for x in xs if keep(x)]`: the images of the kept elements, in
   * order (defined from the back, as a loop that appends builds it).
   */
  function FilterMap<T, U>(xs: seq<T>, keep: T -> bool, f: T -> U): (ys: seq<U>)
    ensures |ys| <= |xs|
    decreases |xs|
  {
    if xs == [] then []
    else
      var last := xs[|xs| - 1];
      FilterMap(xs[..|xs| - 1], keep, f) + (if keep(last) then [f(last)] else [])
  }

  /** One more element adds its image exactly when it is kept. */
  lemma FilterMapSnoc<T, U>(xs: seq<T>, keep: T -> bool, f: T -> U, i: nat)
    requires i < |xs|
    ensures FilterMap(xs[..i + 1], keep, f) ==
      FilterMap(xs[..i], keep, f) + (if keep(xs[i]) then [f(xs[i])] else [])
  {
    assert xs[..i + 1][..i] == xs[..i];
  }

  /**
   * The result is exactly the images of the kept elements, in order: the
   * k-th entry is the image of element pos[k], which is kept, the positions
   * increase, and every kept element has its position in pos.
   */
  lemma {:induction false} FilterMapSelect<T, U>(xs: seq<T>, keep: T -> bool, f: T -> U)
    returns (pos: seq<nat>)
    ensures |pos| == |FilterMap(xs, keep, f)|
    ensures forall k :: 0 <= k < |pos| ==>
      pos[k] < |xs| && keep(xs[pos[k]]) && FilterMap(xs, keep, f)[k] == f(xs[pos[k]])
    ensures forall k, l :: 0 <= k < l < |pos| ==> pos[k] < pos[l]
    ensures forall p :: 0 <= p < |xs| && keep(xs[p]) ==> p in pos
    decreases |xs|
  {
    if xs == [] {
      pos := [];
    } else {
      var n := |xs| - 1;
      var front := xs[..n];
      var pos0 := FilterMapSelect(front, keep, f);
      forall k | 0 <= k < |pos0| ensures front[pos0[k]] == xs[pos0[k]] {
      }
      forall p | 0 <= p < n ensures front[p] == xs[p] {
      }
      if keep(xs[n]) {
        pos := pos0 + [n];
      } else {
        pos := pos0;
      }
    }
  }
}
