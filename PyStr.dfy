/** The Python `str` built-ins the core relies on, with contracts that pin
    down their meaning: `strip()`, `find`, `split(sep)` for a non-empty
    separator, `"sep".join`, `replace` of one character, `lower()` (ASCII)
    and `rfind` of one character. */
module PyStr {

  /** The characters `str.isspace()` accepts: U+0009 to U+000D, U+001C to
      U+0020, U+0085, U+00A0, U+1680, U+2000 to U+200A, U+2028, U+2029,
      U+202F, U+205F and U+3000. `str.strip()` with no argument removes
      exactly these. */
  predicate IsWhitespace(c: char)
  {
    var n := c as int;
    if n <= 0x20 then 0x09 <= n <= 0x0D || 0x1C <= n
    else if n < 0x2000 then n == 0x85 || n == 0xA0 || n == 0x1680
    else n <= 0x200A || n == 0x2028 || n == 0x2029 || n == 0x202F || n == 0x205F || n == 0x3000
  }

  predicate AllWhitespace(s: string)
  {
    forall k :: 0 <= k < |s| ==> IsWhitespace(s[k])
  }

  /** Number of whitespace characters at the start of `s`. */
  function LeadingSpace(s: string): (n: nat)
    ensures n <= |s|
  {
    if s == [] || !IsWhitespace(s[0]) then 0 else 1 + LeadingSpace(s[1..])
  }

  /** `LeadingSpace` counts the maximal whitespace prefix. */
  lemma LeadingSpaceMaximal(s: string)
    ensures AllWhitespace(s[..LeadingSpace(s)])
    ensures LeadingSpace(s) < |s| ==> !IsWhitespace(s[LeadingSpace(s)])
  {
    LeadingSpaceAll(s);
    LeadingSpaceStops(s);
  }

  lemma {:induction false} LeadingSpaceAll(s: string)
    ensures AllWhitespace(s[..LeadingSpace(s)])
  {
    if s != [] && IsWhitespace(s[0]) {
      LeadingSpaceAll(s[1..]);
      assert s[..LeadingSpace(s)] == [s[0]] + s[1..][..LeadingSpace(s[1..])];
    }
  }

  lemma {:induction false} LeadingSpaceStops(s: string)
    ensures LeadingSpace(s) < |s| ==> !IsWhitespace(s[LeadingSpace(s)])
  {
    if s != [] && IsWhitespace(s[0]) {
      LeadingSpaceStops(s[1..]);
    }
  }

  /** Number of whitespace characters at the end of `s`. */
  function TrailingSpace(s: string): (n: nat)
    ensures n <= |s|
  {
    if s == [] || !IsWhitespace(s[|s| - 1]) then 0 else 1 + TrailingSpace(s[..|s| - 1])
  }

  /** `TrailingSpace` counts the maximal whitespace suffix. */
  lemma TrailingSpaceMaximal(s: string)
    ensures AllWhitespace(s[|s| - TrailingSpace(s)..])
    ensures TrailingSpace(s) < |s| ==> !IsWhitespace(s[|s| - TrailingSpace(s) - 1])
  {
    TrailingSpaceAll(s);
    TrailingSpaceStops(s);
  }

  lemma {:induction false} TrailingSpaceAll(s: string)
    ensures AllWhitespace(s[|s| - TrailingSpace(s)..])
  {
    if s != [] && IsWhitespace(s[|s| - 1]) {
      var u := s[..|s| - 1];
      TrailingSpaceAll(u);
      assert s[|s| - TrailingSpace(s)..] == u[|u| - TrailingSpace(u)..] + [s[|s| - 1]];
    }
  }

  lemma {:induction false} TrailingSpaceStops(s: string)
    ensures TrailingSpace(s) < |s| ==> !IsWhitespace(s[|s| - TrailingSpace(s) - 1])
  {
    if s != [] && IsWhitespace(s[|s| - 1]) {
      var u := s[..|s| - 1];
      TrailingSpaceStops(u);
      if TrailingSpace(s) < |s| {
        assert s[|s| - TrailingSpace(s) - 1] == u[|u| - TrailingSpace(u) - 1];
      }
    }
  }

  /** `s.strip()`: the maximal whitespace prefix and suffix removed. */
  function Strip(s: string): (r: string)
    ensures |r| <= |s|
  {
    var a := LeadingSpace(s);
    s[a..|s| - TrailingSpace(s[a..])]
  }

  /** `Strip` keeps the slice of `s` after its whitespace prefix and
      before its whitespace suffix, and that slice starts and ends with
      non-whitespace. */
  lemma StripSlice(s: string)
    ensures LeadingSpace(s) + |Strip(s)| <= |s|
    ensures Strip(s) == s[LeadingSpace(s)..LeadingSpace(s) + |Strip(s)|]
    ensures AllWhitespace(s[..LeadingSpace(s)])
    ensures AllWhitespace(s[LeadingSpace(s) + |Strip(s)|..])
    ensures Strip(s) != "" ==> !IsWhitespace(Strip(s)[0]) && !IsWhitespace(Strip(s)[|Strip(s)| - 1])
  {
    LeadingSpaceMaximal(s);
    StripSuffix(s);
    StripEnds(s);
  }

  lemma StripSuffix(s: string)
    ensures AllWhitespace(s[LeadingSpace(s) + |Strip(s)|..])
  {
    var a := LeadingSpace(s);
    var u := s[a..];
    var t := TrailingSpace(u);
    TrailingSpaceAll(u);
    assert a + |Strip(s)| == |s| - t;
    assert u[|u| - t..] == s[|s| - t..];
  }

  lemma StripEnds(s: string)
    ensures Strip(s) != "" ==> !IsWhitespace(Strip(s)[0]) && !IsWhitespace(Strip(s)[|Strip(s)| - 1])
  {
    StripFirst(s);
    StripLast(s);
  }

  lemma StripFirst(s: string)
    ensures Strip(s) != "" ==> !IsWhitespace(Strip(s)[0])
  {
    var a := LeadingSpace(s);
    LeadingSpaceStops(s);
    if Strip(s) != "" {
      assert Strip(s)[0] == s[a];
    }
  }

  lemma StripLast(s: string)
    ensures Strip(s) != "" ==> !IsWhitespace(Strip(s)[|Strip(s)| - 1])
  {
    var u := s[LeadingSpace(s)..];
    var t := TrailingSpace(u);
    TrailingSpaceStops(u);
    if Strip(s) != "" {
      assert Strip(s) == u[..|u| - t];
      assert Strip(s)[|Strip(s)| - 1] == u[|u| - t - 1];
    }
  }

  /** `s` is `s.strip()` with whitespace before and after it. */
  lemma StripAround(s: string) returns (pre: string, post: string)
    ensures s == pre + Strip(s) + post
    ensures AllWhitespace(pre) && AllWhitespace(post)
  {
    var a := LeadingSpace(s);
    var r := Strip(s);
    StripSlice(s);
    pre, post := s[..a], s[a + |r|..];
    assert s == pre + r + post;
  }

  /** `s.strip()` is empty exactly when `s` is all whitespace. */
  lemma StripEmpty(s: string)
    ensures Strip(s) == "" <==> AllWhitespace(s)
  {
    var a := LeadingSpace(s);
    var r := Strip(s);
    StripSlice(s);
    if r == "" {
      forall k | 0 <= k < |s|
        ensures IsWhitespace(s[k])
      {
        if k < a {
          assert s[k] == s[..a][k];
        } else {
          assert s[k] == s[a..][k - a];
        }
      }
    } else {
      assert r[0] == s[a];
    }
  }

  /** Stripping a stripped string changes nothing. */
  lemma StripIdempotent(s: string)
    ensures Strip(Strip(s)) == Strip(s)
  {
    var r := Strip(s);
    StripSlice(s);
    if r != "" {
      assert LeadingSpace(r) == 0;
      assert TrailingSpace(r) == 0;
    }
  }

  /** `sep` occurs in `s` starting at index `i`. */
  predicate OccursAt(s: string, sep: string, i: int)
  {
    0 <= i && i + |sep| <= |s| && s[i..i + |sep|] == sep
  }

  /** Python's `sep in s`: `sep` is a contiguous piece of `s`. */
  ghost predicate Contains(s: string, sep: string)
  {
    exists i :: OccursAt(s, sep, i)
  }

  lemma SliceOfSlice(s: string, a: int, b: int, c: int, d: int)
    requires 0 <= a <= b <= |s| && 0 <= c <= d <= b - a
    ensures s[a..b][c..d] == s[a + c..a + d]
  {
    assert forall m :: 0 <= m < d - c ==> s[a..b][c..d][m] == s[a + c + m];
  }

  /** An occurrence that ends by index `k` is an occurrence in `s[..k]`. */
  lemma OccursInPrefix(s: string, sep: string, j: int, k: int)
    requires 0 <= j && j + |sep| <= k <= |s|
    ensures OccursAt(s, sep, j) ==> OccursAt(s[..k], sep, j)
  {
    SliceOfSlice(s, 0, k, j, j + |sep|);
  }

  /** An occurrence in `s[..k]` is an occurrence in `s`. */
  lemma OccursFromPrefix(s: string, sep: string, j: int, k: int)
    requires 0 <= k <= |s|
    ensures OccursAt(s[..k], sep, j) ==> OccursAt(s, sep, j)
  {
    if 0 <= j && j + |sep| <= k {
      SliceOfSlice(s, 0, k, j, j + |sep|);
    }
  }

  /** A piece of a piece of `s` is a piece of `s`. */
  lemma InfixTransitive(a: string, b: string, s: string)
    requires Contains(b, a) && Contains(s, b)
    ensures Contains(s, a)
  {
    var i :| OccursAt(b, a, i);
    var j :| OccursAt(s, b, j);
    SliceOfSlice(s, j, j + |b|, i, i + |a|);
    assert OccursAt(s, a, j + i);
  }

  /** `s.find(sep, start)`: the first index at or after `start` where `sep`
      occurs, or -1. */
  function Find(s: string, sep: string, start: nat): (i: int)
    requires start <= |s|
    ensures i == -1 || (start <= i && OccursAt(s, sep, i))
    ensures forall j :: start <= j && (i == -1 || j < i) ==> !OccursAt(s, sep, j)
    decreases |s| - start
  {
    if start + |sep| > |s| then -1
    else if s[start..start + |sep|] == sep then start
    else Find(s, sep, start + 1)
  }

  /** `sep.join(parts)`. */
  function Join(parts: seq<string>, sep: string): string
    requires |parts| >= 1
  {
    if |parts| == 1 then parts[0] else parts[0] + sep + Join(parts[1..], sep)
  }

  /** `s.split(sep)` for a non-empty separator: cut at each occurrence of
      `sep`, scanning left to right without overlap. */
  function Split(s: string, sep: string): (parts: seq<string>)
    requires sep != ""
    ensures |parts| >= 1
    decreases |s|
  {
    var i := Find(s, sep, 0);
    if i < 0 then [s] else [s[..i]] + Split(s[i + |sep|..], sep)
  }

  /** Joining the pieces back with the separator gives `s`. */
  lemma {:induction false} SplitJoin(s: string, sep: string)
    requires sep != ""
    ensures Join(Split(s, sep), sep) == s
    decreases |s|
  {
    var i := Find(s, sep, 0);
    if i >= 0 {
      var tail := s[i + |sep|..];
      assert s[i..i + |sep|] == sep;
      assert s == s[..i] + s[i..i + |sep|] + tail;
      SplitJoin(tail, sep);
      var parts := Split(s, sep);
      assert parts[0] == s[..i] && parts[1..] == Split(tail, sep);
    }
  }

  /** No piece holds the separator. */
  lemma {:induction false} SplitPieces(s: string, sep: string)
    requires sep != ""
    ensures forall k :: 0 <= k < |Split(s, sep)| ==> !Contains(Split(s, sep)[k], sep)
    decreases |s|
  {
    var i := Find(s, sep, 0);
    var parts := Split(s, sep);
    if i < 0 {
      assert !Contains(s, sep);
    } else {
      FirstCut(s, sep, i);
      var tail := s[i + |sep|..];
      SplitPieces(tail, sep);
      assert parts == [s[..i]] + Split(tail, sep);
      forall k | 1 <= k < |parts|
        ensures !Contains(parts[k], sep)
      {
        assert parts[k] == Split(tail, sep)[k - 1];
      }
    }
  }

  /** No piece but the last could have been cut earlier: a piece followed
      by all but the last character of the separator still holds no
      separator (leftmost matching). With `SplitJoin` and `SplitPieces`
      this determines `Split` (see `SplitUnique`). */
  lemma {:induction false} SplitLeftmost(s: string, sep: string)
    requires sep != ""
    ensures forall k :: 0 <= k < |Split(s, sep)| - 1 ==> !Contains(Split(s, sep)[k] + sep[..|sep| - 1], sep)
    decreases |s|
  {
    var i := Find(s, sep, 0);
    var parts := Split(s, sep);
    if i >= 0 {
      FirstCut(s, sep, i);
      var tail := s[i + |sep|..];
      SplitLeftmost(tail, sep);
      assert parts == [s[..i]] + Split(tail, sep);
      forall k | 1 <= k < |parts| - 1
        ensures !Contains(parts[k] + sep[..|sep| - 1], sep)
      {
        assert parts[k] == Split(tail, sep)[k - 1];
      }
    }
  }

  /** What `SplitPieces` and `SplitLeftmost` need about the first cut at the leftmost
      occurrence `i`. */
  lemma FirstCut(s: string, sep: string, i: int)
    requires sep != "" && i >= 0 && i == Find(s, sep, 0)
    ensures !Contains(s[..i], sep)
    ensures !Contains(s[..i] + sep[..|sep| - 1], sep)
  {
    assert s[i..i + |sep|] == sep;
    NoEarlierOccurrence(s, sep, i, i);
    assert s[..i] + sep[..|sep| - 1] == s[..i + |sep| - 1];
    NoEarlierOccurrence(s, sep, i, i + |sep| - 1);
  }

  /** Before the leftmost occurrence `i`, a prefix that stops short of
      `i + |sep|` holds no occurrence. */
  lemma NoEarlierOccurrence(s: string, sep: string, i: int, k: int)
    requires sep != "" && i >= 0 && i == Find(s, sep, 0)
    requires 0 <= k < i + |sep| && k <= |s|
    ensures !Contains(s[..k], sep)
  {
    forall j
      ensures !OccursAt(s[..k], sep, j)
    {
      OccursFromPrefix(s, sep, j, k);
    }
  }

  /** `Split` is the only decomposition of `s` with its three properties:
      joining back gives `s`, no piece holds the separator, and no piece
      could have been cut earlier (leftmost matching). */
  lemma {:induction false} SplitUnique(s: string, sep: string, parts: seq<string>)
    requires sep != "" && |parts| >= 1
    requires Join(parts, sep) == s
    requires forall k :: 0 <= k < |parts| ==> !Contains(parts[k], sep)
    requires forall k :: 0 <= k < |parts| - 1 ==> !Contains(parts[k] + sep[..|sep| - 1], sep)
    ensures parts == Split(s, sep)
    decreases |parts|
  {
    var i := Find(s, sep, 0);
    if |parts| > 1 {
      var p := parts[0];
      var rest := Join(parts[1..], sep);
      assert s == p + sep + rest;
      assert OccursAt(s, sep, |p|);
      // No occurrence starts before |p|: it would lie inside p or straddle p and sep.
      assert s[..|p|] == p;
      assert p + sep[..|sep| - 1] == s[..|p| + |sep| - 1];
      forall j | 0 <= j < |p|
        ensures !OccursAt(s, sep, j)
      {
        if j + |sep| <= |p| {
          OccursInPrefix(s, sep, j, |p|);
        } else {
          OccursInPrefix(s, sep, j, |p| + |sep| - 1);
        }
      }
      assert i == |p|;
      assert s[i + |sep|..] == rest;
      SplitUnique(rest, sep, parts[1..]);
      assert s[..i] == p;
    }
  }

  /** `s.replace(from, to)` for single characters. */
  function ReplaceChar(s: string, from: char, to: char): (r: string)
    ensures |r| == |s|
    ensures forall k :: 0 <= k < |s| ==> r[k] == (if s[k] == from then to else s[k])
  {
    if s == [] then []
    else [if s[0] == from then to else s[0]] + ReplaceChar(s[1..], from, to)
  }

  function LowerChar(c: char): char
  {
    if 'A' <= c <= 'Z' then (c as int + 32) as char else c
  }

  /** `s.lower()` restricted to ASCII letters. */
  function LowerAscii(s: string): (r: string)
    ensures |r| == |s|
    ensures forall k :: 0 <= k < |s| ==> r[k] == LowerChar(s[k])
  {
    if s == [] then [] else [LowerChar(s[0])] + LowerAscii(s[1..])
  }

  /** `s.rfind(c)` for one character: the last index holding `c`, or -1. */
  function RFind(s: string, c: char): (i: int)
    ensures -1 <= i < |s|
    ensures i >= 0 ==> s[i] == c
    ensures forall k :: i < k < |s| ==> s[k] != c
  {
    if s == [] then -1
    else if s[|s| - 1] == c then |s| - 1
    else RFind(s[..|s| - 1], c)
  }
}
