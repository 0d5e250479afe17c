/** The JavaScript string primitives the wrapper relies on, written out so that
    their edge cases are explicit: `charAt`, `slice(-1)`, `split` on a string
    separator, `Array.prototype.join` and `trim`. A string is a sequence of
    characters; one character stands for one UTF-16 code unit of the original. */
module JsString {
  import opened Wrappers

  /** `s.charAt(i)`: the character at offset `i` as a one-character string, or
      the empty string when `i` is past the end (JavaScript does not throw). */
  function CharAt(s: string, i: nat): (r: string)
    ensures r == "" <==> |s| <= i
    ensures i < |s| ==> r == [s[i]]
  {
    if i < |s| then [s[i]] else ""
  }

  /** `s.slice(-1)`: the last character as a string; "" for the empty string. */
  function SliceLast(s: string): (r: string)
    ensures r == "" <==> s == ""
    ensures r != "" ==> r == [s[|s| - 1]] && s == s[..|s| - 1] + r
  {
    if |s| == 0 then "" else s[|s| - 1..]
  }

  // ---------------------------------------------------------------------------
  // Searching and splitting on a (possibly multi-character) separator
  // ---------------------------------------------------------------------------

  /** `sep` occurs in `s` starting at offset `k`. */
  predicate OccursAt(s: string, sep: string, k: nat)
  {
    k + |sep| <= |s| && s[k..k + |sep|] == sep
  }

  lemma OccursAtShift(s: string, sep: string, k: nat)
    requires |s| > 0
    ensures OccursAt(s[1..], sep, k) <==> OccursAt(s, sep, k + 1)
  {
    if k + 1 + |sep| <= |s| {
      assert s[1..][k..k + |sep|] == s[k + 1..k + 1 + |sep|];
    }
  }

  /** `s.indexOf(sep)`: the first offset at which `sep` occurs, if any. */
  function IndexOf(s: string, sep: string): (r: Option<nat>)
    requires |sep| > 0
    ensures r.Some? ==> OccursAt(s, sep, r.value)
    ensures forall k: nat :: k < (if r.Some? then r.value else |s|) ==> !OccursAt(s, sep, k)
    decreases |s|
  {
    if |s| < |sep| then None
    else if s[..|sep|] == sep then Some(0)
    else
      var rest := IndexOf(s[1..], sep);
      var r := if rest.Some? then Some(rest.value + 1) else None;
      assert !OccursAt(s, sep, 0) by { assert s[0..|sep|] == s[..|sep|]; }
      assert forall k: nat :: 0 < k < (if r.Some? then r.value else |s|) ==> !OccursAt(s, sep, k) by {
        forall k: nat | 0 < k < (if r.Some? then r.value else |s|) ensures !OccursAt(s, sep, k) {
          OccursAtShift(s, sep, k - 1);
        }
      }
      assert r.Some? ==> OccursAt(s, sep, r.value) by {
        if r.Some? { OccursAtShift(s, sep, rest.value); }
      }
      r
  }

  /** `s.split(sep)` for a non-empty separator string: the pieces between
      successive non-overlapping occurrences of `sep`, found left to right.
      The empty string splits into one empty piece. */
  function Split(s: string, sep: string): (r: seq<string>)
    requires |sep| > 0
    ensures |r| >= 1
    decreases |s|
  {
    match IndexOf(s, sep)
    case None => [s]
    case Some(k) => [s[..k]] + Split(s[k + |sep|..], sep)
  }

  /** `xs.join(sep)`: the elements with `sep` between neighbours; "" for []. */
  function Join(xs: seq<string>, sep: string): (r: string)
    ensures xs == [] ==> r == ""
    ensures xs != [] ==> |xs[0]| <= |r| && r[..|xs[0]|] == xs[0]
  {
    if |xs| == 0 then ""
    else if |xs| == 1 then xs[0]
    else xs[0] + sep + Join(xs[1..], sep)
  }

  lemma JoinCons(x: string, xs: seq<string>, sep: string)
    requires |xs| >= 1
    ensures Join([x] + xs, sep) == x + sep + Join(xs, sep)
  {
    assert ([x] + xs)[1..] == xs;
  }

  /** A string is its prefix, a middle slice and its suffix. */
  lemma SliceAround(s: string, i: nat, j: nat)
    requires i <= j <= |s|
    ensures s == s[..i] + s[i..j] + s[j..]
  {
    assert s[..j] == s[..i] + s[i..j];
    assert s == s[..j] + s[j..];
  }

  /** Joining the pieces of a split with the same separator gives back the
      original string: splitting loses nothing. */
  lemma {:induction false} JoinSplit(s: string, sep: string)
    requires |sep| > 0
    ensures Join(Split(s, sep), sep) == s
    decreases |s|
  {
    var found := IndexOf(s, sep);
    if found.Some? {
      var k := found.value;
      assert OccursAt(s, sep, k);
      var rest := s[k + |sep|..];
      var pieces := Split(rest, sep);
      assert Split(s, sep) == [s[..k]] + pieces;
      JoinSplit(rest, sep);
      JoinCons(s[..k], pieces, sep);
      SliceAround(s, k, k + |sep|);
    } else {
      assert Split(s, sep) == [s];
    }
  }

  /** No piece of a split contains the separator. */
  lemma {:induction false} SplitPiecesAvoidSeparator(s: string, sep: string)
    requires |sep| > 0
    ensures forall i: nat, k: nat :: i < |Split(s, sep)| ==> !OccursAt(Split(s, sep)[i], sep, k)
    decreases |s|
  {
    var r := Split(s, sep);
    match IndexOf(s, sep)
    case None =>
      assert r == [s];
    case Some(j) =>
      var rest := s[j + |sep|..];
      assert r == [s[..j]] + Split(rest, sep);
      SplitPiecesAvoidSeparator(rest, sep);
      PieceBeforeFirstOccurrence(s, sep, j);
      forall i: nat, k: nat | i < |r| ensures !OccursAt(r[i], sep, k) {
        if i > 0 {
          assert r[i] == Split(rest, sep)[i - 1];
        }
      }
  }

  /** The text before the first occurrence of `sep` does not contain `sep`. */
  lemma PieceBeforeFirstOccurrence(s: string, sep: string, j: nat)
    requires |sep| > 0 && IndexOf(s, sep) == Some(j)
    ensures forall k: nat :: !OccursAt(s[..j], sep, k)
  {
    forall k: nat ensures !OccursAt(s[..j], sep, k) {
      if OccursAt(s[..j], sep, k) {
        assert s[..j][k..k + |sep|] == s[k..k + |sep|];
        assert OccursAt(s, sep, k);
      }
    }
  }

  /** When the first character of `sep` does not occur in `x`, the first
      occurrence of `sep` in `x + sep + rest` is the one right after `x`. */
  lemma SplitAfter(x: string, sep: string, rest: string)
    requires |sep| > 0 && sep[0] !in x
    ensures Split(x + sep + rest, sep) == [x] + Split(rest, sep)
  {
    var s := x + sep + rest;
    assert s[|x|..|x| + |sep|] == sep;
    assert OccursAt(s, sep, |x|);
    var r := IndexOf(s, sep);
    assert r.Some?;
    assert s[r.value..r.value + |sep|][0] == s[r.value];
    assert r.value == |x|;
    assert s[..|x|] == x;
    assert s[|x| + |sep|..] == rest;
  }

  /** When the first character of `sep` does not occur in `x`, splitting `x`
      yields `x` alone. */
  lemma SplitWhole(x: string, sep: string)
    requires |sep| > 0 && sep[0] !in x
    ensures Split(x, sep) == [x]
  {
    var r := IndexOf(x, sep);
  }

  /** Splitting a join gives back the joined strings, provided none of them
      contains the first character of the separator. */
  lemma {:induction false} SplitJoin(xs: seq<string>, sep: string)
    requires |sep| > 0 && |xs| >= 1
    requires forall i :: 0 <= i < |xs| ==> sep[0] !in xs[i]
    ensures Split(Join(xs, sep), sep) == xs
    decreases |xs|
  {
    if |xs| == 1 {
      SplitWhole(xs[0], sep);
    } else {
      SplitJoin(xs[1..], sep);
      SplitAfter(xs[0], sep, Join(xs[1..], sep));
    }
  }

  // ---------------------------------------------------------------------------
  // Trimming
  // ---------------------------------------------------------------------------

  /** The characters `String.prototype.trim` removes: ECMAScript WhiteSpace
      (tab, vertical tab, form feed, space, no-break space, zero-width no-break
      space and the Unicode space separators) and LineTerminator (line feed,
      carriage return, line and paragraph separators). */
  predicate IsWhiteSpace(c: char)
  {
    || c == '\t' || c == '\n' || c == '\U{B}' || c == '\U{C}' || c == '\r'
    || c == ' ' || c == '\U{A0}' || c == '\U{1680}'
    || ('\U{2000}' <= c <= '\U{200A}')
    || c == '\U{2028}' || c == '\U{2029}' || c == '\U{202F}' || c == '\U{205F}'
    || c == '\U{3000}' || c == '\U{FEFF}'
  }

  predicate AllWhiteSpace(s: string)
  {
    forall i :: 0 <= i < |s| ==> IsWhiteSpace(s[i])
  }

  /** `s` with its leading white space removed. */
  function TrimStart(s: string): (r: string)
    ensures |r| <= |s| && r == s[|s| - |r|..]
    ensures forall i :: 0 <= i < |s| - |r| ==> IsWhiteSpace(s[i])
    ensures r == "" || !IsWhiteSpace(r[0])
    decreases |s|
  {
    if |s| > 0 && IsWhiteSpace(s[0]) then
      var r := TrimStart(s[1..]);
      assert s[1..][|s| - 1 - |r|..] == s[|s| - |r|..];
      r
    else s
  }

  /** `s` with its trailing white space removed. */
  function TrimEnd(s: string): (r: string)
    ensures |r| <= |s| && r == s[..|r|]
    ensures forall i :: |r| <= i < |s| ==> IsWhiteSpace(s[i])
    ensures r == "" || !IsWhiteSpace(r[|r| - 1])
    decreases |s|
  {
    if |s| > 0 && IsWhiteSpace(s[|s| - 1]) then
      TrimEnd(s[..|s| - 1])
    else s
  }

  /** `s.trim()`: what it returns neither starts nor ends with white space. */
  function Trim(s: string): (r: string)
    ensures r == "" || (!IsWhiteSpace(r[0]) && !IsWhiteSpace(r[|r| - 1]))
  {
    var t := TrimStart(s);
    var u := TrimEnd(t);
    assert u != "" ==> u[0] == t[0];
    u
  }

  /** `TrimStart` removes exactly a white-space prefix in front of a string
      that does not start with white space. */
  lemma {:induction false} TrimStartUnique(p: string, m: string)
    requires AllWhiteSpace(p)
    requires m == "" || !IsWhiteSpace(m[0])
    ensures TrimStart(p + m) == m
    decreases |p|
  {
    if p == [] {
      assert p + m == m;
    } else {
      assert (p + m)[0] == p[0];
      assert (p + m)[1..] == p[1..] + m;
      TrimStartUnique(p[1..], m);
    }
  }

  /** `TrimEnd` removes exactly a white-space suffix behind a string that
      does not end with white space. */
  lemma {:induction false} TrimEndUnique(m: string, q: string)
    requires AllWhiteSpace(q)
    requires m == "" || !IsWhiteSpace(m[|m| - 1])
    ensures TrimEnd(m + q) == m
    decreases |q|
  {
    if q == [] {
      assert m + q == m;
    } else {
      var s := m + q;
      assert s[|s| - 1] == q[|q| - 1];
      assert s[..|s| - 1] == m + q[..|q| - 1];
      TrimEndUnique(m, q[..|q| - 1]);
    }
  }

  /** `Trim` is pinned down by its shape: whatever surrounds a core that
      neither starts nor ends with white space, if all of it is white space,
      is exactly what `Trim` removes. */
  lemma TrimUnique(p: string, m: string, q: string)
    requires AllWhiteSpace(p) && AllWhiteSpace(q)
    requires m == "" || (!IsWhiteSpace(m[0]) && !IsWhiteSpace(m[|m| - 1]))
    ensures Trim(p + m + q) == m
  {
    if m == "" {
      assert p + m + q == (p + q) + "";
      TrimStartUnique(p + q, "");
    } else {
      assert p + m + q == p + (m + q);
      assert (m + q)[0] == m[0];
      TrimStartUnique(p, m + q);
      TrimEndUnique(m, q);
    }
  }

  /** Trimming twice is trimming once. */
  lemma TrimIdempotent(s: string)
    ensures Trim(Trim(s)) == Trim(s)
  {
    assert Trim(s) == "" + Trim(s) + "";
    TrimUnique("", Trim(s), "");
  }
}
