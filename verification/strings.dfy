/** Python `str` operations the source relies on (`in`, `split`, `join`,
    `strip`, `lower`), written out over `seq<char>` with the behaviour of
    Python 2 byte strings. */
module Strings {
  import opened Wrappers

  /** `pat` occurs in `s` starting at index `i`. */
  predicate OccursAt(s: string, pat: string, i: nat) {
    i + |pat| <= |s| && s[i..i + |pat|] == pat
  }

  /** Python's `pat in s`. */
  predicate Contains(s: string, pat: string) {
    exists i: nat | i <= |s| - |pat| :: OccursAt(s, pat, i)
  }

  /** An occurrence at position `j >= 1` of `s` is an occurrence at `j - 1` of `s[1..]`. */
  lemma OccursAtTail(s: string, pat: string)
    requires |s| > 0
    ensures forall j: nat :: 1 <= j ==> (OccursAt(s, pat, j) <==> OccursAt(s[1..], pat, j - 1))
  {
    forall j: nat | 1 <= j
      ensures OccursAt(s, pat, j) <==> OccursAt(s[1..], pat, j - 1)
    {
      if j + |pat| <= |s| {
        assert s[1..][j - 1..j - 1 + |pat|] == s[j..j + |pat|];
      }
    }
  }

  /** Leftmost index at which `pat` occurs in `s` (Python's `s.find(pat)`,
      with `None` standing for -1). */
  function Find(s: string, pat: string): (r: Option<nat>)
    ensures r.Some? ==> OccursAt(s, pat, r.value)
    ensures r.Some? ==> forall j: nat :: j < r.value ==> !OccursAt(s, pat, j)
    ensures r.None? <==> !Contains(s, pat)
    decreases |s|
  {
    if |s| < |pat| then None
    else if s[..|pat|] == pat then Some(0)
    else
      OccursAtTail(s, pat);
      match Find(s[1..], pat)
      case None => None
      case Some(i) => Some(i + 1)
  }

  /** An occurrence inside a prefix of `s` is an occurrence in `s`. */
  lemma OccursInPrefix(s: string, pat: string, n: nat, j: nat)
    requires n <= |s|
    requires OccursAt(s[..n], pat, j)
    ensures OccursAt(s, pat, j)
  {
    assert s[..n][j..j + |pat|] == s[j..j + |pat|];
  }

  /** Containment of substrings is transitive. */
  lemma ContainsTransitive(s: string, t: string, u: string)
    requires Contains(s, t) && Contains(t, u)
    ensures Contains(s, u)
  {
    var i: nat :| i <= |s| - |t| && OccursAt(s, t, i);
    var j: nat :| j <= |t| - |u| && OccursAt(t, u, j);
    forall k | 0 <= k < |u|
      ensures s[i + j + k] == u[k]
    {
      assert s[i + j + k] == s[i..i + |t|][j + k];
      assert t[j + k] == t[j..j + |u|][k];
    }
    assert s[i + j..i + j + |u|] == u;
    assert OccursAt(s, u, i + j);
  }

  /** A slice of `s` is contained in `s`. */
  lemma ContainsSlice(s: string, i: nat, j: nat)
    requires i <= j <= |s|
    ensures Contains(s, s[i..j])
  {
    assert OccursAt(s, s[i..j], i);
  }

  /** For a one-character pattern, Python's `[c] in s` is membership of `c`. */
  lemma ContainsChar(s: string, c: char)
    ensures Contains(s, [c]) <==> c in s
  {
    if c in s {
      var i :| 0 <= i < |s| && s[i] == c;
      assert OccursAt(s, [c], i);
    }
    if Contains(s, [c]) {
      var i: nat :| i <= |s| - 1 && OccursAt(s, [c], i);
      assert s[i] == s[i..i + 1][0];
    }
  }

  /** Python's `sep.join(parts)`. */
  function Join(parts: seq<string>, sep: string): string
    decreases |parts|
  {
    if |parts| == 0 then ""
    else if |parts| == 1 then parts[0]
    else parts[0] + sep + Join(parts[1..], sep)
  }

  /** Python's `s.split(sep)` for a non-empty separator: the pieces between
      the leftmost, non-overlapping occurrences of `sep`. */
  function Split(s: string, sep: string): (parts: seq<string>)
    requires |sep| > 0
    ensures |parts| >= 1
    ensures Join(parts, sep) == s
    ensures forall k :: 0 <= k < |parts| ==> !Contains(parts[k], sep)
    ensures Contains(s, sep) <==> |parts| >= 2
    decreases |s|
  {
    match Find(s, sep)
    case None => [s]
    case Some(i) =>
      SplitStep(s, sep, i);
      [s[..i]] + Split(s[i + |sep|..], sep)
  }

  /** Every piece of `s.split(sep)` is a substring of `s`. */
  lemma {:induction false} SplitPiecesContained(s: string, sep: string)
    requires |sep| > 0
    ensures forall k :: 0 <= k < |Split(s, sep)| ==> Contains(s, Split(s, sep)[k])
    decreases |s|
  {
    match Find(s, sep)
    case None =>
      ContainsSlice(s, 0, |s|);
      assert s[0..|s|] == s;
    case Some(i) =>
      var rest := s[i + |sep|..];
      SplitStep(s, sep, i);
      SplitPiecesContained(rest, sep);
      ContainsAll(s, rest, Split(rest, sep));
      assert Split(s, sep) == [s[..i]] + Split(rest, sep);
  }

  /** The facts `Split` needs about its first piece and the remainder. */
  lemma SplitStep(s: string, sep: string, i: nat)
    requires |sep| > 0
    requires Find(s, sep) == Some(i)
    ensures !Contains(s[..i], sep)
    ensures Contains(s, s[..i])
    ensures Contains(s, s[i + |sep|..])
    ensures s == s[..i] + sep + s[i + |sep|..]
  {
    FirstPieceFree(s, sep, i);
    AroundOccurrence(s, sep, i);
  }

  /** The text around an occurrence: two substrings that rebuild `s`. */
  lemma AroundOccurrence(s: string, sep: string, i: nat)
    requires OccursAt(s, sep, i)
    ensures Contains(s, s[..i])
    ensures Contains(s, s[i + |sep|..])
    ensures s == s[..i] + sep + s[i + |sep|..]
  {
    ContainsSlice(s, 0, i);
    assert s[0..i] == s[..i];
    ContainsSlice(s, i + |sep|, |s|);
    assert s[i + |sep|..|s|] == s[i + |sep|..];
    assert s == s[..i] + s[i..i + |sep|] + s[i + |sep|..];
  }

  /** The text before the leftmost occurrence holds no occurrence. */
  lemma FirstPieceFree(s: string, sep: string, i: nat)
    requires |sep| > 0
    requires Find(s, sep) == Some(i)
    ensures !Contains(s[..i], sep)
  {
    if Contains(s[..i], sep) {
      var j: nat :| j <= |s[..i]| - |sep| && OccursAt(s[..i], sep, j);
      OccursInPrefix(s, sep, i, j);
    }
  }

  /** Pieces contained in a substring of `s` are contained in `s`. */
  lemma ContainsAll(s: string, t: string, ps: seq<string>)
    requires Contains(s, t)
    requires forall k :: 0 <= k < |ps| ==> Contains(t, ps[k])
    ensures forall k :: 0 <= k < |ps| ==> Contains(s, ps[k])
  {
    forall k | 0 <= k < |ps|
      ensures Contains(s, ps[k])
    {
      ContainsTransitive(s, t, ps[k]);
    }
  }

  /** Joining two non-empty runs of pieces puts one separator between them. */
  lemma {:induction false} JoinAppend(a: seq<string>, b: seq<string>, sep: string)
    requires |a| >= 1 && |b| >= 1
    ensures Join(a + b, sep) == Join(a, sep) + sep + Join(b, sep)
    decreases |a|
  {
    if |a| == 1 {
      assert (a + b)[1..] == b;
    } else {
      assert (a + b)[1..] == a[1..] + b;
      JoinAppend(a[1..], b, sep);
    }
  }

  /** Splitting at a first piece free of the separator character. */
  lemma SplitCons(p0: string, c: char, rest: string)
    requires c !in p0
    ensures Split(p0 + [c] + rest, [c]) == [p0] + Split(rest, [c])
  {
    var s := p0 + [c] + rest;
    assert OccursAt(s, [c], |p0|) by {
      assert s[|p0|..|p0| + 1] == [c];
    }
    var i := Find(s, [c]).value;
    forall k | 0 <= k < |p0|
      ensures s[k] != c
    {
      assert s[k] == p0[k];
    }
    assert s[i] == s[i..i + 1][0];
    assert i == |p0|;
    assert s[..i] == p0;
    assert s[i + 1..] == rest;
  }

  /** For a one-character separator, `split` undoes `join` when no piece
      contains the separator. */
  lemma {:induction false} SplitJoin(parts: seq<string>, c: char)
    requires |parts| >= 1
    requires forall k :: 0 <= k < |parts| ==> c !in parts[k]
    ensures Split(Join(parts, [c]), [c]) == parts
    decreases |parts|
  {
    var s := Join(parts, [c]);
    if |parts| == 1 {
      ContainsChar(s, c);
    } else {
      var rest := Join(parts[1..], [c]);
      assert s == parts[0] + [c] + rest;
      SplitCons(parts[0], c, rest);
      SplitJoin(parts[1..], c);
      assert parts == [parts[0]] + parts[1..];
    }
  }

  /** Appending a separator and a separator-free piece appends one piece. */
  lemma SplitAppend(s: string, c: char, t: string)
    requires c !in t
    ensures Split(s + [c] + t, [c]) == Split(s, [c]) + [t]
  {
    var ps := Split(s, [c]);
    forall k | 0 <= k < |ps|
      ensures c !in ps[k]
    {
      ContainsChar(ps[k], c);
    }
    JoinAppend(ps, [t], [c]);
    SplitJoin(ps + [t], c);
  }

  /** Python's `s.split(sep)[0]`: the text before the first occurrence of
      `sep`, or all of `s` when there is none. */
  function Before(s: string, sep: string): (r: string)
    requires |sep| > 0
    ensures r <= s
    ensures !Contains(r, sep)
    ensures r == s || OccursAt(s, sep, |r|)
  {
    match Find(s, sep)
    case None => s
    case Some(i) => SplitStep(s, sep, i); s[..i]
  }

  /** Python's `s.split(sep)[1]`: the text between the first and the second
      occurrences of `sep` (or the end of `s`). */
  function Between(s: string, sep: string): (r: string)
    requires |sep| > 0
    requires Contains(s, sep)
    ensures var rest := s[Find(s, sep).value + |sep|..];
      r <= rest && (r == rest || OccursAt(rest, sep, |r|))
    ensures Contains(s, r)
    ensures !Contains(r, sep)
  {
    var i := Find(s, sep).value;
    SplitStep(s, sep, i);
    var r := Before(s[i + |sep|..], sep);
    ContainsSlice(s[i + |sep|..], 0, |r|);
    assert s[i + |sep|..][0..|r|] == r;
    ContainsTransitive(s, s[i + |sep|..], r);
    r
  }

  /** `Split` agrees with the find-based readings of its first two pieces. */
  lemma SplitFirstPieces(s: string, sep: string)
    requires |sep| > 0
    ensures Split(s, sep)[0] == Before(s, sep)
    ensures Contains(s, sep) ==> Split(s, sep)[1] == Between(s, sep)
  {
    match Find(s, sep)
    case None =>
    case Some(i) =>
      var rest := s[i + |sep|..];
      assert Split(s, sep) == [s[..i]] + Split(rest, sep);
      match Find(rest, sep)
      case None =>
      case Some(j) =>
        assert Split(rest, sep) == [rest[..j]] + Split(rest[j + |sep|..], sep);
  }

  /** The characters Python's `strip(' \t\n\r')` removes. */
  predicate IsStripSpace(ch: char) {
    ch == ' ' || ch == '\t' || ch == '\n' || ch == '\r'
  }

  /** Drops leading strip characters: a suffix of `s`. */
  function StripLeft(s: string): (r: string)
    ensures |r| <= |s| && r == s[|s| - |r|..]
    ensures forall k :: 0 <= k < |s| - |r| ==> IsStripSpace(s[k])
    ensures r == [] || !IsStripSpace(r[0])
    decreases |s|
  {
    if |s| > 0 && IsStripSpace(s[0]) then StripLeft(s[1..]) else s
  }

  /** Drops trailing strip characters: a prefix of `s`. */
  function StripRight(s: string): (r: string)
    ensures r <= s
    ensures forall k :: |r| <= k < |s| ==> IsStripSpace(s[k])
    ensures r == [] || !IsStripSpace(r[|r| - 1])
    decreases |s|
  {
    if |s| > 0 && IsStripSpace(s[|s| - 1]) then StripRight(s[..|s| - 1]) else s
  }

  /** Python's `s.strip(' \t\n\r')`. */
  function Strip(s: string): (r: string)
    ensures r == [] || (!IsStripSpace(r[0]) && !IsStripSpace(r[|r| - 1]))
  {
    StripRight(StripLeft(s))
  }

  /** Stripping keeps one slice of `s`, which neither starts nor ends with
      a strip character, and removes only strip characters before and after it. */
  lemma StripSlice(s: string)
    ensures Strip(s) == [] || (!IsStripSpace(Strip(s)[0]) && !IsStripSpace(Strip(s)[|Strip(s)| - 1]))
    ensures exists i, j ::
      && 0 <= i <= j <= |s| && Strip(s) == s[i..j]
      && (forall k :: 0 <= k < i ==> IsStripSpace(s[k]))
      && (forall k :: j <= k < |s| ==> IsStripSpace(s[k]))
  {
    var i, j := StripBounds(s);
  }

  /** The bounds of the slice `Strip` keeps. */
  lemma StripBounds(s: string) returns (i: nat, j: nat)
    ensures i <= j <= |s| && Strip(s) == s[i..j]
    ensures forall k :: 0 <= k < i ==> IsStripSpace(s[k])
    ensures forall k :: j <= k < |s| ==> IsStripSpace(s[k])
  {
    var t := StripLeft(s);
    var r := StripRight(t);
    i := |s| - |t|;
    j := i + |r|;
    PrefixOfSuffix(s, t, r);
    SpacesAfterPrefix(s, t, |r|);
  }

  /** A prefix `r` of a suffix `t` of `s` is a slice of `s`. */
  lemma PrefixOfSuffix(s: string, t: string, r: string)
    requires |t| <= |s| && t == s[|s| - |t|..]
    requires r <= t
    ensures r == s[|s| - |t|..|s| - |t| + |r|]
  {
    assert r == t[..|r|];
  }

  /** Strip characters after position `n` of a suffix `t` of `s` are strip
      characters of `s`. */
  lemma SpacesAfterPrefix(s: string, t: string, n: nat)
    requires |t| <= |s| && t == s[|s| - |t|..]
    requires n <= |t|
    requires forall k :: n <= k < |t| ==> IsStripSpace(t[k])
    ensures forall k :: |s| - |t| + n <= k < |s| ==> IsStripSpace(s[k])
  {
    forall k | |s| - |t| + n <= k < |s|
      ensures IsStripSpace(s[k])
    {
      assert s[k] == t[k - (|s| - |t|)];
    }
  }

  /** What is left after stripping is a substring. */
  lemma StripContained(s: string)
    ensures Contains(s, Strip(s))
  {
    var t := StripLeft(s);
    var r := StripRight(t);
    ContainsSlice(s, |s| - |t|, |s| - |t| + |r|);
    PrefixOfSuffix(s, t, r);
  }

  /** Stripping leaves nothing exactly when every character is a strip character. */
  lemma StripEmpty(s: string)
    ensures Strip(s) == [] <==> forall k :: 0 <= k < |s| ==> IsStripSpace(s[k])
  {
    var t := StripLeft(s);
    if StripRight(t) == [] {
      assert t == [];
    }
  }

  /** Stripping twice strips nothing more. */
  lemma StripIdempotent(s: string)
    ensures Strip(Strip(s)) == Strip(s)
  {
    var r := Strip(s);
    assert StripLeft(r) == r;
    assert StripRight(r) == r;
  }

  /** Python's `re.match(p + '$', s)` when `full` says what `p` matches in
      full: `$` also matches just before a final line break. */
  predicate EndAnchored(s: string, full: string -> bool) {
    full(s) || (|s| >= 1 && s[|s| - 1] == '\n' && full(s[..|s| - 1]))
  }

  /** ASCII lower-casing of one character, as Python 2's `str.lower`. */
  function LowerChar(ch: char): char {
    if 'A' <= ch <= 'Z' then (ch as int + 32) as char else ch
  }

  /** Python 2's `s.lower()` on a byte string. */
  function Lower(s: string): (r: string)
    ensures |r| == |s|
    ensures forall k :: 0 <= k < |s| ==> r[k] == LowerChar(s[k])
  {
    seq(|s|, k requires 0 <= k < |s| => LowerChar(s[k]))
  }

  /** Reverses a sequence, as Python's `list(reversed(xs))`. */
  function Reverse<T>(xs: seq<T>): (r: seq<T>)
    ensures |r| == |xs|
    ensures forall k :: 0 <= k < |xs| ==> r[k] == xs[|xs| - 1 - k]
  {
    seq(|xs|, k requires 0 <= k < |xs| => xs[|xs| - 1 - k])
  }

  /** Reversing a list with `z` appended: `z` first, the list's own head
      last, and every other position read from the back of the list. */
  lemma ReversedSnoc<T>(xs: seq<T>, z: T)
    requires |xs| >= 1
    ensures |Reverse(xs + [z])| == |xs| + 1
    ensures Reverse(xs + [z])[0] == z
    ensures Reverse(xs + [z])[|xs|] == xs[0]
    ensures forall k :: 1 <= k <= |xs| ==> Reverse(xs + [z])[k] == xs[|xs| - k]
  {
    var ys := xs + [z];
    assert Reverse(ys)[0] == ys[|xs|];
    assert Reverse(ys)[|xs|] == ys[0];
    forall k | 1 <= k <= |xs|
      ensures Reverse(ys)[k] == xs[|xs| - k]
    {
      assert Reverse(ys)[k] == ys[|xs| - k];
    }
  }

  /** Reversing a list with one more element at the end puts it first. */
  lemma ReverseSnoc<T>(xs: seq<T>, z: T)
    ensures Reverse(xs + [z]) == [z] + Reverse(xs)
  {
    var l, r := Reverse(xs + [z]), [z] + Reverse(xs);
    forall k | 0 <= k < |l|
      ensures l[k] == r[k]
    {
      if k > 0 {
        assert l[k] == (xs + [z])[|xs| - k];
      }
    }
  }
}
