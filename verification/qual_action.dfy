/** Qualified actions: an action name with an optional dotted qualifier
    (`read:foo.bar`), the request names widgets are looked up under. */
module QualActions {
  import opened Wrappers
  import opened Strings

  /** An action plus an optional dotted qualifier. */
  datatype QualAction = QualAction(action: string, qualifier: Option<string>)

  /** The error `make_child` raises for a segment that is not a valid path component. */
  datatype QualError = InvalidSegment(segment: string)

  /** Python truthiness of the qualifier: both `None` and `''` mean "unqualified". */
  predicate HasQualifier(x: QualAction) {
    x.qualifier.Some? && x.qualifier.value != ""
  }

  /** The same action with no qualifier. */
  function Bare(x: QualAction): QualAction {
    QualAction(x.action, None)
  }

  /** The dotted segments of the qualifier; none when unqualified. */
  function Segments(x: QualAction): seq<string> {
    if HasQualifier(x) then Split(x.qualifier.value, ".") else []
  }

  /** The canonical name `action` or `action:qualifier`. */
  function ToString(x: QualAction): string {
    if HasQualifier(x) then x.action + ":" + x.qualifier.value else x.action
  }

  /** A character allowed after the first one of a qualifier segment. */
  predicate IsSegmentTailChar(ch: char) {
    ch == '_' || 'a' <= ch <= 'z' || '0' <= ch <= '9'
  }

  /** A full match of `[a-z][_a-z0-9]+`. */
  predicate IsSegment(seg: string) {
    |seg| >= 2 && 'a' <= seg[0] <= 'z' && forall k :: 1 <= k < |seg| ==> IsSegmentTailChar(seg[k])
  }

  /** A dotted path of valid segments. */
  predicate IsDottedName(q: string) {
    var parts := Split(q, ".");
    forall k :: 0 <= k < |parts| ==> IsSegment(parts[k])
  }

  /** The expected shape of a qualified action: a non-empty action without
      `:` and, if present, a dotted-name qualifier. */
  predicate WellFormed(x: QualAction) {
    x.action != "" && ':' !in x.action && (x.qualifier.None? || IsDottedName(x.qualifier.value))
  }

  /** The three ways `s.split(':')` can come out. */
  lemma SplitColonCases(s: string)
    ensures var parts := Split(s, ":");
      && (|parts| == 1 ==> ':' !in s)
      && (|parts| == 2 ==> s == parts[0] + ":" + parts[1] && ':' !in parts[0] && ':' !in parts[1])
      && (|parts| >= 3 ==> exists i, j :: 0 <= i < j < |s| && s[i] == ':' && s[j] == ':')
  {
    var parts := Split(s, ":");
    ContainsChar(s, ':');
    ContainsChar(parts[0], ':');
    if |parts| == 2 {
      ContainsChar(parts[1], ':');
      assert Join(parts, ":") == parts[0] + ":" + Join(parts[1..], ":");
    } else if |parts| >= 3 {
      var p0, p1 := parts[0], parts[1];
      var tail := Join(parts[2..], ":");
      assert parts[1..][1..] == parts[2..];
      assert s == p0 + ":" + (p1 + ":" + tail);
      assert s[|p0|] == ':';
      assert s[|p0| + 1 + |p1|] == ':';
    }
  }

  /** `from_string`: split on `:`; exactly two pieces give action and
      qualifier, anything else (no colon, or two or more) a bare action
      equal to the whole string. */
  function FromString(s: string): (r: QualAction)
    ensures r.qualifier.Some? ==> s == r.action + ":" + r.qualifier.value
    ensures r.qualifier.Some? ==> ':' !in r.action && ':' !in r.qualifier.value
    ensures r.qualifier.None? ==> r.action == s
    ensures r.qualifier.None? ==> ':' !in s || exists i, j :: 0 <= i < j < |s| && s[i] == ':' && s[j] == ':'
  {
    var parts := Split(s, ":");
    SplitColonCases(s);
    if |parts| == 2 then QualAction(parts[0], Some(parts[1])) else QualAction(s, None)
  }

  /** A string without the separator splits into itself. */
  lemma SplitNoSeparator(s: string, c: char)
    requires c !in s
    ensures Split(s, [c]) == [s]
  {
    SplitJoin([s], c);
  }

  /** Round trip: parsing the canonical name gives the action back, when the
      action has no `:` and the qualifier is absent or non-empty without `:`. */
  lemma RoundTrip(x: QualAction)
    requires ':' !in x.action
    requires x.qualifier.None? || (x.qualifier.value != "" && ':' !in x.qualifier.value)
    ensures FromString(ToString(x)) == x
  {
    SplitNoSeparator(x.action, ':');
    if x.qualifier.Some? {
      SplitAppend(x.action, ':', x.qualifier.value);
    }
  }

  /** The other direction: printing a parsed name gives the string back
      exactly unless its only colon is the last character (an empty qualifier,
      which printing drops). */
  lemma ParseThenPrint(s: string)
    ensures ToString(FromString(s)) != s <==>
      |s| > 0 && s[|s| - 1] == ':' && forall k :: 0 <= k < |s| - 1 ==> s[k] != ':'
  {
    var r := FromString(s);
    if ToString(r) != s {
      assert r.qualifier.Some? && r.qualifier.value == "";
      assert s == r.action + ":";
      forall k | 0 <= k < |s| - 1
        ensures s[k] != ':'
      {
        assert s[k] == r.action[k];
      }
    }
    if |s| > 0 && s[|s| - 1] == ':' && forall k :: 0 <= k < |s| - 1 ==> s[k] != ':' {
      var a := s[..|s| - 1];
      assert ':' !in a;
      assert s == a + [':'] + "";
      SplitAppend(a, ':', "");
      SplitNoSeparator(a, ':');
      assert r == QualAction(a, Some(""));
    }
  }

  /** Every character is a dot or a segment character. */
  predicate IsDottedChars(s: string) {
    forall k :: 0 <= k < |s| ==> s[k] == '.' || IsSegmentTailChar(s[k])
  }

  /** Joining pieces of dots and segment characters with dots keeps to them. */
  lemma {:induction false} JoinDottedChars(parts: seq<string>)
    requires forall i :: 0 <= i < |parts| ==> IsDottedChars(parts[i])
    ensures IsDottedChars(Join(parts, "."))
    decreases |parts|
  {
    if |parts| > 1 {
      JoinDottedChars(parts[1..]);
      var rest := Join(parts[1..], ".");
      var s := Join(parts, ".");
      assert s == parts[0] + "." + rest;
      forall k | 0 <= k < |s|
        ensures s[k] == '.' || IsSegmentTailChar(s[k])
      {
        if k < |parts[0]| {
          assert s[k] == parts[0][k];
        } else if k > |parts[0]| {
          assert s[k] == rest[k - |parts[0]| - 1];
        }
      }
    }
  }

  /** A dotted name is non-empty and has only segment characters and dots. */
  lemma DottedNameChars(q: string)
    requires IsDottedName(q)
    ensures q != ""
    ensures IsDottedChars(q)
    ensures ':' !in q
  {
    var parts := Split(q, ".");
    assert IsSegment(parts[0]);
    if q == "" {
      SplitNoSeparator(q, '.');
    }
    forall i | 0 <= i < |parts|
      ensures IsDottedChars(parts[i])
    {
      assert IsSegment(parts[i]);
    }
    JoinDottedChars(parts);
  }

  /** Well-formed actions survive the round trip. */
  lemma WellFormedRoundTrip(x: QualAction)
    requires WellFormed(x)
    ensures FromString(ToString(x)) == x
  {
    if x.qualifier.Some? {
      DottedNameChars(x.qualifier.value);
    }
    RoundTrip(x);
  }

  /** Splitting the joined first `i` segments gives those segments back. */
  lemma {:induction false} SegmentPrefixSplit(q: string, i: nat)
    requires 1 <= i < |Split(q, ".")|
    ensures Split(Join(Split(q, ".")[..i], "."), ".") == Split(q, ".")[..i]
  {
    var parts := Split(q, ".");
    var pre := parts[..i];
    forall k | 0 <= k < |pre|
      ensures '.' !in pre[k]
    {
      assert pre[k] == parts[k];
      ContainsChar(parts[k], '.');
    }
    SplitJoin(pre, '.');
  }

  /** The joined first `i` segments, followed by a dot, start the qualifier. */
  lemma {:induction false} SegmentPrefixStarts(q: string, i: nat)
    requires 1 <= i < |Split(q, ".")|
    ensures Join(Split(q, ".")[..i], ".") + "." <= q
  {
    var parts := Split(q, ".");
    var pre := parts[..i];
    assert parts == pre + parts[i..];
    JoinAppend(pre, parts[i..], ".");
  }

  /** `p` is the parent of `x` that keeps the first `i` qualifier segments. */
  predicate IsPrefixParent(x: QualAction, p: QualAction, i: nat) {
    && p.action == x.action
    && p.qualifier.Some?
    && x.qualifier.Some?
    && i <= |Segments(x)|
    && Split(p.qualifier.value, ".") == Segments(x)[..i]
    && p.qualifier.value + "." <= x.qualifier.value
  }

  /** `parents`: the bare action first, then the qualifier's proper prefixes
      of 1 .. n-1 segments; never the action itself when it is qualified. */
  function Parents(x: QualAction): (ps: seq<QualAction>)
    ensures |ps| == if HasQualifier(x) then |Segments(x)| else 1
    ensures ps[0] == Bare(x)
    ensures forall i {:trigger IsPrefixParent(x, ps[i], i)} :: 1 <= i < |ps| ==> IsPrefixParent(x, ps[i], i)
    ensures HasQualifier(x) ==> x !in ps
  {
    var parts := Segments(x);
    var n := if |parts| == 0 then 0 else |parts| - 1;
    var ps := [Bare(x)] + seq(n, i requires 0 <= i < n => PrefixParent(x, i + 1));
    ParentsFacts(x, ps);
    ps
  }

  /** The parent of a qualified `x` keeping its first `i` segments. */
  function PrefixParent(x: QualAction, i: nat): (p: QualAction)
    requires 1 <= i < |Segments(x)|
    ensures IsPrefixParent(x, p, i)
  {
    SegmentPrefixSplit(x.qualifier.value, i);
    SegmentPrefixStarts(x.qualifier.value, i);
    QualAction(x.action, Some(Join(Segments(x)[..i], ".")))
  }

  /** A prefix parent is shorter than, hence different from, `x`. */
  lemma PrefixParentDiffers(x: QualAction, p: QualAction, i: nat)
    requires IsPrefixParent(x, p, i)
    ensures p != x
  {
    assert |p.qualifier.value + "."| <= |x.qualifier.value|;
  }

  /** The remaining obligation of `Parents`, given its list. */
  lemma ParentsFacts(x: QualAction, ps: seq<QualAction>)
    requires |ps| >= 1 && ps[0] == Bare(x)
    requires forall i :: 1 <= i < |ps| ==> IsPrefixParent(x, ps[i], i)
    ensures HasQualifier(x) ==> x !in ps
  {
    forall i | 0 <= i < |ps|
      ensures HasQualifier(x) ==> ps[i] != x
    {
      if i > 0 {
        PrefixParentDiffers(x, ps[i], i);
      }
    }
  }

  /** The lookup candidates `reversed(parents() + [q])`: the request first,
      then its ancestors from nearest to farthest, ending at the bare action. */
  function Candidates(x: QualAction): (cs: seq<QualAction>)
    ensures |cs| == |Parents(x)| + 1
    ensures cs[0] == x
    ensures cs[|cs| - 1] == Bare(x)
    ensures forall k :: 1 <= k < |cs| ==> cs[k] == Parents(x)[|cs| - 1 - k]
  {
    var ps := Parents(x);
    ReversedSnoc(ps, x);
    Reverse(ps + [x])
  }

  /** A prefix parent is fixed by `x` and the number of segments it keeps. */
  lemma PrefixParentValue(x: QualAction, p: QualAction, i: nat)
    requires IsPrefixParent(x, p, i)
    ensures p == QualAction(x.action, Some(Join(Segments(x)[..i], ".")))
  {
    assert p.qualifier.value == Join(Split(p.qualifier.value, "."), ".");
  }

  /** A prefix parent of a well-formed action is well-formed and has exactly
      the segments it keeps. */
  lemma PrefixParentSegments(x: QualAction, p: QualAction, i: nat)
    requires WellFormed(x) && HasQualifier(x)
    requires 1 <= i && IsPrefixParent(x, p, i)
    ensures WellFormed(p)
    ensures Segments(p) == Segments(x)[..i]
  {
    var parts := Split(p.qualifier.value, ".");
    assert parts == Segments(x)[..i];
    forall j | 0 <= j < |parts|
      ensures IsSegment(parts[j])
    {
      assert parts[j] == Segments(x)[j];
    }
    assert IsDottedName(p.qualifier.value);
    DottedNameChars(p.qualifier.value);
  }

  /** The candidates of a well-formed action are well-formed and lose one
      trailing segment at each step, down to the bare action. */
  lemma CandidatesNarrow(x: QualAction)
    requires WellFormed(x)
    ensures forall k :: 0 <= k < |Candidates(x)| ==> WellFormed(Candidates(x)[k])
    ensures HasQualifier(x) ==> |Candidates(x)| == |Segments(x)| + 1
    ensures HasQualifier(x) ==> forall k :: 0 <= k < |Candidates(x)| ==>
      Segments(Candidates(x)[k]) == Segments(x)[..|Segments(x)| - k]
  {
    forall k | 0 <= k < |Candidates(x)|
      ensures WellFormed(Candidates(x)[k])
      ensures HasQualifier(x) ==> Segments(Candidates(x)[k]) == Segments(x)[..|Segments(x)| - k]
    {
      CandidateAt(x, k);
    }
  }

  /** One candidate of a well-formed action. */
  lemma CandidateAt(x: QualAction, k: nat)
    requires WellFormed(x)
    requires k < |Candidates(x)|
    ensures WellFormed(Candidates(x)[k])
    ensures HasQualifier(x) ==> Segments(Candidates(x)[k]) == Segments(x)[..|Segments(x)| - k]
  {
    var n := |Segments(x)|;
    if k == 0 {
      assert Segments(x)[..n] == Segments(x);
    } else if k < |Candidates(x)| - 1 {
      InnerCandidate(x, k);
    } else {
      LastCandidate(x);
    }
  }

  /** A candidate strictly between the action and its bare form is the
      prefix parent that keeps all but `k` segments. */
  lemma InnerCandidate(x: QualAction, k: nat)
    requires WellFormed(x)
    requires 0 < k < |Candidates(x)| - 1
    ensures WellFormed(Candidates(x)[k])
    ensures Segments(Candidates(x)[k]) == Segments(x)[..|Segments(x)| - k]
  {
    var ps := Parents(x);
    var j := |ps| - k;
    assert HasQualifier(x);
    assert Candidates(x)[k] == ps[j];
    assert IsPrefixParent(x, ps[j], j);
    PrefixParentSegments(x, ps[j], j);
  }

  /** The last candidate is the bare action, with no segments. */
  lemma LastCandidate(x: QualAction)
    requires WellFormed(x)
    ensures WellFormed(Candidates(x)[|Candidates(x)| - 1])
    ensures HasQualifier(x) ==> Segments(Candidates(x)[|Candidates(x)| - 1]) == Segments(x)[..0]
  {
  }

  /** The only candidate of a well-formed action whose canonical name is
      the action alone is the bare action. */
  lemma CandidateNames(x: QualAction)
    requires WellFormed(x)
    ensures forall k :: 0 <= k < |Candidates(x)| && ToString(Candidates(x)[k]) == x.action ==> Candidates(x)[k] == Bare(x)
  {
    var cs := Candidates(x);
    CandidatesNarrow(x);
    if x.qualifier.Some? {
      DottedNameChars(x.qualifier.value);
    }
    forall k | 0 <= k < |cs| - 1
      ensures ToString(cs[k]) != x.action || cs[k] == Bare(x)
    {
      if HasQualifier(x) {
        assert Segments(cs[k]) == Segments(x)[..|Segments(x)| - k];
        assert HasQualifier(cs[k]);
      } else {
        assert cs[k] == x;
      }
    }
  }

  /** `make_child`: rejects a segment that does not fully match
      `[a-z][_a-z0-9]+`; otherwise appends it to the qualifier. */
  function MakeChild(x: QualAction, seg: string): (r: Result<QualAction, QualError>)
    ensures r.Failure? <==> !IsSegment(seg)
    ensures r.Failure? ==> r.error == InvalidSegment(seg)
    ensures r.Success? ==> r.value.action == x.action && HasQualifier(r.value)
    ensures r.Success? ==> Segments(r.value) == Segments(x) + [seg]
  {
    if !IsSegment(seg) then Failure(InvalidSegment(seg))
    else
      assert '.' !in seg by {
        if '.' in seg {
          var k :| 0 <= k < |seg| && seg[k] == '.';
        }
      }
      if HasQualifier(x) then
        SplitAppend(x.qualifier.value, '.', seg);
        Success(QualAction(x.action, Some(x.qualifier.value + "." + seg)))
      else
        SplitNoSeparator(seg, '.');
        Success(QualAction(x.action, Some(seg)))
  }

  /** A child of a well-formed action is well-formed. */
  lemma MakeChildWellFormed(x: QualAction, seg: string)
    requires WellFormed(x)
    requires MakeChild(x, seg).Success?
    ensures WellFormed(MakeChild(x, seg).value)
  {
    var c := MakeChild(x, seg).value;
    var parts := Segments(c);
    forall k | 0 <= k < |parts|
      ensures IsSegment(parts[k])
    {
      if k < |Segments(x)| {
        assert parts[k] == Segments(x)[k];
      }
    }
  }

  /** The child of an unqualified action has the bare action as its only parent. */
  lemma BareChildParents(x: QualAction, seg: string)
    requires !HasQualifier(x)
    requires MakeChild(x, seg).Success?
    ensures Parents(MakeChild(x, seg).value) == [Bare(x)]
  {
  }

  /** A child's parents are its parent's parents followed by the parent. */
  lemma ChildParents(x: QualAction, seg: string)
    requires HasQualifier(x)
    requires MakeChild(x, seg).Success?
    ensures Parents(MakeChild(x, seg).value) == Parents(x) + [x]
  {
    var n := |Segments(x)|;
    forall i | 1 <= i < n + 1
      ensures Parents(MakeChild(x, seg).value)[i] == (Parents(x) + [x])[i]
    {
      ChildParentAt(x, seg, i);
    }
  }

  /** One parent of a child. */
  lemma ChildParentAt(x: QualAction, seg: string, i: nat)
    requires HasQualifier(x)
    requires MakeChild(x, seg).Success?
    requires 1 <= i <= |Segments(x)|
    ensures Parents(MakeChild(x, seg).value)[i] == (Parents(x) + [x])[i]
  {
    var c := MakeChild(x, seg).value;
    var px, pc := Parents(x), Parents(c);
    var n := |Segments(x)|;
    PrefixParentValue(c, pc[i], i);
    assert Segments(c)[..i] == Segments(x)[..i];
    if i < n {
      PrefixParentValue(x, px[i], i);
    } else {
      assert Segments(x)[..i] == Segments(x);
    }
  }

  /** A child's candidates are the child followed by its parent's candidates:
      the fallback chain grows by exactly one, at the front. */
  lemma CandidatesOfChild(x: QualAction, seg: string)
    requires HasQualifier(x)
    requires MakeChild(x, seg).Success?
    ensures Candidates(MakeChild(x, seg).value) == [MakeChild(x, seg).value] + Candidates(x)
  {
    var c := MakeChild(x, seg).value;
    ChildParents(x, seg);
    ReverseSnoc(Parents(x) + [x], c);
  }

  /** The segment test `make_child` actually performs: Python's
      `re.match('[a-z][_a-z0-9]+$', seg)`, whose `$` also matches before
      one trailing newline. */
  predicate SegmentRegexMatch(seg: string) {
    EndAnchored(seg, IsSegment)
  }

  /** `make_child` as written, with the regex test above. */
  function MakeChildAsWritten(x: QualAction, seg: string): (r: Result<QualAction, QualError>)
    ensures r.Failure? <==> !SegmentRegexMatch(seg)
    ensures r.Success? ==> r.value.action == x.action && HasQualifier(r.value)
    ensures IsSegment(seg) ==> r == MakeChild(x, seg)
  {
    if !SegmentRegexMatch(seg) then Failure(InvalidSegment(seg))
    else Success(QualAction(x.action, Some(if HasQualifier(x) then x.qualifier.value + "." + seg else seg)))
  }

  /** The as-written test lets a segment with a trailing newline through and
      builds a qualifier that is not a dotted name; the corrected test rejects it. */
  lemma TrailingNewlineSegment()
    ensures MakeChildAsWritten(QualAction("read", None), "ab\n").Success?
    ensures !WellFormed(MakeChildAsWritten(QualAction("read", None), "ab\n").value)
    ensures MakeChild(QualAction("read", None), "ab\n") == Failure(InvalidSegment("ab\n"))
  {
    var seg := "ab\n";
    assert seg[..|seg| - 1] == "ab";
    assert IsSegment("ab");
    assert !IsSegment(seg) by {
      assert !IsSegmentTailChar(seg[2]);
    }
    assert !Contains(seg, ".") by {
      ContainsChar(seg, '.');
    }
    SplitNoSeparator(seg, '.');
  }
}
