/** The access-log parser that finds which WCS coverages and WMS layers were
    requested, and counts one access per requested name a log line mentions. */
module UsedCoverages {
  import opened Strings

  /** The request parameters that carry coverage or layer names. */
  const WcsCoverageAccessKey: string := "coverageid="
  const WmsLayersAccessKey: string := "layers="
  const WmsLayerAccessKey: string := "layer="

  /** The separator between several names, and GeoServer's `workspace:layer` separator. */
  const CoverageSeparatorStandard: string := ","
  const CoverageSeparatorGeoserver: string := ":"

  /** The separator between request parameters. */
  const AndKey: string := "&"

  /** One access to a coverage, as the parser reports it. */
  datatype UsedCoverage<D> = UsedCoverage(date: D, coverageName: string, accessCount: nat)

  /** The parameter value after the first `separator`: the text up to the
      next `separator`, cut before the first `&` if there is one, otherwise
      before the first space. */
  function NamesContainer(separator: string, line: string): (c: string)
    requires |separator| > 0
    requires Contains(line, separator)
    ensures c <= Between(line, separator)
    ensures var part := Between(line, separator);
      Contains(part, AndKey) ==> OccursAt(part, AndKey, |c|) && !Contains(c, AndKey)
    ensures var part := Between(line, separator);
      !Contains(part, AndKey) ==> (c == part || OccursAt(part, " ", |c|)) && !Contains(c, " ")
    ensures Contains(line, c)
    ensures !Contains(c, separator)
  {
    var part := Between(line, separator);
    var c := if Contains(part, AndKey) then Before(part, AndKey) else Before(part, " ");
    PrefixContained(part, c);
    ContainsTransitive(line, part, c);
    AbsentFromSubstring(part, c, separator);
    c
  }

  /** What a string lacks, its substrings lack too. */
  lemma AbsentFromSubstring(s: string, t: string, pat: string)
    requires Contains(s, t)
    requires !Contains(s, pat)
    ensures !Contains(t, pat)
  {
    if Contains(t, pat) {
      ContainsTransitive(s, t, pat);
    }
  }

  /** A prefix is a substring. */
  lemma PrefixContained(s: string, p: string)
    requires p <= s
    ensures Contains(s, p)
  {
    ContainsSlice(s, 0, |p|);
    assert s[0..|p|] == p;
  }

  /** `extract_coverage_names`: nothing when the separator is absent;
      otherwise the container's `,`-separated names, or the name after its
      first `:`, or the container itself. */
  function ExtractCoverageNames(separator: string, line: string): (names: seq<string>)
    requires |separator| > 0
    ensures !Contains(line, separator) ==> names == []
    ensures Contains(line, separator) ==> names == ContainerNames(NamesContainer(separator, line))
    ensures AllContained(line, names)
  {
    if !Contains(line, separator) then []
    else
      var split := Split(line, separator);
      var container := if Contains(split[1], AndKey) then Split(split[1], AndKey)[0] else Split(split[1], " ")[0];
      ContainerIsNamesContainer(separator, line);
      assert container == NamesContainer(separator, line);
      var names := ContainerNames(container);
      AllContainedTransitive(line, container, names);
      names
  }

  /** The second half of `extract_coverage_names`: the container's
      `,`-separated names, or the name after its first `:`, or the
      container itself as a single name. */
  function ContainerNames(container: string): (names: seq<string>)
    ensures |names| >= 1
    ensures Contains(container, ",") ==>
      Join(names, ",") == container && forall k :: 0 <= k < |names| ==> ',' !in names[k]
    ensures !Contains(container, ",") && Contains(container, ":") ==> names == [Between(container, ":")]
    ensures !Contains(container, ",") && !Contains(container, ":") ==> names == [container]
    ensures AllContained(container, names)
  {
    ContainsSlice(container, 0, |container|);
    assert container[0..|container|] == container;
    if Contains(container, CoverageSeparatorStandard) then
      var names := Split(container, CoverageSeparatorStandard);
      CommaPieces(container, container, names);
      names
    else if Contains(container, CoverageSeparatorGeoserver) then
      SplitFirstPieces(container, CoverageSeparatorGeoserver);
      [Split(container, CoverageSeparatorGeoserver)[1]]
    else
      [container]
  }

  /** Substrings of a substring of `line` are substrings of `line`. */
  lemma AllContainedTransitive(line: string, container: string, names: seq<string>)
    requires Contains(line, container)
    requires AllContained(container, names)
    ensures AllContained(line, names)
  {
    forall k | 0 <= k < |names|
      ensures Contains(line, names[k])
    {
      ContainsTransitive(line, container, names[k]);
    }
  }

  /** The source's `split(...)[1]` then `split(...)[0]` is the container. */
  lemma ContainerIsNamesContainer(separator: string, line: string)
    requires |separator| > 0
    requires Contains(line, separator)
    ensures var part := Split(line, separator)[1];
      (if Contains(part, AndKey) then Split(part, AndKey)[0] else Split(part, " ")[0]) == NamesContainer(separator, line)
  {
    SplitFirstPieces(line, separator);
    var part := Split(line, separator)[1];
    SplitFirstPieces(part, AndKey);
    SplitFirstPieces(part, " ");
  }

  /** The `,`-pieces of the container are comma-free substrings of the line. */
  lemma CommaPieces(line: string, container: string, names: seq<string>)
    requires Contains(line, container)
    requires names == Split(container, ",")
    ensures forall k :: 0 <= k < |names| ==> ',' !in names[k] && Contains(line, names[k])
  {
    SplitPiecesContained(container, ",");
    forall k | 0 <= k < |names|
      ensures ',' !in names[k] && Contains(line, names[k])
    {
      ContainsChar(names[k], ',');
      ContainsTransitive(line, container, names[k]);
    }
  }

  /** Every one of `names` occurs in `line`. */
  predicate AllContained(line: string, names: seq<string>)
  {
    forall k :: 0 <= k < |names| ==> Contains(line, names[k])
  }

  lemma ConcatContained(line: string, a: seq<string>, b: seq<string>)
    requires AllContained(line, a) && AllContained(line, b)
    ensures AllContained(line, a + b)
  {
    forall k | 0 <= k < |a + b|
      ensures Contains(line, (a + b)[k])
    {
      if k >= |a| {
        assert (a + b)[k] == b[k - |a|];
      }
    }
  }

  /** `parse_accessed_coverages_line`: the names found after `coverageid=`,
      `layers=` and `layer=`, in that order, each only when its key occurs. */
  function ParseAccessedCoveragesLine(line: string): (names: seq<string>)
    ensures |names| == 0 <==>
      !Contains(line, WcsCoverageAccessKey) && !Contains(line, WmsLayersAccessKey) && !Contains(line, WmsLayerAccessKey)
    ensures AllContained(line, names)
  {
    var wcs := if Contains(line, WcsCoverageAccessKey) then ExtractCoverageNames(WcsCoverageAccessKey, line) else [];
    var layers := if Contains(line, WmsLayersAccessKey) then ExtractCoverageNames(WmsLayersAccessKey, line) else [];
    var layer := if Contains(line, WmsLayerAccessKey) then ExtractCoverageNames(WmsLayerAccessKey, line) else [];
    ConcatContained(line, wcs, layers);
    ConcatContained(line, wcs + layers, layer);
    wcs + layers + layer
  }

  /** The key guards are redundant: a line's names are exactly the three
      extractions concatenated, since an absent key extracts nothing. */
  lemma LineIsConcatenation(line: string)
    ensures ParseAccessedCoveragesLine(line)
      == ExtractCoverageNames(WcsCoverageAccessKey, line)
       + ExtractCoverageNames(WmsLayersAccessKey, line)
       + ExtractCoverageNames(WmsLayerAccessKey, line)
  {
  }

  /** The raw names of all lines, in line order (the source's `result`). */
  function AccessedNames(lines: seq<string>): seq<string>
    decreases |lines|
  {
    if |lines| == 0 then []
    else AccessedNames(lines[..|lines| - 1]) + ParseAccessedCoveragesLine(lines[|lines| - 1])
  }

  /** A raw name comes from some line, and every line's names are included. */
  lemma {:induction false} AccessedNamesFromLines(lines: seq<string>)
    ensures forall c :: c in AccessedNames(lines) <==> exists l :: l in lines && c in ParseAccessedCoveragesLine(l)
    decreases |lines|
  {
    if |lines| > 0 {
      var init := lines[..|lines| - 1];
      AccessedNamesFromLines(init);
      assert lines == init + [lines[|lines| - 1]];
      forall c | c in AccessedNames(lines)
        ensures exists l :: l in lines && c in ParseAccessedCoveragesLine(l)
      {
        if c in AccessedNames(init) {
          var l :| l in init && c in ParseAccessedCoveragesLine(l);
          assert l in lines;
        } else {
          assert lines[|lines| - 1] in lines;
        }
      }
      forall c | exists l :: l in lines && c in ParseAccessedCoveragesLine(l)
        ensures c in AccessedNames(lines)
      {
        var l :| l in lines && c in ParseAccessedCoveragesLine(l);
        if l != lines[|lines| - 1] {
          assert l in init;
        }
      }
    }
  }

  /** Whether some line contains `n`. */
  predicate MentionedIn(lines: seq<string>, n: string)
  {
    exists l :: l in lines && Contains(l, n)
  }

  /** Whether `n` is the non-empty stripped form of one of `raw`. */
  predicate IsStrippedName(raw: seq<string>, n: string)
  {
    n != "" && exists c :: c in raw && Strip(c) == n
  }

  /** The non-empty stripped forms of `raw`, collected as the source's set
      collects them. */
  function StrippedSet(raw: seq<string>): set<string>
    decreases |raw|
  {
    if |raw| == 0 then {}
    else
      var last := Strip(raw[|raw| - 1]);
      StrippedSet(raw[..|raw| - 1]) + (if last != "" then {last} else {})
  }

  /** The collected set holds exactly the non-empty stripped forms. */
  lemma {:induction false} StrippedSetMembers(raw: seq<string>, n: string)
    ensures n in StrippedSet(raw) <==> IsStrippedName(raw, n)
    decreases |raw|
  {
    if |raw| > 0 {
      var init, last := raw[..|raw| - 1], raw[|raw| - 1];
      StrippedSetMembers(init, n);
      assert raw == init + [last];
      if IsStrippedName(raw, n) {
        var c :| c in raw && Strip(c) == n;
        if c != last {
          assert c in init;
        }
      }
      if IsStrippedName(init, n) {
        var c :| c in init && Strip(c) == n;
        assert c in raw;
      }
      assert last in raw;
    }
  }

  /** The set-building loop of `parse_accessed_coverages`: each raw name
      stripped, empty ones dropped, each kept once. */
  method DistinctStripped(raw: seq<string>) returns (names: seq<string>)
    ensures forall i, j :: 0 <= i < j < |names| ==> names[i] != names[j]
    ensures forall n :: n in names <==> IsStrippedName(raw, n)
  {
    names := [];
    var j := 0;
    while j < |raw|
      invariant 0 <= j <= |raw|
      invariant forall a, b :: 0 <= a < b < |names| ==> names[a] != names[b]
      invariant forall n :: n in names <==> n in StrippedSet(raw[..j])
    {
      var stripped := Strip(raw[j]);
      assert raw[..j + 1][..j] == raw[..j];
      if stripped != "" && stripped !in names {
        names := names + [stripped];
      }
      j := j + 1;
    }
    assert raw[..|raw|] == raw;
    forall n
      ensures n in names <==> IsStrippedName(raw, n)
    {
      StrippedSetMembers(raw, n);
    }
  }

  /** `parse_accessed_coverages`: the distinct, non-empty names, each with
      spaces, tabs and line breaks stripped, that some line requests. */
  method ParseAccessedCoverages(lines: seq<string>) returns (names: seq<string>)
    ensures forall i, j :: 0 <= i < j < |names| ==> names[i] != names[j]
    ensures forall n :: n in names <==> IsStrippedName(AccessedNames(lines), n)
    ensures forall k :: 0 <= k < |names| ==> Strip(names[k]) == names[k]
    ensures forall k :: 0 <= k < |names| ==> MentionedIn(lines, names[k])
  {
    var result: seq<string> := [];
    var i := 0;
    while i < |lines|
      invariant 0 <= i <= |lines|
      invariant result == AccessedNames(lines[..i])
    {
      assert lines[..i + 1][..i] == lines[..i];
      result := result + ParseAccessedCoveragesLine(lines[i]);
      i := i + 1;
    }
    assert lines[..|lines|] == lines;
    names := DistinctStripped(result);
    forall k | 0 <= k < |names|
      ensures Strip(names[k]) == names[k]
      ensures MentionedIn(lines, names[k])
    {
      StrippedNameFacts(lines, names[k]);
    }
  }

  /** A reported name is already stripped and occurs in some line. */
  lemma StrippedNameFacts(lines: seq<string>, n: string)
    requires IsStrippedName(AccessedNames(lines), n)
    ensures Strip(n) == n
    ensures MentionedIn(lines, n)
  {
    AccessedNamesFromLines(lines);
    var c :| c in AccessedNames(lines) && Strip(c) == n;
    StripIdempotent(c);
    var l :| l in lines && c in ParseAccessedCoveragesLine(l);
    ContainedName(l, c);
    StripContained(c);
    ContainsTransitive(l, c, n);
  }

  lemma ContainedName(line: string, c: string)
    requires c in ParseAccessedCoveragesLine(line)
    ensures Contains(line, c)
  {
    var names := ParseAccessedCoveragesLine(line);
    var k :| 0 <= k < |names| && names[k] == c;
  }

  /** The loop of `parse_line`: walks the accessed names in order and
      records an access for each one whose lower-case form occurs in the line. */
  function Accesses<D>(line: string, accessed: seq<string>, date: D): seq<UsedCoverage<D>>
    decreases |accessed|
  {
    if |accessed| == 0 then []
    else
      (if Contains(line, Lower(accessed[0])) then [UsedCoverage(date, accessed[0], 1)] else [])
      + Accesses(line, accessed[1..], date)
  }

  /** What the loop records: no more entries than names, each a single
      access dated `date` to a qualifying accessed name, and every
      qualifying name recorded. */
  lemma {:induction false} AccessesFacts<D>(line: string, accessed: seq<string>, date: D)
    ensures |Accesses(line, accessed, date)| <= |accessed|
    ensures forall e :: e in Accesses(line, accessed, date) ==>
      e.date == date && e.accessCount == 1 && e.coverageName in accessed && Contains(line, Lower(e.coverageName))
    ensures forall n :: n in accessed && Contains(line, Lower(n)) ==>
      exists e :: e in Accesses(line, accessed, date) && e.coverageName == n
    decreases |accessed|
  {
    if |accessed| > 0 {
      AccessesFacts(line, accessed[1..], date);
      assert forall n :: n in accessed ==> n == accessed[0] || n in accessed[1..];
    }
  }

  /** The loop over a concatenation runs over each part in turn. */
  lemma {:induction false} AccessesAppend<D>(line: string, a: seq<string>, b: seq<string>, date: D)
    ensures Accesses(line, a + b, date) == Accesses(line, a, date) + Accesses(line, b, date)
    decreases |a|
  {
    if |a| == 0 {
      assert a + b == b;
    } else {
      assert (a + b)[0] == a[0];
      assert (a + b)[1..] == a[1..] + b;
      AccessesAppend(line, a[1..], b, date);
    }
  }

  /** `parse_line`: one access with count 1, dated `date`, for every
      accessed name whose lower-case form occurs in the line, in the order
      of `accessed`. */
  function ParseLine<D>(line: string, accessed: seq<string>, date: D): (entries: seq<UsedCoverage<D>>)
    ensures |entries| <= |accessed|
    ensures forall e :: e in entries ==>
      e.date == date && e.accessCount == 1 && e.coverageName in accessed && Contains(line, Lower(e.coverageName))
    ensures forall n :: n in accessed && Contains(line, Lower(n)) ==> exists e :: e in entries && e.coverageName == n
  {
    AccessesFacts(line, accessed, date);
    Accesses(line, accessed, date)
  }

  /** `parse_line` over a concatenation of accessed lists is the
      concatenation of the two results: entries follow the order of
      `accessed`, one per qualifying position. */
  lemma ParseLineAppend<D>(line: string, a: seq<string>, b: seq<string>, date: D)
    ensures ParseLine(line, a + b, date) == ParseLine(line, a, date) + ParseLine(line, b, date)
  {
    AccessesAppend(line, a, b, date);
  }

  /** `parse_line` for one accessed name: a single access exactly when its
      lower-case form occurs in the line. */
  lemma ParseLineSingle<D>(line: string, n: string, date: D)
    ensures ParseLine(line, [n], date) == if Contains(line, Lower(n)) then [UsedCoverage(date, n, 1)] else []
  {
    assert [n][1..] == [];
    assert Accesses(line, [n][1..], date) == [];
  }
}
