/** The `IThesaurus` and `IThesaurusTerms` schemata: a thesaurus's required
    fields, its version pattern and date-type vocabulary, and the terms
    chosen from a thesaurus together with the invariant that every term
    belongs to the thesaurus's vocabulary. */
module ThesaurusSchema {
  import opened Wrappers
  import opened Strings
  import opened Schemata

  /** A thesaurus. Dates are numbers in their natural order; the vocabulary
      is the set of its term values. */
  datatype Thesaurus = Thesaurus(
    name: Option<string>,
    title: Option<string>,
    referenceDate: Option<int>,
    dateType: Option<string>,
    version: Option<string>,
    vocabulary: Option<set<string>>)

  datatype ThesaurusField = Name | Title | ReferenceDate | DateType | Version | Vocabulary

  const ThesaurusFields: set<ThesaurusField> := {Name, Title, ReferenceDate, DateType, Version, Vocabulary}

  predicate IsDigit(c: char) {
    '0' <= c <= '9'
  }

  predicate IsLabelChar(c: char) {
    'a' <= c <= 'z' || IsDigit(c)
  }

  /** The characters a version may consist of. */
  predicate IsVersionChar(c: char) {
    IsLabelChar(c) || c == '.'
  }

  /** What `\d+` matches in full. */
  predicate IsNumber(p: string) {
    |p| >= 1 && forall k :: 0 <= k < |p| ==> IsDigit(p[k])
  }

  /** What `[a-z0-9]+` matches in full. */
  predicate IsLabel(p: string) {
    |p| >= 1 && forall k :: 0 <= k < |p| ==> IsLabelChar(p[k])
  }

  /** The dot-separated pieces of a version: two numbers, then labels. */
  predicate IsVersionPieces(ps: seq<string>) {
    && |ps| >= 2
    && IsNumber(ps[0]) && IsNumber(ps[1])
    && forall k :: 2 <= k < |ps| ==> IsLabel(ps[k])
  }

  /** What `\d+\.\d+(\.[a-z0-9]+)*` matches in full. No character class of
      the pattern admits `.`, so the dots split a match exactly into its
      pieces. */
  predicate IsVersionWord(v: string) {
    IsVersionPieces(Split(v, "."))
  }

  /** The version constraint as written: `re.compile('^\d+\.\d+(\.[a-z0-9]+)*$').match`. */
  predicate VersionValidAsWritten(v: string) {
    EndAnchored(v, IsVersionWord)
  }

  /** The joined pieces keep their characters, plus the dots. */
  lemma {:induction false} JoinVersionChars(ps: seq<string>)
    requires forall k :: 0 <= k < |ps| ==> forall i :: 0 <= i < |ps[k]| ==> IsLabelChar(ps[k][i])
    ensures forall i :: 0 <= i < |Join(ps, ".")| ==> IsVersionChar(Join(ps, ".")[i])
    decreases |ps|
  {
    if |ps| > 1 {
      JoinVersionChars(ps[1..]);
      var rest := Join(ps[1..], ".");
      assert Join(ps, ".") == ps[0] + "." + rest;
      forall i | 0 <= i < |Join(ps, ".")|
        ensures IsVersionChar(Join(ps, ".")[i])
      {
        if i > |ps[0]| {
          assert Join(ps, ".")[i] == rest[i - |ps[0]| - 1];
        }
      }
    }
  }

  /** The version constraint as evidently intended: the pattern matches
      the whole value. A valid version is made of version characters only,
      so it has no line break, and it is exactly an as-written match
      without one. */
  function VersionValid(v: string): (ok: bool)
    ensures ok ==> forall k :: 0 <= k < |v| ==> IsVersionChar(v[k])
    ensures ok <==> VersionValidAsWritten(v) && '\n' !in v
  {
    var ps := Split(v, ".");
    if IsVersionPieces(ps) then
      assert forall k :: 0 <= k < |ps| ==> forall i :: 0 <= i < |ps[k]| ==> IsLabelChar(ps[k][i]);
      JoinVersionChars(ps);
      assert !IsVersionChar('\n');
      true
    else
      assert !IsVersionWord(v);
      false
  }

  /** Versions are exactly the dot-joins of version pieces, and splitting
      a joined version on `.` gives its pieces back. */
  lemma VersionOfPieces(ps: seq<string>)
    requires IsVersionPieces(ps)
    ensures Split(Join(ps, "."), ".") == ps
    ensures VersionValid(Join(ps, "."))
  {
    assert forall k :: 0 <= k < |ps| ==> '.' !in ps[k];
    SplitJoin(ps, '.');
  }

  /** The as-written version constraint lets a trailing line break
      through, which the corrected constraint rejects. */
  lemma TrailingNewlineVersion()
    ensures VersionValidAsWritten("1.0\n")
    ensures !VersionValid("1.0\n")
  {
    VersionOfPieces(["1", "0"]);
    assert Join(["1", "0"], ".") == "1.0";
    var v := "1.0\n";
    assert v[..|v| - 1] == "1.0";
    assert v[3] == '\n';
  }

  /** The fixture's version `"1.0"` is accepted. */
  lemma FixtureVersionValid()
    ensures VersionValid("1.0")
  {
    VersionOfPieces(["1", "0"]);
    assert Join(["1", "0"], ".") == "1.0";
  }

  /** A lone number is not a version: the pattern needs at least one dot. */
  lemma LoneNumberInvalid()
    ensures !VersionValid("1")
  {
    ContainsChar("1", '.');
  }

  /** A trailing dot leaves an empty last piece, which is no version piece. */
  lemma TrailingDotInvalid()
    ensures !VersionValid("1.0.")
  {
    var v := "1.0.";
    assert v == "1.0" + ['.'] + "";
    SplitAppend("1.0", '.', "");
    ContainsChar("1.0", '.');
    var ps := Split(v, ".");
    assert ps == Split("1.0", ".") + [""];
    assert !IsLabel(ps[|ps| - 1]);
    assert !IsVersionWord(v);
    assert v[|v| - 1] != '\n';
  }

  /** Whether a thesaurus field's declared constraints hold, with
      `dateTypes` the date-types vocabulary. */
  predicate FieldValid(t: Thesaurus, dateTypes: set<string>, f: ThesaurusField) {
    match f
    case Name => t.name.Some?
    case Title => t.title.Some? && IsTextLine(t.title.value)
    case ReferenceDate => t.referenceDate.Some?
    case DateType => t.dateType.Some? && t.dateType.value in dateTypes
    case Version => t.version.None? || VersionValid(t.version.value)
    case Vocabulary => t.vocabulary.Some?
  }

  predicate ThesaurusValid(t: Thesaurus, dateTypes: set<string>) {
    forall f :: FieldValid(t, dateTypes, f)
  }

  lemma ThesaurusFieldListed(f: ThesaurusField)
    ensures f in ThesaurusFields
  {
    match f
    case Name =>
    case Title =>
    case ReferenceDate =>
    case DateType =>
    case Version =>
    case Vocabulary =>
  }

  /** Validation of a thesaurus: the fields whose constraints fail. */
  function ValidateThesaurus(t: Thesaurus, dateTypes: set<string>): (problems: set<Problem<ThesaurusField, string>>)
    ensures forall f :: Faulty(f) in problems <==> !FieldValid(t, dateTypes, f)
    ensures forall p :: p in problems ==> p.Faulty?
    ensures problems == {} <==> ThesaurusValid(t, dateTypes)
  {
    var problems := set f | f in ThesaurusFields && !FieldValid(t, dateTypes, f) :: Faulty(f);
    assert forall f :: Faulty(f) in problems <==> !FieldValid(t, dateTypes, f) by {
      forall f ensures Faulty(f) in problems <==> !FieldValid(t, dateTypes, f) {
        ThesaurusFieldListed(f);
      }
    }
    problems
  }

  /** A thesaurus that validates has every required field set and a date
      type from the date-types vocabulary. */
  lemma RequiredFields(t: Thesaurus, dateTypes: set<string>)
    requires ValidateThesaurus(t, dateTypes) == {}
    ensures t.name.Some? && t.title.Some? && t.referenceDate.Some? && t.vocabulary.Some?
    ensures t.dateType.Some? && t.dateType.value in dateTypes
  {
    assert FieldValid(t, dateTypes, Name) && FieldValid(t, dateTypes, Title);
    assert FieldValid(t, dateTypes, ReferenceDate) && FieldValid(t, dateTypes, Vocabulary);
    assert FieldValid(t, dateTypes, DateType);
  }

  /** Terms chosen from a thesaurus. */
  datatype ThesaurusTerms = ThesaurusTerms(thesaurus: Option<Thesaurus>, terms: Option<seq<string>>)

  datatype TermsField = OfThesaurus | Terms

  const MinTerms := 1
  const MaxTerms := 8

  /** The error `check_terms` raises: the thesaurus title and the offending
      terms joined by `,`. */
  datatype TermsError = UnexpectedTerms(thesaurusTitle: string, listing: string)

  /** Whether a field of the terms record holds; the thesaurus must itself
      validate. */
  predicate TermsFieldValid(tt: ThesaurusTerms, dateTypes: set<string>, f: TermsField) {
    match f
    case OfThesaurus => tt.thesaurus.Some? && ThesaurusValid(tt.thesaurus.value, dateTypes)
    case Terms => tt.terms.Some? && MinTerms <= |tt.terms.value| <= MaxTerms
  }

  /** The loop of `check_terms`: walks the terms in order and keeps those
      the vocabulary does not hold. */
  function Offending(terms: seq<string>, vocabulary: set<string>): seq<string>
    decreases |terms|
  {
    if |terms| == 0 then []
    else (if terms[0] in vocabulary then [] else [terms[0]]) + Offending(terms[1..], vocabulary)
  }

  /** What the loop keeps: each term outside the vocabulary, with all its
      repetitions, and nothing else. */
  lemma {:induction false} OffendingFacts(terms: seq<string>, vocabulary: set<string>)
    ensures |Offending(terms, vocabulary)| <= |terms|
    ensures forall t :: multiset(Offending(terms, vocabulary))[t] == if t in vocabulary then 0 else multiset(terms)[t]
    decreases |terms|
  {
    if |terms| > 0 {
      OffendingFacts(terms[1..], vocabulary);
      assert terms == [terms[0]] + terms[1..];
    }
  }

  /** The loop over a concatenation runs over each part in turn. */
  lemma {:induction false} OffendingAppend(a: seq<string>, b: seq<string>, vocabulary: set<string>)
    ensures Offending(a + b, vocabulary) == Offending(a, vocabulary) + Offending(b, vocabulary)
    decreases |a|
  {
    if |a| == 0 {
      assert a + b == b;
    } else {
      assert (a + b)[0] == a[0];
      assert (a + b)[1..] == a[1..] + b;
      OffendingAppend(a[1..], b, vocabulary);
    }
  }

  /** The terms the vocabulary does not hold, in their original order and
      with their repetitions. */
  function Unexpected(terms: seq<string>, vocabulary: set<string>): (u: seq<string>)
    ensures |u| <= |terms|
    ensures forall t :: t in u <==> t in terms && t !in vocabulary
    ensures forall t :: multiset(u)[t] == if t in vocabulary then 0 else multiset(terms)[t]
  {
    OffendingFacts(terms, vocabulary);
    Offending(terms, vocabulary)
  }

  /** The offending terms of a concatenation are those of each part in
      turn: the listing keeps the order of `terms`. */
  lemma UnexpectedAppend(a: seq<string>, b: seq<string>, vocabulary: set<string>)
    ensures Unexpected(a + b, vocabulary) == Unexpected(a, vocabulary) + Unexpected(b, vocabulary)
  {
    OffendingAppend(a, b, vocabulary);
  }

  /** One term is offending exactly when the vocabulary lacks it. */
  lemma UnexpectedSingle(t: string, vocabulary: set<string>)
    ensures Unexpected([t], vocabulary) == if t in vocabulary then [] else [t]
  {
    assert [t][1..] == [];
  }

  /** `check_terms`: fails exactly when some term is not in the
      vocabulary, reporting the thesaurus title and the offending terms. */
  function CheckTerms(title: string, vocabulary: set<string>, terms: seq<string>): (o: Outcome<TermsError>)
    ensures o.Fail? <==> exists k :: 0 <= k < |terms| && terms[k] !in vocabulary
    ensures o.Fail? ==> o.error == UnexpectedTerms(title, Join(Unexpected(terms, vocabulary), ","))
  {
    var u := Unexpected(terms, vocabulary);
    if |u| > 0 then
      assert u[0] in terms;
      Fail(UnexpectedTerms(title, Join(u, ",")))
    else
      Pass
  }

  /** When no term holds a `,`, the listing splits back into exactly the
      offending terms. */
  lemma ListingRoundTrip(title: string, vocabulary: set<string>, terms: seq<string>)
    requires forall k :: 0 <= k < |terms| ==> ',' !in terms[k]
    requires CheckTerms(title, vocabulary, terms).Fail?
    ensures Split(CheckTerms(title, vocabulary, terms).error.listing, ",") == Unexpected(terms, vocabulary)
  {
    var u := Unexpected(terms, vocabulary);
    forall k | 0 <= k < |u|
      ensures ',' !in u[k]
    {
      assert u[k] in terms;
    }
    SplitJoin(u, ',');
  }

  predicate TermsFieldsValid(tt: ThesaurusTerms, dateTypes: set<string>) {
    TermsFieldValid(tt, dateTypes, OfThesaurus) && TermsFieldValid(tt, dateTypes, Terms)
  }

  /** A terms record the schema accepts: both fields valid and every term
      in the thesaurus's vocabulary. */
  predicate TermsConform(tt: ThesaurusTerms, dateTypes: set<string>) {
    && TermsFieldsValid(tt, dateTypes)
    && FieldValid(tt.thesaurus.value, dateTypes, Vocabulary)
    && forall k :: 0 <= k < |tt.terms.value| ==> tt.terms.value[k] in tt.thesaurus.value.vocabulary.value
  }

  /** Validation of a terms record: the faulty fields if there are any;
      otherwise the error `check_terms` raises, if any. */
  function ValidateTerms(tt: ThesaurusTerms, dateTypes: set<string>): (problems: set<Problem<TermsField, TermsError>>)
    ensures forall f :: Faulty(f) in problems <==> !TermsFieldValid(tt, dateTypes, f)
    ensures problems == {} <==> TermsConform(tt, dateTypes)
    ensures (exists p :: p in problems && p.Invalid?) <==>
      && TermsFieldsValid(tt, dateTypes)
      && FieldValid(tt.thesaurus.value, dateTypes, Vocabulary)
      && exists k :: 0 <= k < |tt.terms.value| && tt.terms.value[k] !in tt.thesaurus.value.vocabulary.value
    ensures TermsFieldsValid(tt, dateTypes) ==>
      var th := tt.thesaurus.value;
      && FieldValid(th, dateTypes, Title) && FieldValid(th, dateTypes, Vocabulary)
      && problems == InvariantProblems(CheckTerms(th.title.value, th.vocabulary.value, tt.terms.value))
  {
    var faulty := (if TermsFieldValid(tt, dateTypes, OfThesaurus) then {} else {Faulty(OfThesaurus)})
      + (if TermsFieldValid(tt, dateTypes, Terms) then {} else {Faulty(Terms)});
    if faulty != {} then
      faulty
    else
      var th := tt.thesaurus.value;
      assert FieldValid(th, dateTypes, Title) && FieldValid(th, dateTypes, Vocabulary);
      var o := CheckTerms(th.title.value, th.vocabulary.value, tt.terms.value);
      var problems := InvariantProblems(o);
      assert o.Fail? ==> Invalid(o.error) in problems;
      problems
  }
}
