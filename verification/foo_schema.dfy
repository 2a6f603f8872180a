/** The `IFooMetadata` schema: the declared constraint of every field, the
    two invariants, and validation that checks the invariants only once
    every field is valid. */
module FooSchema {
  import opened Wrappers
  import opened Strings
  import opened Schemata

  /** Values of nested object schemata, whose own fields are not modelled. */
  type Contact
  type Polygon
  type Extent

  /** A foo record. Datetimes and times are numbers in their natural order;
      `None` is a field left unset. */
  datatype FooRecord = FooRecord(
    url: Option<string>,
    thematicCategory: Option<string>,
    baz: Option<string>,
    tags: Option<seq<string>>,
    temporalExtent: Option<Extent>,
    geometry: Option<seq<seq<Polygon>>>,
    reviewed: Option<bool>,
    description: Option<string>,
    contacts: Option<map<string, Option<Contact>>>,
    contactInfo: Option<Contact>,
    created: Option<int>,
    published: Option<int>,
    wakeupTime: Option<int>,
    rating: Option<int>,
    password: Option<string>)

  datatype FooField =
    | Url | ThematicCategory | Baz | Tags | TemporalExtent | Geometry | Reviewed
    | Description | Contacts | ContactInfo | Created | Published | WakeupTime | Rating | Password

  const AllFields: set<FooField> := {
    Url, ThematicCategory, Baz, Tags, TemporalExtent, Geometry, Reviewed,
    Description, Contacts, ContactInfo, Created, Published, WakeupTime, Rating, Password}

  /** The thematic-category vocabulary and its default. */
  const ThematicCategories: set<string> := {"environment", "government", "health", "economy"}
  const DefaultThematicCategory: string := "economy"

  /** The default of `baz`. */
  const DefaultBaz: string := "bazinka"

  /** The vocabulary of contact kinds, the keys of `contacts`. */
  const ContactKinds: set<string> := {"personal", "personal-alt", "office"}

  const MinBazLength := 5
  const MinTags := 1
  const MaxTags := 5
  const MinRating := -10
  const MaxRating := 10
  const MinPasswordLength := 6
  const MaxGeometryLists := 2
  const MaxPolygonsPerList := 2

  const TagDuplicatesMessage: string := "Tags contain duplicates"
  const PublicationDateMessage: string := "The publication date is before creation date"

  predicate IsTagChar(c: char) {
    c == '-' || 'a' <= c <= 'z' || '0' <= c <= '9'
  }

  /** What `[-a-z0-9]+` matches in full. */
  predicate IsTagWord(t: string) {
    |t| >= 1 && forall k :: 0 <= k < |t| ==> IsTagChar(t[k])
  }

  /** The tag constraint as written: `re.compile('[-a-z0-9]+$').match`,
      which replaces the line rule of the tags' `TextLine`. */
  predicate TagValidAsWritten(t: string) {
    EndAnchored(t, IsTagWord)
  }

  /** The tag constraint as evidently intended: the pattern and the line
      rule together. A valid tag is exactly a non-empty word over
      `[-a-z0-9]`. */
  function TagValid(t: string): (ok: bool)
    ensures ok <==> |t| >= 1 && forall k :: 0 <= k < |t| ==> IsTagChar(t[k])
  {
    TagValidAsWritten(t) && IsTextLine(t)
  }

  /** The as-written tag constraint lets a trailing line break through,
      which the corrected constraint rejects. */
  lemma TrailingNewlineTag()
    ensures TagValidAsWritten("ab\n")
    ensures !TagValid("ab\n")
  {
    var t := "ab\n";
    assert t[..|t| - 1] == "ab";
    assert IsTagWord("ab");
  }

  /** Whether a field's declared constraints hold (requiredness, vocabulary,
      bounds, lengths, element constraints). */
  predicate FieldValid(r: FooRecord, f: FooField) {
    match f
    case Url => r.url.Some?
    case ThematicCategory => r.thematicCategory.Some? && r.thematicCategory.value in ThematicCategories
    case Baz => r.baz.None? || (IsTextLine(r.baz.value) && |r.baz.value| >= MinBazLength)
    case Tags =>
      && r.tags.Some?
      && MinTags <= |r.tags.value| <= MaxTags
      && forall k :: 0 <= k < |r.tags.value| ==> TagValid(r.tags.value[k])
    case TemporalExtent => true
    case Geometry =>
      r.geometry.None? ||
      (&& |r.geometry.value| <= MaxGeometryLists
       && forall k :: 0 <= k < |r.geometry.value| ==> |r.geometry.value[k]| <= MaxPolygonsPerList)
    case Reviewed => true
    case Description => true
    case Contacts =>
      r.contacts.None? ||
      forall kind :: kind in r.contacts.value ==> kind in ContactKinds && r.contacts.value[kind].Some?
    case ContactInfo => r.contactInfo.Some?
    case Created => r.created.Some?
    case Published => true
    case WakeupTime => r.wakeupTime.Some?
    case Rating => r.rating.Some? && MinRating <= r.rating.value <= MaxRating
    case Password => r.password.None? || (IsTextLine(r.password.value) && |r.password.value| >= MinPasswordLength)
  }

  predicate FieldsValid(r: FooRecord) {
    forall f :: FieldValid(r, f)
  }

  predicate HasDuplicate(xs: seq<string>) {
    exists i, j :: 0 <= i < j < |xs| && xs[i] == xs[j]
  }

  /** The set of a list's elements, as Python's `set(xs)`. */
  function Elements(xs: seq<string>): set<string> {
    set x | x in xs
  }

  lemma ElementsCons(xs: seq<string>)
    requires |xs| > 0
    ensures Elements(xs) == {xs[0]} + Elements(xs[1..])
  {
    assert xs == [xs[0]] + xs[1..];
  }

  /** A list has a duplicate when its head recurs or its tail has one. */
  lemma DuplicateCons(xs: seq<string>)
    requires |xs| > 0
    ensures HasDuplicate(xs) <==> xs[0] in xs[1..] || HasDuplicate(xs[1..])
  {
    var rest := xs[1..];
    if HasDuplicate(xs) {
      var i, j :| 0 <= i < j < |xs| && xs[i] == xs[j];
      if i == 0 {
        assert rest[j - 1] == xs[0];
      } else {
        assert rest[i - 1] == rest[j - 1];
      }
    }
    if xs[0] in rest {
      var j :| 0 <= j < |rest| && rest[j] == xs[0];
      assert xs[0] == xs[j + 1];
    }
    if HasDuplicate(rest) {
      var i, j :| 0 <= i < j < |rest| && rest[i] == rest[j];
      assert xs[i + 1] == xs[j + 1];
    }
  }

  /** A list's set of elements is no larger than the list, and strictly
      smaller exactly when two positions hold the same element. */
  lemma {:induction false} DistinctCount(xs: seq<string>)
    ensures |Elements(xs)| <= |xs|
    ensures |Elements(xs)| < |xs| <==> HasDuplicate(xs)
    decreases |xs|
  {
    if |xs| > 0 {
      var rest := xs[1..];
      DistinctCount(rest);
      ElementsCons(xs);
      DuplicateCons(xs);
      if xs[0] in rest {
        assert xs[0] in Elements(rest);
        assert Elements(xs) == Elements(rest);
      } else {
        assert xs[0] !in Elements(rest);
      }
    }
  }

  /** `check_tag_duplicates`: fails exactly when some tag occurs twice. */
  function CheckTagDuplicates(tags: seq<string>): (o: Outcome<string>)
    ensures o.Fail? <==> HasDuplicate(tags)
    ensures o.Fail? ==> o.error == TagDuplicatesMessage
  {
    DistinctCount(tags);
    if |Elements(tags)| < |tags| then Fail(TagDuplicatesMessage) else Pass
  }

  /** `check_publication_date`: fails exactly when a publication date is
      set and is strictly earlier than the creation date. */
  function CheckPublicationDate(created: int, published: Option<int>): (o: Outcome<string>)
    ensures o.Pass? <==> published.None? || created <= published.value
    ensures o.Fail? ==> o.error == PublicationDateMessage
  {
    if published.Some? && published.value < created then Fail(PublicationDateMessage) else Pass
  }

  /** A record the schema accepts: every field valid, no tag twice, and
      not published before it was created. */
  predicate Conforms(r: FooRecord) {
    && FieldsValid(r)
    && (r.tags.Some? ==> !HasDuplicate(r.tags.value))
    && (r.created.Some? && r.published.Some? ==> r.created.value <= r.published.value)
  }

  /** Every field is listed in `AllFields`. */
  lemma FieldListed(f: FooField)
    ensures f in AllFields
  {
    match f
    case Url =>
    case ThematicCategory =>
    case Baz =>
    case Tags =>
    case TemporalExtent =>
    case Geometry =>
    case Reviewed =>
    case Description =>
    case Contacts =>
    case ContactInfo =>
    case Created =>
    case Published =>
    case WakeupTime =>
    case Rating =>
    case Password =>
  }

  /** Validation: the faulty fields if there are any; otherwise the errors
      the invariants raise. */
  function Validate(r: FooRecord): (problems: set<Problem<FooField, string>>)
    ensures forall f :: Faulty(f) in problems <==> !FieldValid(r, f)
    ensures problems == {} <==> Conforms(r)
    ensures !FieldsValid(r) ==> forall p :: p in problems ==> p.Faulty?
    ensures Invalid(TagDuplicatesMessage) in problems <==>
      FieldsValid(r) && r.tags.Some? && HasDuplicate(r.tags.value)
    ensures Invalid(PublicationDateMessage) in problems <==>
      FieldsValid(r) && r.created.Some? && r.published.Some? && r.published.value < r.created.value
    ensures forall p :: p in problems && p.Invalid? ==>
      p.error == TagDuplicatesMessage || p.error == PublicationDateMessage
  {
    var faulty := set f | f in AllFields && !FieldValid(r, f) :: Faulty(f);
    if faulty != {} then
      assert forall f :: Faulty(f) in faulty <==> !FieldValid(r, f) by {
        forall f ensures Faulty(f) in faulty <==> !FieldValid(r, f) {
          FieldListed(f);
        }
      }
      faulty
    else
      assert FieldsValid(r) by {
        forall f ensures FieldValid(r, f) {
          FieldListed(f);
          assert Faulty(f) !in faulty;
        }
      }
      assert FieldValid(r, Tags) && FieldValid(r, Created);
      InvariantProblems(CheckTagDuplicates(r.tags.value))
        + InvariantProblems(CheckPublicationDate(r.created.value, r.published))
  }

  /** The fixture whose `baz` is `"B"` has `baz` reported faulty. */
  lemma ShortBazFaulty(r: FooRecord)
    requires r.baz == Some("B")
    ensures Faulty(Baz) in Validate(r)
  {
    FaultyIff(r, Baz);
  }

  /** A field is reported faulty exactly when its declared constraints fail. */
  lemma FaultyIff(r: FooRecord, f: FooField)
    ensures Faulty(f) in Validate(r) <==> !FieldValid(r, f)
  {
  }

  /** `rating` is required and lies in [-10, 10]. */
  lemma RatingConstraint(r: FooRecord)
    ensures Faulty(Rating) !in Validate(r) <==> r.rating.Some? && -10 <= r.rating.value <= 10
  {
    RatingField(r);
    FaultyIff(r, Rating);
  }

  lemma RatingField(r: FooRecord)
    ensures FieldValid(r, Rating) <==>
      r.rating.Some? && -10 <= r.rating.value <= 10
  {
  }

  /** `tags` is required, holds 1 to 5 tags, each a non-empty word over `[-a-z0-9]`. */
  lemma TagsConstraint(r: FooRecord)
    ensures Faulty(Tags) !in Validate(r) <==>
      && r.tags.Some? && 1 <= |r.tags.value| <= 5
      && forall k :: 0 <= k < |r.tags.value| ==> IsTagWord(r.tags.value[k])
  {
    TagsField(r);
    FaultyIff(r, Tags);
  }

  lemma TagsField(r: FooRecord)
    ensures FieldValid(r, Tags) <==>
      && r.tags.Some? && 1 <= |r.tags.value| <= 5
      && forall k :: 0 <= k < |r.tags.value| ==> IsTagWord(r.tags.value[k])
  {
  }

  /** `baz` is optional; when set it is one line of at least 5 characters. */
  lemma BazConstraint(r: FooRecord)
    ensures Faulty(Baz) !in Validate(r) <==> r.baz.None? || (IsTextLine(r.baz.value) && |r.baz.value| >= 5)
  {
    BazField(r);
    FaultyIff(r, Baz);
  }

  lemma BazField(r: FooRecord)
    ensures FieldValid(r, Baz) <==>
      r.baz.None? || (IsTextLine(r.baz.value) && |r.baz.value| >= 5)
  {
  }

  /** `thematic_category` is required and one of the four categories. */
  lemma ThematicCategoryConstraint(r: FooRecord)
    ensures Faulty(ThematicCategory) !in Validate(r) <==>
      r.thematicCategory.Some? && r.thematicCategory.value in {"environment", "government", "health", "economy"}
  {
    ThematicCategoryField(r);
    FaultyIff(r, ThematicCategory);
  }

  lemma ThematicCategoryField(r: FooRecord)
    ensures FieldValid(r, ThematicCategory) <==>
      r.thematicCategory.Some? && r.thematicCategory.value in {"environment", "government", "health", "economy"}
  {
  }

  /** `password` is optional; when set it is one line of at least 6 characters. */
  lemma PasswordConstraint(r: FooRecord)
    ensures Faulty(Password) !in Validate(r) <==>
      r.password.None? || (IsTextLine(r.password.value) && |r.password.value| >= 6)
  {
    PasswordField(r);
    FaultyIff(r, Password);
  }

  lemma PasswordField(r: FooRecord)
    ensures FieldValid(r, Password) <==>
      r.password.None? || (IsTextLine(r.password.value) && |r.password.value| >= 6)
  {
  }

  /** `geometry` is optional: at most 2 lists of at most 2 polygons each. */
  lemma GeometryConstraint(r: FooRecord)
    ensures Faulty(Geometry) !in Validate(r) <==>
      r.geometry.None? || (|r.geometry.value| <= 2 && forall k :: 0 <= k < |r.geometry.value| ==> |r.geometry.value[k]| <= 2)
  {
    GeometryField(r);
    FaultyIff(r, Geometry);
  }

  lemma GeometryField(r: FooRecord)
    ensures FieldValid(r, Geometry) <==>
      r.geometry.None? || (|r.geometry.value| <= 2 && forall k :: 0 <= k < |r.geometry.value| ==> |r.geometry.value[k]| <= 2)
  {
  }

  /** The declared defaults satisfy their own fields' constraints. */
  lemma DefaultsValid(r: FooRecord)
    requires r.thematicCategory == Some(DefaultThematicCategory)
    requires r.baz == Some(DefaultBaz)
    ensures Faulty(ThematicCategory) !in Validate(r)
    ensures Faulty(Baz) !in Validate(r)
  {
    ThematicCategoryField(r);
    BazField(r);
    FaultyIff(r, ThematicCategory);
    FaultyIff(r, Baz);
  }

  /** Publishing on the creation date itself is allowed. */
  lemma PublishedOnCreation(r: FooRecord)
    requires r.published.Some? && r.created == r.published
    ensures Invalid(PublicationDateMessage) !in Validate(r)
  {
  }
}
