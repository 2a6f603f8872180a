# Qualified-action widget lookup, access-log coverage parsing and two metadata schemata

A Dafny model of four parts of the `ckanext-publicamundi` CKAN extension:

- **Widget lookup** (`lib/metadata/widgets/__init__.py`). A `QualAction` is an action name with an optional dotted qualifier, such as `read:foo.bar`. Widgets are registered under exact keys: the required interface vector, the provided widget role and a name. The name is either the bare action or `action:qualifier`. Looking up a widget tries the request, then its parent qualifiers from nearest to farthest, then the bare action. For fields, this candidate loop is itself nested inside a loop that drops the last element of the adaptee vector until the vector is empty. The model covers `to_string`, `from_string`, `parents`, `make_child`, the names a widget class is registered under, `widget_for_object`, `widget_for_field`, `LookupContext` and `WidgetNotFound`.
- **Coverage access parser** (`analytics/controllers/parsers/hausedcoveragesparser.py`). It finds the WCS coverages (`coverageid=`) and WMS layers (`layers=`, `layer=`) that access-log lines request. It then counts one access for each known name that a line mentions in lower case.
- **`IFooMetadata`** (`lib/metadata/schemata/foo.py`). The model covers every field's declared constraint (the tag rule in its corrected form, see "Findings") and the two invariants `check_tag_duplicates` and `check_publication_date`. Validation reports the faulty fields; the model checks the invariants only once every field is valid (see "Left out").
- **`IThesaurus` and `IThesaurusTerms`** (`lib/metadata/schemata/thesaurus.py`). The model covers the required fields, the version pattern (in its corrected form, see "Findings"), the date-type vocabulary, the 1–8 terms, and the `check_terms` invariant that every term belongs to the thesaurus vocabulary.

Files and modules:

| file | module | what |
|---|---|---|
| `wrappers.dfy` | `Wrappers` | `Option`, `Result`, `Outcome` (an invariant passes or raises an error) |
| `strings.dfy` | `Strings` | Python string operations: `in` (`Contains`), `split`, `join`, `strip(' \t\n\r')`, ASCII `lower`, end-anchored regex matching |
| `qual_action.dfy` | `QualActions` | `QualAction`, canonical names, parents, lookup candidates, `make_child` |
| `widgets.dfy` | `Widgets` | registry, registration names, `widget_for_object`, `widget_for_field` (as functions and as loop methods) |
| `coverages_parser.dfy` | `UsedCoverages` | the coverage-name extraction and per-line access entries |
| `schemata.dfy` | `Schemata` | what both schemata share: validation report entries, the `TextLine` rule |
| `foo_schema.dfy` | `FooSchema` | `IFooMetadata` |
| `thesaurus_schema.dfy` | `ThesaurusSchema` | `IThesaurus`, `IThesaurusTerms` |

Modelling choices:

- Python strings are `seq<char>`.
  - `a in b` is `Contains(b, a)`.
  - `s.split(sep)` splits at the leftmost non-overlapping occurrences.
  - `split(...)[1]` is the text between the first two occurrences.
- `re.match(p + '$', s)` is modelled by `Strings.EndAnchored`. Python's `$` also matches just before one final line break.
- A qualifier that is `None` or `''` counts as absent, as Python truthiness does.
- The adapter registry is a map from exact keys to widgets. `queryMultiAdapter` is a map lookup. Registering a key again overwrites it, because the decorator performs no duplicate check.
- Every lookup result pairs the widget with its `LookupContext` and the adaptee vector it matched. A failure is `WidgetNotFound`. It carries the argument as the caller gave it (a `QualAction` or its string) and the object or field.
- Datetimes, dates and times are integers in their natural order. `parse_line` takes the parsed date as a parameter.
- Nested object schemata (contact info, polygon, temporal extent) are opaque types.
- Validation returns the set of report entries: `Faulty(field)`, or `Invalid(error)` for an invariant that raised.
- Two facts about the code that are easy to miss:
  - The field lookup tries every candidate against the full adaptee vector before it shortens the vector. So a full-vector registration under the bare action beats a shortened-vector registration under the exact qualifier (`Widgets.BareWholeVectorBeatsQualifiedShorter`).
  - Registering a key again overwrites it; there is no duplicate check (`Widgets.RegisterWidget`).

## Model

| member | source | states |
|---|---|---|
| QualActions.FromString | ckanext/publicamundi/lib/metadata/widgets/__init__.py:58-65 | Exactly two `:`-pieces give action and qualifier, with the string equal to `action:qualifier` and neither part containing `:`. Otherwise the whole string is a bare action, which happens only with no colon or with at least two colons. |
| QualActions.RoundTrip | ckanext/publicamundi/lib/metadata/widgets/__init__.py:34-37 | `from_string(to_string(x)) == x` when the action has no `:` and the qualifier is absent, or is non-empty and has no `:`. |
| QualActions.WellFormedRoundTrip | ckanext/publicamundi/lib/metadata/widgets/__init__.py:34-37 | Every well-formed action (non-empty action without `:`, dotted-name qualifier) survives printing then parsing. |
| QualActions.ParseThenPrint | ckanext/publicamundi/lib/metadata/widgets/__init__.py:58-65 | Printing a parsed string fails to give it back exactly when its only colon is its last character (an empty qualifier, which printing drops). |
| QualActions.Parents | ckanext/publicamundi/lib/metadata/widgets/__init__.py:43-50 | The bare action first. Then, for i = 1 .. n-1, the action with the qualifier's first i segments, each a textual prefix of the qualifier followed by a dot. There are n parents for n segments, or 1 when unqualified. A qualified action is never its own parent. |
| QualActions.Candidates | ckanext/publicamundi/lib/metadata/widgets/__init__.py:144 | `reversed(parents() + [q])`: the request first, the bare action last, and in between the parents from nearest to farthest. |
| QualActions.CandidatesNarrow | ckanext/publicamundi/lib/metadata/widgets/__init__.py:43-50 | Every candidate of a well-formed action is well-formed. For n segments there are n + 1 candidates, and candidate k keeps exactly the first n - k segments. |
| QualActions.CandidateNames | ckanext/publicamundi/lib/metadata/widgets/__init__.py:149-151 | Among the candidates of a well-formed action, only the bare action has the bare action name as its canonical name. |
| QualActions.MakeChild | ckanext/publicamundi/lib/metadata/widgets/__init__.py:52-56 | Fails exactly when the segment is not a full match of `[a-z][_a-z0-9]+`. Otherwise it keeps the action and the qualifier's segments are the old ones followed by the new segment. |
| QualActions.MakeChildWellFormed | ckanext/publicamundi/lib/metadata/widgets/__init__.py:52-56 | A child of a well-formed action is well-formed. |
| QualActions.BareChildParents | ckanext/publicamundi/lib/metadata/widgets/__init__.py:43-56 | The child of an unqualified action has the bare action as its only parent. |
| QualActions.ChildParents | ckanext/publicamundi/lib/metadata/widgets/__init__.py:43-56 | The parents of a qualified action's child are the action's parents followed by the action itself. |
| QualActions.CandidatesOfChild | ckanext/publicamundi/lib/metadata/widgets/__init__.py:52-56 | A child's lookup candidates are the child followed by its parent's candidates. |
| QualActions.MakeChildAsWritten | ckanext/publicamundi/lib/metadata/widgets/__init__.py:53-55 | `make_child` with the regex test as written: fails exactly when `re.match('[a-z][_a-z0-9]+$', seg)` fails. On success it keeps the action and is qualified. On every segment that fully matches, it builds the same action as the corrected `MakeChild`. |
| QualActions.TrailingNewlineSegment | ckanext/publicamundi/lib/metadata/widgets/__init__.py:53-54 | As written, `make_child` accepts `"ab\n"` and builds an action that is not well-formed. The corrected `MakeChild` rejects it. |
| Widgets.RegistrationNames | ckanext/publicamundi/lib/metadata/widgets/__init__.py:102-108 | The bare action is included when the class is a fallback or declares no qualifiers, and `action:q` for each declared qualifier. Nothing else is included. With non-empty qualifiers, the bare action is present exactly in the fallback or no-qualifier case. |
| Widgets.RegisterWidget | ckanext/publicamundi/lib/metadata/widgets/__init__.py:109-111 | The new registry holds the old keys plus one key per registration name for the interface vector and role. New keys map to the widget. Every other key keeps its old widget. |
| Widgets.WidgetForObject | ckanext/publicamundi/lib/metadata/widgets/__init__.py:135-162 | `WidgetNotFound(arg, obj)` exactly when no candidate's name is registered for `[iface]`. Otherwise it returns the widget of the first candidate that is registered, with context (requested, that candidate). |
| Widgets.RegisteredQualifierFound | ckanext/publicamundi/lib/metadata/widgets/__init__.py:149-159 | After registering a widget under a qualifier, a request with exactly that qualified action finds it with no fallback. |
| Widgets.FallbackAlwaysFound | ckanext/publicamundi/lib/metadata/widgets/__init__.py:104-105 | After registering a fallback widget, every request for its action is answered, however it is qualified. |
| Widgets.EmptyRegistryNotFound | ckanext/publicamundi/lib/metadata/widgets/__init__.py:158-162 | With nothing registered, both lookups fail with `WidgetNotFound` carrying the argument and the subject. |
| Widgets.WidgetForField | ckanext/publicamundi/lib/metadata/widgets/__init__.py:169-206 | Fails with `WidgetNotFound(arg, field)` exactly when no pair of (non-empty prefix of the adaptee, candidate) is registered. Otherwise it returns the first registered pair in the order "longer prefix first, then more specific candidate first", with its widget, context and matched prefix. |
| Widgets.ScanCandidates | ckanext/publicamundi/lib/metadata/widgets/__init__.py:189-196 | The inner loop returns the index of the first candidate registered for the vector, or none. |
| Widgets.ScanVectors | ckanext/publicamundi/lib/metadata/widgets/__init__.py:188-200 | The outer loop returns the first (prefix length, candidate) pair the nested search hits. |
| Widgets.FindFieldWidget | ckanext/publicamundi/lib/metadata/widgets/__init__.py:169-206 | The loop implementation returns exactly the result that `WidgetForField` specifies. |
| Widgets.WholeVectorFirst | ckanext/publicamundi/lib/metadata/widgets/__init__.py:187-200 | If any candidate is registered for the whole vector, the lookup matches the whole vector, with a candidate at least as specific as that one. |
| Widgets.BareWholeVectorBeatsQualifiedShorter | ckanext/publicamundi/lib/metadata/widgets/__init__.py:187-200 | A bare-action registration for the whole vector beats an exact-qualifier registration for a shortened vector. |
| Widgets.ShortenedOnlyOnMiss | ckanext/publicamundi/lib/metadata/widgets/__init__.py:197-200 | If some candidate is registered for the first m elements, the lookup succeeds with a prefix of at least m elements. |
| Widgets.EmptyAdapteeNotFound | ckanext/publicamundi/lib/metadata/widgets/__init__.py:188-206 | An empty adaptee vector always gives `WidgetNotFound`. |
| Widgets.FallsBackToBare | ckanext/publicamundi/lib/metadata/widgets/__init__.py:187-203 | If the only registration is the bare action for the adaptee's head, a well-formed qualified request falls back along both dimensions to it. The context records the bare action as provided. |
| UsedCoverages.NamesContainer | ckanext/publicamundi/analytics/controllers/parsers/hausedcoveragesparser.py:28-32 | The container is a prefix of the text between the first and second separator. If that text holds `&`, the container stops at its first `&`. Otherwise it stops at the first space, or is the whole text. The container holds no `&` or space respectively, holds no separator, and is a substring of the line. |
| UsedCoverages.ExtractCoverageNames | ckanext/publicamundi/analytics/controllers/parsers/hausedcoveragesparser.py:19-42 | No names when the separator is absent. Otherwise the container's names (see below). Every name is a substring of the line. |
| UsedCoverages.ContainerNames | ckanext/publicamundi/analytics/controllers/parsers/hausedcoveragesparser.py:33-41 | At least one name. If the container holds `,`, comma-free names whose `,`-join is the container. Otherwise, if it holds `:`, the text between its first and second `:`. Otherwise the container itself. Every name is a substring of the container. |
| UsedCoverages.ParseAccessedCoveragesLine | ckanext/publicamundi/analytics/controllers/parsers/hausedcoveragesparser.py:56-65 | No names exactly when none of `coverageid=`, `layers=`, `layer=` occurs in the line. Every name is a substring of the line. |
| UsedCoverages.LineIsConcatenation | ckanext/publicamundi/analytics/controllers/parsers/hausedcoveragesparser.py:56-65 | The line's names are the three extractions concatenated in key order. |
| UsedCoverages.AccessedNamesFromLines | ckanext/publicamundi/analytics/controllers/parsers/hausedcoveragesparser.py:85-87 | A name is in the accumulated result exactly when some line's extraction yields it. |
| UsedCoverages.StrippedSetMembers | ckanext/publicamundi/analytics/controllers/parsers/hausedcoveragesparser.py:88-92 | The collected set holds exactly the non-empty stripped forms of the raw names. |
| UsedCoverages.DistinctStripped | ckanext/publicamundi/analytics/controllers/parsers/hausedcoveragesparser.py:88-93 | The result has no repeats and holds exactly the non-empty stripped forms of the raw names. |
| UsedCoverages.ParseAccessedCoverages | ckanext/publicamundi/analytics/controllers/parsers/hausedcoveragesparser.py:84-93 | The result has no repeats and holds exactly the non-empty stripped names extracted from the lines. Each name is already stripped and occurs in some line. |
| UsedCoverages.ParseLine | ckanext/publicamundi/analytics/controllers/parsers/hausedcoveragesparser.py:44-54 | No more entries than accessed names. Each entry carries the given date, count 1, and an accessed name whose lower-case form occurs in the line. Every such name gets an entry. Order and count are stated by `ParseLineAppend` and `ParseLineSingle`. |
| UsedCoverages.ParseLineAppend | ckanext/publicamundi/analytics/controllers/parsers/hausedcoveragesparser.py:50-54 | The entries for a concatenated accessed list are the entries for each part, in order. So entries follow the order of the accessed list. |
| UsedCoverages.ParseLineSingle | ckanext/publicamundi/analytics/controllers/parsers/hausedcoveragesparser.py:51-53 | One accessed name gives exactly one entry (date, name, count 1) when its lower-case form occurs in the line, and none otherwise. |
| Strings.Split | ckanext/publicamundi/analytics/controllers/parsers/hausedcoveragesparser.py:28 | `str.split`: at least one piece. The pieces joined by the separator give the string back. No piece contains the separator. There are two or more pieces exactly when the separator occurs. |
| Strings.SplitJoin | ckanext/publicamundi/lib/metadata/schemata/thesaurus.py:74 | Splitting a one-character join gives the pieces back when none contains the character. |
| Strings.StripSlice | ckanext/publicamundi/analytics/controllers/parsers/hausedcoveragesparser.py:90 | `strip(' \t\n\r')` keeps one slice `s[i..j]`. Everything before `i` and from `j` on is a strip character, and the slice neither starts nor ends with one. |
| Strings.StripContained | ckanext/publicamundi/analytics/controllers/parsers/hausedcoveragesparser.py:90 | The stripped string is a substring of the original. |
| Strings.StripEmpty | ckanext/publicamundi/analytics/controllers/parsers/hausedcoveragesparser.py:90-91 | Stripping gives `""` exactly when every character is a strip character. |
| Strings.StripIdempotent | ckanext/publicamundi/analytics/controllers/parsers/hausedcoveragesparser.py:90 | Stripping twice is stripping once. |
| FooSchema.TagValid | ckanext/publicamundi/lib/metadata/schemata/foo.py:38-40 | A tag is valid exactly when it is a non-empty word over `[-a-z0-9]`. |
| FooSchema.TrailingNewlineTag | ckanext/publicamundi/lib/metadata/schemata/foo.py:38-40 | The tag constraint as written accepts `"ab\n"`. The corrected one rejects it. |
| FooSchema.DistinctCount | ckanext/publicamundi/lib/metadata/schemata/foo.py:123-124 | `len(set(tags)) <= len(tags)`, with strict `<` exactly when two positions hold the same tag. |
| FooSchema.CheckTagDuplicates | ckanext/publicamundi/lib/metadata/schemata/foo.py:121-125 | Fails exactly when some tag occurs twice, with the message "Tags contain duplicates". |
| FooSchema.CheckPublicationDate | ckanext/publicamundi/lib/metadata/schemata/foo.py:127-130 | Passes exactly when there is no publication date or it is not before the creation date. Otherwise it fails with the publication-date message. |
| FooSchema.Validate | ckanext/publicamundi/lib/metadata/schemata/foo.py:11-130 | A field is reported faulty exactly when its constraints fail. There are no problems exactly when the record conforms. With a faulty field, only fields are reported. Each invariant's error is reported exactly when all fields are valid and its condition holds. No other invariant error is ever reported. |
| FooSchema.FaultyIff | ckanext/publicamundi/lib/metadata/schemata/foo.py:15-119 | A field is reported faulty exactly when its declared constraints fail. |
| FooSchema.ShortBazFaulty | ckanext/publicamundi/lib/metadata/schemata/foo.py:29-33 | A record with `baz` "B" has `baz` reported faulty (`min_length = 5`). |
| FooSchema.BazConstraint | ckanext/publicamundi/lib/metadata/schemata/foo.py:29-33 | `baz` is fine exactly when it is unset, or is one line of at least 5 characters. |
| FooSchema.ThematicCategoryConstraint | ckanext/publicamundi/lib/metadata/schemata/foo.py:19-27 | `thematic_category` is fine exactly when it is set to one of the four categories. |
| FooSchema.TagsConstraint | ckanext/publicamundi/lib/metadata/schemata/foo.py:35-42 | `tags` is fine exactly when it is set with 1 to 5 tags, each a non-empty word over `[-a-z0-9]`. |
| FooSchema.GeometryConstraint | ckanext/publicamundi/lib/metadata/schemata/foo.py:51-60 | `geometry` is fine exactly when it is unset, or has at most 2 lists of at most 2 polygons each. |
| FooSchema.RatingConstraint | ckanext/publicamundi/lib/metadata/schemata/foo.py:103-107 | `rating` is fine exactly when it is set and in [-10, 10]. |
| FooSchema.PasswordConstraint | ckanext/publicamundi/lib/metadata/schemata/foo.py:115-119 | `password` is fine exactly when it is unset, or is one line of at least 6 characters. |
| FooSchema.DefaultsValid | ckanext/publicamundi/lib/metadata/schemata/foo.py:19-33 | The defaults "economy" and "bazinka" satisfy their fields' constraints. |
| FooSchema.PublishedOnCreation | ckanext/publicamundi/lib/metadata/schemata/foo.py:127-130 | Publishing on the creation date itself raises no publication-date error. |
| ThesaurusSchema.VersionValid | ckanext/publicamundi/lib/metadata/schemata/thesaurus.py:26-29 | A valid version consists of digits, lower-case letters and dots. It is valid exactly when the pattern as written accepts it and it has no line break. |
| ThesaurusSchema.VersionOfPieces | ckanext/publicamundi/lib/metadata/schemata/thesaurus.py:28 | Two numbers followed by labels, joined by dots, form a valid version, and splitting it on dots gives the pieces back. |
| ThesaurusSchema.TrailingNewlineVersion | ckanext/publicamundi/lib/metadata/schemata/thesaurus.py:28 | The version constraint as written accepts `"1.0\n"`. The corrected one rejects it. |
| ThesaurusSchema.FixtureVersionValid | ckanext/publicamundi/lib/metadata/schemata/thesaurus.py:28 | `"1.0"` is a valid version. |
| ThesaurusSchema.LoneNumberInvalid | ckanext/publicamundi/lib/metadata/schemata/thesaurus.py:28 | `"1"` is not a valid version. |
| ThesaurusSchema.TrailingDotInvalid | ckanext/publicamundi/lib/metadata/schemata/thesaurus.py:28 | `"1.0."` is not a valid version. |
| ThesaurusSchema.ValidateThesaurus | ckanext/publicamundi/lib/metadata/schemata/thesaurus.py:13-33 | A field is reported exactly when its constraints fail. Only fields are reported. There are no problems exactly when the thesaurus is valid. |
| ThesaurusSchema.RequiredFields | ckanext/publicamundi/lib/metadata/schemata/thesaurus.py:15-24 | A thesaurus that validates has name, title, reference date and vocabulary set, and its date type is in the date-types vocabulary. |
| ThesaurusSchema.Unexpected | ckanext/publicamundi/lib/metadata/schemata/thesaurus.py:65-71 | The terms outside the vocabulary: exactly those terms, each kept with all its repetitions, and no more entries than terms. Order is stated by `UnexpectedAppend` and `UnexpectedSingle`. |
| ThesaurusSchema.UnexpectedAppend | ckanext/publicamundi/lib/metadata/schemata/thesaurus.py:65-71 | The offending terms of a concatenation are those of each part, in order. So the listing keeps the order of the terms. |
| ThesaurusSchema.UnexpectedSingle | ckanext/publicamundi/lib/metadata/schemata/thesaurus.py:67-71 | One term is listed exactly when the vocabulary lacks it. |
| ThesaurusSchema.CheckTerms | ckanext/publicamundi/lib/metadata/schemata/thesaurus.py:63-75 | Fails exactly when some term is not in the vocabulary. The error carries the thesaurus title and the offending terms joined by `,`. |
| ThesaurusSchema.ListingRoundTrip | ckanext/publicamundi/lib/metadata/schemata/thesaurus.py:72-74 | When no term holds `,`, splitting the error's listing on `,` gives back exactly the offending terms. |
| ThesaurusSchema.ValidateTerms | ckanext/publicamundi/lib/metadata/schemata/thesaurus.py:46-75 | A field is reported exactly when it fails: the thesaurus must be set and valid, and there must be 1 to 8 terms. There are no problems exactly when the record conforms. The `check_terms` error is reported exactly when the fields are valid and some term is outside the vocabulary. With valid fields, the report is exactly what `CheckTerms` gives for the thesaurus title, its vocabulary and the terms. |

## Left out

- FooSchema.Validate: tags are checked with the corrected rule `TagValid`, not the rule as written (see "Findings"). So a record whose tag ends in one `\n`, which the source accepts, is reported faulty here.
- FooSchema.TagsConstraint: states the corrected tag rule. The rule as written also accepts a tag ending in one `\n` (`FooSchema.TagValidAsWritten`).
- ThesaurusSchema.ValidateThesaurus: the version is checked with the corrected rule `VersionValid`. So a version ending in one `\n`, such as `"1.0\n"`, which the source accepts, is reported faulty here.
- ThesaurusSchema.ValidateTerms: the nested thesaurus is validated with the corrected version rule. So a version ending in one `\n` makes `OfThesaurus` faulty here, where the source accepts it.
- The zope machinery is not modelled: the adapter registry's internals, interface inheritance in adapter lookup, `implementedBy`/`verifyObject` assertions and `IField`/`IObject` checks. Lookup is an exact-key map.
- `build_adaptee` and `check_multiadapter_ifaces` (`lib/metadata/fields`) are not part of this model. The adaptee vector is a parameter.
- The `IQualAction` field validation run by the `QualAction` constructor is not part of this model. `QualActions.WellFormed` states the expected shape separately, and lemmas show which operations preserve it.
- The `errors` argument attached to a found widget, logging, `markup_for_*` rendering and the `__str__` message of `WidgetNotFound` are left out. They are presentation only.
- The `HAParser` base class (`validate_line`, `parse_date`, `merge_info_list`) is not part of this model, so the merge and sort at the end of `parse` are left out. `parse_line` takes the date as a parameter.
- `UsedCoverages.ParseAccessedCoverages`: the source returns `list(set)`, whose order is unspecified. The model keeps first-occurrence order, and its contract states only membership and distinctness.
- `Strings.Lower` lower-cases ASCII only, as Python 2 `str.lower` does on byte strings. Unicode case mapping is left out.
- FooSchema.Validate: zope's `validate` method of `IObject`/`Object`, which runs the field checks and then the invariants, is not part of this model. The order "fields first, invariants only when every field is valid" follows zope's `getValidationErrors` convention and is assumed.
- ThesaurusSchema.ValidateTerms: the same assumed order, fields first and then `check_terms`.
- The `grade` field of `IFooMetadata` is a float and is left out.
- `url` is checked only for presence. The URI syntax check of `zope.schema.URI` is left out.
- Nested object fields (`temporal_extent`, `contact_info`, contact values, polygons) are only checked for presence where required. Their own schemata are not part of this model.
- `check_vocabulary` of `IThesaurus` (an `IVocabularyTokenized` interface check) is left out. The vocabulary is a set of term values.
- `ThesaurusSchema.CheckTerms`: the source formats the title with `%r`. The model carries the title itself in the error, not its `repr`.
- `iter_terms`, `package_translation.py` and the raster storer plugin are outside the modelled core.

## Findings

| source | as written | input that shows it | evidently intended | confidence | as-written member | corrected member |
|---|---|---|---|---|---|---|
| ckanext/publicamundi/lib/metadata/widgets/__init__.py:53 | `re.match('[a-z][_a-z0-9]+$', child_qualifier)`; `$` also matches before a final line break | `make_child("ab\n")` is accepted, and the qualifier `ab\n` is not a dotted name | the segment fully matches `[a-z][_a-z0-9]+` | low, not executed (the `IQualAction` qualifier validation, which is not part of this model, may reject the result) | QualActions.MakeChildAsWritten, QualActions.TrailingNewlineSegment | QualActions.MakeChild |
| ckanext/publicamundi/lib/metadata/schemata/foo.py:40 | `constraint = re.compile('[-a-z0-9]+$').match` replaces the `TextLine` no-newline rule, and `$` matches before a final line break | tag `"ab\n"` passes | a tag is a non-empty word over `[-a-z0-9]` | medium, not executed | FooSchema.TagValidAsWritten, FooSchema.TrailingNewlineTag | FooSchema.TagValid |
| ckanext/publicamundi/lib/metadata/schemata/thesaurus.py:28 | `'^\d+\.\d+(\.[a-z0-9]+)*$'` on a `NativeString`; `$` matches before a final line break | version `"1.0\n"` passes | the version is exactly `\d+\.\d+(\.[a-z0-9]+)*` | medium, not executed | ThesaurusSchema.VersionValidAsWritten, ThesaurusSchema.TrailingNewlineVersion | ThesaurusSchema.VersionValid |
