/** Widget registration and lookup: widgets are registered under exact keys
    (required interface vector, provided widget role, action name), and
    looked up by a two-dimensional fallback over qualifier candidates and
    shortenings of the adaptee vector. */
module Widgets {
  import opened Wrappers
  import opened QualActions

  /** The widget interface an adapter provides. */
  datatype Role = FieldWidget | ObjectWidget

  /** An exact registry key: the required interface vector, the provided
      role and the registration name. */
  datatype RegKey<I> = RegKey(required: seq<I>, role: Role, name: string)

  /** The adapter registry, answering only exact keys. */
  type Registry<I(==), W> = map<RegKey<I>, W>

  /** What a found widget learns about its lookup. */
  datatype LookupContext = LookupContext(requested: QualAction, provided: QualAction)

  /** The qualified action argument: a `QualAction` or its string form. */
  datatype ActionArg = ActionValue(qa: QualAction) | ActionText(text: string)

  /** A found widget with its context and the adaptee vector it matched. */
  datatype Found<I, W> = Found(widget: W, context: LookupContext, adaptee: seq<I>)

  /** The lookup failure, carrying the argument as given and the subject. */
  datatype WidgetNotFound<S> = WidgetNotFound(qualifiedAction: ActionArg, subject: S)

  /** The requested action: a string argument is parsed with `from_string`. */
  function Resolve(arg: ActionArg): QualAction {
    match arg
    case ActionValue(q) => q
    case ActionText(t) => FromString(t)
  }

  // Registration

  /** The names a widget class is registered under: the bare action when it
      is a fallback or declares no qualifiers, and `action:qualifier` for
      every declared qualifier. */
  function RegistrationNames(action: string, qualifiers: seq<string>, isFallback: bool): (names: set<string>)
    ensures (isFallback || |qualifiers| == 0) ==> action in names
    ensures forall q :: q in qualifiers && q != "" ==> action + ":" + q in names
    ensures forall n :: n in names ==> n == action || exists q :: q in qualifiers && q != "" && n == action + ":" + q
    ensures (forall q :: q in qualifiers ==> q != "") ==> (action in names <==> isFallback || |qualifiers| == 0)
  {
    var qualified := set q | q in qualifiers :: ToString(QualAction(action, Some(q)));
    assert forall q :: q in qualifiers && q != "" ==> |ToString(QualAction(action, Some(q)))| > |action|;
    (if isFallback || |qualifiers| == 0 then {action} else {}) + qualified
  }

  /** Registers `widget` under every registration name, with no duplicate
      check: a key registered before is overwritten, every other key kept. */
  function RegisterWidget<I(==,!new), W>(reg: Registry<I, W>, required: seq<I>, role: Role,
                                    action: string, qualifiers: seq<string>, isFallback: bool,
                                    widget: W): (r: Registry<I, W>)
    ensures forall k :: k in r <==>
      k in reg || (k.required == required && k.role == role && k.name in RegistrationNames(action, qualifiers, isFallback))
    ensures forall k :: k in r ==>
      r[k] == if k.required == required && k.role == role && k.name in RegistrationNames(action, qualifiers, isFallback)
              then widget else reg[k]
  {
    var names := RegistrationNames(action, qualifiers, isFallback);
    reg + map n | n in names :: RegKey(required, role, n) := widget
  }

  // Lookup

  /** The registry answers `vec` under the canonical name of `c`. */
  predicate Hit<I(==), W>(reg: Registry<I, W>, vec: seq<I>, role: Role, c: QualAction) {
    RegKey(vec, role, ToString(c)) in reg
  }

  /** The widget registered for `vec` under the canonical name of `c`. */
  function Lookup<I(==), W>(reg: Registry<I, W>, vec: seq<I>, role: Role, c: QualAction): W
    requires Hit(reg, vec, role, c)
  {
    reg[RegKey(vec, role, ToString(c))]
  }

  /** `cands[k]` is the first candidate the registry answers for `vec`. */
  predicate FirstHitAt<I(==), W>(reg: Registry<I, W>, vec: seq<I>, role: Role, cands: seq<QualAction>, k: int) {
    && 0 <= k < |cands|
    && Hit(reg, vec, role, cands[k])
    && forall j :: 0 <= j < k ==> !Hit(reg, vec, role, cands[j])
  }

  /** The inner loop: the first candidate from `from` on that the registry
      answers for `vec`. */
  function FirstCandidate<I(==), W>(reg: Registry<I, W>, vec: seq<I>, role: Role,
                                    cands: seq<QualAction>, from: nat): (r: Option<nat>)
    requires from <= |cands|
    ensures r.Some? ==> from <= r.value < |cands| && Hit(reg, vec, role, cands[r.value])
    ensures r.Some? ==> forall j :: from <= j < r.value ==> !Hit(reg, vec, role, cands[j])
    ensures r.None? <==> forall j :: from <= j < |cands| ==> !Hit(reg, vec, role, cands[j])
    decreases |cands| - from
  {
    if from == |cands| then None
    else if Hit(reg, vec, role, cands[from]) then Some(from)
    else FirstCandidate(reg, vec, role, cands, from + 1)
  }

  /** `widget_for_object`: the widget for the first candidate of the request
      that the registry answers for the object's interface. */
  function WidgetForObject<I(==), W, S>(reg: Registry<I, W>, arg: ActionArg, obj: S, iface: I)
    : (r: Result<Found<I, W>, WidgetNotFound<S>>)
    ensures var cs := Candidates(Resolve(arg));
      r.Failure? <==> forall k :: 0 <= k < |cs| ==> !Hit(reg, [iface], ObjectWidget, cs[k])
    ensures r.Failure? ==> r.error == WidgetNotFound(arg, obj)
    ensures r.Success? ==> r.value.context.requested == Resolve(arg) && r.value.adaptee == [iface]
    ensures r.Success? ==> var cs := Candidates(Resolve(arg));
      exists k :: FirstHitAt(reg, [iface], ObjectWidget, cs, k)
        && r.value.context.provided == cs[k]
        && r.value.widget == Lookup(reg, [iface], ObjectWidget, cs[k])
  {
    var q := Resolve(arg);
    var cs := Candidates(q);
    match FirstCandidate(reg, [iface], ObjectWidget, cs, 0)
    case None => Failure(WidgetNotFound(arg, obj))
    case Some(k) =>
      assert FirstHitAt(reg, [iface], ObjectWidget, cs, k);
      Success(Found(Lookup(reg, [iface], ObjectWidget, cs[k]), LookupContext(q, cs[k]), [iface]))
  }

  /** The order of `widget_for_field`: the pair (vector length `m`,
      candidate `k`) is tried before (`m2`, `k2`). */
  predicate TriedBefore(m: int, k: int, m2: int, k2: int) {
    m > m2 || (m == m2 && k < k2)
  }

  /** The nested search over vector lengths `n` down to 1 (outer) and
      candidates (inner); yields the first (length, candidate) pair hit. */
  function SearchField<I(==), W>(reg: Registry<I, W>, vec: seq<I>, cands: seq<QualAction>, n: nat)
    : (r: Option<(nat, nat)>)
    requires n <= |vec|
    ensures r.Some? ==> 1 <= r.value.0 <= n && r.value.1 < |cands|
    ensures r.Some? ==> Hit(reg, vec[..r.value.0], FieldWidget, cands[r.value.1])
    ensures r.Some? ==> forall m, k ::
      (1 <= m <= n && 0 <= k < |cands| && TriedBefore(m, k, r.value.0, r.value.1)) ==> !Hit(reg, vec[..m], FieldWidget, cands[k])
    ensures r.None? <==> forall m, k :: 1 <= m <= n && 0 <= k < |cands| ==> !Hit(reg, vec[..m], FieldWidget, cands[k])
    decreases n
  {
    if n == 0 then None
    else match FirstCandidate(reg, vec[..n], FieldWidget, cands, 0)
      case Some(k) => Some((n, k))
      case None => SearchField(reg, vec, cands, n - 1)
  }

  /** `vec[..m]` under `cands[k]` is the first pair of the field search that hits. */
  predicate FieldFirstHit<I(==), W>(reg: Registry<I, W>, vec: seq<I>, cands: seq<QualAction>, m: int, k: int) {
    && 1 <= m <= |vec|
    && 0 <= k < |cands|
    && Hit(reg, vec[..m], FieldWidget, cands[k])
    && forall m2, k2 ::
         (1 <= m2 <= |vec| && 0 <= k2 < |cands| && TriedBefore(m2, k2, m, k)) ==> !Hit(reg, vec[..m2], FieldWidget, cands[k2])
  }

  /** `widget_for_field`: every candidate against the whole adaptee vector,
      then against the vector without its last element, and so on down to
      its head alone; the first pair the registry answers wins. */
  function WidgetForField<I(==), W, S>(reg: Registry<I, W>, arg: ActionArg, field: S, adaptee: seq<I>)
    : (r: Result<Found<I, W>, WidgetNotFound<S>>)
    ensures var cs := Candidates(Resolve(arg));
      r.Failure? <==> forall m, k :: 1 <= m <= |adaptee| && 0 <= k < |cs| ==> !Hit(reg, adaptee[..m], FieldWidget, cs[k])
    ensures r.Failure? ==> r.error == WidgetNotFound(arg, field)
    ensures r.Success? ==> r.value.context.requested == Resolve(arg)
    ensures r.Success? ==> 1 <= |r.value.adaptee| <= |adaptee| && r.value.adaptee == adaptee[..|r.value.adaptee|]
    ensures r.Success? ==> var cs := Candidates(Resolve(arg));
      exists k :: FieldFirstHit(reg, adaptee, cs, |r.value.adaptee|, k)
        && r.value.context.provided == cs[k]
        && r.value.widget == Lookup(reg, r.value.adaptee, FieldWidget, cs[k])
  {
    var q := Resolve(arg);
    var cs := Candidates(q);
    match SearchField(reg, adaptee, cs, |adaptee|)
    case None => Failure(WidgetNotFound(arg, field))
    case Some((m, k)) =>
      assert FieldFirstHit(reg, adaptee, cs, m, k);
      Success(Found(Lookup(reg, adaptee[..m], FieldWidget, cs[k]), LookupContext(q, cs[k]), adaptee[..m]))
  }

  /** The source's `for candidate in candidates` loop: the index of the
      first candidate whose key is registered, if any. */
  method ScanCandidates<I(==), W>(reg: Registry<I, W>, vec: seq<I>, role: Role, cands: seq<QualAction>)
    returns (hit: Option<nat>)
    ensures hit == FirstCandidate(reg, vec, role, cands, 0)
  {
    var i := 0;
    while i < |cands|
      invariant 0 <= i <= |cands|
      invariant FirstCandidate(reg, vec, role, cands, 0) == FirstCandidate(reg, vec, role, cands, i)
    {
      if RegKey(vec, role, ToString(cands[i])) in reg {
        return Some(i);
      }
      i := i + 1;
    }
    return None;
  }

  /** The source's `while len(adaptee)` loop around the candidate loop,
      from the pass over the adaptee's first `n` elements on: the length of
      the vector prefix and the candidate the search stops at. The source
      pops the vector's last element after each pass; here each pass
      recurses with `n - 1`. */
  method ScanVectors<I(==), W>(reg: Registry<I, W>, adaptee: seq<I>, cands: seq<QualAction>, n: nat)
    returns (found: Option<(nat, nat)>)
    requires n <= |adaptee|
    ensures found == SearchField(reg, adaptee, cands, n)
    decreases n
  {
    if n == 0 {
      return None;
    }
    var hit := ScanCandidates(reg, adaptee[..n], FieldWidget, cands);
    if hit.Some? {
      return Some((n, hit.value));
    }
    found := ScanVectors(reg, adaptee, cands, n - 1);
  }

  /** `widget_for_field`: the registration the two loops stop at, or
      `WidgetNotFound` when they run out. */
  method FindFieldWidget<I(==), W, S>(reg: Registry<I, W>, arg: ActionArg, field: S, adaptee: seq<I>)
    returns (r: Result<Found<I, W>, WidgetNotFound<S>>)
    ensures r == WidgetForField(reg, arg, field, adaptee)
  {
    var q := Resolve(arg);
    var candidates := Candidates(q);
    var found := ScanVectors(reg, adaptee, candidates, |adaptee|);
    if found.None? {
      return Failure(WidgetNotFound(arg, field));
    }
    var (n, k) := found.value;
    return Success(Found(reg[RegKey(adaptee[..n], FieldWidget, ToString(candidates[k]))], LookupContext(q, candidates[k]), adaptee[..n]));
  }

  // Properties of the search order

  /** A registration for the whole vector under any candidate beats every
      shortened vector, whatever qualifier those are registered under; among
      whole-vector registrations the most specific candidate wins. */
  lemma WholeVectorFirst<I, W, S>(reg: Registry<I, W>, arg: ActionArg, field: S, adaptee: seq<I>, k: nat)
    requires |adaptee| >= 1
    requires k < |Candidates(Resolve(arg))|
    requires Hit(reg, adaptee, FieldWidget, Candidates(Resolve(arg))[k])
    ensures WidgetForField(reg, arg, field, adaptee).Success?
    ensures WidgetForField(reg, arg, field, adaptee).value.adaptee == adaptee
    ensures exists j :: 0 <= j <= k && WidgetForField(reg, arg, field, adaptee).value.context.provided == Candidates(Resolve(arg))[j]
  {
    var cs := Candidates(Resolve(arg));
    var r := WidgetForField(reg, arg, field, adaptee);
    assert adaptee[..|adaptee|] == adaptee;
    var j :| FieldFirstHit(reg, adaptee, cs, |r.value.adaptee|, j)
      && r.value.context.provided == cs[j];
    if |r.value.adaptee| < |adaptee| {
      assert TriedBefore(|adaptee|, k, |r.value.adaptee|, j);
      assert false;
    }
    assert r.value.adaptee == adaptee[..|adaptee|];
  }

  /** In particular a registration for the whole vector under the bare
      action beats a registration for a shortened vector under the exact
      qualifier requested. */
  lemma BareWholeVectorBeatsQualifiedShorter<I, W, S>(reg: Registry<I, W>, arg: ActionArg, field: S, adaptee: seq<I>)
    requires |adaptee| >= 2
    requires Hit(reg, adaptee, FieldWidget, Bare(Resolve(arg)))
    requires Hit(reg, adaptee[..1], FieldWidget, Resolve(arg))
    ensures WidgetForField(reg, arg, field, adaptee).Success?
    ensures WidgetForField(reg, arg, field, adaptee).value.adaptee == adaptee
  {
    var cs := Candidates(Resolve(arg));
    WholeVectorFirst(reg, arg, field, adaptee, |cs| - 1);
  }

  /** A shorter vector is only tried when no candidate hits a longer one. */
  lemma ShortenedOnlyOnMiss<I, W, S>(reg: Registry<I, W>, arg: ActionArg, field: S, adaptee: seq<I>, m: nat, k: nat)
    requires 1 <= m <= |adaptee|
    requires k < |Candidates(Resolve(arg))|
    requires Hit(reg, adaptee[..m], FieldWidget, Candidates(Resolve(arg))[k])
    ensures WidgetForField(reg, arg, field, adaptee).Success?
    ensures |WidgetForField(reg, arg, field, adaptee).value.adaptee| >= m
  {
    var cs := Candidates(Resolve(arg));
    var r := WidgetForField(reg, arg, field, adaptee);
    var j :| FieldFirstHit(reg, adaptee, cs, |r.value.adaptee|, j);
    assert !TriedBefore(m, k, |r.value.adaptee|, j);
  }

  /** An empty adaptee vector finds nothing. */
  lemma EmptyAdapteeNotFound<I, W, S>(reg: Registry<I, W>, arg: ActionArg, field: S)
    ensures WidgetForField(reg, arg, field, []) == Failure(WidgetNotFound(arg, field))
  {
  }

  /** When the only registration that could match is the bare action, a
      well-formed qualified request falls all the way back to it. */
  lemma FallsBackToBare<I, W, S>(reg: Registry<I, W>, q: QualAction, field: S, adaptee: seq<I>, w: W)
    requires WellFormed(q)
    requires |adaptee| >= 1
    requires reg == map[RegKey(adaptee[..1], FieldWidget, q.action) := w]
    ensures WidgetForField(reg, ActionValue(q), field, adaptee)
      == Success(Found(w, LookupContext(q, Bare(q)), adaptee[..1]))
  {
    var cs := Candidates(q);
    var r := WidgetForField(reg, ActionValue(q), field, adaptee);
    assert Hit(reg, adaptee[..1], FieldWidget, cs[|cs| - 1]);
    ShortenedOnlyOnMiss(reg, ActionValue(q), field, adaptee, 1, |cs| - 1);
    var j :| FieldFirstHit(reg, adaptee, cs, |r.value.adaptee|, j)
      && r.value.context.provided == cs[j];
    CandidateNames(q);
    assert ToString(cs[j]) == q.action;
  }

  /** A widget registered for an object interface under a qualifier is found
      for exactly that qualified action, with no fallback. */
  lemma RegisteredQualifierFound<I(!new), W, S>(reg: Registry<I, W>, iface: I, q: QualAction,
                                              qualifiers: seq<string>, isFallback: bool, w: W, obj: S)
    requires HasQualifier(q)
    requires q.qualifier.value in qualifiers
    ensures var r := RegisterWidget(reg, [iface], ObjectWidget, q.action, qualifiers, isFallback, w);
      WidgetForObject(r, ActionValue(q), obj, iface) == Success(Found(w, LookupContext(q, q), [iface]))
  {
    var r := RegisterWidget(reg, [iface], ObjectWidget, q.action, qualifiers, isFallback, w);
    var cs := Candidates(q);
    assert Hit(r, [iface], ObjectWidget, cs[0]);
    var res := WidgetForObject(r, ActionValue(q), obj, iface);
    var k :| FirstHitAt(r, [iface], ObjectWidget, cs, k) && res.value.context.provided == cs[k];
    assert k == 0;
  }

  /** A fallback widget answers every request for its action, however qualified. */
  lemma FallbackAlwaysFound<I(!new), W, S>(reg: Registry<I, W>, iface: I, q: QualAction,
                                         qualifiers: seq<string>, w: W, obj: S)
    ensures var r := RegisterWidget(reg, [iface], ObjectWidget, q.action, qualifiers, true, w);
      WidgetForObject(r, ActionValue(q), obj, iface).Success?
  {
    var r := RegisterWidget(reg, [iface], ObjectWidget, q.action, qualifiers, true, w);
    var cs := Candidates(q);
    assert Hit(r, [iface], ObjectWidget, cs[|cs| - 1]);
  }

  /** A lookup in an empty registry always fails, carrying the argument and subject. */
  lemma EmptyRegistryNotFound<I, W, S>(reg: Registry<I, W>, arg: ActionArg, obj: S, iface: I, adaptee: seq<I>)
    requires |reg| == 0
    ensures WidgetForObject(reg, arg, obj, iface) == Failure(WidgetNotFound(arg, obj))
    ensures WidgetForField(reg, arg, obj, adaptee) == Failure(WidgetNotFound(arg, obj))
  {
  }
}
