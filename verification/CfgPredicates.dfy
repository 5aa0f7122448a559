/**
 Conditional-compilation predicates of the Rust adapter: the evaluator and the static analyses that must agree with
 it (crates/adapter-rust/src/scope.rs, crates/adapter-rust/src/complexity.rs).
 */
module CfgPredicates {
  import opened Wrappers

  /**
   A parsed attribute meta. `None` marks a path that is not one identifier and a value that is not a string
   literal; `parses` says whether the arguments are a comma-separated list of metas, `trailing` whether that list
   ends in a comma.
   */
  datatype Meta =
    | Path(ident: Option<string>)
    | NameValue(key: Option<string>, literal: Option<string>)
    | List(ident: Option<string>, parses: bool, items: seq<Meta>, trailing: bool)

  datatype SingleContext = SingleContext(
    names: set<string>, values: map<string, set<string>>, features: set<string>, includeTests: bool)

  // ----- evaluation -----

  predicate Eval(c: SingleContext, m: Meta) {
    match m
    case Path(ident) => if ident == Some("test") then c.includeTests else ident.Some? && ident.value in c.names
    case NameValue(key, literal) =>
      && key.Some? && literal.Some?
      && (if key.value == "feature" then literal.value in c.features
          else key.value in c.values && literal.value in c.values[key.value])
    case List(ident, parses, items, _) =>
      && parses
      && (if ident == Some("all") then forall i | 0 <= i < |items| :: Eval(c, items[i])
          else if ident == Some("any") then exists i | 0 <= i < |items| :: Eval(c, items[i])
          else ident == Some("not") && |items| == 1 && !Eval(c, items[0]))
  }

  // ----- predicates that require a test build -----

  predicate MetaRequiresTest(m: Meta) {
    match m
    case Path(ident) => ident == Some("test")
    case NameValue(_, _) => false
    case List(ident, parses, items, _) =>
      && parses
      && (if ident == Some("all") then exists i | 0 <= i < |items| :: MetaRequiresTest(items[i])
          else ident == Some("any") && items != []
               && forall i | 0 <= i < |items| :: MetaRequiresTest(items[i]))
  }

  /** A predicate found to require a test build is false in every other build. */
  lemma {:induction false} RequiresTestSound(c: SingleContext, m: Meta)
    requires MetaRequiresTest(m) && !c.includeTests
    ensures !Eval(c, m)
  {
    if m.List? {
      if m.ident == Some("all") {
        var i :| 0 <= i < |m.items| && MetaRequiresTest(m.items[i]);
        RequiresTestSound(c, m.items[i]);
      } else {
        forall i | 0 <= i < |m.items|
          ensures !Eval(c, m.items[i])
        {
          RequiresTestSound(c, m.items[i]);
        }
      }
    }
  }

  /** Whether the predicate is false in every build that is not a test build: what the analysis is after. */
  ghost predicate FalseOutsideTests(m: Meta) {
    forall c: SingleContext :: !c.includeTests ==> !Eval(c, m)
  }

  // ----- atoms: what a context decides independently -----

  datatype Atom = Name(name: string) | Feature(name: string) | Value(key: string, name: string)

  ghost predicate Holds(c: SingleContext, a: Atom) {
    match a
    case Name(name) => name in c.names
    case Feature(name) => name in c.features
    case Value(key, name) => key in c.values && name in c.values[key]
  }

  /**
   The atoms that evaluation consults under an even number of negations, or an odd number if not `positive`.
   `test` is no atom, and malformed or unknown lists consult nothing.
   */
  ghost function Atoms(m: Meta, positive: bool): set<Atom> {
    match m
    case Path(ident) => if positive && ident.Some? && ident.value != "test" then {Name(ident.value)} else {}
    case NameValue(key, literal) =>
      if !positive || key.None? || literal.None? then {}
      else if key.value == "feature" then {Feature(literal.value)}
      else {Value(key.value, literal.value)}
    case List(ident, parses, items, _) =>
      if !parses then {}
      else if ident == Some("all") || ident == Some("any") then AtomsOfAll(items, positive)
      else if ident == Some("not") && |items| == 1 then Atoms(items[0], !positive)
      else {}
  }

  ghost function AtomsOfAll(items: seq<Meta>, positive: bool): set<Atom> {
    if items == [] then {} else Atoms(items[0], positive) + AtomsOfAll(items[1..], positive)
  }

  lemma {:induction false} AtomsOfItem(items: seq<Meta>, positive: bool, i: nat)
    requires i < |items|
    ensures Atoms(items[i], positive) <= AtomsOfAll(items, positive)
  {
    if i > 0 {
      AtomsOfItem(items[1..], positive, i - 1);
    }
  }

  /** Contexts that agree on the test flag and on the atoms give the predicate the same value. */
  lemma {:induction false} SameAtoms(a: SingleContext, b: SingleContext, m: Meta)
    requires a.includeTests == b.includeTests
    requires forall x :: x in Atoms(m, true) + Atoms(m, false) ==> (Holds(a, x) <==> Holds(b, x))
    ensures Eval(a, m) == Eval(b, m)
  {
    match m
    case Path(ident) =>
      if ident.Some? && ident.value != "test" {
        assert Name(ident.value) in Atoms(m, true) + Atoms(m, false);
      }
    case NameValue(key, literal) =>
      if key.Some? && literal.Some? {
        var x := if key.value == "feature" then Feature(literal.value) else Value(key.value, literal.value);
        assert Atoms(m, true) == {x};
        assert x in Atoms(m, true) + Atoms(m, false);
      }
    case List(ident, parses, items, _) =>
      if parses && (ident == Some("all") || ident == Some("any")) {
        forall i: nat | i < |items|
          ensures Eval(a, items[i]) == Eval(b, items[i])
        {
          AtomsOfItem(items, true, i);
          AtomsOfItem(items, false, i);
          SameAtoms(a, b, items[i]);
        }
      } else if parses && ident == Some("not") && |items| == 1 {
        SameAtoms(a, b, items[0]);
      }
  }

  ghost function KeysOf(atoms: set<Atom>): set<string> {
    set a | a in atoms && a.Value? :: a.key
  }

  ghost function ValuesOf(atoms: set<Atom>, key: string): set<string> {
    set a | a in atoms && a.Value? && a.key == key :: a.name
  }

  /** The non-test context in which exactly the given atoms hold. */
  ghost function ContextOf(atoms: set<Atom>): SingleContext {
    SingleContext(
      set a | a in atoms && a.Name? :: a.name,
      map key | key in KeysOf(atoms) :: ValuesOf(atoms, key),
      set a | a in atoms && a.Feature? :: a.name,
      false)
  }

  lemma ContextHolds(atoms: set<Atom>, a: Atom)
    ensures Holds(ContextOf(atoms), a) <==> a in atoms
  {
    match a
    case Name(name) =>
      assert name in ContextOf(atoms).names <==> a in atoms;
    case Feature(name) =>
      assert name in ContextOf(atoms).features <==> a in atoms;
    case Value(key, name) =>
      assert a in atoms ==> key in ContextOf(atoms).values;
      assert key in ContextOf(atoms).values ==> (name in ContextOf(atoms).values[key] <==> a in atoms);
  }

  /** Some choice of the atoms that occur makes the predicate true: a finite test. */
  ghost predicate SomeChoice(m: Meta) {
    exists atoms :: atoms <= Atoms(m, true) + Atoms(m, false) && Eval(ContextOf(atoms), m)
  }

  lemma ChoiceDecides(m: Meta)
    ensures FalseOutsideTests(m) <==> !SomeChoice(m)
  {
    var all := Atoms(m, true) + Atoms(m, false);
    forall c: SingleContext | !c.includeTests && Eval(c, m)
      ensures SomeChoice(m)
    {
      var chosen := set a | a in all && Holds(c, a);
      forall a | a in all
        ensures Holds(ContextOf(chosen), a) <==> Holds(c, a)
      {
        ContextHolds(chosen, a);
      }
      SameAtoms(ContextOf(chosen), c, m);
    }
  }

  /** For every predicate: the analysis is right exactly when it finds the predicate or some choice of atoms satisfies it. */
  lemma RequiresTestRightByChoice(m: Meta)
    ensures (MetaRequiresTest(m) <==> FalseOutsideTests(m)) <==> MetaRequiresTest(m) || SomeChoice(m)
  {
    FoundIsFalse(m);
    ChoiceDecides(m);
  }

  lemma FoundIsFalse(m: Meta)
    ensures MetaRequiresTest(m) ==> FalseOutsideTests(m)
  {
    forall c: SingleContext | MetaRequiresTest(m) && !c.includeTests
      ensures !Eval(c, m)
    {
      RequiresTestSound(c, m);
    }
  }

  // ----- the same without trying choices -----

  /** Whether the form of the predicate lets it take the value in a non-test build, each atom taken alone. */
  predicate Can(m: Meta, want: bool) {
    match m
    case Path(ident) => (ident.Some? && ident.value != "test") || !want
    case NameValue(key, literal) => (key.Some? && literal.Some?) || !want
    case List(ident, parses, items, _) =>
      if !parses then
        !want
      else if ident == Some(if want then "all" else "any") then
        forall i | 0 <= i < |items| :: Can(items[i], want)
      else if ident == Some(if want then "any" else "all") then
        exists i | 0 <= i < |items| :: Can(items[i], want)
      else if ident == Some("not") && |items| == 1 then
        Can(items[0], !want)
      else
        !want
  }

  lemma {:induction false} TakenCan(c: SingleContext, m: Meta)
    requires !c.includeTests
    ensures Can(m, Eval(c, m))
  {
    if m.List? {
      forall i | 0 <= i < |m.items|
        ensures Can(m.items[i], Eval(c, m.items[i]))
      {
        TakenCan(c, m.items[i]);
      }
    }
  }

  /** No atom occurs both under an even and under an odd number of negations. */
  ghost predicate Unmixed(m: Meta) {
    Atoms(m, true) !! Atoms(m, false)
  }

  /** A context that sets every atom in favour of the value reaches it if the form allows it. */
  lemma {:induction false} FavouredTakes(c: SingleContext, m: Meta, want: bool)
    requires !c.includeTests && Can(m, want)
    requires forall a :: a in Atoms(m, true) ==> (Holds(c, a) <==> want)
    requires forall a :: a in Atoms(m, false) ==> (Holds(c, a) <==> !want)
    ensures Eval(c, m) == want
  {
    match m
    case Path(ident) =>
      if ident.Some? && ident.value != "test" {
        assert Name(ident.value) in Atoms(m, true);
      }
    case NameValue(key, literal) =>
      if key.Some? && literal.Some? {
        assert (if key.value == "feature" then Feature(literal.value) else Value(key.value, literal.value)) in Atoms(m, true);
      }
    case List(ident, parses, items, _) =>
      if parses && (ident == Some("all") || ident == Some("any")) {
        forall i: nat | i < |items| && Can(items[i], want)
          ensures Eval(c, items[i]) == want
        {
          AtomsOfItem(items, true, i);
          AtomsOfItem(items, false, i);
          FavouredTakes(c, items[i], want);
        }
      } else if parses && ident == Some("not") && |items| == 1 {
        FavouredTakes(c, items[0], !want);
      }
  }

  /** On unmixed predicates the form alone decides. */
  lemma CanDecides(m: Meta)
    ensures !Can(m, true) ==> FalseOutsideTests(m)
    ensures Unmixed(m) ==> (FalseOutsideTests(m) <==> !Can(m, true))
  {
    forall c: SingleContext | !c.includeTests && !Can(m, true)
      ensures !Eval(c, m)
    {
      TakenCan(c, m);
    }
    if Unmixed(m) && Can(m, true) {
      var c := ContextOf(Atoms(m, true));
      forall a | a in Atoms(m, true) + Atoms(m, false)
        ensures Holds(c, a) <==> a in Atoms(m, true)
      {
        ContextHolds(Atoms(m, true), a);
      }
      FavouredTakes(c, m, true);
    }
  }

  /**
   Exactly when the analysis is right: the predicate is found, or its form lets it be true outside tests. The form is
   enough when no atom occurs both negated and not negated; a predicate neither found nor so formed is always missed.
   */
  lemma RequiresTestExact(m: Meta)
    ensures (MetaRequiresTest(m) <==> FalseOutsideTests(m)) ==> MetaRequiresTest(m) || Can(m, true)
    ensures Unmixed(m) ==>
      ((MetaRequiresTest(m) <==> FalseOutsideTests(m)) <==> MetaRequiresTest(m) || Can(m, true))
  {
    FoundIsFalse(m);
    CanDecides(m);
  }

  /** Negation-free and well formed: identifiers, string literals, `all` and nonempty `any`. */
  predicate Positive(m: Meta) {
    match m
    case Path(ident) => ident.Some?
    case NameValue(key, literal) => key.Some? && literal.Some?
    case List(ident, parses, items, _) =>
      && parses
      && (ident == Some("all") || (ident == Some("any") && items != []))
      && forall i | 0 <= i < |items| :: Positive(items[i])
  }

  lemma {:induction false} PositiveForm(m: Meta)
    requires Positive(m)
    ensures Atoms(m, false) == {} && (Can(m, true) <==> !MetaRequiresTest(m))
    decreases m, 0
  {
    if m.List? {
      PositiveForms(m.items);
    }
  }

  lemma {:induction false} PositiveForms(items: seq<Meta>)
    requires forall i :: 0 <= i < |items| ==> Positive(items[i])
    ensures AtomsOfAll(items, false) == {}
    ensures forall i :: 0 <= i < |items| ==> (Can(items[i], true) <==> !MetaRequiresTest(items[i]))
    decreases items, 1
  {
    if items != [] {
      PositiveForm(items[0]);
      PositiveForms(items[1..]);
      assert forall i :: 0 < i < |items| ==> items[i] == items[1..][i - 1];
    }
  }

  /** So on negation-free predicates the analysis misses nothing. */
  lemma RequiresTestExactPositive(m: Meta)
    requires Positive(m)
    ensures MetaRequiresTest(m) <==> FalseOutsideTests(m)
  {
    PositiveForm(m);
    RequiresTestExact(m);
  }

  /** Under a negation it does: `not(not(test))` requires a test build and is not found. */
  lemma RequiresTestMissesNegation()
    ensures var test := Path(Some("test"));
            var m := List(Some("not"), true, [List(Some("not"), true, [test], false)], false);
            !MetaRequiresTest(m) && forall c: SingleContext :: Eval(c, m) == c.includeTests
  {
    var test := Path(Some("test"));
    var inner := List(Some("not"), true, [test], false);
    forall c: SingleContext
      ensures Eval(c, List(Some("not"), true, [inner], false)) == c.includeTests
    {
      assert Eval(c, inner) == !Eval(c, test);
    }
  }

  /** It also misses what is false in every build: `any()`, unknown lists and arguments that do not parse. */
  lemma RequiresTestMissesFalse(m: Meta)
    requires m.List? && (!m.parses || (m.ident == Some("any") && m.items == [])
                         || m.ident !in {Some("all"), Some("any"), Some("not")})
    ensures !MetaRequiresTest(m) && FalseOutsideTests(m)
  {
  }

  // ----- target dimensions -----

  predicate HasTargetDimension(m: Meta) {
    match m
    case Path(ident) => ident != Some("test")
    case NameValue(_, _) => true
    case List(_, parses, items, _) => !parses || exists i | 0 <= i < |items| :: HasTargetDimension(items[i])
  }

  /** Without a target dimension only the test flag matters. */
  lemma {:induction false} TargetIndependent(a: SingleContext, b: SingleContext, m: Meta)
    requires !HasTargetDimension(m) && a.includeTests == b.includeTests
    ensures Eval(a, m) == Eval(b, m)
  {
    if m.List? {
      forall i | 0 <= i < |m.items|
        ensures Eval(a, m.items[i]) == Eval(b, m.items[i])
      {
        TargetIndependent(a, b, m.items[i]);
      }
    }
  }

  // ----- attributes -----

  /** The arguments read as a single predicate: exactly one, without a trailing comma. */
  function SinglePredicate(parses: bool, items: seq<Meta>, trailing: bool): Option<Meta> {
    if parses && |items| == 1 && !trailing then Some(items[0]) else None
  }

  predicate MetaAttributeActive(c: SingleContext, m: Meta) {
    match m
    case Path(ident) => ident != Some("test") || c.includeTests
    case NameValue(_, _) => true
    case List(ident, parses, items, trailing) =>
      if ident == Some("cfg") then
        var p := SinglePredicate(parses, items, trailing);
        p.None? || Eval(c, p.value)
      else if ident == Some("cfg_attr") then
        || !parses || items == []
        || !Eval(c, items[0])
        || forall i | 1 <= i < |items| :: MetaAttributeActive(c, items[i])
      else
        true
  }

  predicate AttrsActive(c: SingleContext, attributes: seq<Meta>) {
    forall i | 0 <= i < |attributes| :: MetaAttributeActive(c, attributes[i])
  }

  predicate HasIdent(m: Meta, name: string) {
    match m
    case Path(ident) => ident == Some(name)
    case NameValue(key, _) => key == Some(name)
    case List(ident, _, _, _) => ident == Some(name)
  }

  /** A `cfg` attribute whose predicate requires a test build. */
  predicate CfgRequiresTest(m: Meta) {
    && m.List? && m.ident == Some("cfg")
    && SinglePredicate(m.parses, m.items, m.trailing).Some?
    && MetaRequiresTest(SinglePredicate(m.parses, m.items, m.trailing).value)
  }

  predicate AttributesRequireTest(attributes: seq<Meta>) {
    exists i | 0 <= i < |attributes| :: Found(attributes[i])
  }

  /** The attribute is one of those the analysis looks for. */
  predicate Found(m: Meta) {
    HasIdent(m, "test") || HasIdent(m, "bench") || CfgRequiresTest(m)
  }

  /** Found rightly: a `cfg` that requires a test build, or `test` without arguments. */
  predicate FoundRightly(m: Meta) {
    CfgRequiresTest(m) || m == Path(Some("test"))
  }

  lemma FoundActivity(c: SingleContext, m: Meta)
    requires !c.includeTests && Found(m)
    ensures MetaAttributeActive(c, m) <==> !FoundRightly(m)
  {
    if CfgRequiresTest(m) {
      RequiresTestSound(c, m.items[0]);
    }
  }

  /**
   Attributes found to require a test build are inactive in every other build exactly when one of them was found
   rightly: `bench`, and `test` with arguments or a value, stay active in all builds.
   */
  lemma RequiredTestInactive(attributes: seq<Meta>)
    requires forall i :: 0 <= i < |attributes| ==> Found(attributes[i])
    ensures (forall c: SingleContext :: !c.includeTests ==> !AttrsActive(c, attributes))
      <==> exists i :: 0 <= i < |attributes| && FoundRightly(attributes[i])
  {
    forall c: SingleContext | !c.includeTests
      ensures AttrsActive(c, attributes) <==> !exists i :: 0 <= i < |attributes| && FoundRightly(attributes[i])
    {
      forall i | 0 <= i < |attributes|
        ensures MetaAttributeActive(c, attributes[i]) <==> !FoundRightly(attributes[i])
      {
        FoundActivity(c, attributes[i]);
      }
    }
    assert !ContextOf({}).includeTests;
  }

  /** One attribute found rightly makes the whole list inactive outside tests, whatever stands beside it. */
  lemma RightlyFoundInactive(c: SingleContext, attributes: seq<Meta>, i: nat)
    requires i < |attributes| && FoundRightly(attributes[i]) && !c.includeTests
    ensures AttributesRequireTest(attributes) && !AttrsActive(c, attributes)
  {
    FoundActivity(c, attributes[i]);
  }

  /** `bench` alone is found, and is active in every build. */
  lemma BenchStaysActive()
    ensures var attributes := [Path(Some("bench"))];
            AttributesRequireTest(attributes) && forall c: SingleContext :: AttrsActive(c, attributes)
  {
    assert HasIdent([Path(Some("bench"))][0], "bench");
  }

  predicate AnyTargetDimension(parses: bool, items: seq<Meta>) {
    !parses || exists i | 0 <= i < |items| :: HasTargetDimension(items[i])
  }

  predicate AttributeTargetGated(m: Meta) {
    && m.List?
    && (if m.ident == Some("cfg") then
          AnyTargetDimension(m.parses, m.items)
        else if m.ident == Some("cfg_attr") then
          || !m.parses
          || (m.items != [] && HasTargetDimension(m.items[0]))
          || exists i | 1 <= i < |m.items| ::
               m.items[i].List? && m.items[i].ident == Some("cfg") && AnyTargetDimension(m.items[i].parses, m.items[i].items)
        else
          false)
  }

  predicate AttributesTargetGated(attributes: seq<Meta>) {
    exists i | 0 <= i < |attributes| :: AttributeTargetGated(attributes[i])
  }

  /** The predicates that deciding whether an attribute is active may evaluate mention a target dimension. */
  predicate ConsultsTarget(m: Meta) {
    match m
    case Path(_) => false
    case NameValue(_, _) => false
    case List(ident, parses, items, _) =>
      if ident == Some("cfg") then
        AnyTargetDimension(parses, items)
      else if ident == Some("cfg_attr") then
        || !parses
        || (items != [] && HasTargetDimension(items[0]))
        || exists i | 1 <= i < |items| :: ConsultsTarget(items[i])
      else
        false
  }

  /** A `cfg_attr` among the attributes that a `cfg_attr` adds, itself consulting a target dimension. */
  predicate NestedCfgAttrConsults(m: Meta) {
    && m.List? && m.ident == Some("cfg_attr") && m.parses
    && exists i | 1 <= i < |m.items| ::
         m.items[i].List? && m.items[i].ident == Some("cfg_attr") && ConsultsTarget(m.items[i])
  }

  /** An attribute that consults no target dimension is active or not by the test flag alone. */
  lemma {:induction false} ActivityTargetIndependent(a: SingleContext, b: SingleContext, m: Meta)
    requires !ConsultsTarget(m) && a.includeTests == b.includeTests
    ensures MetaAttributeActive(a, m) == MetaAttributeActive(b, m)
  {
    if m.List? && m.ident == Some("cfg") {
      var p := SinglePredicate(m.parses, m.items, m.trailing);
      if p.Some? {
        TargetIndependent(a, b, p.value);
      }
    } else if m.List? && m.ident == Some("cfg_attr") && m.items != [] {
      TargetIndependent(a, b, m.items[0]);
      forall i | 1 <= i < |m.items|
        ensures MetaAttributeActive(a, m.items[i]) == MetaAttributeActive(b, m.items[i])
      {
        ActivityTargetIndependent(a, b, m.items[i]);
      }
    }
  }

  /** The gate looks one level deep: it misses exactly the target dimensions inside a nested `cfg_attr`. */
  lemma GateMissesNested(m: Meta)
    ensures ConsultsTarget(m) <==> AttributeTargetGated(m) || NestedCfgAttrConsults(m)
  {
    if m.List? && m.ident == Some("cfg_attr") && m.parses {
      forall i | 1 <= i < |m.items|
        ensures ConsultsTarget(m.items[i]) <==>
          && m.items[i].List?
          && (|| (m.items[i].ident == Some("cfg") && AnyTargetDimension(m.items[i].parses, m.items[i].items))
              || (m.items[i].ident == Some("cfg_attr") && ConsultsTarget(m.items[i])))
      {
      }
    }
  }

  /** Ungated attributes without such nesting are active or not by the test flag alone. */
  lemma UngatedTargetIndependent(a: SingleContext, b: SingleContext, attributes: seq<Meta>)
    requires !AttributesTargetGated(attributes) && a.includeTests == b.includeTests
    requires forall i :: 0 <= i < |attributes| ==> !NestedCfgAttrConsults(attributes[i])
    ensures AttrsActive(a, attributes) == AttrsActive(b, attributes)
  {
    forall i | 0 <= i < |attributes|
      ensures MetaAttributeActive(a, attributes[i]) == MetaAttributeActive(b, attributes[i])
    {
      GateMissesNested(attributes[i]);
      ActivityTargetIndependent(a, b, attributes[i]);
    }
  }

  /** With such nesting they need not be: `cfg_attr(test, cfg_attr(unix, cfg(not(test))))` is ungated. */
  lemma UngatedNestedDepends()
    ensures var test := Path(Some("test"));
            var notTest := List(Some("not"), true, [test], false);
            var nested := List(Some("cfg_attr"), true, [Path(Some("unix")), List(Some("cfg"), true, [notTest], false)], false);
            var attribute := List(Some("cfg_attr"), true, [test, nested], false);
            && !AttributesTargetGated([attribute])
            && !AttrsActive(SingleContext({"unix"}, map[], {}, true), [attribute])
            && AttrsActive(SingleContext({}, map[], {}, true), [attribute])
  {
    var test := Path(Some("test"));
    var notTest := List(Some("not"), true, [test], false);
    var cfg := List(Some("cfg"), true, [notTest], false);
    var nested := List(Some("cfg_attr"), true, [Path(Some("unix")), cfg], false);
    var attribute := List(Some("cfg_attr"), true, [test, nested], false);
    var unix, other := SingleContext({"unix"}, map[], {}, true), SingleContext({}, map[], {}, true);
    assert !Eval(unix, notTest);
    assert !MetaAttributeActive(unix, cfg);
    assert nested.items[1] == cfg && !MetaAttributeActive(unix, nested);
    assert attribute.items[1] == nested && !MetaAttributeActive(unix, attribute);
    assert MetaAttributeActive(other, nested);
    assert MetaAttributeActive(other, attribute);
  }

  // ----- merged contexts -----

  datatype CfgContext = CfgContext(variants: seq<SingleContext>)

  predicate ContextActive(context: CfgContext, attributes: seq<Meta>) {
    exists i | 0 <= i < |context.variants| :: AttrsActive(context.variants[i], attributes)
  }

  predicate ContextActiveWhere(context: CfgContext, attributes: seq<Meta>, includeTests: bool) {
    exists i | 0 <= i < |context.variants| ::
      context.variants[i].includeTests == includeTests && AttrsActive(context.variants[i], attributes)
  }

  /** Every variant of a part, and nothing else, each once. */
  ghost predicate Merges(parts: seq<CfgContext>, variants: seq<SingleContext>) {
    && (forall v :: v in variants <==> exists p :: p in parts && v in p.variants)
    && (forall i, j :: 0 <= i < j < |variants| ==> variants[i] != variants[j])
  }

  method MergeVariants(before: seq<SingleContext>, added: seq<SingleContext>) returns (variants: seq<SingleContext>)
    requires forall i, j :: 0 <= i < j < |before| ==> before[i] != before[j]
    ensures before <= variants
    ensures forall v :: v in variants <==> v in before || v in added
    ensures forall i, j :: 0 <= i < j < |variants| ==> variants[i] != variants[j]
  {
    variants := before;
    for n := 0 to |added|
      invariant before <= variants
      invariant forall v :: v in variants <==> v in before || v in added[..n]
      invariant forall i, j :: 0 <= i < j < |variants| ==> variants[i] != variants[j]
    {
      assert added[..n + 1] == added[..n] + [added[n]];
      if added[n] !in variants {
        variants := variants + [added[n]];
      }
    }
    assert added[..|added|] == added;
  }

  method Merged(parts: seq<CfgContext>) returns (merged: CfgContext)
    ensures Merges(parts, merged.variants)
  {
    var variants: seq<SingleContext> := [];
    for n := 0 to |parts|
      invariant Merges(parts[..n], variants)
    {
      assert parts[..n + 1] == parts[..n] + [parts[n]];
      var next := MergeVariants(variants, parts[n].variants);
      variants := next;
    }
    assert parts[..|parts|] == parts;
    return CfgContext(variants);
  }

  /** Code is active in a merged context exactly when it is active in one of the parts, for each test flag too. */
  lemma MergedActive(parts: seq<CfgContext>, merged: CfgContext, attributes: seq<Meta>, includeTests: bool)
    requires Merges(parts, merged.variants)
    ensures ContextActive(merged, attributes) <==> exists p :: p in parts && ContextActive(p, attributes)
    ensures (ContextActiveWhere(merged, attributes, includeTests)
        <==> exists p :: p in parts && ContextActiveWhere(p, attributes, includeTests))
  {
    forall p | p in parts && ContextActive(p, attributes)
      ensures ContextActive(merged, attributes)
    {
      var i :| 0 <= i < |p.variants| && AttrsActive(p.variants[i], attributes);
      assert p.variants[i] in merged.variants;
    }
    forall p | p in parts && ContextActiveWhere(p, attributes, includeTests)
      ensures ContextActiveWhere(merged, attributes, includeTests)
    {
      var i :| (0 <= i < |p.variants| && p.variants[i].includeTests == includeTests
                && AttrsActive(p.variants[i], attributes));
      assert p.variants[i] in merged.variants;
    }
    forall v | v in merged.variants && AttrsActive(v, attributes)
      ensures exists p :: p in parts && ContextActive(p, attributes)
      ensures exists p :: p in parts && ContextActiveWhere(p, attributes, v.includeTests)
    {
      var p :| p in parts && v in p.variants;
      assert ContextActive(p, attributes) && ContextActiveWhere(p, attributes, v.includeTests);
    }
  }
}
