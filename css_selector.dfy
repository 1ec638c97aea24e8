/**
 * The CSS selector builder of task/08-objects-tasks.js.
 *
 * A `CssSelector` collects the simple selectors of one compound selector in
 * six categories (element name, id, classes, attributes, pseudo-classes,
 * pseudo-element). Each fluent call checks, before it assigns anything, that
 * no later category is present yet and that a single-valued category is not
 * set twice; it then fills its own category and returns the same object.
 * `CombinedSelector.Combine` joins two selectors around a combinator.
 *
 * The state of a selector is also given as plain data (`Parts`), and the
 * effect of one call on it as the function `Step`; the methods of the class
 * are proved to do exactly what `Step` says.
 */
module CssSelectors {
  import opened Wrappers
  import opened Strings

  /** The categories of simple selector, in the order a compound selector lists them. */
  datatype Category = ElementCat | IdCat | ClassCat | AttrCat | PseudoClassCat | PseudoElementCat

  function Rank(k: Category): nat
  {
    match k
    case ElementCat => 0
    case IdCat => 1
    case ClassCat => 2
    case AttrCat => 3
    case PseudoClassCat => 4
    case PseudoElementCat => 5
  }

  /** Element name, id and pseudo-element are given at most once; the other categories are lists. */
  predicate SingleValued(k: Category)
  {
    k == ElementCat || k == IdCat || k == PseudoElementCat
  }

  /** The two errors the builder throws: 'Wrong order' and '... already defined'. */
  datatype SelectorError = WrongOrder | AlreadyDefined(category: Category)

  /** One fluent call: `element(value)`, `id(value)`, `class(value)`, ... */
  datatype Call = Call(category: Category, value: string)

  /** The text one call adds to the selector. */
  function Fragment(c: Call): string
  {
    match c.category
    case ElementCat => c.value
    case IdCat => "#" + c.value
    case ClassCat => "." + c.value
    case AttrCat => "[" + c.value + "]"
    case PseudoClassCat => ":" + c.value
    case PseudoElementCat => "::" + c.value
  }

  /** The fragment of a call as a list: empty only for an empty element name. */
  function FragmentSlot(c: Call): seq<string>
  {
    if Fragment(c) == "" then [] else [Fragment(c)]
  }

  /** `anyExist(values)`: some value is truthy. */
  function AnyExist(values: seq<bool>): (r: bool)
    ensures r <==> true in values
  {
    if values == [] then false else values[0] || AnyExist(values[1..])
  }

  /**
   * The fields of a `CssSelector` as plain data. A field the source leaves
   * `undefined` is "" or []: every test of a field is a truthiness test, the
   * stored id and pseudo-element are never empty, and a list exists only once
   * something has been pushed onto it.
   */
  datatype Parts = Parts(
    element: string,
    id: string,
    classes: seq<string>,
    attrs: seq<string>,
    pseudoClasses: seq<string>,
    pseudoElement: string)
  {
    /** The fragments of one category that `getSelectorsArray` collects: a falsy field adds nothing. */
    function Slot(k: Category): seq<string>
    {
      match k
      case ElementCat => if element == "" then [] else [element]
      case IdCat => if id == "" then [] else [id]
      case ClassCat => classes
      case AttrCat => attrs
      case PseudoClassCat => pseudoClasses
      case PseudoElementCat => if pseudoElement == "" then [] else [pseudoElement]
    }

    /** The truthiness test the mutators apply to a field. */
    predicate Present(k: Category)
    {
      Slot(k) != []
    }

    /** `getSelectorsArray`: the fragments in fixed category order. */
    function SelectorsArray(): seq<string>
    {
      Slot(ElementCat) + Slot(IdCat) + Slot(ClassCat) + Slot(AttrCat) + Slot(PseudoClassCat) + Slot(PseudoElementCat)
    }

    /** `stringify`: the fragments joined with no separator. */
    function Stringify(): string
    {
      Concat(SelectorsArray())
    }
  }

  /** A freshly created selector: every field undefined. */
  const Empty := Parts("", "", [], [], [], "")

  /** A call is accepted when no later category is present and it does not set a single-valued category twice. */
  predicate Admissible(p: Parts, c: Call)
  {
    && (forall k :: Rank(c.category) < Rank(k) ==> !p.Present(k))
    && !(SingleValued(c.category) && p.Present(c.category))
  }

  /**
   * The effect of one fluent call on the fields, with the checks in the
   * order the source makes them: the "already defined" test comes before
   * the "Wrong order" test.
   */
  function Step(p: Parts, c: Call): Result<Parts, SelectorError>
  {
    var v := c.value;
    match c.category
    case ElementCat =>
      if p.element != "" then Err(AlreadyDefined(ElementCat))
      else if AnyExist([p.id != "", p.classes != [], p.attrs != [], p.pseudoClasses != [], p.pseudoElement != ""]) then Err(WrongOrder)
      else Ok(p.(element := v))
    case IdCat =>
      if p.id != "" then Err(AlreadyDefined(IdCat))
      else if AnyExist([p.classes != [], p.attrs != [], p.pseudoClasses != [], p.pseudoElement != ""]) then Err(WrongOrder)
      else Ok(p.(id := "#" + v))
    case ClassCat =>
      if AnyExist([p.attrs != [], p.pseudoClasses != [], p.pseudoElement != ""]) then Err(WrongOrder)
      else Ok(p.(classes := p.classes + ["." + v]))
    case AttrCat =>
      if AnyExist([p.pseudoClasses != [], p.pseudoElement != ""]) then Err(WrongOrder)
      else Ok(p.(attrs := p.attrs + ["[" + v + "]"]))
    case PseudoClassCat =>
      if p.pseudoElement != "" then Err(WrongOrder)
      else Ok(p.(pseudoClasses := p.pseudoClasses + [":" + v]))
    case PseudoElementCat =>
      if p.pseudoElement != "" then Err(AlreadyDefined(PseudoElementCat))
      else Ok(p.(pseudoElement := "::" + v))
  }

  /**
   * A call is accepted exactly when it is admissible; a rejected call reports
   * "already defined" exactly when it repeats a filled single-valued category,
   * and "Wrong order" otherwise.
   */
  lemma StepAcceptsIffAdmissible(p: Parts, c: Call)
    ensures Step(p, c).Ok? <==> Admissible(p, c)
    ensures Step(p, c).Err? ==>
      (Step(p, c).error == AlreadyDefined(c.category) <==> SingleValued(c.category) && p.Present(c.category))
    ensures Step(p, c).Err? ==> Step(p, c).error in {WrongOrder, AlreadyDefined(c.category)}
  {
    match c.category
    case ElementCat => ElementChecks(p, c);
    case IdCat => IdChecks(p, c);
    case ClassCat => ClassChecks(p, c);
    case AttrCat => AttrChecks(p, c);
    case PseudoClassCat => PseudoClassChecks(p, c);
    case PseudoElementCat => PseudoElementChecks(p, c);
  }

  lemma ElementChecks(p: Parts, c: Call)
    requires c.category == ElementCat
    ensures Step(p, c).Ok? <==> Admissible(p, c)
    ensures Step(p, c).Err? ==>
      (Step(p, c).error == AlreadyDefined(c.category) <==> SingleValued(c.category) && p.Present(c.category))
    ensures Step(p, c).Err? ==> Step(p, c).error in {WrongOrder, AlreadyDefined(c.category)}
  {
    if Step(p, c).Ok? {
      forall k | Rank(c.category) < Rank(k) ensures !p.Present(k) {
        match k
        case ElementCat =>
        case IdCat =>
        case ClassCat =>
        case AttrCat =>
        case PseudoClassCat =>
        case PseudoElementCat =>
      }
    }
    if Admissible(p, c) {
      assert !p.Present(IdCat) by { assert Rank(c.category) < Rank(IdCat); }
      assert !p.Present(ClassCat) by { assert Rank(c.category) < Rank(ClassCat); }
      assert !p.Present(AttrCat) by { assert Rank(c.category) < Rank(AttrCat); }
      assert !p.Present(PseudoClassCat) by { assert Rank(c.category) < Rank(PseudoClassCat); }
      assert !p.Present(PseudoElementCat) by { assert Rank(c.category) < Rank(PseudoElementCat); }
    }
  }

  lemma IdChecks(p: Parts, c: Call)
    requires c.category == IdCat
    ensures Step(p, c).Ok? <==> Admissible(p, c)
    ensures Step(p, c).Err? ==>
      (Step(p, c).error == AlreadyDefined(c.category) <==> SingleValued(c.category) && p.Present(c.category))
    ensures Step(p, c).Err? ==> Step(p, c).error in {WrongOrder, AlreadyDefined(c.category)}
  {
    if Step(p, c).Ok? {
      forall k | Rank(c.category) < Rank(k) ensures !p.Present(k) {
        match k
        case ElementCat =>
        case IdCat =>
        case ClassCat =>
        case AttrCat =>
        case PseudoClassCat =>
        case PseudoElementCat =>
      }
    }
    if Admissible(p, c) {
      assert !p.Present(ClassCat) by { assert Rank(c.category) < Rank(ClassCat); }
      assert !p.Present(AttrCat) by { assert Rank(c.category) < Rank(AttrCat); }
      assert !p.Present(PseudoClassCat) by { assert Rank(c.category) < Rank(PseudoClassCat); }
      assert !p.Present(PseudoElementCat) by { assert Rank(c.category) < Rank(PseudoElementCat); }
    }
  }

  lemma ClassChecks(p: Parts, c: Call)
    requires c.category == ClassCat
    ensures Step(p, c).Ok? <==> Admissible(p, c)
    ensures Step(p, c).Err? ==>
      (Step(p, c).error == AlreadyDefined(c.category) <==> SingleValued(c.category) && p.Present(c.category))
    ensures Step(p, c).Err? ==> Step(p, c).error in {WrongOrder, AlreadyDefined(c.category)}
  {
    if Step(p, c).Ok? {
      forall k | Rank(c.category) < Rank(k) ensures !p.Present(k) {
        match k
        case ElementCat =>
        case IdCat =>
        case ClassCat =>
        case AttrCat =>
        case PseudoClassCat =>
        case PseudoElementCat =>
      }
    }
    if Admissible(p, c) {
      assert !p.Present(AttrCat) by { assert Rank(c.category) < Rank(AttrCat); }
      assert !p.Present(PseudoClassCat) by { assert Rank(c.category) < Rank(PseudoClassCat); }
      assert !p.Present(PseudoElementCat) by { assert Rank(c.category) < Rank(PseudoElementCat); }
    }
  }

  lemma AttrChecks(p: Parts, c: Call)
    requires c.category == AttrCat
    ensures Step(p, c).Ok? <==> Admissible(p, c)
    ensures Step(p, c).Err? ==>
      (Step(p, c).error == AlreadyDefined(c.category) <==> SingleValued(c.category) && p.Present(c.category))
    ensures Step(p, c).Err? ==> Step(p, c).error in {WrongOrder, AlreadyDefined(c.category)}
  {
    if Step(p, c).Ok? {
      forall k | Rank(c.category) < Rank(k) ensures !p.Present(k) {
        match k
        case ElementCat =>
        case IdCat =>
        case ClassCat =>
        case AttrCat =>
        case PseudoClassCat =>
        case PseudoElementCat =>
      }
    }
    if Admissible(p, c) {
      assert !p.Present(PseudoClassCat) by { assert Rank(c.category) < Rank(PseudoClassCat); }
      assert !p.Present(PseudoElementCat) by { assert Rank(c.category) < Rank(PseudoElementCat); }
    }
  }

  lemma PseudoClassChecks(p: Parts, c: Call)
    requires c.category == PseudoClassCat
    ensures Step(p, c).Ok? <==> Admissible(p, c)
    ensures Step(p, c).Err? ==>
      (Step(p, c).error == AlreadyDefined(c.category) <==> SingleValued(c.category) && p.Present(c.category))
    ensures Step(p, c).Err? ==> Step(p, c).error in {WrongOrder, AlreadyDefined(c.category)}
  {
    if Step(p, c).Ok? {
      forall k | Rank(c.category) < Rank(k) ensures !p.Present(k) {
        match k
        case ElementCat =>
        case IdCat =>
        case ClassCat =>
        case AttrCat =>
        case PseudoClassCat =>
        case PseudoElementCat =>
      }
    }
    if Admissible(p, c) {
      assert !p.Present(PseudoElementCat) by { assert Rank(c.category) < Rank(PseudoElementCat); }
    }
  }

  lemma PseudoElementChecks(p: Parts, c: Call)
    requires c.category == PseudoElementCat
    ensures Step(p, c).Ok? <==> Admissible(p, c)
    ensures Step(p, c).Err? ==>
      (Step(p, c).error == AlreadyDefined(c.category) <==> SingleValued(c.category) && p.Present(c.category))
    ensures Step(p, c).Err? ==> Step(p, c).error in {WrongOrder, AlreadyDefined(c.category)}
  {
    if Admissible(p, c) {
      assert !SingleValued(c.category) || !p.Present(c.category);
    }
  }

  /** An accepted call adds its fragment to its own category and changes no other category. */
  lemma StepFillsOwnCategory(p: Parts, c: Call)
    requires Step(p, c).Ok?
    ensures Step(p, c).value.Slot(c.category) == p.Slot(c.category) + FragmentSlot(c)
    ensures forall k :: k != c.category ==> Step(p, c).value.Slot(k) == p.Slot(k)
  {
  }

  /** An accepted call appends its fragment to the rendered selector. */
  lemma StepAppendsFragment(p: Parts, c: Call)
    requires Step(p, c).Ok?
    ensures Step(p, c).value.SelectorsArray() == p.SelectorsArray() + FragmentSlot(c)
    ensures Step(p, c).value.Stringify() == p.Stringify() + Fragment(c)
  {
    StepAppendsToArray(p, c);
    ConcatAppend(p.SelectorsArray(), FragmentSlot(c));
  }

  lemma StepAppendsToArray(p: Parts, c: Call)
    requires Step(p, c).Ok?
    ensures Step(p, c).value.SelectorsArray() == p.SelectorsArray() + FragmentSlot(c)
  {
    match c.category
    case ElementCat => ElementAppends(p, c);
    case IdCat => IdAppends(p, c);
    case ClassCat => ClassAppends(p, c);
    case AttrCat => AttrAppends(p, c);
    case PseudoClassCat => PseudoClassAppends(p, c);
    case PseudoElementCat => PseudoElementAppends(p, c);
  }

  lemma ElementAppends(p: Parts, c: Call)
    requires c.category == ElementCat && Step(p, c).Ok?
    ensures Step(p, c).value.SelectorsArray() == p.SelectorsArray() + FragmentSlot(c)
  {
    var q := Step(p, c).value;
    var e, i, cl, at, pc, pe := p.Slot(ElementCat), p.Slot(IdCat), p.Slot(ClassCat), p.Slot(AttrCat), p.Slot(PseudoClassCat), p.Slot(PseudoElementCat);
    var f := FragmentSlot(c);
    assert !AnyExist([p.id != "", p.classes != [], p.attrs != [], p.pseudoClasses != [], p.pseudoElement != ""]);
    assert i == cl == at == pc == pe == [];
    assert q.SelectorsArray() == e + f;
  }

  lemma IdAppends(p: Parts, c: Call)
    requires c.category == IdCat && Step(p, c).Ok?
    ensures Step(p, c).value.SelectorsArray() == p.SelectorsArray() + FragmentSlot(c)
  {
    var q := Step(p, c).value;
    var e, i, cl, at, pc, pe := p.Slot(ElementCat), p.Slot(IdCat), p.Slot(ClassCat), p.Slot(AttrCat), p.Slot(PseudoClassCat), p.Slot(PseudoElementCat);
    var f := FragmentSlot(c);
    assert !AnyExist([p.classes != [], p.attrs != [], p.pseudoClasses != [], p.pseudoElement != ""]);
    assert cl == at == pc == pe == [];
    assert q.SelectorsArray() == e + (i + f);
  }

  lemma ClassAppends(p: Parts, c: Call)
    requires c.category == ClassCat && Step(p, c).Ok?
    ensures Step(p, c).value.SelectorsArray() == p.SelectorsArray() + FragmentSlot(c)
  {
    var q := Step(p, c).value;
    var e, i, cl, at, pc, pe := p.Slot(ElementCat), p.Slot(IdCat), p.Slot(ClassCat), p.Slot(AttrCat), p.Slot(PseudoClassCat), p.Slot(PseudoElementCat);
    var f := FragmentSlot(c);
    assert !AnyExist([p.attrs != [], p.pseudoClasses != [], p.pseudoElement != ""]);
    assert at == pc == pe == [];
    assert q.SelectorsArray() == e + i + (cl + f);
  }

  lemma AttrAppends(p: Parts, c: Call)
    requires c.category == AttrCat && Step(p, c).Ok?
    ensures Step(p, c).value.SelectorsArray() == p.SelectorsArray() + FragmentSlot(c)
  {
    var q := Step(p, c).value;
    var e, i, cl, at, pc, pe := p.Slot(ElementCat), p.Slot(IdCat), p.Slot(ClassCat), p.Slot(AttrCat), p.Slot(PseudoClassCat), p.Slot(PseudoElementCat);
    var f := FragmentSlot(c);
    assert !AnyExist([p.pseudoClasses != [], p.pseudoElement != ""]);
    assert pc == pe == [];
    assert q.SelectorsArray() == e + i + cl + (at + f);
  }

  lemma PseudoClassAppends(p: Parts, c: Call)
    requires c.category == PseudoClassCat && Step(p, c).Ok?
    ensures Step(p, c).value.SelectorsArray() == p.SelectorsArray() + FragmentSlot(c)
  {
    var q := Step(p, c).value;
    var e, i, cl, at, pc, pe := p.Slot(ElementCat), p.Slot(IdCat), p.Slot(ClassCat), p.Slot(AttrCat), p.Slot(PseudoClassCat), p.Slot(PseudoElementCat);
    var f := FragmentSlot(c);
    assert pe == [];
    assert q.SelectorsArray() == e + i + cl + at + (pc + f);
  }

  lemma PseudoElementAppends(p: Parts, c: Call)
    requires c.category == PseudoElementCat && Step(p, c).Ok?
    ensures Step(p, c).value.SelectorsArray() == p.SelectorsArray() + FragmentSlot(c)
  {
    var q := Step(p, c).value;
    var e, i, cl, at, pc, pe := p.Slot(ElementCat), p.Slot(IdCat), p.Slot(ClassCat), p.Slot(AttrCat), p.Slot(PseudoClassCat), p.Slot(PseudoElementCat);
    var f := FragmentSlot(c);
    assert q.SelectorsArray() == e + i + cl + at + pc + (pe + f);
  }

  // ---------------------------------------------------------------------------
  // Chains of calls

  /** A chain of fluent calls on a fresh selector; the first call that throws ends it. */
  function Run(calls: seq<Call>): Result<Parts, SelectorError>
  {
    if calls == [] then Ok(Empty)
    else
      match Run(calls[..|calls| - 1])
      case Err(e) => Err(e)
      case Ok(p) => Step(p, calls[|calls| - 1])
  }

  /** The call fills a single-valued category (an empty element name fills nothing). */
  predicate Marks(c: Call)
  {
    SingleValued(c.category) && Fragment(c) != ""
  }

  /** Call `b` may come after call `a`. */
  predicate Compatible(a: Call, b: Call)
  {
    Rank(a.category) < Rank(b.category) || (a.category == b.category && !Marks(a))
  }

  /** The categories never go backwards, and no single-valued category is filled and then given again. */
  predicate WellOrdered(calls: seq<Call>)
  {
    forall i, j :: 0 <= i < j < |calls| ==> Compatible(calls[i], calls[j])
  }

  /** Some call of the chain left category `k` truthy. */
  predicate Used(calls: seq<Call>, k: Category)
  {
    exists i :: 0 <= i < |calls| && calls[i].category == k && Fragment(calls[i]) != ""
  }

  function Fragments(calls: seq<Call>): (r: seq<string>)
    ensures |r| == |calls|
    ensures forall i :: 0 <= i < |calls| ==> r[i] == Fragment(calls[i])
  {
    if calls == [] then [] else Fragments(calls[..|calls| - 1]) + [Fragment(calls[|calls| - 1])]
  }

  lemma AdmissibleAfter(calls: seq<Call>, p: Parts, c: Call)
    requires forall k :: p.Present(k) <==> Used(calls, k)
    ensures Admissible(p, c) <==> forall i :: 0 <= i < |calls| ==> Compatible(calls[i], c)
  {
    if Admissible(p, c) {
      forall i | 0 <= i < |calls| ensures Compatible(calls[i], c) {
        assert calls[i].category != ElementCat ==> Fragment(calls[i]) != "";
      }
    }
    if forall i :: 0 <= i < |calls| ==> Compatible(calls[i], c) {
      forall k | Used(calls, k) ensures Rank(k) <= Rank(c.category) && !(SingleValued(c.category) && k == c.category) {
        var i :| 0 <= i < |calls| && calls[i].category == k && Fragment(calls[i]) != "";
        assert Compatible(calls[i], c);
      }
    }
  }

  lemma WellOrderedSnoc(init: seq<Call>, c: Call)
    ensures WellOrdered(init + [c]) <==> WellOrdered(init) && forall i :: 0 <= i < |init| ==> Compatible(init[i], c)
  {
    var calls := init + [c];
    assert forall i :: 0 <= i < |init| ==> calls[i] == init[i];
    assert calls[|init|] == c;
  }

  lemma UsedSnoc(init: seq<Call>, c: Call, k: Category)
    ensures Used(init + [c], k) <==> Used(init, k) || (c.category == k && Fragment(c) != "")
  {
    var calls := init + [c];
    assert forall i :: 0 <= i < |init| ==> calls[i] == init[i];
    assert calls[|init|] == c;
  }

  /** What a successful chain `init` knows about its selector. */
  ghost predicate Describes(calls: seq<Call>, p: Parts)
  {
    && p.Stringify() == Concat(Fragments(calls))
    && forall k :: p.Present(k) <==> Used(calls, k)
  }

  /** An accepted call's fragment comes last in the rendered selector, as it comes last in the chain. */
  lemma StepRendersAfter(init: seq<Call>, p: Parts, c: Call)
    requires p.Stringify() == Concat(Fragments(init)) && Step(p, c).Ok?
    ensures Step(p, c).value.Stringify() == Concat(Fragments(init + [c]))
  {
    var calls := init + [c];
    StepAppendsFragment(p, c);
    assert Fragments(calls) == Fragments(init) + [Fragment(c)] by {
      assert calls[..|calls| - 1] == init;
    }
    ConcatAppend(Fragments(init), [Fragment(c)]);
    assert Concat([Fragment(c)]) == Fragment(c);
  }

  /** After an accepted call a category is truthy exactly when some call of the longer chain filled it. */
  lemma StepPresentAfter(init: seq<Call>, p: Parts, c: Call, k: Category)
    requires p.Present(k) <==> Used(init, k)
    requires Step(p, c).Ok?
    ensures Step(p, c).value.Present(k) <==> Used(init + [c], k)
  {
    StepFillsOwnCategory(p, c);
    UsedSnoc(init, c, k);
  }

  /** One more call on a selector that `init` describes succeeds exactly when it keeps the chain well ordered. */
  lemma StepExtends(init: seq<Call>, p: Parts, c: Call)
    requires WellOrdered(init) && Describes(init, p)
    ensures Step(p, c).Ok? <==> WellOrdered(init + [c])
    ensures Step(p, c).Ok? ==> Describes(init + [c], Step(p, c).value)
  {
    WellOrderedSnoc(init, c);
    AdmissibleAfter(init, p, c);
    StepAcceptsIffAdmissible(p, c);
    if Step(p, c).Ok? {
      StepRendersAfter(init, p, c);
      forall k ensures Step(p, c).value.Present(k) <==> Used(init + [c], k) {
        StepPresentAfter(init, p, c, k);
      }
    }
  }

  /**
   * A chain of calls succeeds exactly when it lists the categories in order
   * without repeating a single-valued one, and then the selector renders as
   * the calls' fragments in call order.
   */
  lemma {:induction false} RunSucceedsIffWellOrdered(calls: seq<Call>)
    ensures Run(calls).Ok? <==> WellOrdered(calls)
    ensures Run(calls).Ok? ==> Run(calls).value.Stringify() == Concat(Fragments(calls))
    ensures Run(calls).Ok? ==> forall k :: Run(calls).value.Present(k) <==> Used(calls, k)
  {
    RunDescribes(calls);
  }

  /** The invariant behind `RunSucceedsIffWellOrdered`, kept by every accepted call. */
  lemma {:induction false} RunDescribes(calls: seq<Call>)
    ensures Run(calls).Ok? <==> WellOrdered(calls)
    ensures Run(calls).Ok? ==> Describes(calls, Run(calls).value)
  {
    if calls == [] {
      EmptyDescribed();
    } else {
      var init, c := calls[..|calls| - 1], calls[|calls| - 1];
      assert calls == init + [c];
      RunDescribes(init);
      WellOrderedSnoc(init, c);
      if Run(init).Ok? {
        StepExtends(init, Run(init).value, c);
      }
    }
  }

  /** Before any call the selector renders empty and no category is used. */
  lemma EmptyDescribed()
    ensures Run([]).Ok? && Describes([], Run([]).value)
  {
  }

  /** `id('main').class('container').class('editable')` renders `#main.container.editable`. */
  lemma ExampleIdAndClasses()
    ensures var r := Run([Call(IdCat, "main"), Call(ClassCat, "container"), Call(ClassCat, "editable")]);
      r.Ok? && r.value.Stringify() == "#main.container.editable"
  {
    var calls := [Call(IdCat, "main"), Call(ClassCat, "container"), Call(ClassCat, "editable")];
    assert WellOrdered(calls);
    IdAndClassesFragments(calls);
    RunRenders(calls, "#main.container.editable");
  }

  lemma IdAndClassesFragmentList(calls: seq<Call>)
    requires calls == [Call(IdCat, "main"), Call(ClassCat, "container"), Call(ClassCat, "editable")]
    ensures Fragments(calls) == ["#main", ".container", ".editable"]
  {
    assert "#" + "main" == "#main" && "." + "container" == ".container" && "." + "editable" == ".editable";
  }

  lemma IdAndClassesFragments(calls: seq<Call>)
    requires calls == [Call(IdCat, "main"), Call(ClassCat, "container"), Call(ClassCat, "editable")]
    ensures Concat(Fragments(calls)) == "#main.container.editable"
  {
    IdAndClassesFragmentList(calls);
    ConcatThree("#main", ".container", ".editable");
  }

  /** `element('a').attr('href$=".png"').pseudoClass('focus')` renders `a[href$=".png"]:focus`. */
  lemma ExampleAttrAndPseudoClass()
    ensures var r := Run(LinkFocusCalls());
      r.Ok? && r.value.Stringify() == "a[href$=\".png\"]:focus"
  {
    assert WellOrdered(LinkFocusCalls());
    LinkFocusFragments();
    RunSucceedsIffWellOrdered(LinkFocusCalls());
  }

  /** The calls `element('a').attr('href$=".png"').pseudoClass('focus')`. */
  function LinkFocusCalls(): seq<Call>
  {
    [Call(ElementCat, "a"), Call(AttrCat, "href$=\".png\""), Call(PseudoClassCat, "focus")]
  }

  lemma LinkFocusFragments()
    ensures Concat(Fragments(LinkFocusCalls())) == "a[href$=\".png\"]:focus"
  {
    LinkFocusFragmentList();
    ConcatThree("a", "[href$=\".png\"]", ":focus");
    LinkFocusSpelling();
  }

  /** Spelling only, for the proof of `ExampleAttrAndPseudoClass`: the fragments of the chain. */
  lemma LinkFocusSpelling()
    ensures "a" + "[href$=\".png\"]" + ":focus" == "a[href$=\".png\"]:focus"
  {
  }

  lemma LinkFocusFragmentList()
    ensures Fragments(LinkFocusCalls()) == ["a", "[href$=\".png\"]", ":focus"]
  {
    assert "[" + "href$=\".png\"" + "]" == "[href$=\".png\"]";
    assert ":" + "focus" == ":focus";
  }

  /** `class` after `attr` is out of order; a second `id` is a duplicate; so is a second non-empty element name. */
  lemma ExampleErrors()
    ensures Run([Call(AttrCat, "x"), Call(ClassCat, "y")]) == Err(WrongOrder)
    ensures Run([Call(IdCat, "a"), Call(IdCat, "b")]) == Err(AlreadyDefined(IdCat))
    ensures Run([Call(ElementCat, "a"), Call(ElementCat, "b")]) == Err(AlreadyDefined(ElementCat))
    ensures Run([Call(PseudoElementCat, "after"), Call(PseudoClassCat, "hover")]) == Err(WrongOrder)
    ensures Run([Call(ClassCat, "a"), Call(IdCat, "b")]) == Err(WrongOrder)
  {
  }

  /** An empty element name leaves the element undefined, so another element name is still accepted. */
  lemma ExampleEmptyElementName()
    ensures Run([Call(ElementCat, ""), Call(ElementCat, "div")]) == Ok(Parts("div", "", [], [], [], ""))
  {
    var calls := [Call(ElementCat, ""), Call(ElementCat, "div")];
    assert calls[..1] == [Call(ElementCat, "")];
    assert Run(calls[..1]) == Ok(Empty);
  }

  // ---------------------------------------------------------------------------
  // The selector object

  /** `class CssSelector`: the six fields the fluent calls fill in place. */
  class CssSelector {
    var elementName: string
    var idName: string
    var classNames: seq<string>
    var attrNames: seq<string>
    var pseudoClassNames: seq<string>
    var pseudoElementName: string

    /** `new CssSelector()`: no field defined yet. */
    constructor ()
      ensures State() == Empty
    {
      elementName, idName, pseudoElementName := "", "", "";
      classNames, attrNames, pseudoClassNames := [], [], [];
    }

    /** The fields as plain data. */
    function State(): Parts
      reads this
    {
      Parts(elementName, idName, classNames, attrNames, pseudoClassNames, pseudoElementName)
    }

    /** `element(value)`. */
    method Element(value: string) returns (r: Result<CssSelector, SelectorError>)
      modifies this
      ensures Performed(this, old(State()), Call(ElementCat, value), State(), r)
    {
      if elementName != "" {
        return Err(AlreadyDefined(ElementCat));
      }
      if AnyExist([idName != "", classNames != [], attrNames != [], pseudoClassNames != [], pseudoElementName != ""]) {
        return Err(WrongOrder);
      }
      elementName := value;
      return Ok(this);
    }

    /** `id(value)`. */
    method Id(value: string) returns (r: Result<CssSelector, SelectorError>)
      modifies this
      ensures Performed(this, old(State()), Call(IdCat, value), State(), r)
    {
      if idName != "" {
        return Err(AlreadyDefined(IdCat));
      }
      if AnyExist([classNames != [], attrNames != [], pseudoClassNames != [], pseudoElementName != ""]) {
        return Err(WrongOrder);
      }
      idName := "#" + value;
      return Ok(this);
    }

    /** `class(value)`. */
    method Class(value: string) returns (r: Result<CssSelector, SelectorError>)
      modifies this
      ensures Performed(this, old(State()), Call(ClassCat, value), State(), r)
    {
      if AnyExist([attrNames != [], pseudoClassNames != [], pseudoElementName != ""]) {
        return Err(WrongOrder);
      }
      classNames := classNames + ["." + value];
      return Ok(this);
    }

    /** `attr(value)`. */
    method Attr(value: string) returns (r: Result<CssSelector, SelectorError>)
      modifies this
      ensures Performed(this, old(State()), Call(AttrCat, value), State(), r)
    {
      if AnyExist([pseudoClassNames != [], pseudoElementName != ""]) {
        return Err(WrongOrder);
      }
      attrNames := attrNames + ["[" + value + "]"];
      return Ok(this);
    }

    /** `pseudoClass(value)`. */
    method PseudoClass(value: string) returns (r: Result<CssSelector, SelectorError>)
      modifies this
      ensures Performed(this, old(State()), Call(PseudoClassCat, value), State(), r)
    {
      if pseudoElementName != "" {
        return Err(WrongOrder);
      }
      pseudoClassNames := pseudoClassNames + [":" + value];
      return Ok(this);
    }

    /** `pseudoElement(value)`. */
    method PseudoElement(value: string) returns (r: Result<CssSelector, SelectorError>)
      modifies this
      ensures Performed(this, old(State()), Call(PseudoElementCat, value), State(), r)
    {
      if pseudoElementName != "" {
        return Err(AlreadyDefined(PseudoElementCat));
      }
      pseudoElementName := "::" + value;
      return Ok(this);
    }
  }

  /**
   * What a fluent call on `self` did: on success the fields are those `Step`
   * gives and the call returned `self`; on failure it threw `Step`'s error and
   * left every field as it was.
   */
  ghost predicate Performed(self: CssSelector, before: Parts, c: Call, after: Parts, r: Result<CssSelector, SelectorError>)
  {
    match Step(before, c)
    case Ok(q) => r == Ok(self) && after == q
    case Err(e) => r == Err(e) && after == before
  }

  /** Either kind of selector, as `combine` accepts them. */
  datatype Selector = Simple(css: CssSelector) | Combined(combined: CombinedSelector)
  {
    function Obj(): object
    {
      if Simple? then css else combined
    }

    /** `getSelectorsArray()` of either class. */
    function SelectorsArray(): seq<string>
      reads Obj()
    {
      if Simple? then css.State().SelectorsArray() else combined.selectors
    }

    /** `stringify()` of either class. */
    function Stringify(): string
      reads Obj()
    {
      Concat(SelectorsArray())
    }
  }

  /** The fragments of `combine(left, combinator, right)`. */
  function CombineArrays(left: seq<string>, combinator: string, right: seq<string>): (r: seq<string>)
    ensures Concat(r) == Concat(left) + " " + combinator + " " + Concat(right)
  {
    ConcatAppend(left + [" " + combinator + " "], right);
    ConcatAppend(left, [" " + combinator + " "]);
    left + [" " + combinator + " "] + right
  }

  /** Nested combinations flatten to the same fragments whichever way they are grouped. */
  lemma CombineNests(a: seq<string>, c1: string, b: seq<string>, c2: string, d: seq<string>)
    ensures CombineArrays(a, c1, CombineArrays(b, c2, d)) == CombineArrays(CombineArrays(a, c1, b), c2, d)
  {
  }

  /** A well-ordered chain renders as its fragments. */
  lemma RunRenders(calls: seq<Call>, expected: string)
    requires WellOrdered(calls) && Concat(Fragments(calls)) == expected
    ensures Run(calls).Ok? && Run(calls).value.Stringify() == expected
  {
    RunSucceedsIffWellOrdered(calls);
  }

  /** Combining `a[href$=".png"]:focus` with itself using `~`. */
  lemma ExampleCombineWithItself()
    ensures Run(LinkFocusCalls()).Ok?
    ensures var s := Run(LinkFocusCalls()).value.SelectorsArray();
      Concat(CombineArrays(s, "~", s)) == "a[href$=\".png\"]:focus ~ a[href$=\".png\"]:focus"
  {
    ExampleAttrAndPseudoClass();
    var s := Run(LinkFocusCalls()).value.SelectorsArray();
    CombineSpaced(s, "~", s);
    LinkFocusTwice("a[href$=\".png\"]:focus");
  }

  lemma LinkFocusTwice(link: string)
    requires link == "a[href$=\".png\"]:focus"
    ensures link + (" " + "~" + " ") + link == "a[href$=\".png\"]:focus ~ a[href$=\".png\"]:focus"
  {
    assert " " + "~" + " " == " ~ ";
  }

  lemma ConcatPair(a: string, b: string)
    ensures Concat([a, b]) == a + b
  {
    assert [a, b][1..] == [b];
    assert Concat([b]) == b;
  }

  lemma ConcatThree(a: string, b: string, c: string)
    ensures Concat([a, b, c]) == a + b + c
  {
    assert [a, b, c][1..] == [b, c];
    ConcatPair(b, c);
  }

  lemma ConcatFour(a: string, b: string, c: string, d: string)
    ensures Concat([a, b, c, d]) == a + b + c + d
  {
    assert [a, b, c, d][1..] == [b, c, d];
    assert [b, c, d][1..] == [c, d];
    ConcatPair(c, d);
  }

  function DivCalls(): seq<Call>
  {
    [Call(ElementCat, "div"), Call(IdCat, "main"), Call(ClassCat, "container"), Call(ClassCat, "draggable")]
  }

  function TableCalls(): seq<Call> { [Call(ElementCat, "table"), Call(IdCat, "data")] }

  function RowCalls(): seq<Call> { [Call(ElementCat, "tr"), Call(PseudoClassCat, "nth-of-type(even)")] }

  function CellCalls(): seq<Call> { [Call(ElementCat, "td"), Call(PseudoClassCat, "nth-of-type(even)")] }

  lemma DivFragmentList()
    ensures Fragments(DivCalls()) == ["div", "#main", ".container", ".draggable"]
  {
    assert "#" + "main" == "#main";
    assert "." + "container" == ".container";
    assert "." + "draggable" == ".draggable";
  }

  lemma DivFragments()
    ensures Concat(Fragments(DivCalls())) == "div#main.container.draggable"
  {
    DivFragmentList();
    ConcatFour("div", "#main", ".container", ".draggable");
    DivSpelling();
  }

  /** Spelling only, for the proof of `ExampleDiv`: the four fragments joined. */
  lemma DivSpelling()
    ensures "div" + "#main" + ".container" + ".draggable" == "div#main.container.draggable"
  {
  }

  lemma DivWellOrdered()
    ensures WellOrdered(DivCalls())
  {
  }

  lemma ExampleDiv()
    ensures Run(DivCalls()).Ok? && Run(DivCalls()).value.Stringify() == "div#main.container.draggable"
  {
    DivWellOrdered();
    DivFragments();
    RunRenders(DivCalls(), "div#main.container.draggable");
  }

  /** A chain of two compatible calls renders as `expected` when their two fragments spell it. */
  lemma PairRenders(first: Call, second: Call, expected: string)
    requires Compatible(first, second) && Fragment(first) + Fragment(second) == expected
    ensures Run([first, second]).Ok? && Run([first, second]).value.Stringify() == expected
  {
    var calls := [first, second];
    assert WellOrdered(calls) by {
      forall i, j | 0 <= i < j < |calls| ensures Compatible(calls[i], calls[j]) {
        assert i == 0 && j == 1;
      }
    }
    assert Fragments(calls) == [Fragment(first), Fragment(second)] by {
      assert calls[..1] == [first];
      assert calls[..1][..0] == [];
    }
    ConcatPair(Fragment(first), Fragment(second));
    RunRenders(calls, expected);
  }

  lemma ExampleTable()
    ensures Run(TableCalls()).Ok? && Run(TableCalls()).value.Stringify() == "table#data"
  {
    PairRenders(Call(ElementCat, "table"), Call(IdCat, "data"), "table#data");
  }

  lemma ExampleRow()
    ensures Run(RowCalls()).Ok? && Run(RowCalls()).value.Stringify() == "tr:nth-of-type(even)"
  {
    PseudoClassAfterElement("tr", "nth-of-type(even)", "tr:nth-of-type(even)");
    PairRenders(Call(ElementCat, "tr"), Call(PseudoClassCat, "nth-of-type(even)"), "tr:nth-of-type(even)");
  }

  lemma ExampleCell()
    ensures Run(CellCalls()).Ok? && Run(CellCalls()).value.Stringify() == "td:nth-of-type(even)"
  {
    PseudoClassAfterElement("td", "nth-of-type(even)", "td:nth-of-type(even)");
    PairRenders(Call(ElementCat, "td"), Call(PseudoClassCat, "nth-of-type(even)"), "td:nth-of-type(even)");
  }

  /** An element followed by a pseudo-class spells `element:pseudo-class`. */
  lemma PseudoClassAfterElement(element: string, pseudoClass: string, expected: string)
    requires expected == element + ":" + pseudoClass
    ensures Fragment(Call(ElementCat, element)) + Fragment(Call(PseudoClassCat, pseudoClass)) == expected
    ensures Compatible(Call(ElementCat, element), Call(PseudoClassCat, pseudoClass))
  {
  }

  /**
   * The nested combination documented with the builder:
   * `div#main.container.draggable + table#data ~ tr:nth-of-type(even)   td:nth-of-type(even)`,
   * written below as its four selectors and its three spaced combinators.
   */
  lemma ExampleNestedCombination()
    ensures Run(DivCalls()).Ok? && Run(TableCalls()).Ok? && Run(RowCalls()).Ok? && Run(CellCalls()).Ok?
    ensures Concat(CombineArrays(Run(DivCalls()).value.SelectorsArray(), "+",
              CombineArrays(Run(TableCalls()).value.SelectorsArray(), "~",
                CombineArrays(Run(RowCalls()).value.SelectorsArray(), " ", Run(CellCalls()).value.SelectorsArray()))))
         == "div#main.container.draggable" + " + " + ("table#data" + " ~ " + ("tr:nth-of-type(even)" + "   " + "td:nth-of-type(even)"))
  {
    ExampleDiv(); ExampleTable(); ExampleRow(); ExampleCell();
    var a, b, c, d := Run(DivCalls()).value.SelectorsArray(), Run(TableCalls()).value.SelectorsArray(),
      Run(RowCalls()).value.SelectorsArray(), Run(CellCalls()).value.SelectorsArray();
    NestedSpacing(a, b, c, d);
  }

  /** `a + b ~ c   d`: each combinator is rendered with one space on each side. */
  lemma NestedSpacing(a: seq<string>, b: seq<string>, c: seq<string>, d: seq<string>)
    ensures Concat(CombineArrays(a, "+", CombineArrays(b, "~", CombineArrays(c, " ", d))))
         == Concat(a) + " + " + (Concat(b) + " ~ " + (Concat(c) + "   " + Concat(d)))
  {
    CombineSpaced(a, "+", CombineArrays(b, "~", CombineArrays(c, " ", d)));
    CombineSpaced(b, "~", CombineArrays(c, " ", d));
    CombineSpaced(c, " ", d);
    assert " " + "+" + " " == " + " && " " + "~" + " " == " ~ " && " " + " " + " " == "   ";
  }

  /** Joining with a combinator puts one space on each side of it. */
  lemma CombineSpaced(left: seq<string>, combinator: string, right: seq<string>)
    ensures Concat(CombineArrays(left, combinator, right)) == Concat(left) + (" " + combinator + " ") + Concat(right)
  {
  }

  /** `class CombinedSelector`: the already rendered fragments of a combination. */
  class CombinedSelector {
    var selectors: seq<string>

    constructor (selectors: seq<string>)
      ensures this.selectors == selectors
    {
      this.selectors := selectors;
    }

    /** `CombinedSelector.combine`: a new selector; the operands are not changed. */
    static method Combine(selector1: Selector, combinator: string, selector2: Selector) returns (r: CombinedSelector)
      ensures fresh(r)
      ensures r.selectors == CombineArrays(selector1.SelectorsArray(), combinator, selector2.SelectorsArray())
      ensures Combined(r).Stringify() == selector1.Stringify() + " " + combinator + " " + selector2.Stringify()
    {
      r := new CombinedSelector(CombineArrays(selector1.SelectorsArray(), combinator, selector2.SelectorsArray()));
    }
  }

  // ---------------------------------------------------------------------------
  // The `cssSelectorBuilder` facade: each entry starts a fresh selector.

  /** A fresh selector accepts any first call. */
  lemma FreshAcceptsAnyCall(c: Call)
    ensures Step(Empty, c).Ok?
    ensures Step(Empty, c).value.Stringify() == Fragment(c)
  {
    StepAppendsFragment(Empty, c);
  }

  method BuildElement(value: string) returns (s: CssSelector)
    ensures fresh(s) && s.State() == Step(Empty, Call(ElementCat, value)).value
  {
    s := new CssSelector();
    var _ := s.Element(value);
  }

  method BuildId(value: string) returns (s: CssSelector)
    ensures fresh(s) && s.State() == Step(Empty, Call(IdCat, value)).value
  {
    s := new CssSelector();
    var _ := s.Id(value);
  }

  method BuildClass(value: string) returns (s: CssSelector)
    ensures fresh(s) && s.State() == Step(Empty, Call(ClassCat, value)).value
  {
    s := new CssSelector();
    var _ := s.Class(value);
  }

  method BuildAttr(value: string) returns (s: CssSelector)
    ensures fresh(s) && s.State() == Step(Empty, Call(AttrCat, value)).value
  {
    s := new CssSelector();
    var _ := s.Attr(value);
  }

  method BuildPseudoClass(value: string) returns (s: CssSelector)
    ensures fresh(s) && s.State() == Step(Empty, Call(PseudoClassCat, value)).value
  {
    s := new CssSelector();
    var _ := s.PseudoClass(value);
  }

  method BuildPseudoElement(value: string) returns (s: CssSelector)
    ensures fresh(s) && s.State() == Step(Empty, Call(PseudoElementCat, value)).value
  {
    s := new CssSelector();
    var _ := s.PseudoElement(value);
  }

  method BuildCombine(selector1: Selector, combinator: string, selector2: Selector) returns (r: CombinedSelector)
    ensures fresh(r)
    ensures Combined(r).Stringify() == selector1.Stringify() + " " + combinator + " " + selector2.Stringify()
  {
    r := CombinedSelector.Combine(selector1, combinator, selector2);
  }
}
