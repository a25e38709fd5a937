/**
 * `DependencyAnalyzer`'s pairwise rules: for two elements, the dependencies that
 * say which of them must run first. The form and dangerous-keyword rules look at
 * the elements alone; the DOM, state and sequential rules ask the page, whose
 * answers come in as a `Page` value.
 */
module Rules {
  import opened Wrappers
  import opened Text
  import opened Models

  datatype DependencyType = FormGroup | DomParent | StateDependent | Sequential | Temporal | SafeParallel

  /** The enum's string value, stored as the edge's `type` attribute. */
  function TypeValue(t: DependencyType): string {
    match t
    case FormGroup => "form_group"
    case DomParent => "dom_parent"
    case StateDependent => "state_dependent"
    case Sequential => "sequential"
    case Temporal => "temporal"
    case SafeParallel => "safe_parallel"
  }

  /** `source` runs after `target`. */
  datatype ElementDependency = ElementDependency(source: string, target: string, depType: DependencyType, reason: string, weight: int)

  /** What the page script reports about two elements; a failed script reads as `DomNone`. */
  datatype DomRelation = DomNone | E1ContainsE2 | E2ContainsE1 | CommonTab | CommonComponent

  /**
   * The answers of the page scripts, keyed by the two selectors: the DOM relation,
   * whether the two centres are closer than 200 pixels, and whether they share a
   * list-item container.
   */
  datatype Page = Page(
    dom: (string, string) -> DomRelation,
    close: (string, string) -> bool,
    sameContainer: (string, string) -> bool)

  const FormSubmitKeywords: seq<string> :=
    ["submit", "save", "create", "register", "login", "提交", "保存", "创建", "注册", "登录", "发送"]

  const StateTriggerKeywords: seq<string> :=
    ["agree", "accept", "confirm", "checkbox", "同意", "接受", "确认"]

  const DependentActionKeywords: seq<string> := ["register", "signup", "submit", "注册"]

  /** The (increase, decrease) keyword pairs of the sequential rule. */
  const SequentialPairs: seq<(seq<string>, seq<string>)> := [
    (["+", "add", "增加", "increment"], ["-", "remove", "减少", "decrement"]),
    (["up", "上", "previous"], ["down", "下", "next"]),
    (["open", "打开", "expand"], ["close", "关闭", "collapse"])]

  /** The dangerous keywords; `_is_dangerous_element` of the graph uses the same list. */
  const DangerousKeywords: seq<string> :=
    ["delete", "destroy", "remove", "pay", "checkout", "删除", "移除", "支付", "结算"]

  /** The lower-cased text contains one of `kws`. */
  predicate TextHasAny(e: InteractiveElement, kws: seq<string>) {
    ContainsAny(Lower(e.text), kws)
  }

  predicate IsDangerous(e: InteractiveElement) {
    TextHasAny(e, DangerousKeywords)
  }

  predicate IsSubmitButton(e: InteractiveElement) {
    e.kind == "button" && TextHasAny(e, FormSubmitKeywords)
  }

  predicate IsFormInput(e: InteractiveElement) {
    e.kind in ["input", "select", "checkbox", "radio", "textarea"]
  }

  /** Both elements carry the same non-empty form id. */
  predicate SameForm(e1: InteractiveElement, e2: InteractiveElement) {
    e1.formId.Some? && e2.formId.Some? && e1.formId.value != "" && e1.formId == e2.formId
  }

  function FormReason(formId: string, field: string, button: string): string {
    "表单'" + formId + "': 字段'" + field + "'必须在提交按钮'" + button + "'之前填充"
  }

  /** `_check_form_dependency`: a form field must be filled before the submit button of the same form is pressed. */
  function CheckForm(e1: InteractiveElement, e2: InteractiveElement): (r: Option<ElementDependency>)
    ensures Joins(r, e1, e2)
    ensures r.Some? <==> SameForm(e1, e2) && ((IsFormInput(e1) && IsSubmitButton(e2)) || (IsFormInput(e2) && IsSubmitButton(e1)))
    ensures r.Some? ==> r.value.depType == FormGroup && r.value.weight == 10
    ensures r.Some? && IsFormInput(e1) && IsSubmitButton(e2) ==> r.value.target == e1.selector && r.value.source == e2.selector
    ensures r.Some? && IsFormInput(e2) && IsSubmitButton(e1) ==> r.value.target == e2.selector && r.value.source == e1.selector
  {
    if SameForm(e1, e2) then
      if IsFormInput(e1) && IsSubmitButton(e2) then
        Some(ElementDependency(e2.selector, e1.selector, FormGroup, FormReason(e1.formId.value, e1.text, e2.text), 10))
      else if IsFormInput(e2) && IsSubmitButton(e1) then
        Some(ElementDependency(e1.selector, e2.selector, FormGroup, FormReason(e2.formId.value, e2.text, e1.text), 10))
      else None
    else None
  }

  /** The field goes first whichever order the pair comes in: swapping the pair gives the same edge. */
  lemma CheckFormSymmetric(e1: InteractiveElement, e2: InteractiveElement)
    ensures CheckForm(e1, e2) == CheckForm(e2, e1)
  {
    assert IsSubmitButton(e1) ==> !IsFormInput(e1);
    assert IsSubmitButton(e2) ==> !IsFormInput(e2);
  }

  /** `_check_dom_dependency`: a containing element goes first; elements of one tab or accordion run in pair order. */
  function CheckDom(e1: InteractiveElement, e2: InteractiveElement, rel: DomRelation): (r: Option<ElementDependency>)
    ensures Joins(r, e1, e2)
    ensures r.Some? <==> rel != DomNone
    ensures r.Some? ==> r.value.depType == DomParent
    ensures rel == E2ContainsE1 ==> r.value.target == e2.selector && r.value.source == e1.selector && r.value.weight == 5
    ensures rel == E1ContainsE2 ==> r.value.target == e1.selector && r.value.source == e2.selector && r.value.weight == 5
    ensures rel in {CommonTab, CommonComponent} ==> r.value.target == e1.selector && r.value.source == e2.selector && r.value.weight == 3
  {
    match rel
    case E1ContainsE2 => Some(ElementDependency(e2.selector, e1.selector, DomParent, "DOM关系: '" + e1.text + "'是父容器，必须先操作", 5))
    case E2ContainsE1 => Some(ElementDependency(e1.selector, e2.selector, DomParent, "DOM关系: '" + e2.text + "'是父容器，必须先操作", 5))
    case CommonTab => Some(ElementDependency(e2.selector, e1.selector, DomParent, "同组件(Tab/Accordion)内元素需要串行操作", 3))
    case CommonComponent => Some(ElementDependency(e2.selector, e1.selector, DomParent, "同组件(Tab/Accordion)内元素需要串行操作", 3))
    case DomNone => None
  }

  predicate IsTrigger(e: InteractiveElement) {
    e.kind == "checkbox" && TextHasAny(e, StateTriggerKeywords)
  }

  predicate IsDependentAction(e: InteractiveElement) {
    e.kind == "button" && TextHasAny(e, DependentActionKeywords)
  }

  function StateReason(box: string, button: string): string {
    "状态依赖: 必须先勾选'" + box + "'才能点击'" + button + "'"
  }

  /** `_check_state_dependency`: a nearby consent checkbox must be ticked before the register button is pressed. */
  function CheckState(e1: InteractiveElement, e2: InteractiveElement, close: bool): (r: Option<ElementDependency>)
    ensures Joins(r, e1, e2)
    ensures r.Some? <==> close && ((IsTrigger(e1) && IsDependentAction(e2)) || (IsTrigger(e2) && IsDependentAction(e1)))
    ensures r.Some? ==> r.value.depType == StateDependent && r.value.weight == 8
    ensures r.Some? && IsTrigger(e1) ==> r.value.target == e1.selector && r.value.source == e2.selector
    ensures r.Some? && IsTrigger(e2) ==> r.value.target == e2.selector && r.value.source == e1.selector
  {
    if IsTrigger(e1) && IsDependentAction(e2) && close then
      Some(ElementDependency(e2.selector, e1.selector, StateDependent, StateReason(e1.text, e2.text), 8))
    else if IsTrigger(e2) && IsDependentAction(e1) && close then
      Some(ElementDependency(e1.selector, e2.selector, StateDependent, StateReason(e2.text, e1.text), 8))
    else None
  }

  /** Both texts carry a keyword of the same increase/decrease pair. */
  predicate PairMatches(t1: string, t2: string, pair: (seq<string>, seq<string>)) {
    (ContainsAny(t1, pair.0) || ContainsAny(t1, pair.1)) && (ContainsAny(t2, pair.0) || ContainsAny(t2, pair.1))
  }

  /** The loop over the keyword pairs of `_check_sequential_dependency`, from `pairs` on. */
  function SequentialFrom(e1: InteractiveElement, e2: InteractiveElement, pairs: seq<(seq<string>, seq<string>)>, sameContainer: bool): (r: Option<ElementDependency>)
    ensures r.Some? <==> sameContainer && exists k :: 0 <= k < |pairs| && PairMatches(Lower(e1.text), Lower(e2.text), pairs[k])
    ensures r.Some? ==> r.value == ElementDependency(e2.selector, e1.selector, Sequential,
      "顺序操作: '" + e1.text + "'和'" + e2.text + "'共享计数器状态，必须串行", 10)
  {
    if pairs == [] then None
    else if PairMatches(Lower(e1.text), Lower(e2.text), pairs[0]) && sameContainer then
      Some(ElementDependency(e2.selector, e1.selector, Sequential, "顺序操作: '" + e1.text + "'和'" + e2.text + "'共享计数器状态，必须串行", 10))
    else
      var r := SequentialFrom(e1, e2, pairs[1..], sameContainer);
      assert forall k :: 1 <= k < |pairs| ==> pairs[1..][k - 1] == pairs[k];
      r
  }

  /** `_check_sequential_dependency`: two counter-like controls in one container run in pair order. */
  function CheckSequential(e1: InteractiveElement, e2: InteractiveElement, sameContainer: bool): (r: Option<ElementDependency>)
    ensures Joins(r, e1, e2)
    ensures r.Some? <==>
      sameContainer && exists k :: 0 <= k < |SequentialPairs| && PairMatches(Lower(e1.text), Lower(e2.text), SequentialPairs[k])
    ensures r.Some? ==>
      r.value.source == e2.selector && r.value.target == e1.selector && r.value.depType == Sequential && r.value.weight == 10
  {
    SequentialFrom(e1, e2, SequentialPairs, sameContainer)
  }

  function DangerReason(text: string): string {
    "危险操作'" + text + "'应该在普通操作之后执行"
  }

  /** `_check_dangerous_dependency`: a dangerous element runs after an ordinary one. */
  function CheckDangerous(e1: InteractiveElement, e2: InteractiveElement): (r: Option<ElementDependency>)
    ensures Joins(r, e1, e2)
    ensures r.Some? <==> IsDangerous(e1) != IsDangerous(e2)
    ensures r.Some? ==> r.value.depType == Temporal && r.value.weight == 6
    ensures r.Some? && IsDangerous(e1) ==> r.value.source == e1.selector && r.value.target == e2.selector
    ensures r.Some? && IsDangerous(e2) ==> r.value.source == e2.selector && r.value.target == e1.selector
  {
    if IsDangerous(e1) && !IsDangerous(e2) then
      Some(ElementDependency(e1.selector, e2.selector, Temporal, DangerReason(e1.text), 6))
    else if IsDangerous(e2) && !IsDangerous(e1) then
      Some(ElementDependency(e2.selector, e1.selector, Temporal, DangerReason(e2.text), 6))
    else None
  }

  /** The dangerous element goes last whichever order the pair comes in. */
  lemma CheckDangerousSymmetric(e1: InteractiveElement, e2: InteractiveElement)
    ensures CheckDangerous(e1, e2) == CheckDangerous(e2, e1)
  {
  }

  /** A finding, if any, links the two elements. */
  predicate Joins(o: Option<ElementDependency>, e1: InteractiveElement, e2: InteractiveElement) {
    o.Some? ==> {o.value.source, o.value.target} == {e1.selector, e2.selector}
  }

  /** How many of the findings are present. */
  function FiredCount(found: seq<Option<ElementDependency>>): nat {
    if found == [] then 0
    else FiredCount(found[..|found| - 1]) + if found[|found| - 1].Some? then 1 else 0
  }

  /** The findings that are present, in order: the one at position `k` lands after those present before it. */
  function Present(found: seq<Option<ElementDependency>>): (ds: seq<ElementDependency>)
    ensures |ds| == FiredCount(found)
    ensures forall k :: 0 <= k < |found| && found[k].Some? ==>
      FiredCount(found[..k]) < |ds| && ds[FiredCount(found[..k])] == found[k].value
    ensures forall d :: d in ds ==> Some(d) in found
  {
    if found == [] then []
    else
      var init, last := found[..|found| - 1], found[|found| - 1];
      var rest := Present(init);
      assert found == init + [last];
      assert forall k :: 0 <= k < |init| ==> found[..k] == init[..k] && found[k] == init[k];
      assert found[..|init|] == init;
      if last.Some? then rest + [last.value] else rest
  }

  /** The five rules' answers for a pair, in the order form, DOM, state, sequential, dangerous. */
  function Findings(e1: InteractiveElement, e2: InteractiveElement, page: Page): (found: seq<Option<ElementDependency>>)
    ensures |found| == 5
    ensures forall k :: 0 <= k < 5 ==> Joins(found[k], e1, e2)
  {
    [ CheckForm(e1, e2),
      CheckDom(e1, e2, page.dom(e1.selector, e2.selector)),
      CheckState(e1, e2, page.close(e1.selector, e2.selector)),
      CheckSequential(e1, e2, page.sameContainer(e1.selector, e2.selector)),
      CheckDangerous(e1, e2)]
  }

  /**
   * `_detect_dependencies`: one dependency per rule that fires, in rule order (each
   * lands after the findings of the rules before it), each joining the pair.
   */
  function DetectDependencies(e1: InteractiveElement, e2: InteractiveElement, page: Page): (deps: seq<ElementDependency>)
    ensures |deps| == FiredCount(Findings(e1, e2, page)) <= 5
    ensures forall k :: 0 <= k < 5 && Findings(e1, e2, page)[k].Some? ==>
      FiredCount(Findings(e1, e2, page)[..k]) < |deps| && deps[FiredCount(Findings(e1, e2, page)[..k])] == Findings(e1, e2, page)[k].value
    ensures forall d :: d in deps ==> {d.source, d.target} == {e1.selector, e2.selector}
  {
    var found := Findings(e1, e2, page);
    FiredCountBound(found);
    assert forall o :: o in found ==> Joins(o, e1, e2);
    Present(found)
  }

  lemma {:induction false} FiredCountBound(found: seq<Option<ElementDependency>>)
    ensures FiredCount(found) <= |found|
  {
    if found != [] {
      FiredCountBound(found[..|found| - 1]);
    }
  }

  /** Every rule that fires has its dependency among the pair's dependencies, and the form rule's comes first. */
  lemma RuleFindingsKept(e1: InteractiveElement, e2: InteractiveElement, page: Page)
    ensures CheckForm(e1, e2).Some? ==> |DetectDependencies(e1, e2, page)| > 0 && DetectDependencies(e1, e2, page)[0] == CheckForm(e1, e2).value
    ensures CheckDom(e1, e2, page.dom(e1.selector, e2.selector)).Some? ==>
      CheckDom(e1, e2, page.dom(e1.selector, e2.selector)).value in DetectDependencies(e1, e2, page)
    ensures CheckState(e1, e2, page.close(e1.selector, e2.selector)).Some? ==>
      CheckState(e1, e2, page.close(e1.selector, e2.selector)).value in DetectDependencies(e1, e2, page)
    ensures CheckSequential(e1, e2, page.sameContainer(e1.selector, e2.selector)).Some? ==>
      CheckSequential(e1, e2, page.sameContainer(e1.selector, e2.selector)).value in DetectDependencies(e1, e2, page)
    ensures CheckDangerous(e1, e2).Some? ==> CheckDangerous(e1, e2).value in DetectDependencies(e1, e2, page)
  {
    var found := Findings(e1, e2, page);
    var deps := DetectDependencies(e1, e2, page);
    assert found[..0] == [];
    forall k | 0 <= k < 5 && found[k].Some?
      ensures found[k].value in deps
    {
      assert deps[FiredCount(found[..k])] == found[k].value;
    }
    assert found[1] == CheckDom(e1, e2, page.dom(e1.selector, e2.selector));
    assert found[2] == CheckState(e1, e2, page.close(e1.selector, e2.selector));
    assert found[3] == CheckSequential(e1, e2, page.sameContainer(e1.selector, e2.selector));
    assert found[4] == CheckDangerous(e1, e2);
  }
}
