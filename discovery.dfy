/**
 * `ElementDiscovery`'s pure half: the risk level of an element, read off keyword
 * lists in its lower-cased text, and the sorting of the visible elements into the
 * six buckets the tester works through. Finding the elements on the page runs
 * JavaScript in the browser and is not part of this model.
 */
module Discovery {
  import opened Wrappers
  import opened Text
  import opened Models

  const CriticalPatterns: seq<string> :=
    ["delete", "destroy", "remove", "删除", "移除", "注销账户", "注销账号", "delete account", "remove account"]
  const HighPatterns: seq<string> :=
    ["pay", "checkout", "purchase", "支付", "结算", "logout", "signout", "登出", "退出"]
  const MediumPatterns: seq<string> :=
    ["export", "download", "导出", "下载", "reset", "clear", "重置", "清空"]

  /** The phrases that make an element an account deletion. */
  const AccountDeletionPatterns: seq<string> :=
    ["注销账户", "注销账号", "删除账户", "delete account", "remove account", "destroy account", "注销用户"]

  /** The words that send a HIGH-risk element to the logout bucket. */
  const LogoutWords: seq<string> := ["logout", "登出", "退出", "signout"]

  /** `_should_be_critical`: the lower-cased text names an account deletion. */
  predicate ShouldBeCritical(e: InteractiveElement) {
    ContainsAny(Lower(e.text), AccountDeletionPatterns)
  }

  /**
   * `get_element_risk`: CRITICAL keywords first, then the account-deletion phrases,
   * then HIGH, then MEDIUM keywords; anything else is LOW.
   */
  function ElementRisk(e: InteractiveElement): (r: RiskLevel)
    ensures r == Critical <==> ContainsAny(Lower(e.text), CriticalPatterns) || ShouldBeCritical(e)
    ensures r == High <==>
      !ContainsAny(Lower(e.text), CriticalPatterns) && !ShouldBeCritical(e) && ContainsAny(Lower(e.text), HighPatterns)
    ensures r == Medium <==>
      && !ContainsAny(Lower(e.text), CriticalPatterns) && !ShouldBeCritical(e)
      && !ContainsAny(Lower(e.text), HighPatterns) && ContainsAny(Lower(e.text), MediumPatterns)
    ensures r == Low <==>
      && !ContainsAny(Lower(e.text), CriticalPatterns) && !ShouldBeCritical(e)
      && !ContainsAny(Lower(e.text), HighPatterns) && !ContainsAny(Lower(e.text), MediumPatterns)
  {
    var t := Lower(e.text);
    if ContainsAny(t, CriticalPatterns) then Critical
    else if ShouldBeCritical(e) then Critical
    else if ContainsAny(t, HighPatterns) then High
    else if ContainsAny(t, MediumPatterns) then Medium
    else Low
  }

  /** A sequence that holds `p + q` at `i` holds `p` at `i`. */
  lemma OccursPrefix(s: string, p: string, q: string, i: int)
    requires OccursAt(s, p + q, i)
    ensures OccursAt(s, p, i)
  {
    assert s[i..i + |p|] == (p + q)[..|p|];
  }

  /** A text containing `p + q` contains `p`. */
  lemma ContainsPrefix(s: string, p: string, q: string)
    requires Contains(s, p + q)
    ensures Contains(s, p)
  {
    var i :| 0 <= i <= |s| - |p + q| && OccursAt(s, p + q, i);
    OccursPrefix(s, p, q, i);
  }

  /**
   * Of the account-deletion phrases, only `注销用户` is not already caught by a
   * CRITICAL keyword: `_should_be_critical` changes the verdict only for it.
   */
  lemma AccountCheckAddsOnlyUserDeletion(e: InteractiveElement)
    requires ShouldBeCritical(e) && !ContainsAny(Lower(e.text), CriticalPatterns)
    ensures Contains(Lower(e.text), "注销用户")
  {
    var t := Lower(e.text);
    var k :| k in AccountDeletionPatterns && Contains(t, k);
    if k != "注销用户" {
      CaughtByCritical(t, k);
      assert false;
    }
  }

  /** Every account-deletion phrase but `注销用户` contains a CRITICAL keyword. */
  lemma CaughtByCritical(t: string, k: string)
    requires k in AccountDeletionPatterns && k != "注销用户" && Contains(t, k)
    ensures ContainsAny(t, CriticalPatterns)
  {
    if k == "删除账户" {
      assert k == "删除" + "账户";
      ContainsPrefix(t, "删除", "账户");
      assert CriticalPatterns[3] == "删除";
    } else if k == "destroy account" {
      assert k == "destroy" + " account";
      ContainsPrefix(t, "destroy", " account");
      assert CriticalPatterns[1] == "destroy";
    } else {
      assert k in CriticalPatterns;
    }
  }

  /** The empty string contains no keyword of any list. */
  lemma EmptyContainsNoKeyword(kws: seq<string>)
    requires forall k :: k in kws ==> k != ""
    ensures !ContainsAny("", kws)
  {
  }

  /** An element with no text is LOW risk. */
  lemma EmptyTextIsLow(e: InteractiveElement)
    requires e.text == ""
    ensures ElementRisk(e) == Low
  {
    EmptyContainsNoKeyword(CriticalPatterns);
    EmptyContainsNoKeyword(AccountDeletionPatterns);
    EmptyContainsNoKeyword(HighPatterns);
    EmptyContainsNoKeyword(MediumPatterns);
  }

  /** An element labelled `text` and nothing else. */
  function Labelled(text: string): (e: InteractiveElement)
    ensures e.text == text && e.visible
  {
    InteractiveElement("button", "#b", text, None, true, None, None, None, None, None, None, None, None, [])
  }

  /** No two-character text other than the keyword itself contains a keyword of length two or more. */
  lemma TwoCharContains(s: string, k: string)
    requires |s| == 2 && |k| >= 2
    ensures Contains(s, k) <==> s == k
  {
    if Contains(s, k) {
      var i :| 0 <= i <= |s| - |k| && OccursAt(s, k, i);
      assert i == 0;
    }
    if s == k {
      assert OccursAt(s, k, 0);
    }
  }

  /**
   * As written, a button labelled just `注销` (log out) is LOW risk: the HIGH list
   * leaves the word out on purpose and the account-deletion check never adds it back.
   */
  lemma StandaloneDeregisterIsLow()
    ensures ElementRisk(Labelled("注销")) == Low
  {
    var t := "注销";
    assert Lower(t) == t;
    forall k | k in CriticalPatterns + AccountDeletionPatterns + HighPatterns + MediumPatterns
      ensures !Contains(t, k)
    {
      TwoCharContains(t, k);
    }
  }

  /** The HIGH keywords with the standalone `注销` the comments on the HIGH list assign to it. */
  const IntendedHighPatterns: seq<string> := HighPatterns + ["注销"]

  /**
   * The risk level as the documentation of `get_element_risk` and
   * `_should_be_critical` describes it: `注销` alone is a logout (HIGH), while the
   * account phrases keep it CRITICAL because they are checked first.
   */
  function ElementRiskIntended(e: InteractiveElement): (r: RiskLevel)
    ensures r == Critical <==> ElementRisk(e) == Critical
    ensures r == High <==>
      ElementRisk(e) == High || (ElementRisk(e) in {Medium, Low} && Contains(Lower(e.text), "注销"))
    ensures !Contains(Lower(e.text), "注销") ==> r == ElementRisk(e)
  {
    var t := Lower(e.text);
    if ContainsAny(t, CriticalPatterns) || ShouldBeCritical(e) then Critical
    else if ContainsAny(t, IntendedHighPatterns) then High
    else if ContainsAny(t, MediumPatterns) then Medium
    else Low
  }

  /** With the corrected lists, `注销` alone is HIGH and `注销账户` stays CRITICAL. */
  lemma IntendedDeregisterLevels()
    ensures ElementRiskIntended(Labelled("注销")) == High
    ensures ElementRiskIntended(Labelled("注销账户")) == Critical
  {
    StandaloneDeregisterIsLow();
    assert Lower("注销") == "注销";
    assert OccursAt("注销", "注销", 0);
    assert Lower("注销账户") == "注销账户";
    assert OccursAt("注销账户", "注销账户", 0);
    assert "注销账户" in CriticalPatterns;
  }

  /** The six buckets of `categorize_elements`. */
  datatype Category = Safe | Dangerous | LogoutAction | Navigation | FormInput | FormSelection

  /**
   * The bucket of a visible element: CRITICAL first, then HIGH with a logout word,
   * then links, text inputs, choice inputs, and everything else is safe.
   */
  function CategoryOf(e: InteractiveElement): (c: Category)
    ensures c == Dangerous <==> ElementRisk(e) == Critical
    ensures c == LogoutAction <==> ElementRisk(e) == High && ContainsAny(Lower(e.text), LogoutWords)
    ensures c in {Navigation, FormInput, FormSelection, Safe} <==>
      ElementRisk(e) != Critical && !(ElementRisk(e) == High && ContainsAny(Lower(e.text), LogoutWords))
    ensures c == Navigation ==> e.kind == "link"
    ensures c == FormInput ==> e.kind in {"input", "textarea"}
    ensures c == FormSelection ==> e.kind in {"select", "checkbox", "radio"}
    ensures c == Safe ==> e.kind !in {"link", "input", "textarea", "select", "checkbox", "radio"}
  {
    var risk := ElementRisk(e);
    if risk == Critical then Dangerous
    else if risk == High && ContainsAny(Lower(e.text), LogoutWords) then LogoutAction
    else if e.kind == "link" then Navigation
    else if e.kind in {"input", "textarea"} then FormInput
    else if e.kind in {"select", "checkbox", "radio"} then FormSelection
    else Safe
  }

  /**
   * The corrected risk level sorts every element into the same bucket: a text that
   * is HIGH only because of `注销` has no logout word, so it falls through the
   * same checks that a MEDIUM or LOW text does.
   */
  lemma CategoryUnaffectedByFix(e: InteractiveElement)
    ensures
      var risk := ElementRiskIntended(e);
      var fixed :=
        if risk == Critical then Dangerous
        else if risk == High && ContainsAny(Lower(e.text), LogoutWords) then LogoutAction
        else if e.kind == "link" then Navigation
        else if e.kind in {"input", "textarea"} then FormInput
        else if e.kind in {"select", "checkbox", "radio"} then FormSelection
        else Safe;
      fixed == CategoryOf(e)
  {
  }

  /** The six lists `categorize_elements` returns. */
  datatype Buckets = Buckets(
    safe: seq<InteractiveElement>,
    dangerous: seq<InteractiveElement>,
    logout: seq<InteractiveElement>,
    links: seq<InteractiveElement>,
    inputs: seq<InteractiveElement>,
    selections: seq<InteractiveElement>)
  {
    function Get(c: Category): seq<InteractiveElement> {
      match c
      case Safe => safe
      case Dangerous => dangerous
      case LogoutAction => logout
      case Navigation => links
      case FormInput => inputs
      case FormSelection => selections
    }

    function Push(c: Category, e: InteractiveElement): (b: Buckets)
      ensures b.Get(c) == Get(c) + [e]
      ensures forall d :: d != c ==> b.Get(d) == Get(d)
    {
      match c
      case Safe => this.(safe := safe + [e])
      case Dangerous => this.(dangerous := dangerous + [e])
      case LogoutAction => this.(logout := logout + [e])
      case Navigation => this.(links := links + [e])
      case FormInput => this.(inputs := inputs + [e])
      case FormSelection => this.(selections := selections + [e])
    }
  }

  /** The visible elements of `es` whose bucket is `c`, in page order. */
  function InCategory(es: seq<InteractiveElement>, c: Category): seq<InteractiveElement> {
    if es == [] then []
    else
      var last := es[|es| - 1];
      InCategory(es[..|es| - 1], c) + (if last.visible && CategoryOf(last) == c then [last] else [])
  }

  /** `categorize_elements`: one pass over the elements, appending each visible one to its bucket. */
  method CategorizeElements(elements: seq<InteractiveElement>) returns (b: Buckets)
    ensures forall c :: b.Get(c) == InCategory(elements, c)
  {
    b := Buckets([], [], [], [], [], []);
    for i := 0 to |elements|
      invariant forall c :: b.Get(c) == InCategory(elements[..i], c)
    {
      var e := elements[i];
      assert elements[..i + 1][..i] == elements[..i];
      if e.visible {
        b := b.Push(CategoryOf(e), e);
      }
    }
    assert elements[..|elements|] == elements;
  }

  /** The visible elements, in page order. */
  function Visible(es: seq<InteractiveElement>): seq<InteractiveElement> {
    if es == [] then []
    else
      var last := es[|es| - 1];
      Visible(es[..|es| - 1]) + (if last.visible then [last] else [])
  }

  /** An element lands in bucket `c` exactly when it is visible and `c` is its category. */
  lemma {:induction false} InCategoryMembers(es: seq<InteractiveElement>, c: Category, x: InteractiveElement)
    ensures x in InCategory(es, c) <==> x in es && x.visible && CategoryOf(x) == c
  {
    if es != [] {
      var init := es[..|es| - 1];
      assert es == init + [es[|es| - 1]];
      InCategoryMembers(init, c, x);
    }
  }

  /** The buckets partition the visible elements: their sizes add up to the number of visible elements. */
  lemma {:induction false} BucketsPartition(es: seq<InteractiveElement>)
    ensures |InCategory(es, Safe)| + |InCategory(es, Dangerous)| + |InCategory(es, LogoutAction)|
          + |InCategory(es, Navigation)| + |InCategory(es, FormInput)| + |InCategory(es, FormSelection)|
         == |Visible(es)|
  {
    if es != [] {
      BucketsPartition(es[..|es| - 1]);
    }
  }
}
