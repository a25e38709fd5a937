/**
 * `TestReport` and the API-coverage part of `EnhancedTestReport`: the Markdown
 * lines a report accumulates, its pass/fail counters, and the coverage section
 * that lists each distinct "METHOD endpoint" once and counts the calls per method
 * in sorted order. Writing the file and the clock readings in the header are not
 * modelled; the times arrive as arguments.
 */
module Report {
  import opened Text
  import opened Models

  /** One row of the results table: a check or a cross, the name, the details. */
  function ResultRow(name: string, passed: bool, details: string): string {
    "| " + (if passed then "✅" else "❌") + " " + name + " | " + details + " |"
  }

  /** `add_section`. */
  function SectionLine(title: string): string {
    "\n## " + title + "\n"
  }

  /** `add_text`. */
  function TextLine(text: string): string {
    text + "\n"
  }

  /** The lines `_init_header` writes. */
  function Header(url: string, operation: string, readableTime: string, timestamp: string): seq<string> {
    [ "# 浏览器集成测试报告\n",
      "## 测试元数据\n",
      "| 字段 | 值 |",
      "|-------|-------|",
      "| **URL** | " + url + " |",
      "| **操作类型** | " + operation + " |",
      "| **时间戳** | " + readableTime + " |",
      "| **测试 ID** | " + timestamp + " |",
      "| **脚本版本** | 4.1.0 (Python Enhanced) |\n",
      "## 测试摘要\n",
      "<!-- SUMMARY_PLACEHOLDER -->\n" ]
  }

  /** The de-duplication key of a call: `"METHOD endpoint"`. */
  function Key(a: ApiCall): string {
    a.httpMethod + " " + a.endpoint
  }

  function Method(a: ApiCall): string {
    a.httpMethod
  }

  function Itself(s: string): string {
    s
  }

  /** The keys of the elements of `s`. */
  function KeysOf<T(==)>(s: seq<T>, key: T -> string): set<string> {
    set x | x in s :: key(x)
  }

  /**
   * The first element of `s` for each key, in the order the keys first appear: what
   * a dict filled with `if key not in d: d[key] = x` holds, read back in order.
   */
  function Dedup<T(==)>(s: seq<T>, key: T -> string): seq<T> {
    if s == [] then []
    else
      var init, last := s[..|s| - 1], s[|s| - 1];
      if key(last) in KeysOf(init, key) then Dedup(init, key) else Dedup(init, key) + [last]
  }

  /** `x` occurs in `s` and no earlier element has its key. */
  ghost predicate FirstOfKey<T>(s: seq<T>, key: T -> string, x: T) {
    exists i :: 0 <= i < |s| && s[i] == x && forall j :: 0 <= j < i ==> key(s[j]) != key(x)
  }

  predicate KeysDistinct<T(==)>(s: seq<T>, key: T -> string) {
    forall i, j :: 0 <= i < j < |s| ==> key(s[i]) != key(s[j])
  }

  /**
   * De-duplication keeps exactly one element per key, the first one with that key,
   * and loses no key.
   */
  lemma {:induction false} DedupFirstPerKey<T>(s: seq<T>, key: T -> string)
    ensures KeysDistinct(Dedup(s, key), key)
    ensures KeysOf(Dedup(s, key), key) == KeysOf(s, key)
    ensures forall x :: x in Dedup(s, key) ==> FirstOfKey(s, key, x)
  {
    if s != [] {
      var init, last := s[..|s| - 1], s[|s| - 1];
      DedupFirstPerKey(init, key);
      assert s == init + [last];
      KeysOfPush(init, last, key);
      forall x | x in Dedup(init, key)
        ensures FirstOfKey(s, key, x)
      {
        var i :| 0 <= i < |init| && init[i] == x && forall j :: 0 <= j < i ==> key(init[j]) != key(x);
        assert s[i] == x;
      }
      if key(last) !in KeysOf(init, key) {
        var d := Dedup(init, key);
        assert Dedup(s, key) == d + [last];
        KeysOfPush(d, last, key);
        forall j | 0 <= j < |init|
          ensures key(s[j]) != key(last)
        {
          assert init[j] in init;
        }
        assert s[|init|] == last;
        assert FirstOfKey(s, key, last);
        forall i | 0 <= i < |d|
          ensures key(d[i]) != key(last)
        {
          assert d[i] in d;
        }
      }
    }
  }

  lemma KeysOfPush<T>(s: seq<T>, x: T, key: T -> string)
    ensures KeysOf(s + [x], key) == KeysOf(s, key) + {key(x)}
  {
    assert forall y :: y in s + [x] <==> y in s || y == x;
  }

  /** `api.status` is a success code. */
  predicate Is2xx(status: int) {
    200 <= status < 300
  }

  /** One row of the coverage table. */
  function ApiRow(a: ApiCall): string {
    "| " + a.httpMethod + " | " + a.endpoint + " | " + (if Is2xx(a.status) then "✅" else "❌") + " "
      + IntToString(a.status) + " | " + IntToString(a.timing) + "ms |"
  }

  function ApiRows(apis: seq<ApiCall>): (rows: seq<string>)
    ensures |rows| == |apis|
    ensures forall i :: 0 <= i < |apis| ==> rows[i] == ApiRow(apis[i])
  {
    if apis == [] then [] else [ApiRow(apis[0])] + ApiRows(apis[1..])
  }

  /** How many of `apis` use `m`. */
  function MethodCount(apis: seq<ApiCall>, m: string): nat {
    if apis == [] then 0
    else MethodCount(apis[..|apis| - 1], m) + (if apis[|apis| - 1].httpMethod == m then 1 else 0)
  }

  /** The methods of `apis`, in order of first use. */
  function MethodOrder(apis: seq<ApiCall>): seq<string> {
    Dedup(Methods(apis), Itself)
  }

  function Methods(apis: seq<ApiCall>): (ms: seq<string>)
    ensures |ms| == |apis|
    ensures forall i :: 0 <= i < |apis| ==> ms[i] == apis[i].httpMethod
  {
    if apis == [] then [] else [apis[0].httpMethod] + Methods(apis[1..])
  }

  /** `a` sorts no later than `b`: Python's comparison of strings, code point by code point. */
  predicate LessEq(a: string, b: string) {
    if a == [] then true
    else if b == [] then false
    else if a[0] != b[0] then a[0] < b[0]
    else LessEq(a[1..], b[1..])
  }

  lemma {:induction false} LessEqTotal(a: string, b: string)
    ensures LessEq(a, b) || LessEq(b, a)
  {
    if a != [] && b != [] && a[0] == b[0] {
      LessEqTotal(a[1..], b[1..]);
    }
  }

  predicate Sorted(s: seq<string>) {
    forall i :: 0 < i < |s| ==> InOrderAt(s, i)
  }

  /** The element at `i` does not sort before its predecessor. */
  predicate InOrderAt(s: seq<string>, i: int)
    requires 0 < i < |s|
  {
    LessEq(s[i - 1], s[i])
  }

  predicate NoDuplicates(s: seq<string>) {
    forall i, j :: 0 <= i < j < |s| ==> s[i] != s[j]
  }

  /** Insert `x` before the first element it sorts no later than. */
  function Insert(x: string, s: seq<string>): (r: seq<string>)
    ensures multiset(r) == multiset(s) + multiset{x}
    ensures |r| == |s| + 1 && (r[0] == x || (s != [] && r[0] == s[0]))
  {
    if s == [] || LessEq(x, s[0]) then [x] + s
    else
      assert s == [s[0]] + s[1..];
      [s[0]] + Insert(x, s[1..])
  }

  /** Inserting into a sorted list keeps it sorted. */
  lemma {:induction false} InsertSorted(x: string, s: seq<string>)
    requires Sorted(s)
    ensures Sorted(Insert(x, s))
  {
    var r := Insert(x, s);
    if s == [] || LessEq(x, s[0]) {
      forall i | 0 < i < |r|
        ensures InOrderAt(r, i)
      {
        if i > 1 {
          assert InOrderAt(s, i - 1);
        }
      }
    } else {
      var rest := Insert(x, s[1..]);
      assert Sorted(s[1..]) by {
        forall i | 0 < i < |s| - 1
          ensures InOrderAt(s[1..], i)
        {
          assert InOrderAt(s, i + 1);
        }
      }
      InsertSorted(x, s[1..]);
      LessEqTotal(x, s[0]);
      forall i | 0 < i < |r|
        ensures InOrderAt(r, i)
      {
        if i == 1 {
          if rest[0] != x {
            assert InOrderAt(s, 1);
          }
        } else {
          assert InOrderAt(rest, i - 1);
        }
      }
    }
  }

  /** `sorted(...)`, as an insertion sort. */
  function Sort(s: seq<string>): (r: seq<string>)
    ensures multiset(r) == multiset(s)
    ensures Sorted(r)
  {
    if s == [] then []
    else
      assert s == [s[0]] + s[1..];
      InsertSorted(s[0], Sort(s[1..]));
      Insert(s[0], Sort(s[1..]))
  }

  /** A sequence whose multiset holds each element at most once has no duplicates. */
  lemma {:induction false} SingletonsNoDuplicates(s: seq<string>)
    requires forall x :: multiset(s)[x] <= 1
    ensures NoDuplicates(s)
  {
    if s != [] {
      assert s == [s[0]] + s[1..];
      assert forall x :: multiset(s[1..])[x] <= multiset(s)[x];
      SingletonsNoDuplicates(s[1..]);
      assert multiset(s)[s[0]] == multiset(s[1..])[s[0]] + 1;
      assert s[0] !in multiset(s[1..]);
      forall i, j | 0 <= i < j < |s|
        ensures s[i] != s[j]
      {
        if i == 0 {
          assert s[j] == s[1..][j - 1];
        } else {
          assert s[i] == s[1..][i - 1] && s[j] == s[1..][j - 1];
        }
      }
    }
  }

  /** Conversely, a sequence without duplicates holds each element at most once. */
  lemma {:induction false} NoDuplicatesSingletons(s: seq<string>)
    requires NoDuplicates(s)
    ensures forall x :: multiset(s)[x] <= 1
  {
    if s != [] {
      NoDuplicatesSingletons(s[1..]);
      assert s == [s[0]] + s[1..];
      assert s[0] !in s[1..];
    }
  }

  /** Sorting distinct methods leaves them distinct. */
  lemma SortKeepsDistinct(s: seq<string>)
    requires NoDuplicates(s)
    ensures NoDuplicates(Sort(s))
    ensures forall x :: x in Sort(s) <==> x in s
  {
    NoDuplicatesSingletons(s);
    SingletonsNoDuplicates(Sort(s));
    assert forall x :: x in Sort(s) <==> x in multiset(Sort(s));
  }

  /** One row of the per-method table. */
  function CountRow(m: string, count: nat): string {
    "| " + m + " | " + NatToString(count) + " |"
  }

  function CountRows(apis: seq<ApiCall>, ms: seq<string>): (rows: seq<string>)
    ensures |rows| == |ms|
    ensures forall i :: 0 <= i < |ms| ==> rows[i] == CountRow(ms[i], MethodCount(apis, ms[i]))
  {
    if ms == [] then [] else [CountRow(ms[0], MethodCount(apis, ms[0]))] + CountRows(apis, ms[1..])
  }

  /** The lines `add_api_coverage_section` appends. */
  function CoverageLines(apis: seq<ApiCall>): seq<string> {
    if apis == [] then [CoverageTitle, NothingCaptured] else [CoverageTitle] + CoverageBody(apis)
  }

  /** What follows the title when something was captured. */
  function CoverageBody(apis: seq<ApiCall>): seq<string> {
    CoverageHead + ApiRows(Dedup(apis, Key)) + [TotalLine(|apis|)] + CountHead
    + CountRows(apis, Sort(MethodOrder(apis)))
  }

  const CoverageTitle: string := SectionLine("API 测试覆盖")
  const NothingCaptured: string := TextLine("未捕获到 API 调用")
  const CoverageHead: seq<string> := ["| 方法 | 端点 | 状态 | 响应时间 |", "|---|---|---|---|"]
  const CountHead: seq<string> := [TextLine("\n**按方法分类**:"), "| 方法 | 数量 |", "|---|---|"]

  function TotalLine(n: nat): string {
    TextLine("\n**总计**: " + NatToString(n) + " 个 API 调用")
  }

  /** The per-method counts over `ms`, added up. */
  function SumCounts(apis: seq<ApiCall>, ms: seq<string>): nat {
    if ms == [] then 0 else MethodCount(apis, ms[0]) + SumCounts(apis, ms[1..])
  }

  /** How often `m` occurs in `ms`. */
  function Occurrences(ms: seq<string>, m: string): nat {
    if ms == [] then 0 else (if ms[0] == m then 1 else 0) + Occurrences(ms[1..], m)
  }

  lemma {:induction false} SumCountsPush(apis: seq<ApiCall>, a: ApiCall, ms: seq<string>)
    ensures SumCounts(apis + [a], ms) == SumCounts(apis, ms) + Occurrences(ms, a.httpMethod)
  {
    assert (apis + [a])[..|apis|] == apis;
    if ms != [] {
      SumCountsPush(apis, a, ms[1..]);
    }
  }

  lemma {:induction false} OccursOnce(ms: seq<string>, m: string)
    requires NoDuplicates(ms) && m in ms
    ensures Occurrences(ms, m) == 1
  {
    if ms[0] == m {
      OccursNot(ms[1..], m);
    } else {
      OccursOnce(ms[1..], m);
    }
  }

  lemma {:induction false} OccursNot(ms: seq<string>, m: string)
    requires m !in ms
    ensures Occurrences(ms, m) == 0
  {
    if ms != [] {
      OccursNot(ms[1..], m);
    }
  }

  /** Over a duplicate-free list naming every method used, the counts add up to the number of calls. */
  lemma {:induction false} CountsCoverAll(apis: seq<ApiCall>, ms: seq<string>)
    requires NoDuplicates(ms)
    requires forall a :: a in apis ==> a.httpMethod in ms
    ensures SumCounts(apis, ms) == |apis|
  {
    if apis == [] {
      ZeroCounts(ms);
    } else {
      var init, last := apis[..|apis| - 1], apis[|apis| - 1];
      assert apis == init + [last];
      CountsCoverAll(init, ms);
      SumCountsPush(init, last, ms);
      OccursOnce(ms, last.httpMethod);
    }
  }

  lemma {:induction false} ZeroCounts(ms: seq<string>)
    ensures SumCounts([], ms) == 0
  {
    if ms != [] {
      ZeroCounts(ms[1..]);
    }
  }

  /** The methods in order of first use are distinct, and they are exactly the methods used. */
  lemma MethodOrderFacts(apis: seq<ApiCall>)
    ensures NoDuplicates(MethodOrder(apis))
    ensures forall m :: m in MethodOrder(apis) <==> m in KeysOf(apis, Method)
    ensures |MethodOrder(apis)| == |KeysOf(apis, Method)|
  {
    var order := MethodOrder(apis);
    DedupFirstPerKey(Methods(apis), Itself);
    KeysOfMethods(apis);
    assert KeysDistinct(order, Itself);
    forall m
      ensures m in order <==> m in KeysOf(order, Itself)
    {
      if m in order {
        assert Itself(m) in KeysOf(order, Itself);
      }
    }
    DistinctCardinality(order);
    assert KeysOf(order, Itself) == set x | x in order;
  }

  /**
   * The per-method table lists each method once, in sorted order, and its counts
   * add up to the number of calls.
   */
  lemma MethodTableComplete(apis: seq<ApiCall>)
    ensures Sorted(Sort(MethodOrder(apis))) && NoDuplicates(Sort(MethodOrder(apis)))
    ensures forall a :: a in apis ==> a.httpMethod in Sort(MethodOrder(apis))
    ensures SumCounts(apis, Sort(MethodOrder(apis))) == |apis|
  {
    var order := MethodOrder(apis);
    MethodOrderFacts(apis);
    SortKeepsDistinct(order);
    forall a | a in apis
      ensures a.httpMethod in Sort(order)
    {
      assert Method(a) in KeysOf(apis, Method);
    }
    CountsCoverAll(apis, Sort(order));
  }

  /**
   * The coverage table has one row per distinct "METHOD endpoint", each the first
   * call with that key, and every key of `apis` has its row; the per-method table
   * has one row per method used.
   */
  lemma CoverageRowsFirstPerKey(apis: seq<ApiCall>)
    requires apis != []
    ensures KeysDistinct(Dedup(apis, Key), Key)
    ensures KeysOf(Dedup(apis, Key), Key) == KeysOf(apis, Key)
    ensures forall a :: a in Dedup(apis, Key) ==> FirstOfKey(apis, Key, a)
    ensures |CoverageLines(apis)| == 7 + |Dedup(apis, Key)| + |KeysOf(apis, Method)|
  {
    DedupFirstPerKey(apis, Key);
    MethodOrderFacts(apis);
    var order := MethodOrder(apis);
    assert |Sort(order)| == |order| by {
      assert |multiset(Sort(order))| == |multiset(order)|;
    }
  }

  /** A duplicate-free list has as many elements as its set. */
  lemma {:induction false} DistinctCardinality(s: seq<string>)
    requires KeysDistinct(s, Itself)
    ensures |set x | x in s| == |s|
  {
    if s != [] {
      var init, last := s[..|s| - 1], s[|s| - 1];
      assert KeysDistinct(init, Itself);
      DistinctCardinality(init);
      assert (set x | x in s) == (set x | x in init) + {last};
      assert last !in init by {
        forall i | 0 <= i < |init|
          ensures init[i] != last
        {
          assert Itself(s[i]) != Itself(s[|s| - 1]);
        }
      }
    }
  }

  class TestReport {
    /** The Markdown lines written so far. */
    var content: seq<string>
    var total: nat
    var passed: nat
    var failed: nat

    /** Every logged result counted once, as a pass or a failure. */
    ghost predicate Valid()
      reads this
    {
      total == passed + failed
    }

    constructor(url: string, operation: string, readableTime: string, timestamp: string)
      ensures Valid()
      ensures content == Header(url, operation, readableTime, timestamp)
      ensures total == 0 && passed == 0 && failed == 0
    {
      content := Header(url, operation, readableTime, timestamp);
      total, passed, failed := 0, 0, 0;
    }

    /** `log_test_result`: one more result, counted as passed or failed, and exactly one table row. */
    method LogTestResult(name: string, ok: bool, details: string)
      requires Valid()
      modifies this
      ensures Valid()
      ensures total == old(total) + 1
      ensures ok ==> passed == old(passed) + 1 && failed == old(failed)
      ensures !ok ==> failed == old(failed) + 1 && passed == old(passed)
      ensures content == old(content) + [ResultRow(name, ok, details)]
    {
      total := total + 1;
      if ok {
        passed := passed + 1;
      } else {
        failed := failed + 1;
      }
      content := content + [ResultRow(name, ok, details)];
    }

    /** `add_table_row`, once per row. */
    method AddRows(rows: seq<string>)
      modifies this
      ensures content == old(content) + rows
      ensures total == old(total) && passed == old(passed) && failed == old(failed)
    {
      for i := 0 to |rows|
        invariant content == old(content) + rows[..i]
        invariant total == old(total) && passed == old(passed) && failed == old(failed)
      {
        assert rows[..i + 1] == rows[..i] + [rows[i]];
        content := content + [rows[i]];
      }
      assert rows[..|rows|] == rows;
    }

    /**
     * `add_api_coverage_section`: a note when nothing was captured; otherwise the
     * first call for each "METHOD endpoint", the total, and the per-method counts in
     * sorted order. The counters are untouched.
     */
    method AddApiCoverageSection(apis: seq<ApiCall>)
      modifies this
      ensures content == old(content) + CoverageLines(apis)
      ensures total == old(total) && passed == old(passed) && failed == old(failed)
    {
      var section := [CoverageTitle, NothingCaptured];
      if apis != [] {
        var table := CoverageTable(apis);
        section := [CoverageTitle] + table;
      }
      content := content + section;
    }
  }

  /** The part of the coverage section after its title, for a non-empty capture. */
  method CoverageTable(apis: seq<ApiCall>) returns (lines: seq<string>)
    requires apis != []
    ensures lines == CoverageBody(apis)
  {
    var unique := FirstPerKey(apis);
    var order, counts := CountMethods(apis);
    var rows := CountTable(apis, order, counts);
    lines := CoverageHead + ApiRows(unique) + [TotalLine(|apis|)] + CountHead + rows;
  }

  /** The rows of the per-method table: the methods in sorted order, each with its count. */
  method CountTable(apis: seq<ApiCall>, order: seq<string>, counts: map<string, nat>) returns (rows: seq<string>)
    requires order == MethodOrder(apis) && Counted(apis, counts)
    ensures rows == CountRows(apis, Sort(MethodOrder(apis)))
  {
    var sorted := Sort(order);
    SortedMethodsCounted(apis, counts);
    rows := [];
    for i := 0 to |sorted|
      invariant rows == CountRows(apis, sorted[..i])
    {
      assert sorted[i] in sorted;
      CountRowsPush(apis, sorted[..i], sorted[i]);
      assert sorted[..i + 1] == sorted[..i] + [sorted[i]];
      rows := rows + [CountRow(sorted[i], counts[sorted[i]])];
    }
    assert sorted[..|sorted|] == sorted;
  }

  /** Every method of the sorted table has its count. */
  lemma SortedMethodsCounted(apis: seq<ApiCall>, counts: map<string, nat>)
    requires Counted(apis, counts)
    ensures forall m :: m in Sort(MethodOrder(apis)) ==> m in counts
  {
    MethodOrderFacts(apis);
    SortKeepsDistinct(MethodOrder(apis));
  }

  lemma {:induction false} CountRowsPush(apis: seq<ApiCall>, ms: seq<string>, m: string)
    ensures CountRows(apis, ms + [m]) == CountRows(apis, ms) + [CountRow(m, MethodCount(apis, m))]
  {
    if ms != [] {
      assert (ms + [m])[1..] == ms[1..] + [m];
      CountRowsPush(apis, ms[1..], m);
    }
  }

  /** The de-duplicating loop: a dict from "METHOD endpoint" to the first call with it, read back in order. */
  method FirstPerKey(apis: seq<ApiCall>) returns (unique: seq<ApiCall>)
    ensures unique == Dedup(apis, Key)
  {
    unique := [];
    var seen: set<string> := {};
    for i := 0 to |apis|
      invariant unique == Dedup(apis[..i], Key)
      invariant seen == KeysOf(apis[..i], Key)
    {
      var a := apis[i];
      assert apis[..i + 1] == apis[..i] + [a];
      assert apis[..i + 1][..i] == apis[..i];
      if Key(a) !in seen {
        unique := unique + [a];
      }
      seen := seen + {Key(a)};
    }
    assert apis[..|apis|] == apis;
  }

  /** The counting loop: `method_counts[m] = method_counts.get(m, 0) + 1`, with the dict's key order. */
  method CountMethods(apis: seq<ApiCall>) returns (order: seq<string>, counts: map<string, nat>)
    ensures order == MethodOrder(apis)
    ensures Counted(apis, counts)
  {
    order := [];
    counts := map[];
    for i := 0 to |apis|
      invariant order == Dedup(Methods(apis[..i]), Itself)
      invariant Counted(apis[..i], counts)
    {
      var a := apis[i];
      assert apis[..i + 1] == apis[..i] + [a];
      CountStep(apis[..i], a, order, counts);
      if a.httpMethod !in counts {
        order := order + [a.httpMethod];
      }
      counts := Bump(counts, a.httpMethod);
    }
    assert apis[..|apis|] == apis;
  }

  /** One step of the counting loop keeps both the key order and the counts. */
  lemma CountStep(prev: seq<ApiCall>, a: ApiCall, order: seq<string>, counts: map<string, nat>)
    requires order == Dedup(Methods(prev), Itself) && Counted(prev, counts)
    ensures (if a.httpMethod in counts then order else order + [a.httpMethod]) == Dedup(Methods(prev + [a]), Itself)
    ensures Counted(prev + [a], Bump(counts, a.httpMethod))
  {
    MethodsPush(prev, a);
    KeysOfMethods(prev);
    DedupPush(Methods(prev), a.httpMethod, Itself);
    BumpCounts(prev, a, counts);
  }

  /** `counts[m] = counts.get(m, 0) + 1`. */
  function Bump(counts: map<string, nat>, m: string): (r: map<string, nat>)
    ensures r.Keys == counts.Keys + {m}
    ensures r[m] == (if m in counts then counts[m] else 0) + 1
    ensures forall k :: k in counts && k != m ==> r[k] == counts[k]
  {
    counts[m := (if m in counts then counts[m] else 0) + 1]
  }

  /** `counts` holds, for each method used in `apis`, how many calls use it. */
  ghost predicate Counted(apis: seq<ApiCall>, counts: map<string, nat>) {
    && counts.Keys == KeysOf(apis, Method)
    && forall m :: m in counts ==> counts[m] == MethodCount(apis, m)
  }

  lemma BumpCounts(apis: seq<ApiCall>, a: ApiCall, counts: map<string, nat>)
    requires Counted(apis, counts)
    ensures Counted(apis + [a], Bump(counts, a.httpMethod))
  {
    KeysOfPush(apis, a, Method);
    assert (apis + [a])[..|apis|] == apis;
    var r := Bump(counts, a.httpMethod);
    forall m | m in r
      ensures r[m] == MethodCount(apis + [a], m)
    {
      if m !in counts {
        assert m == a.httpMethod;
        assert MethodCount(apis, m) == 0 by {
          NotUsedNotCounted(apis, m);
        }
      }
    }
  }

  lemma {:induction false} NotUsedNotCounted(apis: seq<ApiCall>, m: string)
    requires m !in KeysOf(apis, Method)
    ensures MethodCount(apis, m) == 0
  {
    if apis != [] {
      var init := apis[..|apis| - 1];
      assert apis == init + [apis[|apis| - 1]];
      KeysOfPush(init, apis[|apis| - 1], Method);
      NotUsedNotCounted(init, m);
    }
  }

  lemma DedupPush<T>(s: seq<T>, x: T, key: T -> string)
    ensures key(x) in KeysOf(s, key) ==> Dedup(s + [x], key) == Dedup(s, key)
    ensures key(x) !in KeysOf(s, key) ==> Dedup(s + [x], key) == Dedup(s, key) + [x]
  {
    assert (s + [x])[..|s|] == s;
  }

  lemma MethodsPush(apis: seq<ApiCall>, a: ApiCall)
    ensures Methods(apis + [a]) == Methods(apis) + [a.httpMethod]
  {
  }

  lemma {:induction false} KeysOfMethods(apis: seq<ApiCall>)
    ensures KeysOf(Methods(apis), Itself) == KeysOf(apis, Method)
  {
    if apis != [] {
      var init, last := apis[..|apis| - 1], apis[|apis| - 1];
      assert apis == init + [last];
      MethodsPush(init, last);
      KeysOfPush(Methods(init), last.httpMethod, Itself);
      KeysOfPush(init, last, Method);
      KeysOfMethods(init);
    }
  }
}
