/**
 * The test-report validator: a pass over the Markdown text of a report that
 * collects error messages (required fields, the order of the section headers, the
 * execution log, placeholders, evidence images, non-2xx API calls) and fails when
 * any was collected. The regular-expression scans are passed in.
 */
module ReportValidator {
  import opened Wrappers
  import opened Text

  /** The single-match checks (`requireMatch`), one per regular expression. */
  datatype Pattern =
    | UserRequest | TargetUrl | DateTime | OverallStatus | TotalTime
    | LogTableHeader | OpenStep | FinalTitle | FinalUrl

  function PatternMessage(p: Pattern): string {
    match p
    case UserRequest => "Missing or empty: 用户原始需求"
    case TargetUrl => "Missing or empty: 目标 URL"
    case DateTime => "Missing or empty: 日期与时间"
    case OverallStatus => "Missing or invalid: 总体状态"
    case TotalTime => "Missing or empty: 总耗时"
    case LogTableHeader => "Missing Execution Log table header"
    case OpenStep => "Execution Log must include open step"
    case FinalTitle => "Missing or empty: 最终页面标题"
    case FinalUrl => "Missing or empty: 最终 URL"
  }

  /** One row the execution-log row expression finds: the step number and the command, trimmed. */
  datatype LogRow = LogRow(step: string, command: string)

  /** One row the API-overview row expression finds: method, path and three-digit status, trimmed. */
  datatype ApiRow = ApiRow(httpMethod: string, path: string, status: string)

  /** The results of the report's regular expressions, supplied by the caller. */
  datatype Scanner = Scanner(
    matches: (Pattern, string) -> bool,
    logRows: string -> seq<LogRow>,
    apiRows: string -> seq<ApiRow>,
    images: string -> nat,
    captions: string -> nat)

  /** The section headers, in the order the report must have them. */
  const SectionHeaders: seq<string> := [
    "### 1. 测试摘要", "### 2. 关键发现", "### 3. 执行日志", "### 4. 网络交互审计",
    "#### 4.1 后端API接口调用概览", "#### 4.2 异常/关键接口详情", "#### 4.3 前端资源加载记录",
    "### 5. 举证", "### 6. 建议"]

  const LogStart: string := "### 3. 执行日志"
  const LogEnd: string := "### 4. 网络交互审计"
  const EvidenceStart: string := "### 5. 举证"
  const EvidenceEnd: string := "### 6. 建议"
  const OverviewStart: string := "#### 4.1 后端API接口调用概览"
  const DetailsStart: string := "#### 4.2 异常/关键接口详情"
  const DetailsEnd: string := "#### 4.3 前端资源加载记录"

  const TooFewSteps: string := "Execution Log must include at least two steps"
  const LastStepUnfilled: string := "Execution Log last step must be filled with a real command"
  const PlaceholderLeft: string := "Report still contains <<FILL: ...>> placeholders"
  const NoEvidence: string := "Missing Evidence section"
  const NoImage: string := "Evidence section must include at least one embedded image via ![alt](path)"
  const NoCaption: string := "Each evidence image must have a caption like *图X：...*"
  const NoDetails: string := "Missing 4.2 details section for non-2xx APIs"

  /** `requireMatch`: the pattern's message when it finds nothing. */
  function MatchError(content: string, scan: Scanner, p: Pattern): (errs: seq<string>)
    ensures errs == [] <==> scan.matches(p, content)
    ensures errs != [] ==> errs == [PatternMessage(p)]
  {
    if scan.matches(p, content) then [] else [PatternMessage(p)]
  }

  /**
   * `getSection`: from the first occurrence of `startHeader` up to the first
   * occurrence of `endHeader` after it, or to the end of the text when there is
   * none (an empty `endHeader` stands for a missing one).
   */
  function GetSection(content: string, startHeader: string, endHeader: string): (r: Option<string>)
    ensures r.None? <==> IndexOf(content, startHeader, 0) == -1
    ensures r.Some? ==> exists start :: (
      && start == IndexOf(content, startHeader, 0)
      && OccursAt(content, startHeader, start)
      && StartsWith(r.value, startHeader)
      && (endHeader == "" || IndexOf(content, endHeader, start + |startHeader|) == -1 ==> r.value == content[start..])
      && (endHeader != "" && IndexOf(content, endHeader, start + |startHeader|) != -1 ==>
           r.value == content[start..IndexOf(content, endHeader, start + |startHeader|)]))
  {
    var start := IndexOf(content, startHeader, 0);
    if start == -1 then None
    else
      var end := if endHeader != "" then IndexOf(content, endHeader, start + |startHeader|) else -1;
      if end == -1 then Some(content[start..]) else Some(content[start..end])
  }

  /** The header order check from position `idx` on: at most one error, for the first header that is missing or too early. */
  function InOrderFrom(content: string, headers: seq<string>, idx: int): (errs: seq<string>)
    ensures |errs| <= 1
  {
    if headers == [] then []
    else
      var next := IndexOf(content, headers[0], 0);
      if next == -1 then ["Missing section: " + headers[0]]
      else if next <= idx then ["Section order incorrect: " + headers[0]]
      else InOrderFrom(content, headers[1..], next)
  }

  /** Every header occurs, and each one's first occurrence comes after the previous one's. */
  predicate InOrder(content: string, headers: seq<string>, idx: int) {
    && (forall i :: 0 <= i < |headers| ==> Contains(content, headers[i]))
    && (headers != [] ==> idx < IndexOf(content, headers[0], 0))
    && (forall i :: 0 < i < |headers| ==> IndexOf(content, headers[i - 1], 0) < IndexOf(content, headers[i], 0))
  }

  /** The order check passes exactly when the headers are all present and in order. */
  lemma {:induction false} InOrderIff(content: string, headers: seq<string>, idx: int)
    ensures InOrderFrom(content, headers, idx) == [] <==> InOrder(content, headers, idx)
    decreases |headers|
  {
    if headers != [] {
      var next := IndexOf(content, headers[0], 0);
      ContainsIffIndexOf(content, headers[0]);
      if InOrder(content, headers, idx) {
        InOrderToRest(content, headers, idx);
      }
      if next != -1 && next > idx {
        InOrderIff(content, headers[1..], next);
        if InOrder(content, headers[1..], next) {
          InOrderFromRest(content, headers, idx);
        }
      }
    }
  }

  /** Headers in order from `idx` on: the first one is present after `idx`, and the rest are in order after it. */
  lemma InOrderToRest(content: string, headers: seq<string>, idx: int)
    requires headers != [] && InOrder(content, headers, idx)
    ensures Contains(content, headers[0]) && idx < IndexOf(content, headers[0], 0)
    ensures InOrder(content, headers[1..], IndexOf(content, headers[0], 0))
  {
    var rest := headers[1..];
    assert Contains(content, headers[0]);
    forall i | 0 <= i < |rest|
      ensures Contains(content, rest[i])
    {
      assert rest[i] == headers[i + 1];
    }
    forall i | 0 < i < |rest|
      ensures IndexOf(content, rest[i - 1], 0) < IndexOf(content, rest[i], 0)
    {
      assert rest[i] == headers[i + 1] && rest[i - 1] == headers[i];
    }
    if |headers| > 1 {
      assert rest[0] == headers[1];
    }
  }

  /** Conversely, a first header present after `idx` followed by headers in order after it are in order from `idx`. */
  lemma InOrderFromRest(content: string, headers: seq<string>, idx: int)
    requires headers != [] && Contains(content, headers[0]) && idx < IndexOf(content, headers[0], 0)
    requires InOrder(content, headers[1..], IndexOf(content, headers[0], 0))
    ensures InOrder(content, headers, idx)
  {
    var rest := headers[1..];
    forall i | 0 <= i < |headers|
      ensures Contains(content, headers[i])
    {
      if i > 0 {
        assert headers[i] == rest[i - 1];
      }
    }
    forall i | 0 < i < |headers|
      ensures IndexOf(content, headers[i - 1], 0) < IndexOf(content, headers[i], 0)
    {
      if i > 1 {
        assert headers[i] == rest[i - 1] && headers[i - 1] == rest[i - 2];
      }
    }
  }

  /** `rows.push` for every row whose step is not the header word. */
  function Steps(matches: seq<LogRow>): (rows: seq<LogRow>)
    ensures |rows| <= |matches|
    ensures forall r :: r in rows <==> r in matches && r.step != "步骤"
  {
    if matches == [] then []
    else
      var init, last := matches[..|matches| - 1], matches[|matches| - 1];
      assert matches == init + [last];
      if last.step != "步骤" then Steps(init) + [last] else Steps(init)
  }

  /** The execution-log checks: at least two steps, and a last command that is real. */
  function LogErrors(section: Option<string>, scan: Scanner): (errs: seq<string>)
    ensures section.None? ==> errs == []
    ensures section.Some? && |Steps(scan.logRows(section.value))| < 2 ==> errs == [TooFewSteps]
    ensures section.Some? && |Steps(scan.logRows(section.value))| >= 2 ==>
      var last := Steps(scan.logRows(section.value))[|Steps(scan.logRows(section.value))| - 1];
      (errs == [] <==> last.command != "" && !Contains(last.command, "<<FILL"))
    ensures errs == [] || errs == [TooFewSteps] || errs == [LastStepUnfilled]
  {
    match section
    case None => []
    case Some(s) =>
      var rows := Steps(scan.logRows(s));
      if |rows| < 2 then [TooFewSteps]
      else
        var last := rows[|rows| - 1];
        if last.command == "" || Contains(last.command, "<<FILL") then [LastStepUnfilled] else []
  }

  function PlaceholderErrors(content: string): (errs: seq<string>)
    ensures errs == [] <==> !Contains(content, "<<FILL:")
  {
    if Contains(content, "<<FILL:") then [PlaceholderLeft] else []
  }

  /** The evidence checks: the section exists, has an image, and has a caption per image. */
  function EvidenceErrors(section: Option<string>, scan: Scanner): (errs: seq<string>)
    ensures errs == [] <==>
      section.Some? && scan.images(section.value) > 0 && scan.captions(section.value) >= scan.images(section.value)
    ensures |errs| <= 1
  {
    match section
    case None => [NoEvidence]
    case Some(s) =>
      if scan.images(s) == 0 then [NoImage]
      else if scan.captions(s) < scan.images(s) then [NoCaption]
      else []
  }

  predicate IsDigit(c: char) {
    '0' <= c <= '9'
  }

  /** `/^2\d\d$/`. */
  predicate Is2xx(status: string) {
    |status| == 3 && status[0] == '2' && IsDigit(status[1]) && IsDigit(status[2])
  }

  /** The overview rows whose status is not 2xx, in order. */
  function Non2xx(rows: seq<ApiRow>): (non: seq<ApiRow>)
    ensures |non| <= |rows|
    ensures forall r :: r in non <==> r in rows && !Is2xx(r.status)
  {
    if rows == [] then []
    else
      var init, last := rows[..|rows| - 1], rows[|rows| - 1];
      assert rows == init + [last];
      if !Is2xx(last.status) then Non2xx(init) + [last] else Non2xx(init)
  }

  function MethodPath(r: ApiRow): string {
    r.httpMethod + " " + r.path
  }

  /** The details section mentions both the "METHOD path" and the status of `r`. */
  predicate Detailed(details: string, r: ApiRow) {
    Contains(details, MethodPath(r)) && Contains(details, r.status)
  }

  function DetailMessage(r: ApiRow): string {
    "4.2 must include details for non-2xx API: " + MethodPath(r) + " (" + r.status + ")"
  }

  /** One error per row the details section does not describe, in row order. */
  function MissingDetailErrors(non: seq<ApiRow>, details: string): (errs: seq<string>)
    ensures |errs| <= |non|
    ensures forall r :: r in non && !Detailed(details, r) ==> DetailMessage(r) in errs
    ensures errs == [] <==> forall r :: r in non ==> Detailed(details, r)
  {
    if non == [] then []
    else
      var init, last := non[..|non| - 1], non[|non| - 1];
      assert non == init + [last];
      MissingDetailErrors(init, details) + (if Detailed(details, last) then [] else [DetailMessage(last)])
  }

  /** The network checks: every non-2xx overview row must be described in section 4.2. */
  function NetworkErrors(overview: Option<string>, details: Option<string>, scan: Scanner): (errs: seq<string>)
    ensures overview.None? ==> errs == []
    ensures overview.Some? && Non2xx(scan.apiRows(overview.value)) != [] && details.None? ==> errs == [NoDetails]
    ensures overview.Some? && details.Some? ==>
      errs == MissingDetailErrors(Non2xx(scan.apiRows(overview.value)), details.value)
  {
    match overview
    case None => []
    case Some(o) =>
      var non := Non2xx(scan.apiRows(o));
      if non == [] then []
      else if details.None? then [NoDetails]
      else MissingDetailErrors(non, details.value)
  }

  /** Everything the script reports, in the order it checks. */
  function AllErrors(content: string, scan: Scanner): seq<string> {
    MatchError(content, scan, UserRequest) + MatchError(content, scan, TargetUrl)
    + MatchError(content, scan, DateTime) + MatchError(content, scan, OverallStatus)
    + MatchError(content, scan, TotalTime)
    + InOrderFrom(content, SectionHeaders, -1)
    + MatchError(content, scan, LogTableHeader) + MatchError(content, scan, OpenStep)
    + LogErrors(GetSection(content, LogStart, LogEnd), scan)
    + MatchError(content, scan, FinalTitle) + MatchError(content, scan, FinalUrl)
    + PlaceholderErrors(content)
    + EvidenceErrors(GetSection(content, EvidenceStart, EvidenceEnd), scan)
    + NetworkErrors(GetSection(content, OverviewStart, DetailsStart), GetSection(content, DetailsStart, DetailsEnd), scan)
  }

  /** The exit status: 1 when anything was collected, 0 (and PASSED) otherwise. */
  function ExitCode(errors: seq<string>): (code: int)
    ensures code == 0 <==> errors == []
    ensures code == 0 || code == 1
  {
    if errors == [] then 0 else 1
  }

  /** A leftover `<<FILL:` placeholder fails the report whatever else it holds. */
  lemma PlaceholderFails(content: string, scan: Scanner)
    requires Contains(content, "<<FILL:")
    ensures PlaceholderLeft in AllErrors(content, scan)
    ensures ExitCode(AllErrors(content, scan)) == 1
  {
    var e := AllErrors(content, scan);
    assert PlaceholderErrors(content) == [PlaceholderLeft];
    assert PlaceholderLeft in e;
  }

  /** A non-2xx call in 4.1 that 4.2 does not describe fails the report with that call's message. */
  lemma UndocumentedFailureFails(content: string, scan: Scanner, r: ApiRow)
    requires GetSection(content, OverviewStart, DetailsStart).Some?
    requires GetSection(content, DetailsStart, DetailsEnd).Some?
    requires r in scan.apiRows(GetSection(content, OverviewStart, DetailsStart).value) && !Is2xx(r.status)
    requires !Detailed(GetSection(content, DetailsStart, DetailsEnd).value, r)
    ensures DetailMessage(r) in AllErrors(content, scan)
    ensures ExitCode(AllErrors(content, scan)) == 1
  {
    var n := NetworkErrors(GetSection(content, OverviewStart, DetailsStart), GetSection(content, DetailsStart, DetailsEnd), scan);
    assert DetailMessage(r) in n;
    var e := AllErrors(content, scan);
    assert e[|e| - |n|..] == n;
  }

  /** A report whose headers are out of order fails. */
  lemma DisorderFails(content: string, scan: Scanner)
    requires !InOrder(content, SectionHeaders, -1)
    ensures ExitCode(AllErrors(content, scan)) == 1
  {
    InOrderIff(content, SectionHeaders, -1);
  }

  /** The mutable state of the script: the report text and the `errors` array. */
  class Validation {
    const content: string
    var errors: seq<string>

    constructor(content: string)
      ensures this.content == content && errors == []
    {
      this.content := content;
      errors := [];
    }

    method RequireMatch(scan: Scanner, p: Pattern)
      modifies this
      ensures errors == old(errors) + MatchError(content, scan, p)
    {
      if !scan.matches(p, content) {
        errors := errors + [PatternMessage(p)];
      }
    }

    /** `requireInOrder`: walks the headers with the last index seen, stopping at the first error. */
    method RequireInOrder(headers: seq<string>)
      modifies this
      ensures errors == old(errors) + InOrderFrom(content, headers, -1)
    {
      var idx := -1;
      for i := 0 to |headers|
        invariant errors == old(errors)
        invariant InOrderFrom(content, headers, -1) == InOrderFrom(content, headers[i..], idx)
      {
        var h := headers[i];
        assert headers[i..][1..] == headers[i + 1..];
        var next := IndexOf(content, h, 0);
        if next == -1 {
          errors := errors + ["Missing section: " + h];
          return;
        }
        if next <= idx {
          errors := errors + ["Section order incorrect: " + h];
          return;
        }
        idx := next;
      }
    }

    method CheckExecutionLog(scan: Scanner)
      modifies this
      ensures errors == old(errors) + LogErrors(GetSection(content, LogStart, LogEnd), scan)
    {
      var section := GetSection(content, LogStart, LogEnd);
      if section.Some? {
        var rows := StepRows(scan.logRows(section.value));
        if |rows| < 2 {
          errors := errors + [TooFewSteps];
        } else {
          var last := rows[|rows| - 1];
          if last.command == "" || Contains(last.command, "<<FILL") {
            errors := errors + [LastStepUnfilled];
          }
        }
      }
    }

    method CheckPlaceholders()
      modifies this
      ensures errors == old(errors) + PlaceholderErrors(content)
    {
      if Contains(content, "<<FILL:") {
        errors := errors + [PlaceholderLeft];
      }
    }

    method CheckEvidence(scan: Scanner)
      modifies this
      ensures errors == old(errors) + EvidenceErrors(GetSection(content, EvidenceStart, EvidenceEnd), scan)
    {
      var section := GetSection(content, EvidenceStart, EvidenceEnd);
      if section.None? {
        errors := errors + [NoEvidence];
      } else if scan.images(section.value) == 0 {
        errors := errors + [NoImage];
      } else if scan.captions(section.value) < scan.images(section.value) {
        errors := errors + [NoCaption];
      }
    }

    method CheckNetwork(scan: Scanner)
      modifies this
      ensures errors == old(errors)
        + NetworkErrors(GetSection(content, OverviewStart, DetailsStart), GetSection(content, DetailsStart, DetailsEnd), scan)
    {
      var overview := GetSection(content, OverviewStart, DetailsStart);
      var details := GetSection(content, DetailsStart, DetailsEnd);
      if overview.Some? {
        var non := Non2xxRows(scan.apiRows(overview.value));
        if non != [] {
          if details.None? {
            errors := errors + [NoDetails];
          } else {
            var missing := DetailErrors(non, details.value);
            errors := errors + missing;
          }
        }
      }
    }

    /** The whole script: every check in order, then the exit status. */
    method Run(scan: Scanner) returns (code: int)
      requires errors == []
      modifies this
      ensures errors == AllErrors(content, scan)
      ensures code == ExitCode(errors)
    {
      RequireMatch(scan, UserRequest);
      assert errors == MatchError(content, scan, UserRequest);
      RequireMatch(scan, TargetUrl);
      RequireMatch(scan, DateTime);
      RequireMatch(scan, OverallStatus);
      RequireMatch(scan, TotalTime);
      RequireInOrder(SectionHeaders);
      RequireMatch(scan, LogTableHeader);
      RequireMatch(scan, OpenStep);
      CheckExecutionLog(scan);
      RequireMatch(scan, FinalTitle);
      RequireMatch(scan, FinalUrl);
      CheckPlaceholders();
      CheckEvidence(scan);
      CheckNetwork(scan);
      code := if errors == [] then 0 else 1;
    }
  }

  /** The row-collecting loop of the execution-log check. */
  method StepRows(matches: seq<LogRow>) returns (rows: seq<LogRow>)
    ensures rows == Steps(matches)
  {
    rows := [];
    for i := 0 to |matches|
      invariant rows == Steps(matches[..i])
    {
      assert matches[..i + 1][..i] == matches[..i];
      if matches[i].step != "步骤" {
        rows := rows + [matches[i]];
      }
    }
    assert matches[..|matches|] == matches;
  }

  /** The row-collecting loop of the network check. */
  method Non2xxRows(matches: seq<ApiRow>) returns (non: seq<ApiRow>)
    ensures non == Non2xx(matches)
  {
    non := [];
    for i := 0 to |matches|
      invariant non == Non2xx(matches[..i])
    {
      assert matches[..i + 1][..i] == matches[..i];
      if !Is2xx(matches[i].status) {
        non := non + [matches[i]];
      }
    }
    assert matches[..|matches|] == matches;
  }

  /** The error-collecting loop over the non-2xx rows. */
  method DetailErrors(non: seq<ApiRow>, details: string) returns (errs: seq<string>)
    ensures errs == MissingDetailErrors(non, details)
  {
    errs := [];
    for i := 0 to |non|
      invariant errs == MissingDetailErrors(non[..i], details)
    {
      assert non[..i + 1][..i] == non[..i];
      var item := non[i];
      if !Contains(details, MethodPath(item)) || !Contains(details, item.status) {
        errs := errs + [DetailMessage(item)];
      }
    }
    assert non[..|non|] == non;
  }
}
