/**
 * The shared records of the browser integration tester: risk levels, captured API
 * calls, discovered page elements, per-element test results, the outcome of one
 * browser command and the tester's configuration.
 */
module Models {
  import opened Wrappers

  /** How risky it is to operate an element. */
  datatype RiskLevel = Critical | High | Medium | Low

  /** One captured network request that the monitor considers an API call. */
  datatype ApiCall = ApiCall(httpMethod: string, endpoint: string, status: int, timing: int)

  /**
   * An interactive element found on the page. `kind` is the element type (button,
   * link, input, select, checkbox, radio, textarea).
   */
  datatype InteractiveElement = InteractiveElement(
    kind: string,
    selector: string,
    text: string,
    ref: Option<string>,
    visible: bool,
    id: Option<string>,
    name: Option<string>,
    formId: Option<string>,
    inputType: Option<string>,
    href: Option<string>,
    placeholder: Option<string>,
    checked: Option<bool>,
    value: Option<string>,
    options: seq<string>)

  /** The outcome of testing one element. */
  datatype TestResult = TestResult(
    element: InteractiveElement,
    success: bool,
    apisCalled: seq<ApiCall>,
    error: Option<string>,
    screenshot: Option<string>,
    navigatedAway: bool)

  /** The outcome of one browser command. */
  datatype CommandResult = CommandResult(success: bool, output: string, error: Option<string>, timedOut: bool)

  /** What every factory-built command result satisfies: it succeeded exactly when it carries no error, and a timeout is a failure. */
  predicate ConsistentOutcome(r: CommandResult) {
    && (r.success <==> r.error.None?)
    && (r.timedOut ==> !r.success)
  }

  /** A successful command with its output. */
  function SuccessResult(output: string): (r: CommandResult)
    ensures ConsistentOutcome(r) && r.success && !r.timedOut
    ensures r.output == output
  {
    CommandResult(true, output, None, false)
  }

  /** A failed command carrying an error message and no output. */
  function ErrorResult(error: string): (r: CommandResult)
    ensures ConsistentOutcome(r) && !r.success && !r.timedOut
    ensures r.output == "" && r.error == Some(error)
  {
    CommandResult(false, "", Some(error), false)
  }

  /** The start of a timeout's error message. */
  const TimeoutPrefix := "Command timed out: "

  /** A command that timed out; the error names the command. */
  function TimeoutResult(command: string): (r: CommandResult)
    ensures ConsistentOutcome(r) && !r.success && r.timedOut
    ensures r.output == "" && r.error == Some(TimeoutPrefix + command)
    ensures EndsWithCommand(r.error.value, command)
  {
    CommandResult(false, "", Some(TimeoutPrefix + command), true)
  }

  predicate EndsWithCommand(message: string, command: string) {
    |command| <= |message| && message[|message| - |command|..] == command
  }

  /** The three factories are told apart by their flags alone. */
  lemma FactoriesDistinguishable(o: string, e: string, c: string)
    ensures SuccessResult(o) != ErrorResult(e) && SuccessResult(o) != TimeoutResult(c)
    ensures ErrorResult(e) != TimeoutResult(c)
    ensures SuccessResult(o).output == o && ErrorResult(e).error == Some(e)
  {
  }

  /** The tester's settings; the defaults are the values used when no environment override is present. */
  datatype TestConfig = TestConfig(
    defaultTimeout: int,
    pageLoadTimeout: int,
    maxWorkers: int,
    lockTimeout: real,
    maxLinks: int,
    maxActions: int,
    waitAfterClick: int,
    waitAfterFill: int,
    waitAfterNavigation: int,
    confirmationTimeout: real,
    enableParallel: bool,
    screenshotFormat: string,
    lockCleanupInterval: int,
    maxApiRecords: int)

  const DefaultConfig: TestConfig :=
    TestConfig(30, 60, 5, 5.0, 10, 20, 500, 300, 1000, 300.0, true, "png", 300, 10000)

  /** The wait, in milliseconds, after an action of the given kind; unknown kinds wait as long as a click. */
  function GetWaitMs(cfg: TestConfig, waitType: string): (ms: int)
    ensures ms == cfg.waitAfterClick || ms == cfg.waitAfterFill || ms == cfg.waitAfterNavigation
    ensures waitType == "fill" ==> ms == cfg.waitAfterFill
    ensures waitType == "navigation" ==> ms == cfg.waitAfterNavigation
    ensures waitType != "fill" && waitType != "navigation" ==> ms == cfg.waitAfterClick
  {
    var table := map["click" := cfg.waitAfterClick, "fill" := cfg.waitAfterFill, "navigation" := cfg.waitAfterNavigation];
    if waitType in table then table[waitType] else cfg.waitAfterClick
  }

  /** With the default settings the waits are 500, 300 and 1000 milliseconds. */
  lemma DefaultWaits(waitType: string)
    ensures GetWaitMs(DefaultConfig, waitType) in {300, 500, 1000}
    ensures GetWaitMs(DefaultConfig, "unknown") == GetWaitMs(DefaultConfig, "click") == 500
  {
  }
}
