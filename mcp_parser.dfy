/**
 * The MCP short-command parser: `alias command [arguments]` becomes a structured
 * call. The input is checked, split into at most three parts, the alias is looked
 * up, and the arguments are read as a JSON object, as `key=value` pairs, or kept as
 * plain text. The JSON decoder (RFC 8259) is passed in.
 */
module McpCaller {
  import opened Wrappers
  import opened Text

  /** The alias table, from what the user types to the MCP server it selects. */
  const McpMap: map<string, string> := map[
    "gh" := "github", "github" := "github",
    "gitlab" := "zread", "gitee" := "zread", "repo" := "zread", "repository" := "zread",
    "开源仓库" := "zread", "代码仓库" := "zread",
    "db" := "mysql", "database" := "mysql", "sql" := "mysql", "mysql" := "mysql",
    "查库" := "mysql", "查询数据库" := "mysql", "数据库" := "mysql",
    "browser" := "playwright", "web" := "playwright", "web page" := "playwright",
    "chrome" := "chrome-devtools", "firefox" := "playwright", "edge" := "playwright",
    "safari" := "playwright", "浏览器" := "playwright", "浏览器测试" := "playwright",
    "谷歌浏览器" := "chrome-devtools", "谷歌浏览器测试" := "chrome-devtools",
    "search" := "web-search-prime", "搜索" := "web-search-prime",
    "read web" := "web-reader", "web-reader" := "web-reader", "web reader" := "web-reader",
    "网页读取" := "web-reader", "读取网页" := "web-reader",
    "picture" := "zai-mcp-server", "image" := "zai-mcp-server", "photo" := "zai-mcp-server",
    "illustration" := "zai-mcp-server", "查看图片" := "zai-mcp-server", "图片" := "zai-mcp-server",
    "图像" := "zai-mcp-server", "视觉" := "zai-mcp-server",
    "API docs" := "context7", "API documentation" := "context7", "API" := "context7",
    "API文档" := "context7",
    "pdf" := "pdf-reader", "pdf-reader" := "pdf-reader", "pdf reader" := "pdf-reader",
    "读取pdf" := "pdf-reader", "pdf读取" := "pdf-reader", "pdf解析" := "pdf-reader",
    "解析pdf" := "pdf-reader"
  ]

  const MaxLength: nat := 1000

  /** Why a command is refused (`MCPParserError`). */
  datatype ParseError =
    | EmptyCommandLine
    | TooLong
    | BadFormat
    | UnknownAlias(alias: string)
    | EmptyCommand

  /** A decoded JSON value. */
  datatype JsonValue =
    | JNull
    | JBool(b: bool)
    | JNumber(literal: string)
    | JString(s: string)
    | JArray(items: seq<JsonValue>)
    | JObject(members: seq<(string, JsonValue)>)

  /** `json.loads`: the decoded value, or None when the text is not JSON. */
  type JsonDecoder = string -> Option<JsonValue>

  /**
   * What `parse_arguments` returns: plain text, a decoded JSON value, or named pairs.
   * A named-argument dict is its keys in insertion order together with its entries.
   */
  datatype Arguments = Plain(text: string) | Json(value: JsonValue) | Named(keys: seq<string>, pairs: map<string, string>)

  /** `isinstance(parsed_args, dict)`. */
  predicate IsDict(a: Arguments) {
    a.Named? || (a.Json? && a.value.JObject?)
  }

  /** A structured call. */
  datatype McpCall = McpCall(
    server: string, command: string, arguments: Arguments, original: string, alias: string, format: string)

  /** `validate_input`: the stripped command, unless it is empty or over 1000 characters. */
  function ValidateInput(text: string): (r: Result<string, ParseError>)
    ensures r.Ok? <==> Strip(text) != "" && |Strip(text)| <= MaxLength
    ensures r.Ok? ==> r.value == Strip(text)
    ensures Strip(text) == "" ==> r == Err(EmptyCommandLine)
    ensures Strip(text) != "" && |Strip(text)| > MaxLength ==> r == Err(TooLong)
  {
    var t := Strip(text);
    if t == "" then Err(EmptyCommandLine)
    else if |t| > MaxLength then Err(TooLong)
    else Ok(t)
  }

  /** The position of the first '=' of `t`. */
  function FirstEquals(t: string): (i: nat)
    requires '=' in t
    ensures i < |t| && t[i] == '=' && '=' !in t[..i]
  {
    if t[0] == '=' then 0
    else
      assert '=' in t[1..] by { var k :| 0 <= k < |t| && t[k] == '='; assert t[1..][k - 1] == '='; }
      var j := FirstEquals(t[1..]);
      assert t[..j + 1] == [t[0]] + t[1..][..j];
      j + 1
  }

  /** One layer of matching single or double quotes removed from a value of length two or more. */
  function Unquote(v: string): (r: string)
    ensures |v| >= 2 && v[0] == v[|v| - 1] && v[0] in "\"'" ==> r == v[1..|v| - 1]
    ensures !(|v| >= 2 && v[0] == v[|v| - 1] && v[0] in "\"'") ==> r == v
  {
    if |v| >= 2 && ((v[0] == '"' && v[|v| - 1] == '"') || (v[0] == '\'' && v[|v| - 1] == '\'')) then
      v[1..|v| - 1]
    else v
  }

  /** The key of a `key=value` token: what precedes its first '=', stripped. */
  function KeyOf(t: string): string
    requires '=' in t
  {
    Strip(t[..FirstEquals(t)])
  }

  /** The value of a `key=value` token: what follows its first '=', stripped and unquoted. */
  function ValueOf(t: string): string
    requires '=' in t
  {
    Unquote(Strip(t[FirstEquals(t) + 1..]))
  }

  /** The dictionary the `key=value` loop builds from `tokens`: tokens without '=' are dropped, later keys overwrite. */
  function NamedPairs(tokens: seq<string>): map<string, string> {
    if tokens == [] then map[]
    else
      var init, t := tokens[..|tokens| - 1], tokens[|tokens| - 1];
      if '=' in t then NamedPairs(init)[KeyOf(t) := ValueOf(t)] else NamedPairs(init)
  }

  /** The insertion order of that dictionary: a key takes its place when first stored, and keeps it when overwritten. */
  function NamedKeys(tokens: seq<string>): seq<string> {
    if tokens == [] then []
    else
      var init, t := tokens[..|tokens| - 1], tokens[|tokens| - 1];
      if '=' in t && KeyOf(t) !in NamedKeys(init) then NamedKeys(init) + [KeyOf(t)] else NamedKeys(init)
  }

  /**
   * `parse_arguments`: nothing for blank text; the decoded value when the stripped
   * text is braced and decodes; the pairs when the text has an '='; else the
   * stripped text itself.
   */
  function ArgumentsOf(argsStr: string, loads: JsonDecoder): (r: Arguments)
    ensures Strip(argsStr) == "" ==> r == Plain("")
    ensures r.Json? <==>
      && Strip(argsStr) != ""
      && StartsWith(Strip(argsStr), "{") && EndsWith(Strip(argsStr), "}")
      && loads(Strip(argsStr)).Some?
    ensures r.Json? ==> r.value == loads(Strip(argsStr)).value
    ensures r.Named? ==>
      && '=' in Strip(argsStr) && r.pairs != map[]
      && r.pairs == NamedPairs(Tokens(Strip(argsStr))) && r.keys == NamedKeys(Tokens(Strip(argsStr)))
    ensures r.Plain? && Strip(argsStr) != "" ==> r.text == Strip(argsStr)
  {
    var s := Strip(argsStr);
    if s == "" then Plain("")
    else if StartsWith(s, "{") && EndsWith(s, "}") && loads(s).Some? then Json(loads(s).value)
    else if '=' in s && NamedPairs(Tokens(s)) != map[] then Named(NamedKeys(Tokens(s)), NamedPairs(Tokens(s)))
    else Plain(s)
  }

  /** The argument loop of `parse_arguments`, over the whitespace-separated tokens. */
  method ParseArguments(argsStr: string, loads: JsonDecoder) returns (args: Arguments)
    ensures args == ArgumentsOf(argsStr, loads)
  {
    var s := Strip(argsStr);
    if s == "" {
      return Plain("");
    }
    if StartsWith(s, "{") && EndsWith(s, "}") {
      var decoded := loads(s);
      if decoded.Some? {
        return Json(decoded.value);
      }
    }
    if '=' in s {
      var keys, result := CollectPairs(Tokens(s));
      if result != map[] {
        return Named(keys, result);
      }
    }
    return Plain(s);
  }

  /** The `for pair in pairs` loop: each `key=value` token stored under its key. */
  method CollectPairs(pairs: seq<string>) returns (keys: seq<string>, result: map<string, string>)
    ensures keys == NamedKeys(pairs)
    ensures result == NamedPairs(pairs)
  {
    keys, result := [], map[];
    for i := 0 to |pairs|
      invariant keys == NamedKeys(pairs[..i])
      invariant result == NamedPairs(pairs[..i])
    {
      var pair := pairs[i];
      NamedPairsPush(pairs, i);
      NamedKeysPush(pairs, i);
      if '=' in pair {
        var key := KeyOf(pair);
        if key !in keys {
          keys := keys + [key];
        }
        result := result[key := ValueOf(pair)];
      }
    }
    assert pairs[..|pairs|] == pairs;
  }

  lemma NamedKeysPush(tokens: seq<string>, i: nat)
    requires i < |tokens|
    ensures NamedKeys(tokens[..i + 1]) ==
      if '=' in tokens[i] && KeyOf(tokens[i]) !in NamedKeys(tokens[..i]) then NamedKeys(tokens[..i]) + [KeyOf(tokens[i])]
      else NamedKeys(tokens[..i])
  {
    var p := tokens[..i + 1];
    assert p[..|p| - 1] == tokens[..i] && p[|p| - 1] == tokens[i];
  }

  /** The key order lists no key twice. */
  lemma {:induction false} NamedKeysDistinct(tokens: seq<string>)
    ensures forall a, b :: 0 <= a < b < |NamedKeys(tokens)| ==> NamedKeys(tokens)[a] != NamedKeys(tokens)[b]
  {
    if tokens != [] {
      var init, t := tokens[..|tokens| - 1], tokens[|tokens| - 1];
      NamedKeysDistinct(init);
      var ks := NamedKeys(init);
      if '=' in t && KeyOf(t) !in ks {
        var ks' := ks + [KeyOf(t)];
        assert NamedKeys(tokens) == ks';
        forall a, b | 0 <= a < b < |ks'|
          ensures ks'[a] != ks'[b]
        {
          if b == |ks| {
            assert ks'[a] == ks[a];
          } else {
            assert ks'[a] == ks[a] && ks'[b] == ks[b];
          }
        }
      } else {
        assert NamedKeys(tokens) == ks;
      }
    }
  }

  /** The key order lists exactly the keys of the dictionary. */
  lemma {:induction false} NamedKeysListDict(tokens: seq<string>)
    ensures forall k :: k in NamedKeys(tokens) <==> k in NamedPairs(tokens)
  {
    if tokens != [] {
      var init, t := tokens[..|tokens| - 1], tokens[|tokens| - 1];
      NamedKeysListDict(init);
      if '=' in t {
        assert NamedPairs(tokens).Keys == NamedPairs(init).Keys + {KeyOf(t)};
        if KeyOf(t) !in NamedKeys(init) {
          assert NamedKeys(tokens) == NamedKeys(init) + [KeyOf(t)];
        } else {
          assert NamedKeys(tokens) == NamedKeys(init);
        }
      } else {
        assert NamedKeys(tokens) == NamedKeys(init) && NamedPairs(tokens) == NamedPairs(init);
      }
    }
  }

  /** A key that no token carries is not in the key order. */
  lemma {:induction false} AbsentKeyNotListed(tokens: seq<string>, k: string)
    requires forall l :: 0 <= l < |tokens| ==> !HasKey(tokens[l], k)
    ensures k !in NamedKeys(tokens)
  {
    if tokens != [] {
      var init := tokens[..|tokens| - 1];
      assert forall l :: 0 <= l < |init| ==> init[l] == tokens[l];
      AbsentKeyNotListed(init, k);
    }
  }

  /** Token `j` is a `key=value` token and no earlier token carries its key. */
  predicate FirstCarrier(tokens: seq<string>, j: nat) {
    j < |tokens| && '=' in tokens[j] && forall l :: 0 <= l < j ==> !HasKey(tokens[l], KeyOf(tokens[j]))
  }

  /**
   * Keys come in the order of their first occurrence: when token `j` is the first
   * to carry its key, the key of any earlier token is listed before it.
   */
  lemma {:induction false} KeysInFirstOccurrenceOrder(tokens: seq<string>, i: nat, j: nat) returns (a: nat, b: nat)
    requires FirstCarrier(tokens, j) && i < j && '=' in tokens[i]
    ensures a < b < |NamedKeys(tokens)|
    ensures NamedKeys(tokens)[a] == KeyOf(tokens[i]) && NamedKeys(tokens)[b] == KeyOf(tokens[j])
  {
    var init := tokens[..|tokens| - 1];
    assert init[i] == tokens[i];
    if j == |tokens| - 1 {
      FirstCarrierAppends(tokens);
      a := KeyPosition(init, i);
      b := |NamedKeys(init)|;
    } else {
      FirstCarrierInInit(tokens, j);
      a, b := KeysInFirstOccurrenceOrder(init, i, j);
      NamedKeysGrow(tokens);
    }
  }

  /** A last token that is the first to carry its key appends that key. */
  lemma FirstCarrierAppends(tokens: seq<string>)
    requires tokens != [] && FirstCarrier(tokens, |tokens| - 1)
    ensures NamedKeys(tokens) == NamedKeys(tokens[..|tokens| - 1]) + [KeyOf(tokens[|tokens| - 1])]
  {
    var init := tokens[..|tokens| - 1];
    assert forall l :: 0 <= l < |init| ==> init[l] == tokens[l];
    AbsentKeyNotListed(init, KeyOf(tokens[|tokens| - 1]));
  }

  /** Dropping a later token keeps a first carrier. */
  lemma FirstCarrierInInit(tokens: seq<string>, j: nat)
    requires FirstCarrier(tokens, j) && j < |tokens| - 1
    ensures FirstCarrier(tokens[..|tokens| - 1], j) && tokens[..|tokens| - 1][j] == tokens[j]
  {
    var init := tokens[..|tokens| - 1];
    assert forall l :: 0 <= l < j ==> init[l] == tokens[l];
  }

  /** The key of a `key=value` token has a place in the key order. */
  lemma KeyPosition(tokens: seq<string>, i: nat) returns (a: nat)
    requires i < |tokens| && '=' in tokens[i]
    ensures a < |NamedKeys(tokens)| && NamedKeys(tokens)[a] == KeyOf(tokens[i])
  {
    NamedHasKeyOf(tokens, tokens[i]);
    NamedKeysListDict(tokens);
    a :| 0 <= a < |NamedKeys(tokens)| && NamedKeys(tokens)[a] == KeyOf(tokens[i]);
  }

  /** A further token only appends to the key order. */
  lemma NamedKeysGrow(tokens: seq<string>)
    requires tokens != []
    ensures NamedKeys(tokens[..|tokens| - 1]) <= NamedKeys(tokens)
  {
  }

  lemma NamedPairsPush(tokens: seq<string>, i: nat)
    requires i < |tokens|
    ensures NamedPairs(tokens[..i + 1]) ==
      if '=' in tokens[i] then NamedPairs(tokens[..i])[KeyOf(tokens[i]) := ValueOf(tokens[i])]
      else NamedPairs(tokens[..i])
  {
    var p := tokens[..i + 1];
    assert p[..|p| - 1] == tokens[..i] && p[|p| - 1] == tokens[i];
  }

  /** A character that is not white space and occurs in `s` at or after `i` lies inside one of the words read from `i`. */
  lemma {:induction false} CharInSomeToken(s: string, i: nat, j: nat)
    requires i <= j < |s| && !IsSpace(s[j])
    ensures exists t :: t in TokensFrom(s, i) && s[j] in t
    decreases |s| - i
  {
    var a := SkipSpace(s, i);
    assert a <= j;
    var b := SkipWord(s, a);
    assert TokensFrom(s, i) == [s[a..b]] + TokensFrom(s, b);
    if j < b {
      assert s[a..b][j - a] == s[j];
      assert s[a..b] in TokensFrom(s, i);
    } else {
      CharInSomeToken(s, b, j);
      var t :| t in TokensFrom(s, b) && s[j] in t;
      assert t in TokensFrom(s, i);
    }
  }

  /** Text that is not JSON and contains '=' always becomes a dictionary. */
  lemma EqualsGivesDict(argsStr: string, loads: JsonDecoder)
    requires '=' in Strip(argsStr)
    requires !(StartsWith(Strip(argsStr), "{") && EndsWith(Strip(argsStr), "}") && loads(Strip(argsStr)).Some?)
    ensures ArgumentsOf(argsStr, loads).Named?
  {
    EqualsGivesPairs(Strip(argsStr));
  }

  lemma EqualsGivesPairs(s: string)
    requires '=' in s
    ensures NamedPairs(Tokens(s)) != map[]
  {
    var j :| 0 <= j < |s| && s[j] == '=';
    assert !IsSpace('=');
    CharInSomeToken(s, 0, j);
    var t :| t in Tokens(s) && '=' in t;
    NamedHasKeyOf(Tokens(s), t);
  }

  /** Every token with an '=' contributes its key. */
  lemma {:induction false} NamedHasKeyOf(tokens: seq<string>, t: string)
    requires t in tokens && '=' in t
    ensures KeyOf(t) in NamedPairs(tokens)
  {
    var init, last := tokens[..|tokens| - 1], tokens[|tokens| - 1];
    assert tokens == init + [last];
    if t != last {
      NamedHasKeyOf(init, t);
    }
  }

  /** For each key the value is the one of the last token carrying that key. */
  lemma {:induction false} LastPairWins(tokens: seq<string>, i: nat)
    requires i < |tokens| && '=' in tokens[i]
    requires forall j :: i < j < |tokens| ==> !HasKey(tokens[j], KeyOf(tokens[i]))
    ensures KeyOf(tokens[i]) in NamedPairs(tokens)
    ensures NamedPairs(tokens)[KeyOf(tokens[i])] == ValueOf(tokens[i])
  {
    var init, last := tokens[..|tokens| - 1], tokens[|tokens| - 1];
    var k := KeyOf(tokens[i]);
    if i < |tokens| - 1 {
      assert init[i] == tokens[i];
      assert forall j :: i < j < |init| ==> init[j] == tokens[j];
      LastPairWins(init, i);
      assert !HasKey(last, k);
    }
  }

  /** `t` is a `key=value` token with key `k`. */
  predicate HasKey(t: string, k: string) {
    '=' in t && KeyOf(t) == k
  }

  /** Everything after the second word of `t`, white space included. */
  function ArgumentText(t: string): string {
    var secondStart := SkipSpace(t, SkipWord(t, SkipSpace(t, 0)));
    t[SkipWord(t, secondStart)..]
  }

  /** The third part of `t.split(maxsplit=2)`, stripped, is what is left after the second word. */
  lemma {:induction false} ArgumentTextAgrees(t: string)
    requires |SplitMax(t, 2)| >= 2
    ensures (if |SplitMax(t, 2)| > 2 then Strip(SplitMax(t, 2)[2]) else "") == Strip(ArgumentText(t))
  {
    var b0 := SkipWord(t, SkipSpace(t, 0));
    var b1 := SkipWord(t, SkipSpace(t, b0));
    var a2 := SkipSpace(t, b1);
    var rest := SplitMaxFrom(t, b1, 0);
    assert SplitMax(t, 2) == [t[SkipSpace(t, 0)..b0]] + SplitMaxFrom(t, b0, 1);
    assert SplitMaxFrom(t, b0, 1) == [t[SkipSpace(t, b0)..b1]] + rest;
    assert SplitMax(t, 2)[2..] == rest;
    StripFrom(t, b1);
    if a2 == |t| {
      assert t[a2..] == [];
      assert |Strip([])| == 0;
    }
  }

  /** `parse_mcp_call`: the structured call, or the reason the command is refused. */
  function ParseMcpCall(text: string, loads: JsonDecoder): (r: Result<McpCall, ParseError>)
    ensures ValidateInput(text).Err? ==> r == Err(ValidateInput(text).error)
    ensures ValidateInput(text).Ok? && |Tokens(Strip(text))| < 2 ==> r == Err(BadFormat)
    ensures r.Ok? ==>
      && r.value.original == Strip(text)
      && 2 <= |Tokens(r.value.original)|
      && r.value.alias == Lower(Tokens(r.value.original)[0])
      && r.value.command == Tokens(r.value.original)[1]
      && r.value.alias in McpMap && r.value.server == McpMap[r.value.alias]
      && (r.value.format == "json" <==> IsDict(r.value.arguments))
    ensures r.Err? && r.error.UnknownAlias? ==> r.error.alias !in McpMap
    // the command is a whitespace-free word, so the empty-command refusal is never reached
    ensures r != Err(EmptyCommand)
    ensures ValidateInput(text).Ok? && 2 <= |Tokens(Strip(text))| ==>
      && (Lower(Tokens(Strip(text))[0]) in McpMap ==> r.Ok?)
      && (Lower(Tokens(Strip(text))[0]) !in McpMap ==> r == Err(UnknownAlias(Lower(Tokens(Strip(text))[0]))))
    ensures r.Ok? ==> r.value.arguments == ArgumentsOf(Strip(ArgumentText(r.value.original)), loads)
  {
    match ValidateInput(text)
    case Err(e) => Err(e)
    case Ok(t) =>
      var parts := SplitMax(t, 2);
      SplitMaxAgreesWithTokens(t, 2);
      if |parts| < 2 then Err(BadFormat)
      else
        var alias := Lower(parts[0]);
        var command := Strip(parts[1]);
        StripWord(parts[1]);
        var argsStr := if |parts| > 2 then Strip(parts[2]) else "";
        ArgumentTextAgrees(t);
        if alias !in McpMap then Err(UnknownAlias(alias))
        else if command == "" then Err(EmptyCommand)
        else
          var args := ArgumentsOf(argsStr, loads);
          Ok(McpCall(McpMap[alias], command, args, t, alias, if IsDict(args) then "json" else "string"))
  }

  /** A lower-cased word holds neither an upper-case ASCII letter nor white space. */
  lemma {:induction false} LowerWord(w: string)
    requires NoSpace(w)
    ensures NoSpace(Lower(w))
    ensures forall i :: 0 <= i < |Lower(w)| ==> !IsUpperAscii(Lower(w)[i])
  {
    forall i | 0 <= i < |w|
      ensures !IsSpace(Lower(w)[i])
    {
      if IsUpperAscii(w[i]) {
        LowerLetterNotSpace(w[i]);
      }
    }
  }

  lemma LowerLetterNotSpace(c: char)
    requires IsUpperAscii(c)
    ensures !IsSpace(LowerChar(c))
  {
  }

  /** An alias that no command can select. */
  predicate Unreachable(alias: string) {
    exists i :: 0 <= i < |alias| && (IsUpperAscii(alias[i]) || IsSpace(alias[i]))
  }

  /** Aliases with an upper-case letter or a space are never matched, because lookup uses one lower-cased word. */
  lemma UnreachableNeverMatched(text: string, loads: JsonDecoder, alias: string)
    requires Unreachable(alias)
    ensures ParseMcpCall(text, loads).Ok? ==> ParseMcpCall(text, loads).value.alias != alias
  {
    var r := ParseMcpCall(text, loads);
    if r.Ok? {
      var t := Strip(text);
      LowerWord(Tokens(t)[0]);
    }
  }

  /** The table aliases that fall under `UnreachableNeverMatched`. */
  lemma DeadAliases()
    ensures forall a :: a in ["API", "API docs", "API documentation", "API文档", "web page", "read web", "web reader", "pdf reader"]
                        ==> a in McpMap && Unreachable(a)
  {
    assert IsUpperAscii("API"[0]);
    assert IsUpperAscii("API docs"[0]);
    assert IsUpperAscii("API documentation"[0]);
    assert IsUpperAscii("API文档"[0]);
    assert IsSpace("web page"[3]);
    assert IsSpace("read web"[4]);
    assert IsSpace("web reader"[3]);
    assert IsSpace("pdf reader"[3]);
  }
}
