/**
 * `SmartFormFiller`: which value generator a form field gets, and which option of a
 * drop-down is picked. The generators themselves produce time- and random-based
 * values; the model stops at the generator's key.
 */
module FormFiller {
  import opened Wrappers
  import opened Text
  import opened Models

  /** The keys of `VALUE_GENERATORS`, in declaration order. */
  const GeneratorKeys: seq<string> := ["email", "password", "tel", "number", "date", "text", "url"]

  /** `getattr(field, 'input_type', 'text') or 'text'`: a missing or empty type reads as "text". */
  function FieldType(field: InteractiveElement): (t: string)
    ensures t != ""
    ensures field.inputType.Some? && field.inputType.value != "" ==> t == field.inputType.value
  {
    match field.inputType
    case Some(t) => if t == "" then "text" else t
    case None => "text"
  }

  /** `(field.name or '').lower()`. */
  function FieldName(field: InteractiveElement): string {
    match field.name
    case Some(n) => Lower(n)
    case None => ""
  }

  const EmailWords: seq<string> := ["email"]
  const PasswordWords: seq<string> := ["password", "passwd"]
  const PhoneWords: seq<string> := ["phone", "tel", "mobile"]
  const UrlWords: seq<string> := ["url", "website"]

  /**
   * The field-name rules, tried in order: e-mail, then password, then phone, then
   * URL. None when the name mentions none of them.
   */
  function NameRule(n: string): (r: Option<string>)
    ensures r == Some("email") <==> ContainsAny(n, EmailWords)
    ensures r == Some("password") <==> !ContainsAny(n, EmailWords) && ContainsAny(n, PasswordWords)
    ensures r == Some("tel") <==>
      !ContainsAny(n, EmailWords) && !ContainsAny(n, PasswordWords) && ContainsAny(n, PhoneWords)
    ensures r == Some("url") <==>
      !ContainsAny(n, EmailWords) && !ContainsAny(n, PasswordWords) && !ContainsAny(n, PhoneWords)
      && ContainsAny(n, UrlWords)
    ensures r.None? <==>
      !ContainsAny(n, EmailWords) && !ContainsAny(n, PasswordWords) && !ContainsAny(n, PhoneWords)
      && !ContainsAny(n, UrlWords)
  {
    if ContainsAny(n, EmailWords) then Some("email")
    else if ContainsAny(n, PasswordWords) then Some("password")
    else if ContainsAny(n, PhoneWords) then Some("tel")
    else if ContainsAny(n, UrlWords) then Some("url")
    else None
  }

  /**
   * `generate_value_for_field`, reduced to the key of the generator it calls: the
   * name rules win; otherwise the field's type when it names a generator, else "text".
   */
  function GeneratorKey(field: InteractiveElement): (k: string)
    ensures k in GeneratorKeys
    ensures NameRule(FieldName(field)).Some? ==> k == NameRule(FieldName(field)).value
    ensures NameRule(FieldName(field)).None? && FieldType(field) in GeneratorKeys ==> k == FieldType(field)
    ensures NameRule(FieldName(field)).None? && FieldType(field) !in GeneratorKeys ==> k == "text"
  {
    match NameRule(FieldName(field))
    case Some(key) => key
    case None => if FieldType(field) in GeneratorKeys then FieldType(field) else "text"
  }

  /** A field whose name mentions a keyword gets the name's generator, whatever its type. */
  lemma NameBeatsType(field: InteractiveElement, t: Option<string>)
    requires NameRule(FieldName(field)).Some?
    ensures GeneratorKey(field.(inputType := t)) == GeneratorKey(field)
  {
  }

  /** Without a keyword in the name, a field without a type (or with an empty one) gets the text generator. */
  lemma UntypedFieldGetsText(field: InteractiveElement)
    requires NameRule(FieldName(field)).None?
    requires field.inputType == None || field.inputType == Some("")
    ensures GeneratorKey(field) == "text"
  {
    assert FieldType(field) == "text";
  }

  /** The placeholder entries `select_option` skips. */
  const Placeholders: seq<string> := ["", "请选择", "Select...", "-"]

  predicate IsRealOption(opt: string) {
    opt != "" && opt !in Placeholders
  }

  /** `[opt for opt in options if opt and opt not in [...]]`. */
  function RealOptions(options: seq<string>): (valid: seq<string>)
    ensures |valid| <= |options|
    ensures forall o :: o in valid <==> o in options && IsRealOption(o)
  {
    if options == [] then []
    else
      var rest := RealOptions(options[..|options| - 1]);
      var last := options[|options| - 1];
      assert options == options[..|options| - 1] + [last];
      if IsRealOption(last) then rest + [last] else rest
  }

  /**
   * Python's `valid[min(index, len(valid) - 1)]`: a negative position counts from
   * the end, and one before the start raises `IndexError`.
   */
  function PickAt(valid: seq<string>, index: int): (r: Option<string>)
    requires valid != []
    ensures r.Some? <==> -|valid| <= index
    ensures index >= |valid| - 1 ==> r == Some(valid[|valid| - 1])
    ensures 0 <= index < |valid| ==> r == Some(valid[index])
    ensures -|valid| <= index < 0 ==> r == Some(valid[|valid| + index])
  {
    var i := if index < |valid| - 1 then index else |valid| - 1;
    if i >= 0 then Some(valid[i])
    else if i >= -|valid| then Some(valid[|valid| + i])
    else None
  }

  /**
   * `select_option`: the chosen value, or None when there is no real option, the
   * index is out of range, or the browser refuses the selection (`selected` is what
   * `browser.select_option` did; its exception is caught).
   */
  function SelectOption(options: seq<string>, index: int, selected: bool): (r: Option<string>)
    ensures r.Some? <==> RealOptions(options) != [] && -|RealOptions(options)| <= index && selected
    ensures r.Some? ==> r.value in options && IsRealOption(r.value)
    ensures r.Some? && index >= |RealOptions(options)| - 1 ==> r.value == RealOptions(options)[|RealOptions(options)| - 1]
    ensures r.Some? && 0 <= index < |RealOptions(options)| ==> r.value == RealOptions(options)[index]
    ensures r.Some? && index < 0 ==> r.value == RealOptions(options)[|RealOptions(options)| + index]
  {
    var valid := RealOptions(options);
    if options == [] || valid == [] then None
    else
      match PickAt(valid, index)
      case Some(v) => if selected then Some(v) else None
      case None => None
  }

  /** `RealOptions` keeps the real options in their original order. */
  lemma {:induction false} RealOptionsInOrder(options: seq<string>, i: nat)
    requires i < |RealOptions(options)|
    ensures exists j :: (0 <= j < |options| && options[j] == RealOptions(options)[i]
                         && |RealOptions(options[..j])| == i)
  {
    var init, last := options[..|options| - 1], options[|options| - 1];
    assert options[..|options| - 1] == init;
    if i < |RealOptions(init)| {
      RealOptionsInOrder(init, i);
      var j :| 0 <= j < |init| && init[j] == RealOptions(init)[i] && |RealOptions(init[..j])| == i;
      assert init[..j] == options[..j];
    } else {
      assert RealOptions(options) == RealOptions(init) + [last];
      assert options[..|options| - 1] == init;
    }
  }

  /** With the default index 0, the first real option of the list is chosen. */
  lemma DefaultPicksFirstReal(options: seq<string>)
    requires SelectOption(options, 0, true).Some?
    ensures exists j :: (0 <= j < |options| && options[j] == SelectOption(options, 0, true).value
                         && forall k :: 0 <= k < j ==> !IsRealOption(options[k]))
  {
    RealOptionsInOrder(options, 0);
    var j :| 0 <= j < |options| && options[j] == RealOptions(options)[0] && |RealOptions(options[..j])| == 0;
    forall k | 0 <= k < j
      ensures !IsRealOption(options[k])
    {
      assert options[k] in options[..j];
    }
  }
}
