/**
 * The checks `translateText` (background.js) applies to one chat-completions response:
 * the HTTP status, the shape of the response body, the presence of the message content,
 * the JSON in that content, and finally the translation envelope
 * `{"original": …, "translation": …}`. Each check has its own error; the first one that
 * fails decides the error, and when none fails the `translation` string is the result.
 */
module Api {
  import opened Common
  import opened Strings

  /** A value `JSON.parse` can produce. Object keys are unique after parsing (a repeated
      key keeps its last value), so an object is a map. */
  datatype Json =
    | JNull
    | JBool(b: bool)
    | JNumber(n: real)
    | JString(s: string)
    | JArray(items: seq<Json>)
    | JObject(fields: map<string, Json>)

  /** JavaScript truthiness of a parsed value: `null`, `false`, `0` and `""` are falsy;
      every array and object is truthy. */
  predicate Truthy(v: Json) {
    match v
    case JNull => false
    case JBool(b) => b
    case JNumber(n) => n != 0.0
    case JString(s) => s != ""
    case JArray(_) => true
    case JObject(_) => true
  }

  /** `typeof v === 'object'`: true of `null`, arrays and objects. */
  predicate IsObjectType(v: Json) {
    v.JNull? || v.JArray? || v.JObject?
  }

  /** The property read `v.key` on a non-null value: an own property of an object, and
      `undefined` (`None`) for everything else, since no other parsed value has a
      property under the keys read here. */
  function Member(v: Json, key: string): (r: Option<Json>)
    requires !v.JNull?
    ensures r.Some? <==> v.JObject? && key in v.fields
    ensures r.Some? ==> r.value == v.fields[key]
  {
    if v.JObject? && key in v.fields then Some(v.fields[key]) else None
  }

  /** The errors `translateText` can throw, one per check, plus the two a foreign call can
      raise: a rejected `fetch` and the TypeError of reading a property of `null`. */
  datatype Failure =
    | NotConfigured
    | ApiUnreachable
    | Network(reason: string)
    | HttpError(status: nat, body: string)
    | BodyNotJson
    | BadChoices
    | NullRead(property: string)
    | MissingContent
    | ContentNotJson
    | NotAnObject
    | MissingFields
    | FieldNotString
    | ExtraFields

  /** `error.message` of each failure: the text the page shows. */
  function Message(f: Failure): string
  {
    match f
    case NotConfigured => "请先配置API设置"
    case ApiUnreachable => "无法连接到API服务器，请检查API地址和网络连接"
    case Network(reason) => reason
    case HttpError(status, body) => "API请求失败: " + Decimal(status) + " " + body
    case BodyNotJson => "无法解析API响应"
    case BadChoices => "API响应格式不正确"
    case NullRead(property) => "Cannot read properties of null (reading '" + property + "')"
    case MissingContent => "API响应缺少必要字段"
    case ContentNotJson => "翻译结果格式无效，返回内容不是合法的JSON格式"
    case NotAnObject => "翻译结果格式错误：返回内容必须是一个JSON对象"
    case MissingFields => "翻译结果缺少必要字段：必须包含original和translation字段"
    case FieldNotString => "翻译结果字段类型错误：original和translation必须是字符串"
    case ExtraFields => "翻译结果格式错误：不允许包含额外字段"
  }

  /** The status message shows the status as a decimal numeral and then the body, so both
      can be read back from it. */
  lemma HttpErrorMessage(status: nat, body: string)
    ensures var m := Message(HttpError(status, body));
      var prefix := "API请求失败: ";
      && m[..|prefix|] == prefix
      && var d := m[|prefix|..|m| - |body| - 1];
      && (forall i :: 0 <= i < |d| ==> '0' <= d[i] <= '9')
      && DecimalValue(d) == status
      && m[|m| - |body| - 1] == ' '
      && m[|m| - |body|..] == body
  {
    var prefix := "API请求失败: ";
    var m := Message(HttpError(status, body));
    assert m == prefix + Decimal(status) + " " + body;
    assert m[|prefix|..|m| - |body| - 1] == Decimal(status);
    DecimalRoundTrip(status);
  }

  /** The keys a translation envelope must have, and the only keys it may have. */
  const EnvelopeKeys: set<string> := {"original", "translation"}

  /** A well-formed translation envelope, stated as a whole: an object whose keys are
      exactly `original` and `translation`, both holding strings. */
  predicate IsEnvelope(v: Json) {
    && v.JObject?
    && v.fields.Keys == EnvelopeKeys
    && v.fields["original"].JString?
    && v.fields["translation"].JString?
  }

  /** The envelope checks, in the order the source makes them: object, required keys,
      string types, extra keys. */
  function CheckEnvelope(v: Json): (r: Result<string, Failure>)
    ensures r.Ok? <==> IsEnvelope(v)
    ensures r.Ok? ==> r.value == v.fields["translation"].s
    ensures r.Err? ==> r.error in {NotAnObject, MissingFields, FieldNotString, ExtraFields}
    ensures !Truthy(v) || !IsObjectType(v) ==> r == Err(NotAnObject)
    ensures v.JArray? ==> r == Err(MissingFields)
    ensures v.JObject? && !("original" in v.fields && "translation" in v.fields) ==> r == Err(MissingFields)
    ensures v.JObject? && EnvelopeKeys <= v.fields.Keys ==>
              (!v.fields["original"].JString? || !v.fields["translation"].JString? ==> r == Err(FieldNotString))
    ensures v.JObject? && EnvelopeKeys <= v.fields.Keys ==>
              (v.fields["original"].JString? && v.fields["translation"].JString? && v.fields.Keys != EnvelopeKeys
               ==> r == Err(ExtraFields))
  {
    if !Truthy(v) || !IsObjectType(v) then Err(NotAnObject)
    else if !(v.JObject? && "original" in v.fields && "translation" in v.fields) then Err(MissingFields)
    else if !v.fields["original"].JString? || !v.fields["translation"].JString? then Err(FieldNotString)
    else if exists k :: k in v.fields && k !in EnvelopeKeys then
      Err(ExtraFields)
    else
      assert v.fields.Keys == EnvelopeKeys;
      Ok(v.fields["translation"].s)
  }

  /** The model's reply in the system prompt's example of a correct response is accepted
      and gives its translation. */
  lemma CorrectExampleAccepted()
    ensures CheckEnvelope(JObject(map["original" := JString("Hello\nWorld"), "translation" := JString("你好\n世界")]))
            == Ok("你好\n世界")
  {
    var v := JObject(map["original" := JString("Hello\nWorld"), "translation" := JString("你好\n世界")]);
    assert v.fields.Keys == EnvelopeKeys;
  }

  /** The system prompt's example of an incorrect response lacks the required keys. */
  lemma IncorrectExampleRejected()
    ensures CheckEnvelope(JObject(map["text" := JString("Hello"), "translated" := JString("你好")]))
            == Err(MissingFields)
  {
    var v := JObject(map["text" := JString("Hello"), "translated" := JString("你好")]);
    assert "original" !in v.fields by {
      assert v.fields.Keys == {"text", "translated"};
    }
  }

  /** A third key is refused even when both required keys hold strings. */
  lemma ExtraKeyRejected()
    ensures CheckEnvelope(JObject(map["original" := JString("a"), "translation" := JString("b"), "note" := JString("c")]))
            == Err(ExtraFields)
  {
    var v := JObject(map["original" := JString("a"), "translation" := JString("b"), "note" := JString("c")]);
    assert "note" in v.fields && "note" !in EnvelopeKeys;
  }

  /** `response.ok`: a status in the range 200 to 299. */
  predicate IsOk(status: nat) {
    200 <= status <= 299
  }

  /** A response as `fetch` resolves it: the status and the body text. */
  datatype HttpResponse = HttpResponse(status: nat, body: string)

  /** `data.choices[0]` when `choices` is a non-empty array, the value the source goes on
      with; `None` when the `choices` check fails. */
  function FirstChoice(data: Json): (r: Option<Json>)
    requires !data.JNull?
    ensures r.Some? <==> data.JObject? && "choices" in data.fields
                         && data.fields["choices"].JArray? && |data.fields["choices"].items| > 0
    ensures r.Some? ==> r.value == data.fields["choices"].items[0]
  {
    match Member(data, "choices")
    case Some(JArray(items)) => if |items| > 0 then Some(items[0]) else None
    case _ => None
  }

  /** `choice.message?.content`: `undefined` unless `message` is an object with a
      `content` property. */
  function MessageContent(choice: Json): (r: Option<Json>)
    requires !choice.JNull?
    ensures r.Some? <==> choice.JObject? && "message" in choice.fields
                         && choice.fields["message"].JObject? && "content" in choice.fields["message"].fields
    ensures r.Some? ==> r.value == choice.fields["message"].fields["content"]
  {
    match Member(choice, "message")
    case Some(m) => if m.JNull? then None else Member(m, "content")
    case None => None
  }

  /** `data.choices[0]` of a response whose status is ok and whose body parses to a value
      other than `null`; `None` when any of these fails. */
  function ChoiceOf(response: HttpResponse, parse: string -> Option<Json>): Option<Json>
  {
    if IsOk(response.status) && parse(response.body).Some? && !parse(response.body).value.JNull?
    then FirstChoice(parse(response.body).value)
    else None
  }

  /** `data.choices[0].message?.content` of such a response, when `choices[0]` is not `null`. */
  function ContentOf(response: HttpResponse, parse: string -> Option<Json>): Option<Json>
  {
    match ChoiceOf(response, parse)
    case Some(choice) => if choice.JNull? then None else MessageContent(choice)
    case None => None
  }

  /** The checks on one response, in order: status, body JSON, `choices`, content,
      content JSON, then the envelope. `parse` is `JSON.parse` (and `response.json()`),
      `None` when it throws. Each check that fails gives its own error, and a response
      that passes them all is decided by the envelope checks. */
  function CheckResponse(response: HttpResponse, parse: string -> Option<Json>): (r: Result<string, Failure>)
    ensures !IsOk(response.status) ==> r == Err(HttpError(response.status, response.body))
    ensures IsOk(response.status) && parse(response.body).None? ==> r == Err(BodyNotJson)
    ensures IsOk(response.status) && parse(response.body) == Some(JNull) ==> r == Err(NullRead("choices"))
    ensures (IsOk(response.status) && parse(response.body).Some? && !parse(response.body).value.JNull?
             && ChoiceOf(response, parse).None?) ==> r == Err(BadChoices)
    ensures ChoiceOf(response, parse) == Some(JNull) ==> r == Err(NullRead("message"))
    ensures (ChoiceOf(response, parse).Some? && !ChoiceOf(response, parse).value.JNull?
             && ContentOf(response, parse).None?) ==> r == Err(MissingContent)
    ensures ContentOf(response, parse).Some? && !Truthy(ContentOf(response, parse).value) ==> r == Err(MissingContent)
    ensures (ContentOf(response, parse).Some? && Truthy(ContentOf(response, parse).value)
             && !ContentOf(response, parse).value.JString?) ==> r == Err(ContentNotJson)
    ensures (ContentOf(response, parse).Some? && Truthy(ContentOf(response, parse).value)
             && ContentOf(response, parse).value.JString?) ==>
              var text := Trim(ContentOf(response, parse).value.s);
              && (parse(text).None? ==> r == Err(ContentNotJson))
              && (parse(text).Some? ==> r == CheckEnvelope(parse(text).value))
  {
    if !IsOk(response.status) then Err(HttpError(response.status, response.body))
    else match parse(response.body)
      case None => Err(BodyNotJson)
      case Some(data) =>
        if data.JNull? then Err(NullRead("choices"))
        else match FirstChoice(data)
          case None => Err(BadChoices)
          case Some(choice) =>
            if choice.JNull? then Err(NullRead("message"))
            else match MessageContent(choice)
              case None => Err(MissingContent)
              case Some(content) =>
                if !Truthy(content) then Err(MissingContent)
                else if !content.JString? then Err(ContentNotJson)
                else match parse(Trim(content.s))
                  case None => Err(ContentNotJson)
                  case Some(envelope) => CheckEnvelope(envelope)
  }

  /** The content string of an accepted response, where the happy path reads it. */
  ghost predicate HasContent(response: HttpResponse, parse: string -> Option<Json>) {
    && IsOk(response.status)
    && parse(response.body).Some?
    && var data := parse(response.body).value;
    && data.JObject? && "choices" in data.fields
    && data.fields["choices"].JArray? && |data.fields["choices"].items| > 0
    && var choice := data.fields["choices"].items[0];
    && choice.JObject? && "message" in choice.fields
    && var message := choice.fields["message"];
    && message.JObject? && "content" in message.fields
    && message.fields["content"].JString? && message.fields["content"].s != ""
  }

  ghost function ContentText(response: HttpResponse, parse: string -> Option<Json>): string
    requires HasContent(response, parse)
  {
    parse(response.body).value.fields["choices"].items[0].fields["message"].fields["content"].s
  }

  /** A response the extension accepts, described as a whole: an ok status, a body that
      parses to an object whose `choices` is a non-empty array, whose first element holds
      a `message` object with a non-empty string `content`, and that string, trimmed,
      parses to a translation envelope. */
  ghost predicate Accepted(response: HttpResponse, parse: string -> Option<Json>) {
    && HasContent(response, parse)
    && parse(Trim(ContentText(response, parse))).Some?
    && IsEnvelope(parse(Trim(ContentText(response, parse))).value)
  }

  ghost function AcceptedEnvelope(response: HttpResponse, parse: string -> Option<Json>): Json
    requires Accepted(response, parse)
  {
    parse(Trim(ContentText(response, parse))).value
  }

  /** The checks accept exactly the responses described by `Accepted`, and then give the
      envelope's `translation`. */
  lemma CheckResponseAccepts(response: HttpResponse, parse: string -> Option<Json>)
    ensures CheckResponse(response, parse).Ok? <==> Accepted(response, parse)
    ensures CheckResponse(response, parse).Ok? ==>
      CheckResponse(response, parse).value == AcceptedEnvelope(response, parse).fields["translation"].s
  {
  }

  /** Any truthy content that is not a string (a number, say) is reported as invalid JSON
      content: calling `trim` on it throws inside the same `try`. */
  lemma NonStringContentIsNotJson(response: HttpResponse, parse: string -> Option<Json>)
    requires ContentOf(response, parse).Some?
    requires Truthy(ContentOf(response, parse).value) && !ContentOf(response, parse).value.JString?
    ensures CheckResponse(response, parse) == Err(ContentNotJson)
  {
  }

  /** A numeric content, the one-element example: `{"choices": [{"message": {"content": 1}}]}`. */
  lemma NumericContentIsNotJson(response: HttpResponse, parse: string -> Option<Json>)
    requires IsOk(response.status)
    requires parse(response.body)
             == Some(JObject(map["choices" := JArray([JObject(map["message" := JObject(map["content" := JNumber(1.0)])])])]))
    ensures CheckResponse(response, parse) == Err(ContentNotJson)
  {
    var choice := JObject(map["message" := JObject(map["content" := JNumber(1.0)])]);
    assert ChoiceOf(response, parse) == Some(choice);
    assert MessageContent(choice) == Some(JNumber(1.0));
    NonStringContentIsNotJson(response, parse);
  }

}
