/** The info endpoint of `info.py`. */
module Info {
  import opened Wrappers
  import opened Utils

  /** The two attributes of the Flask request that `on_info` reads. */
  datatype Request = Request(baseUrl: string, remoteAddr: Option<string>)

  /** The dict `on_info` builds before handing it to `_make_json`. */
  function InfoResult(action: Option<string>, request: Request): (result: map<string, Value>)
    ensures "action" in result && result["action"] == OptionalStr(action)
    ensures action == Some("base_url") ==>
      result.Keys == {"base_url", "action"} && result["base_url"] == Str(request.baseUrl)
    ensures action != Some("base_url") ==>
      result.Keys == {"hello", "action"} && result["hello"] == OptionalStr(request.remoteAddr)
  {
    var result :=
      if action == Some("base_url") then map["base_url" := Str(request.baseUrl)]
      else map["hello" := OptionalStr(request.remoteAddr)];
    result["action" := OptionalStr(action)]
  }

  /** `on_info(action, request)`: the result dict, as a JSON response with status 200. */
  method OnInfo(action: Option<string>, request: Request, now: string, dumps: Value -> string)
    returns (body: string, status: Status, headers: map<string, string>)
    ensures body == dumps(Dict(Stamped(InfoResult(action, request), now)))
    ensures status == Code(200)
    ensures headers == map[ContentTypeKey := JsonMime]
  {
    body, status, headers := MakeJson(InfoResult(action, request), now, dumps);
  }

  /**
   * The serialised info response always has exactly three keys: `timestamp` with the clock
   * reading, `action`, and `base_url` or `hello`.
   */
  lemma InfoPayload(action: Option<string>, request: Request, now: string)
    ensures var d := Stamped(InfoResult(action, request), now);
      && d.Keys == InfoResult(action, request).Keys + {TimestampKey}
      && |d.Keys| == 3
      && d[TimestampKey] == Str(now)
      && d["action"] == OptionalStr(action)
  {
  }
}
