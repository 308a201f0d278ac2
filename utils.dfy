/** The response helpers of `utils.py`. */
module Utils {
  import opened Wrappers

  /** A JSON-compatible Python value: what response bodies and keyword arguments carry here. */
  datatype Value =
    | Null
    | Bool(b: bool)
    | Int(i: int)
    | Str(s: string)
    | List(items: seq<Value>)
    | Dict(entries: map<string, Value>)

  /** A value that is a string or `None`. */
  function OptionalStr(o: Option<string>): (v: Value)
    ensures v == Null <==> o.None?
    ensures o.Some? ==> v == Str(o.value)
  {
    match o
    case None => Null
    case Some(s) => Str(s)
  }

  /** A Werkzeug status: an `int` code or a `str` status line. */
  datatype Status = Code(code: int) | Line(text: string)

  const TimestampKey: string := "timestamp"
  const ContentTypeKey: string := "content-type"
  const JsonMime: string := "application/json"

  /**
   * The dict `_make_json` serialises: a copy of `data` that gains a `timestamp` entry,
   * holding the clock reading `now`, when it has none.
   */
  function Stamped(data: map<string, Value>, now: string): (d: map<string, Value>)
    ensures d.Keys == data.Keys + {TimestampKey}
    ensures forall k :: k in data ==> d[k] == data[k]
    ensures TimestampKey !in data ==> d[TimestampKey] == Str(now)
  {
    if TimestampKey in data then data else data[TimestampKey := Str(now)]
  }

  /**
   * `_make_json(data, status, headers)`. The clock reading `now` stands for `timestamp8601()`
   * and `dumps` for `json.dumps(..., indent=2)`. Dafny maps are values, so the caller's `data`
   * and `headers` cannot change; the copies the source makes are the local variables here.
   */
  method MakeJson(data: map<string, Value>, now: string, dumps: Value -> string,
                  status: Status := Code(200), headers: Option<map<string, string>> := None)
    returns (body: string, code: Status, responseHeaders: map<string, string>)
    ensures body == dumps(Dict(Stamped(data, now)))
    ensures code == status
    ensures ContentTypeKey in responseHeaders && responseHeaders[ContentTypeKey] == JsonMime
    ensures headers.Some? ==>
      responseHeaders.Keys == headers.value.Keys + {ContentTypeKey}
      && forall k :: k in headers.value && k != ContentTypeKey ==> responseHeaders[k] == headers.value[k]
    ensures headers.None? || headers == Some(map[]) ==> responseHeaders == map[ContentTypeKey := JsonMime]
  {
    var payload := data;
    if TimestampKey !in payload {
      payload := payload[TimestampKey := Str(now)];
    }
    body := dumps(Dict(payload));
    if headers.Some? && |headers.value| > 0 {
      responseHeaders := headers.value;
      responseHeaders := responseHeaders[ContentTypeKey := JsonMime];
    } else {
      responseHeaders := map[ContentTypeKey := JsonMime];
    }
    code := status;
  }

  /** `_dict_map(iterable)`: `to_dict()` of every element, same length, same order. */
  function DictMap<T>(items: seq<T>, toDict: T -> map<string, Value>): (r: seq<map<string, Value>>)
    ensures |r| == |items|
    ensures forall i :: 0 <= i < |items| ==> r[i] == toDict(items[i])
  {
    if items == [] then [] else [toDict(items[0])] + DictMap(items[1..], toDict)
  }
}
