/** A content-source item as the bot sees it (`Story` in hackernewsbot.py).

    The item arrives as a decoded JSON object: a map from field names to
    values.  The HTTP request and the JSON parsing are not modelled; only
    the object they produce is. */
module StoryItem {
  import opened Results

  /** The JSON values an item field can hold.  `Null` is both JSON `null`
      and Python's `None`. */
  datatype Value = Null | Int(n: int) | Ints(ns: seq<int>) | Text(s: string)

  /** The decoded body of `GET /item/<id>.json`. */
  type Response = map<string, Value>

  datatype DecodeError =
    | MissingKey(key: string)   // `response['time']` raised `KeyError`
    | NotATimestamp(v: Value)   // `datetime.fromtimestamp` rejected the value

  /** A fetched story.  The fields are the read-only properties `ident`,
      `time`, `comments`, `score` and `title`; `time` is in Unix seconds. */
  datatype Story = Story(ident: int, time: int, comments: Value, score: Value, title: Value)

  /** `dict.get(key, default)` */
  function GetOr(response: Response, key: string, default: Value): (v: Value)
    ensures key in response ==> v == response[key]
    ensures key !in response ==> v == default
  {
    if key in response then response[key] else default
  }

  /** 0001-01-01T00:00:00Z and 9999-12-31T23:59:59Z in Unix seconds: the
      range of `datetime`, outside which `datetime.fromtimestamp` raises. */
  const MinTimestamp: int := -62135596800
  const MaxTimestamp: int := 253402300799

  predicate IsTimestamp(v: Value) {
    v.Int? && MinTimestamp <= v.n <= MaxTimestamp
  }

  /** `Story._init_with_api_response`: `time` is required and must be a
      number of seconds that `datetime` can represent; `kids`, `score` and
      `title` fall back to `[]`, `None` and `None`. */
  function Decode(ident: int, response: Response): (r: Result<Story, DecodeError>)
    ensures "time" !in response ==> r == Failure(MissingKey("time"))
    ensures r.Success? <==> "time" in response && IsTimestamp(response["time"])
    ensures "time" in response && !IsTimestamp(response["time"]) ==>
      r == Failure(NotATimestamp(response["time"]))
    ensures r.Success? ==> r.value.ident == ident && r.value.time == response["time"].n
  {
    if "time" !in response then Failure(MissingKey("time"))
    else if IsTimestamp(response["time"]) then
      Success(Story(ident, response["time"].n,
                    GetOr(response, "kids", Ints([])),
                    GetOr(response, "score", Null),
                    GetOr(response, "title", Null)))
    else Failure(NotATimestamp(response["time"]))
  }

  /** The item object that describes a story: the inverse of `Decode`. */
  function Encode(story: Story): (response: Response)
    ensures response.Keys == {"time", "kids", "score", "title"}
  {
    map["time" := Int(story.time), "kids" := story.comments,
        "score" := story.score, "title" := story.title]
  }

  /** Decoding the object that describes a story gives the story back:
      every present field is copied verbatim.  Only a story whose time
      `datetime` can hold has such an object. */
  lemma DecodeEncode(story: Story)
    requires MinTimestamp <= story.time <= MaxTimestamp
    ensures Decode(story.ident, Encode(story)) == Success(story)
  {
  }

  /** An item that carries only `time` decodes with no comments, no score
      and no title, rather than failing. */
  lemma DecodeDefaults(ident: int, seconds: int)
    requires MinTimestamp <= seconds <= MaxTimestamp
    ensures Decode(ident, map["time" := Int(seconds)]) == Success(Story(ident, seconds, Ints([]), Null, Null))
  {
  }

  /** Each optional field is the present value, or its default when absent;
      fields other than the four are ignored. */
  lemma DecodeFields(ident: int, response: Response)
    requires Decode(ident, response).Success?
    ensures Decode(ident, response).value.comments == if "kids" in response then response["kids"] else Ints([])
    ensures Decode(ident, response).value.score == if "score" in response then response["score"] else Null
    ensures Decode(ident, response).value.title == if "title" in response then response["title"] else Null
    ensures forall extra: string :: extra !in {"time", "kids", "score", "title"} ==>
      Decode(ident, response - {extra}) == Decode(ident, response)
  {
  }
}
