/** From a decoded model response to one result record: the guards on the
    `candidates` field and on the nested `content`/`parts`/`text` path, the
    code-fence cleanup, the JSON decode and the four field lookups with
    their `""` defaults. `decode` stands for `json.loads`: `None` is a
    JSONDecodeError. */
module Response {
  import opened Wrappers
  import opened Text
  import opened Json

  /** One result record. Its five keys are the five fields; apart from the
      filename, a field holds whatever JSON value the model answered with. */
  datatype Record = Record(filename: string, title: Value, description: Value, keywords: Value, category: Value)

  /** The title that marks a record as an error record. */
  const ErrorTitle := "Error Processing"
  const NoCandidates := "No candidates returned"
  const InvalidFormat := "Invalid API response format"
  const ParseFailure := "Failed to parse JSON response"

  /** The record every error path returns, with the error's description. */
  function ErrorRecord(filename: string, description: string): (r: Record)
    ensures IsErrorRecord(r) && r.filename == filename && r.description == Str(description)
  {
    Record(filename, Str(ErrorTitle), Str(description), Str(""), Str(""))
  }

  /** An error record: sentinel title, a string description, empty keywords and category. */
  predicate IsErrorRecord(r: Record)
  {
    r.title == Str(ErrorTitle) && r.description.Str? && r.keywords == Str("") && r.category == Str("")
  }

  /** The four fields read from the model's answer. */
  datatype Fields = Fields(title: Value, description: Value, keywords: Value, category: Value)

  /** `data["candidates"]` behind the guard `"candidates" not in data`:
      `Missing` when the guard fires. */
  function Candidates(data: Value): (r: Lookup)
    ensures data.Obj? ==> r == (if "candidates" in data.fields then Found(data.fields["candidates"]) else Missing)
  {
    match Contains(data, "candidates")
    case NotIterable(message) => Raised(message)
    case Member(present) => if present then Subscript(data, Name("candidates")) else Missing
  }

  /** `candidates[0]["content"]["parts"][0]["text"]`. */
  function AnswerText(candidates: Value): (r: Lookup)
    ensures r.Found? ==> candidates.Arr? && candidates.items != []
    ensures candidates.Obj? ==> r.Missing?
  {
    Then(Then(Then(Then(Subscript(candidates, Zero), Name("content")), Name("parts")), Zero), Name("text"))
  }

  /** `text.replace("```json", "").replace("```", "").strip()`. */
  function Clean(text: string): (r: string)
    ensures !Occurs(r, Fence)
  {
    var r := Strip(RemoveAll(RemoveAll(text, JsonFence), Fence));
    RemoveFenceLeavesNone(RemoveAll(text, JsonFence));
    StripNoOccurrence(RemoveAll(RemoveAll(text, JsonFence), Fence), Fence);
    r
  }

  /** `metadata.get(name, "")`. */
  function Field(metadata: Value, name: string): (r: Lookup)
    ensures r.Found? <==> metadata.Obj?
    ensures metadata.Obj? ==> r.value == if name in metadata.fields then metadata.fields[name] else Str("")
  {
    Get(metadata, name, Str(""))
  }

  /** The answer's fields, or the description of the error record the
      service returns instead. */
  function Metadata(data: Value, decode: string -> Option<Value>): (r: Result<Fields, string>)
    ensures (data.Obj? && ("candidates" !in data.fields || !Truthy(data.fields["candidates"])))
              ==> r == Err(NoCandidates)
    ensures (data.Obj? && "candidates" in data.fields && Truthy(data.fields["candidates"])
             && AnswerText(data.fields["candidates"]).Missing?)
              ==> r == Err(InvalidFormat)
    ensures (data.Obj? && "candidates" in data.fields && AnswerText(data.fields["candidates"]).Found?)
              ==> r == AnswerFields(AnswerText(data.fields["candidates"]).value, decode)
  {
    match Candidates(data)
    case Raised(message) => Err(message)
    case Missing => Err(NoCandidates)
    case Found(candidates) =>
      if !Truthy(candidates) then Err(NoCandidates)
      else match AnswerText(candidates)
        case Raised(message) => Err(message)
        case Missing => Err(InvalidFormat)
        case Found(text) => AnswerFields(text, decode)
  }

  /** From the answer text on: clean it, decode it, read the four fields. */
  function AnswerFields(text: Value, decode: string -> Option<Value>): (r: Result<Fields, string>)
    ensures text.Str? && decode(Clean(text.s)) == None ==> r == Err(ParseFailure)
    ensures r.Ok? <==> text.Str? && decode(Clean(text.s)).Some? && decode(Clean(text.s)).value.Obj?
  {
    if !text.Str? then Err("'" + TypeName(text) + "' object has no attribute 'replace'")
    else match decode(Clean(text.s))
      case None => Err(ParseFailure)
      case Some(metadata) =>
        if !metadata.Obj? then Err("'" + TypeName(metadata) + "' object has no attribute 'get'")
        else Ok(Fields(Field(metadata, "Title").value, Field(metadata, "Description").value,
                       Field(metadata, "Keywords").value, Field(metadata, "Category").value))
  }

  /** The record `process_single_image` returns once a response body was fetched. */
  function RecordFromData(filename: string, data: Value, decode: string -> Option<Value>): (r: Record)
    ensures r.filename == filename
    ensures Metadata(data, decode).Err? ==> r == ErrorRecord(filename, Metadata(data, decode).error)
  {
    match Metadata(data, decode)
    case Err(description) => ErrorRecord(filename, description)
    case Ok(f) => Record(filename, f.title, f.description, f.keywords, f.category)
  }

  /** `data` is a response body, whatever else it carries, whose nested
      path `candidates[0].content.parts[0].text` holds the string `text`. */
  predicate Answers(data: Value, text: string)
  {
    data.Obj? && "candidates" in data.fields && AnswerText(data.fields["candidates"]) == Found(Str(text))
  }

  /** The smallest body shape the service expects, carrying `text` as the answer. */
  function WellFormed(text: string): Value
  {
    Obj(map["candidates" := Arr([Obj(map["content" := Obj(map["parts" := Arr([Obj(map["text" := Str(text)])])])])])])
  }

  // ----- properties -----

  /** A response of the expected shape reaches the answer text unharmed. */
  lemma WellFormedReachesAnswer(text: string, decode: string -> Option<Value>)
    ensures Answers(WellFormed(text), text)
    ensures Metadata(WellFormed(text), decode) == AnswerFields(Str(text), decode)
  {
    var part := Obj(map["text" := Str(text)]);
    var content := Obj(map["parts" := Arr([part])]);
    var candidate := Obj(map["content" := content]);
    var candidates := Arr([candidate]);
    assert WellFormed(text) == Obj(map["candidates" := candidates]);
    assert Candidates(WellFormed(text)) == Found(candidates);
    assert Truthy(candidates);
    assert Subscript(candidates, Zero) == Found(candidate);
    assert Subscript(candidate, Name("content")) == Found(content);
    assert Subscript(content, Name("parts")) == Found(Arr([part]));
    assert Subscript(Arr([part]), Zero) == Found(part);
    assert Subscript(part, Name("text")) == Found(Str(text));
    assert AnswerText(candidates) == Found(Str(text));
  }

  /** Cleaning is idempotent. */
  lemma CleanIdempotent(text: string)
    ensures Clean(Clean(text)) == Clean(text)
  {
    var c := Clean(text);
    NoFenceNoJsonFence(c);
    RemoveAllAbsent(c, JsonFence);
    RemoveAllAbsent(c, Fence);
    assert Strip(c) == c by {
      TrimStartFixed(c);
      TrimEndFixed(c);
    }
  }

  /** An answer wrapped in ```` ```json ```` ... ```` ``` ```` fences cleans to
      the same text as the bare body, the body with surrounding whitespace
      stripped, as long as the body has no backtick. */
  lemma FencedCleansToBody(body: string)
    requires '`' !in body
    ensures Clean(JsonFence + body + Fence) == Clean(body) == Strip(body)
  {
    var s := JsonFence + body + Fence;
    assert s[..|JsonFence|] == JsonFence;
    assert s[|JsonFence|..] == body + Fence;
    calc {
      RemoveAll(s, JsonFence);
      RemoveAll(body + Fence, JsonFence);
      { RemoveAllPlainPrefix(body, Fence, JsonFence); }
      body + RemoveAll(Fence, JsonFence);
      body + Fence;
    }
    calc {
      RemoveAll(body + Fence, Fence);
      { RemoveAllPlainPrefix(body, Fence, Fence); }
      body + RemoveAll(Fence, Fence);
      { assert Fence[..|Fence|] == Fence && Fence[|Fence|..] == ""; }
      body;
    }
    AbsentHeadNoOccurrence(body, JsonFence);
    AbsentHeadNoOccurrence(body, Fence);
    RemoveAllAbsent(body, JsonFence);
    RemoveAllAbsent(body, Fence);
  }

  /** The record depends only on what the cleaned answer decodes to: a body
      whose answer is fenced and one whose answer is bare give the same
      record, whatever else either body carries. */
  lemma FencedAnswerSameRecord(filename: string, fenced: Value, bare: Value, body: string,
                               decode: string -> Option<Value>)
    requires '`' !in body
    requires Answers(fenced, JsonFence + body + Fence) && Answers(bare, body)
    ensures RecordFromData(filename, fenced, decode) == RecordFromData(filename, bare, decode)
  {
    FencedCleansToBody(body);
    assert Metadata(fenced, decode) == AnswerFields(Str(JsonFence + body + Fence), decode);
    assert Metadata(bare, decode) == AnswerFields(Str(body), decode);
  }

  /** An answer that does not decode gives the parse-failure record. */
  lemma UndecodableAnswer(filename: string, data: Value, text: string, decode: string -> Option<Value>)
    requires Answers(data, text) && decode(Clean(text)) == None
    ensures RecordFromData(filename, data, decode) == ErrorRecord(filename, ParseFailure)
  {
  }

  /** Keys missing from the decoded object default to `""` and present ones
      are copied; without a title the record is not an error record. */
  lemma MissingKeysDefaultToEmpty(filename: string, data: Value, text: string, decode: string -> Option<Value>,
                                  answer: map<string, Value>)
    requires Answers(data, text) && decode(Clean(text)) == Some(Obj(answer))
    ensures var r := RecordFromData(filename, data, decode);
            && r.title == (if "Title" in answer then answer["Title"] else Str(""))
            && r.description == (if "Description" in answer then answer["Description"] else Str(""))
            && r.keywords == (if "Keywords" in answer then answer["Keywords"] else Str(""))
            && r.category == (if "Category" in answer then answer["Category"] else Str(""))
            && ("Title" !in answer ==> !IsErrorRecord(r))
  {
    var m := Obj(answer);
    assert AnswerFields(Str(text), decode)
        == Ok(Fields(Field(m, "Title").value, Field(m, "Description").value,
                     Field(m, "Keywords").value, Field(m, "Category").value));
  }

  /** A first candidate without `content` gives the invalid-format record,
      whatever else the body and the other candidates carry. */
  lemma IncompleteCandidate(filename: string, data: Value, candidate: map<string, Value>, rest: seq<Value>,
                            decode: string -> Option<Value>)
    requires data.Obj? && "candidates" in data.fields
    requires data.fields["candidates"] == Arr([Obj(candidate)] + rest) && "content" !in candidate
    ensures RecordFromData(filename, data, decode) == ErrorRecord(filename, InvalidFormat)
  {
  }

  /** A reply whose only candidate was blocked, so that it carries a
      `finishReason` but no `content`, gives the invalid-format record. */
  lemma SafetyBlockedReply(filename: string, decode: string -> Option<Value>)
    ensures var data := Obj(map["candidates" := Arr([Obj(map["finishReason" := Str("SAFETY")])]),
                                "usageMetadata" := Obj(map["promptTokenCount" := Num(258)])]);
            RecordFromData(filename, data, decode) == ErrorRecord(filename, InvalidFormat)
  {
    var candidate := map["finishReason" := Str("SAFETY")];
    var data := Obj(map["candidates" := Arr([Obj(candidate)]),
                        "usageMetadata" := Obj(map["promptTokenCount" := Num(258)])]);
    assert data.fields["candidates"] == Arr([Obj(candidate)] + []);
    assert "content" !in candidate;
    IncompleteCandidate(filename, data, candidate, [], decode);
  }

  /** The sentinel cannot tell errors from answers: a model answer titled
      with the sentinel, with a string description and no keywords or
      category, yields a record that looks like an error record. */
  lemma SentinelIsAmbiguous(filename: string, data: Value, text: string, decode: string -> Option<Value>,
                            answer: map<string, Value>)
    requires Answers(data, text) && decode(Clean(text)) == Some(Obj(answer))
    requires "Title" in answer && answer["Title"] == Str(ErrorTitle)
    requires "Description" in answer && answer["Description"].Str?
    requires "Keywords" !in answer && "Category" !in answer
    ensures IsErrorRecord(RecordFromData(filename, data, decode))
    ensures Metadata(data, decode).Ok?
  {
    MissingKeysDefaultToEmpty(filename, data, text, decode, answer);
  }
}
