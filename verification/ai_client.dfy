/** The part of the model client that turns the model's scoring reply into a
    decoded object: cut the text from the first `{` to the last `}`, hand it to
    the JSON decoder, and wrap any failure in an error that quotes the reply. */
module AiClient {
  import opened Wrappers
  import opened Text

  /** True when some `{` of `s` is followed, further on, by some `}`. */
  ghost predicate HasBraceSlice(s: string) {
    exists i, j :: 0 <= i < j < |s| && s[i] == '{' && s[j] == '}'
  }

  /** The client's guard `start >= 0 and end > start` holds exactly when some
      `{` is followed by some `}`. */
  lemma BraceGuard(s: string)
    ensures HasBraceSlice(s) <==> 0 <= IndexOf(s, '{') < LastIndexOf(s, '}')
  {
    var start := IndexOf(s, '{');
    var last := LastIndexOf(s, '}');
    if HasBraceSlice(s) {
      var i, j :| 0 <= i < j < |s| && s[i] == '{' && s[j] == '}';
      assert start <= i;
      assert j <= last;
    }
  }

  /** The text before the first `{` (all of it when there is none). */
  function Preamble(s: string): (r: string)
    ensures '{' !in r && r <= s
  {
    var start := IndexOf(s, '{');
    if start >= 0 then s[..start] else s
  }

  /** The text after the last `}` (all of it when there is none). */
  function Trailer(s: string): (r: string)
    ensures '}' !in r && |r| <= |s| && r == s[|s| - |r|..]
  {
    s[LastIndexOf(s, '}') + 1..]
  }

  /** The slice from an `{` at `i` through a `}` at `j`, together with the
      text around it, makes up the whole string. */
  lemma SliceBetween(s: string, i: nat, j: nat)
    requires i < j < |s| && s[i] == '{' && s[j] == '}'
    ensures s == s[..i] + s[i..j + 1] + s[j + 1..]
  {
  }

  /** The slice from an `{` at `i` through a `}` at `j` starts with the one
      and ends with the other. */
  lemma SliceEnds(s: string, i: nat, j: nat)
    requires i < j < |s| && s[i] == '{' && s[j] == '}'
    ensures var c := s[i..j + 1]; |c| >= 2 && c[0] == '{' && c[|c| - 1] == '}'
  {
  }

  /** The JSON candidate of a reply: the slice from its first `{` through its
      last `}`, or `None` when there is no `}` after the first `{`. */
  function ExtractCandidate(response: string): (r: Option<string>)
    ensures r.Some? <==> HasBraceSlice(response)
    ensures r.Some? ==> |r.value| >= 2 && r.value[0] == '{' && r.value[|r.value| - 1] == '}'
  {
    var start := IndexOf(response, '{');
    var end := LastIndexOf(response, '}') + 1;
    BraceGuard(response);
    if start >= 0 && end > start then
      SliceEnds(response, start, end - 1);
      Some(response[start..end])
    else
      None
  }

  /** The candidate is the reply minus its preamble and its trailer. */
  lemma CandidateSplitsReply(response: string)
    requires ExtractCandidate(response).Some?
    ensures response == Preamble(response) + ExtractCandidate(response).value + Trailer(response)
  {
    var start := IndexOf(response, '{');
    var last := LastIndexOf(response, '}');
    BraceGuard(response);
    SliceBetween(response, start, last);
  }

  /** A JSON object between brace-free prose is cut out exactly: when the text
      before it has no `{` and the text after it has no `}`, the candidate is
      the object itself. */
  lemma EmbeddedCandidate(prefix: string, json: string, suffix: string)
    requires '{' !in prefix && '}' !in suffix
    requires |json| > 0 && json[0] == '{' && json[|json| - 1] == '}'
    ensures ExtractCandidate(prefix + json + suffix) == Some(json)
  {
    var s := prefix + json + suffix;
    var close := |prefix| + |json| - 1;
    var start := IndexOf(s, '{');
    var last := LastIndexOf(s, '}');
    assert s[|prefix|] == '{' && s[close] == '}';
    assert start == |prefix|;
    assert last == close;
    assert s[start..last + 1] == json;
  }

  /** A reply with no `{` has no candidate. */
  lemma NoOpenBraceNoCandidate(response: string)
    requires '{' !in response
    ensures ExtractCandidate(response) == None
  {
  }

  const ParseFailurePrefix: string := "점수 평가 결과 파싱 실패: "
  const NoJsonDetail: string := "JSON 형식을 찾을 수 없습니다"
  const ReplyLabel: string := "\n응답: "

  /** The message of the error raised when the reply cannot be turned into an
      object: the cause, then the raw reply. */
  function ParseFailure(detail: string, response: string): (m: string)
    ensures ParseFailurePrefix <= m
    ensures |m| >= |ParseFailurePrefix| + |detail| &&
      m[|ParseFailurePrefix|..|ParseFailurePrefix| + |detail|] == detail
    ensures |m| >= |response| && m[|m| - |response|..] == response
  {
    var m := ParseFailurePrefix + detail + ReplyLabel + response;
    assert m[|ParseFailurePrefix|..|ParseFailurePrefix| + |detail|] == detail;
    assert m[|m| - |response|..] == response;
    m
  }

  /** `evaluate_requirement` after the model call: `reply` is what the call
      returned (its text, or the error it raised) and `decode` stands for the
      JSON decoder (the decoded value, or the decoder's error message). */
  function EvaluateRequirement<T>(reply: Result<string, string>, decode: string -> Result<T, string>): (r: Result<T, string>)
    ensures reply.Failure? ==> r == Failure(reply.error)
    ensures reply.Success? ==>
      (r.Success? <==> ExtractCandidate(reply.value).Some? && decode(ExtractCandidate(reply.value).value).Success?)
    ensures reply.Success? && ExtractCandidate(reply.value).Some? && r.Success? ==>
      r == decode(ExtractCandidate(reply.value).value)
    ensures reply.Success? && ExtractCandidate(reply.value).None? ==>
      r.Failure? && |r.error| >= |ParseFailurePrefix| + |NoJsonDetail| &&
      r.error[|ParseFailurePrefix|..|ParseFailurePrefix| + |NoJsonDetail|] == NoJsonDetail
    ensures reply.Success? && r.Failure? ==>
      ParseFailurePrefix <= r.error &&
      |r.error| >= |reply.value| && r.error[|r.error| - |reply.value|..] == reply.value
  {
    match reply
    case Failure(e) => Failure(e)
    case Success(response) =>
      match ExtractCandidate(response)
      case None => Failure(ParseFailure(NoJsonDetail, response))
      case Some(candidate) =>
        match decode(candidate)
        case Success(v) => Success(v)
        case Failure(e) => Failure(ParseFailure(e, response))
  }

  /** A reply without any `{` is always rejected, whatever the decoder does. */
  lemma NoOpenBraceFails<T>(response: string, decode: string -> Result<T, string>)
    requires '{' !in response
    ensures EvaluateRequirement(Success(response), decode).Failure?
  {
    NoOpenBraceNoCandidate(response);
  }

  /** Prose around a JSON object does not change what is decoded: the
      evaluation returns exactly the decoder's verdict on the object. */
  lemma EmbeddedDecode<T>(prefix: string, json: string, suffix: string, decode: string -> Result<T, string>)
    requires '{' !in prefix && '}' !in suffix
    requires |json| > 0 && json[0] == '{' && json[|json| - 1] == '}'
    requires decode(json).Success?
    ensures EvaluateRequirement(Success(prefix + json + suffix), decode) == decode(json)
  {
    EmbeddedCandidate(prefix, json, suffix);
  }
}
