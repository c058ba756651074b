/** `rewrite_with_gemini`: the branch structure around the rewriting service's reply.
    The HTTP call, the JSON path and the regular expression are abstracted into the
    shape of the reply. */
module Rewrite {
  import opened Wrappers
  import Text

  /** What the guarded block made of a decoded body: the JSON path
      `candidates[0].content.parts[0].text` was missing (an exception the block
      catches), the pattern `Заголовок: ... Текст: ...` did not match, or it matched
      with these two groups. */
  datatype Extraction = PathError | NoMatch | Match(group1: string, group2: string)

  /** The response body as `response.json()` sees it. */
  datatype Body = NotJson | Json(extraction: Extraction)

  /** What the POST to the service produced: an exception raised by the request
      itself, or a response with a status and a body. */
  datatype Reply = TransportError | Response(status: int, body: Body)

  const StatusOk: int := 200

  /** The service answered 200 and the pattern matched. */
  predicate Rewritten(reply: Reply) {
    reply.Response? && reply.status == StatusOk && reply.body.Json? && reply.body.extraction.Match?
  }

  /** An exception escapes the function: the request failed, or a 200 body was not
      JSON (the decode happens before the guarded block). */
  predicate Escapes(reply: Reply) {
    reply.TransportError? || (reply.status == StatusOk && reply.body.NotJson?)
  }

  /** The rewritten `(title, text)` when the service answered 200 and the pattern
      matched (both groups stripped); the original pair on any other status, on a
      caught extraction error and on no match. */
  function RewriteWithGemini(title: string, text: string, reply: Reply): (r: Outcome<(string, string)>)
    ensures r.Raised? <==> Escapes(reply)
    ensures Rewritten(reply) ==>
      r == Returned((Text.Strip(reply.body.extraction.group1), Text.Strip(reply.body.extraction.group2)))
    ensures !Rewritten(reply) && !Escapes(reply) ==> r == Returned((title, text))
  {
    match reply
    case TransportError => Raised
    case Response(status, body) =>
      if status == StatusOk then
        match body
        case NotJson => Raised
        case Json(extraction) =>
          match extraction
          case Match(g1, g2) => Returned((Text.Strip(g1), Text.Strip(g2)))
          case _ => Returned((title, text))
      else
        Returned((title, text))
  }

  /** Fallback: whenever the reply is a non-200 status, the pair is returned unmodified,
      whatever the body. */
  lemma FallbackOnStatus(title: string, text: string, status: int, body: Body)
    requires status != StatusOk
    ensures RewriteWithGemini(title, text, Response(status, body)) == Returned((title, text))
  {
  }

  /** Groups that already have no whitespace at either end come back unchanged. */
  lemma GroupsKeptWhenTrimmed(title: string, text: string, g1: string, g2: string)
    requires g1 != [] ==> !Text.IsSpace(g1[0]) && !Text.IsSpace(g1[|g1| - 1])
    requires g2 != [] ==> !Text.IsSpace(g2[0]) && !Text.IsSpace(g2[|g2| - 1])
    ensures RewriteWithGemini(title, text, Response(StatusOk, Json(Match(g1, g2)))) == Returned((g1, g2))
  {
    Text.StripUnchanged(g1);
    Text.StripUnchanged(g2);
  }
}
