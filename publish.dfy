/** The publishing stage (`post_message`): a transcript that is empty or only
    whitespace is never sent; otherwise one JSON POST `{"message": transcript}`
    with a 15 second timeout is issued and its outcome reported. The HTTP
    transport is a parameter: a function from the request to the reply. */
module Publish {
  import opened Outcomes
  import opened Text

  /** Seconds the single POST may take. */
  const PostTimeoutSeconds: nat := 15

  /** The one request `post_message` can issue. */
  datatype Request = Request(endpoint: string, body: map<string, string>, timeoutSeconds: nat)

  /** What the transport gives back: a response with its status code, or a
      `requests.RequestException` raised while connecting or reading. */
  datatype Reply = Response(status: int) | RequestError(reason: string)

  /** How one call of `post_message` ends. Only `Accepted` returns the response;
      every other outcome returns `None`. */
  datatype Publication =
    | SkippedBlank                                   // empty or whitespace-only transcript
    | ClientMissing                                  // `import requests` failed
    | Accepted(request: Request, status: int)        // printed "[ok] ... (status N)"
    | Failed(request: Request, reply: Reply)         // printed "[error] POST failed: ..."

  /** `not transcript or not transcript.strip()`. The guard rejects exactly the
      transcripts made only of whitespace, the empty one included; the
      `not transcript` half adds nothing. */
  predicate IsBlank(transcript: string): (blank: bool)
    ensures blank <==> AllSpace(transcript)
    ensures blank <==> Strip(transcript) == []
  {
    StripEmptyIffAllSpace(transcript);
    transcript == [] || Strip(transcript) == []
  }

  /** `resp.raise_for_status()` raises for a client error (4xx) or a server error (5xx). */
  predicate RaisesForStatus(status: int)
  {
    400 <= status < 600
  }

  /** The request built for a transcript: `json={"message": transcript}`, `timeout=15`. */
  function MessageRequest(endpoint: string, transcript: string): (q: Request)
    ensures q.body.Keys == {"message"} && q.body["message"] == transcript
    ensures q.endpoint == endpoint && q.timeoutSeconds == PostTimeoutSeconds
  {
    Request(endpoint, map["message" := transcript], PostTimeoutSeconds)
  }

  /** The request, if any, that a publication issued. */
  function Issued(p: Publication): seq<Request>
  {
    match p
    case Accepted(q, _) => [q]
    case Failed(q, _) => [q]
    case _ => []
  }

  /** What `post_message` returns: the response's status on success, nothing otherwise. */
  function Returned(p: Publication): Option<int>
  {
    if p.Accepted? then Some(p.status) else None
  }

  /** `post_message(endpoint, transcript)`. A blank transcript returns `None`
      and issues nothing; otherwise, if the HTTP client is installed, exactly one
      request carrying the transcript is issued, and a response is returned only
      when it arrived with a status `raise_for_status` accepts. */
  function PostMessage(endpoint: string, transcript: string, clientInstalled: bool,
                       send: Request -> Reply): (p: Publication)
    ensures IsBlank(transcript) ==> p == SkippedBlank
    ensures |Issued(p)| <= 1
    ensures Issued(p) != [] <==> !IsBlank(transcript) && clientInstalled
    ensures Issued(p) != [] ==> Issued(p)[0] == MessageRequest(endpoint, transcript)
    ensures Returned(p).Some? <==>
              !IsBlank(transcript) && clientInstalled &&
              send(MessageRequest(endpoint, transcript)).Response? &&
              !RaisesForStatus(send(MessageRequest(endpoint, transcript)).status)
    ensures Returned(p).Some? ==> Returned(p).value == send(MessageRequest(endpoint, transcript)).status
  {
    if IsBlank(transcript) then SkippedBlank
    else if !clientInstalled then ClientMissing
    else
      var q := MessageRequest(endpoint, transcript);
      var reply := send(q);
      if reply.Response? && !RaisesForStatus(reply.status) then Accepted(q, reply.status)
      else Failed(q, reply)
  }

  /** A whitespace-only transcript never reaches the network, whatever the
      transport would have answered. */
  lemma BlankNeverPosted(endpoint: string, transcript: string, clientInstalled: bool,
                         send: Request -> Reply)
    requires AllSpace(transcript)
    ensures Issued(PostMessage(endpoint, transcript, clientInstalled, send)) == []
    ensures Returned(PostMessage(endpoint, transcript, clientInstalled, send)) == None
  {
  }

  /** For a transcript that is already stripped, as every transcript the
      recogniser stage produces is, the guard is the same test as the report
      stage's `if text:`. */
  lemma GuardAgreesWithReport(transcript: string)
    requires IsStripped(transcript)
    ensures IsBlank(transcript) <==> transcript == []
  {
    StripStripped(transcript);
  }
}
