/**
 The record the two request handlers answer with: the client address, its
 reversal, the request's method and path, and the user agent. The root
 handler reports the request's own path; the catch-all handler reports the
 captured path with a leading `/`.
 */
module App {
  import opened PyStr
  import opened ClientAddress
  import opened IpReversal

  datatype Request = Request(
    headers: Headers,
    remoteAddr: Option<string>,
    httpMethod: string,
    path: string)

  datatype Response = Response(
    originalIp: Option<string>,
    reversedIp: string,
    httpMethod: string,
    path: string,
    userAgent: string)

  const UnknownAgent := "Unknown"

  /** `headers.get('User-Agent', 'Unknown')`: a present header wins even
      when its value is empty. */
  function UserAgent(headers: Headers): string {
    if "User-Agent" in headers then headers["User-Agent"] else UnknownAgent
  }

  function BuildResponse(req: Request, path: string): Response {
    var clientIp := ClientIp(req.headers, req.remoteAddr);
    Response(clientIp, ReverseIp(clientIp), req.httpMethod, path, UserAgent(req.headers))
  }

  /** The handler of `/`. */
  function HandleRequest(req: Request): Response {
    BuildResponse(req, req.path)
  }

  /** The handler of every other path, given the path without its leading `/`. */
  function CatchAll(req: Request, path: string): Response {
    BuildResponse(req, "/" + path)
  }

  /** Whatever path is reported, the record describes the selected client:
      the reversed field undoes to the original one and keeps its length, and
      the error text for a missing address appears exactly when no proxy
      header qualifies and the connection reports no remote address. */
  lemma ResponseReversal(req: Request, path: string)
    ensures var resp := BuildResponse(req, path);
            && resp.originalIp == ClientIp(req.headers, req.remoteAddr)
            && (resp.originalIp.Some? && HasFourSegments(resp.originalIp.value) ==>
                  && ReverseIp(Some(resp.reversedIp)) == resp.originalIp.value
                  && |resp.reversedIp| == |resp.originalIp.value|)
            && (resp.reversedIp == ProcessingErrorPrefix + "None" <==>
                  && req.remoteAddr.None?
                  && forall k | 0 <= k < |ProxyHeaders| :: !Qualifies(req.headers, ProxyHeaders[k]))
  {
    var resp := BuildResponse(req, path);
    var ip := resp.originalIp;
    if ip.Some? && HasFourSegments(ip.value) {
      ReverseInvolution(ip.value);
      ReversePreservesCharacters(ip.value);
    }
    ProcessingErrorExactly(ip);
    if forall k | 0 <= k < |ProxyHeaders| :: !Qualifies(req.headers, ProxyHeaders[k]) {
      SelectFallback(ProxyHeaders, req.headers, req.remoteAddr);
    } else {
      var k :| 0 <= k < |ProxyHeaders| && Qualifies(req.headers, ProxyHeaders[k]);
      QualifyingHeaderAnswers(ProxyHeaders, req.headers, req.remoteAddr, k);
    }
  }

  /** The two handlers build the same record and differ only in the path:
      the catch-all answer is the root answer for the captured path with `/`
      put in front. */
  lemma CatchAllIsRootWithSlash(req: Request, path: string)
    ensures CatchAll(req, path) == HandleRequest(req.(path := "/" + path))
    ensures CatchAll(req, path).path[0] == '/' && CatchAll(req, path).path[1..] == path
  {
  }

  /** The user agent falls back to "Unknown" only when the header is absent. */
  lemma UserAgentDefault(headers: Headers)
    ensures UserAgent(headers) == UnknownAgent <==>
              "User-Agent" !in headers || headers["User-Agent"] == UnknownAgent
    ensures "User-Agent" in headers ==> UserAgent(headers) == headers["User-Agent"]
  {
  }
}
