/** The opening-handshake guard of the `/ws` endpoint: a request is upgraded
    (101 Switching Protocols with the three negotiation headers) or refused
    (400 Bad Request, no negotiation headers). */
module Handshake {

  /** The GUID section 1.3 of RFC 6455 appends to the client's key. */
  const WEBSOCKET_GUID: string := "258EAFA5-E914-47DA-95CA-C5AB0DC85B11"

  const STATUS_SWITCHING_PROTOCOLS: int := 101
  const STATUS_BAD_REQUEST: int := 400

  /** ASCII lower case: `A`-`Z` map to `a`-`z`, every other character to itself. */
  function ToLower(c: char): char
  {
    if 'A' <= c <= 'Z' then (c as int + 32) as char else c
  }

  /** Two strings are equal once ASCII case is ignored. */
  predicate SameIgnoringCase(s: string, t: string)
  {
    |s| == |t| && forall i :: 0 <= i < |s| ==> ToLower(s[i]) == ToLower(t[i])
  }

  /** `strings.EqualFold`, folding ASCII case only: the two strings are walked
      together, one character pair at a time. */
  function EqualFold(s: string, t: string): (equal: bool)
    ensures equal <==> SameIgnoringCase(s, t)
  {
    if |s| == 0 || |t| == 0 then |s| == |t|
    else
      ToLower(s[0]) == ToLower(t[0]) && EqualFold(s[1..], t[1..])
  }

  /** A request as the handler sees it: its HTTP method and its header fields,
      each name mapped to its values in order of arrival. */
  datatype Request = Request(httpMethod: string, header: map<string, seq<string>>)

  /** The status written and the header fields set on the response. */
  datatype Response = Response(status: int, header: map<string, string>)

  /** `Header.Get`: the first value of a field, or the empty string when it is absent. */
  function HeaderGet(header: map<string, seq<string>>, name: string): (value: string)
  {
    if name in header && |header[name]| > 0 then header[name][0] else ""
  }

  /** The three negotiation headers of a successful upgrade; `digest` stands for
      Base64 of the SHA-1 of its argument. */
  function NegotiationHeaders(clientKey: string, digest: string -> string): map<string, string>
  {
    map[
      "Upgrade" := "websocket",
      "Connection" := "Upgrade",
      "Sec-WebSocket-Accept" := digest(clientKey + WEBSOCKET_GUID)
    ]
  }

  /** The handler's decision. */
  function Handshake(req: Request, digest: string -> string): (resp: Response)
    // upgraded exactly when the method is GET and both headers match, ignoring case
    ensures resp.status == STATUS_SWITCHING_PROTOCOLS <==>
              && req.httpMethod == "GET"
              && SameIgnoringCase(HeaderGet(req.header, "Upgrade"), "websocket")
              && SameIgnoringCase(HeaderGet(req.header, "Connection"), "Upgrade")
    // otherwise refused, with no negotiation header set
    ensures resp.status != STATUS_SWITCHING_PROTOCOLS ==>
              resp.status == STATUS_BAD_REQUEST && resp.header == map[]
    // an upgrade answers with the accept token computed from the client's key and the GUID
    ensures resp.status == STATUS_SWITCHING_PROTOCOLS ==>
              && resp.header.Keys == {"Upgrade", "Connection", "Sec-WebSocket-Accept"}
              && resp.header["Upgrade"] == "websocket"
              && resp.header["Connection"] == "Upgrade"
              && resp.header["Sec-WebSocket-Accept"] ==
                   digest(HeaderGet(req.header, "Sec-WebSocket-Key") + WEBSOCKET_GUID)
  {
    if req.httpMethod != "GET" then
      Response(STATUS_BAD_REQUEST, map[])
    else
      var upgrade := HeaderGet(req.header, "Upgrade");
      var connection := HeaderGet(req.header, "Connection");
      var clientKey := HeaderGet(req.header, "Sec-WebSocket-Key");
      if !EqualFold(upgrade, "websocket") || !EqualFold(connection, "Upgrade") then
        Response(STATUS_BAD_REQUEST, map[])
      else
        Response(STATUS_SWITCHING_PROTOCOLS, NegotiationHeaders(clientKey, digest))
  }

  /** A request without an `Upgrade` field is refused, whatever else it carries. */
  lemma MissingUpgradeRefused(req: Request, digest: string -> string)
    requires "Upgrade" !in req.header
    ensures Handshake(req, digest) == Response(STATUS_BAD_REQUEST, map[])
  {
    assert !SameIgnoringCase("", "websocket");
  }

  /** The header values are matched without regard to ASCII case. */
  lemma MixedCaseAccepted(digest: string -> string)
    ensures var req := Request("GET", map["Upgrade" := ["WebSocket"], "Connection" := ["upgrade"]]);
      Handshake(req, digest).status == STATUS_SWITCHING_PROTOCOLS
  {
    assert SameIgnoringCase("WebSocket", "websocket");
    assert SameIgnoringCase("upgrade", "Upgrade");
  }

  /** `Connection` must be `Upgrade` itself: a token list that contains it,
      as section 4.2.1 of RFC 6455 allows, is refused. */
  lemma ConnectionTokenListRefused(digest: string -> string)
    ensures var req := Request("GET", map["Upgrade" := ["websocket"], "Connection" := ["keep-alive, Upgrade"]]);
      Handshake(req, digest).status == STATUS_BAD_REQUEST
  {
    assert !SameIgnoringCase("keep-alive, Upgrade", "Upgrade");
  }
}
