/** tricorder.go: the request router in front of the cache. The HTTP response
    is an outcome value (status, cache-control header, body) instead of writes
    to an http.ResponseWriter. */
module Tricorder {
  import opened Basics
  import opened GoStrings
  import opened Util
  import opened Orchestrator

  const Service: string := "tricorder"

  const ValidVersions: map<string, bool> := map["0" := true, "latest" := true]

  /** IsValidVersion: a lookup in ValidVersions (a missing key reads false). */
  function IsValidVersion(version: string): (b: bool)
    ensures b <==> version == "0" || version == "latest"
  {
    version in ValidVersions && ValidVersions[version]
  }

  /** IsValidTxSignature accepts every signature. */
  function IsValidTxSignature(sig: string): bool {
    true
  }

  datatype APIError = APIError(ErrorID: string, ErrorMessage: string)
  datatype APIErrorResponse = APIErrorResponse(Status: string, Error: APIError)
  datatype APITxResponse<T> = APITxResponse(Status: string, Result: Option<T>, Error: Option<APIError>)

  /** The text that follows the quoted version in the invalid-version message. */
  const InvalidVersionTail: string := "` is not a supported version. Valid versions are: `latest`, `0`."

  /** MakeAPIInvalidVersionError: a "fail" response with error id
      "invalid_version" whose message quotes the rejected version, which can
      be read back from it. */
  function MakeAPIInvalidVersionError(version: string): (r: APIErrorResponse)
    ensures r.Status == "fail" && r.Error.ErrorID == "invalid_version"
    ensures |r.Error.ErrorMessage| > |version| && r.Error.ErrorMessage[1..|version| + 1] == version
    ensures QuotedVersion(r.Error.ErrorMessage) == version
  {
    APIErrorResponse("fail", APIError("invalid_version", "`" + version + InvalidVersionTail))
  }

  /** Reads the version back out of an invalid-version message. */
  function QuotedVersion(message: string): string {
    if |message| >= 1 + |InvalidVersionTail| then message[1..|message| - |InvalidVersionTail|] else message
  }

  datatype Body<T> = Text(text: string) | ErrorJson(failure: APIErrorResponse) | TxJson(success: APITxResponse<T>)

  /** A response, or Pending when the request is still waiting on the gate at
      the end of the schedule of other callers. */
  datatype Response<T> = Response(status: int, cacheControl: Option<string>, body: Body<T>) | Pending

  const NoCache: string := "private, max-age=0, no-store, no-cache, must-revalidate"

  /** io.WriteString(w, SERVICE). */
  function RootResponse<T>(): Response<T> {
    Response(200, None, Text(Service))
  }

  /** http.NotFound. */
  function NotFoundResponse<T>(): Response<T> {
    Response(404, None, Text("404 page not found\n"))
  }

  /** SendNoCache followed by http.Error(w, "503 service unavailable", 503). */
  function UnavailableResponse<T>(): Response<T> {
    Response(503, Some(NoCache), Text("503 service unavailable\n"))
  }

  /** What RespondWithInvalidVersionError writes. */
  function InvalidVersionResponse<T>(version: string): Response<T> {
    Response(200, Some("public, max-age=600"), ErrorJson(MakeAPIInvalidVersionError(version)))
  }

  /** What HandleTxV0 writes on success. */
  function TxOkResponse<T>(tx: Option<T>): Response<T> {
    Response(200, Some("public, max-age=60"), TxJson(APITxResponse("ok", tx, None)))
  }

  /** The (err, notFound) pair a handler returns, with what it wrote. */
  datatype Handled<T> = Handled(err: Option<Error>, notFound: bool, written: Option<Response<T>>)

  /** What HandleTxV0 returns for a lookup reply: the fetch error, "yikes" for
      a served remembered failure, or the 200 body for a value. */
  function V0Handled<T>(reply: Reply<T>): (h: Handled<T>)
    ensures !h.notFound
    ensures h.err == None <==> reply.isSet && reply.err == None
    ensures h.err == None ==> h.written == Some(TxOkResponse(reply.tx))
    ensures h.err != None ==> h.written == None
    ensures reply.err.Some? ==> h.err == reply.err
  {
    if reply.err.Some? then Handled(reply.err, false, None)
    else if !reply.isSet then Handled(Some("yikes"), false, None)
    else Handled(None, false, Some(TxOkResponse(reply.tx)))
  }

  /** The segments IndexHandler routes on. */
  function Parts(path: string): seq<string> {
    Clean(Split(path, '/'))
  }

  /** Where IndexHandler sends a path. */
  datatype Route = Root | Missing | BadVersion(version: string) | Lookup(version: string, sig: string)

  /** The routing table of IndexHandler: the exact path "/" names the service;
      otherwise at least three segments are needed, the first must be a valid
      version and the second must be "tx"; the third is the lookup key and any
      further segments are ignored. A key or a rejected version is always a
      whole, trimmed, non-empty segment of the path. */
  function RouteOf(path: string): (r: Route)
    ensures r.Lookup? ==> IsValidVersion(r.version) && IsSegment(r.sig) && '/' !in r.sig
    ensures r.BadVersion? ==> !IsValidVersion(r.version) && IsSegment(r.version) && '/' !in r.version
    ensures r == Root <==> path == "/"
    ensures r.Lookup? ==> |Parts(path)| > 2 && r.version == Parts(path)[0] && r.sig == Parts(path)[2]
    ensures r.BadVersion? ==> |Parts(path)| > 2 && r.version == Parts(path)[0]
  {
    if path == "/" then Root
    else
      CleanKeepsOut(Split(path, '/'), '/');
      RouteOfParts(Parts(path))
  }

  /** The branch on the segments, for any path other than "/". */
  function RouteOfParts(parts: seq<string>): Route {
    if |parts| <= 2 then Missing
    else if !IsValidVersion(parts[0]) then BadVersion(parts[0])
    else if parts[1] == "tx" then Lookup(parts[0], parts[2])
    else Missing
  }

  /** The response for each route; only a lookup depends on the cache's reply,
      and it is 200 exactly when the reply is set with no error, else 503. */
  function RouteResponse<T>(route: Route, reply: Reply<T>): (r: Response<T>)
    ensures r != Pending
    ensures route.Lookup? && reply.isSet && reply.err == None ==> r == TxOkResponse(reply.tx)
    ensures route.Lookup? && !(reply.isSet && reply.err == None) ==> r == UnavailableResponse()
    ensures route.BadVersion? ==> r == InvalidVersionResponse(route.version)
  {
    match route
    case Root => RootResponse()
    case Missing => NotFoundResponse()
    case BadVersion(v) => InvalidVersionResponse(v)
    case Lookup(_, _) => if V0Handled(reply).err.Some? then UnavailableResponse() else V0Handled(reply).written.value
  }

  /** The routing table as a client sees it: the service name for "/", 404 for
      fewer than three segments or an object other than "tx", the
      invalid-version JSON (status 200, never 404 or 503) for an unknown
      version whatever follows it, and for a lookup 200 with the cached body
      or else 503. */
  lemma RoutingTable<T>(path: string, reply: Reply<T>)
    ensures var r := RouteResponse(RouteOf(path), reply); var p := Parts(path);
      (path == "/" ==> r == RootResponse()) &&
      (path != "/" && |p| <= 2 ==> r == NotFoundResponse()) &&
      (path != "/" && |p| > 2 && !IsValidVersion(p[0]) ==>
         RouteOf(path) == BadVersion(p[0]) && r == InvalidVersionResponse(p[0]) &&
         r == Response(200, Some("public, max-age=600"), ErrorJson(MakeAPIInvalidVersionError(p[0])))) &&
      (path != "/" && |p| > 2 && IsValidVersion(p[0]) && p[1] != "tx" ==> r == NotFoundResponse()) &&
      (path != "/" && |p| > 2 && IsValidVersion(p[0]) && p[1] == "tx" ==>
         RouteOf(path) == Lookup(p[0], p[2]) &&
         r.Response? && (r.status == 200 <==> reply.isSet && reply.err == None) &&
         (reply.isSet && reply.err == None ==> r == TxOkResponse(reply.tx)) &&
         (!(reply.isSet && reply.err == None) ==> r == UnavailableResponse()))
  {
  }

  /** A canonical request path "/<version>/tx/<sig>" with a valid version and
      a signature that is a clean segment is routed to a lookup of that
      signature. */
  lemma RouteCanonical(version: string, sig: string)
    requires IsValidVersion(version)
    requires IsSegment(sig) && '/' !in sig
    ensures RouteOf("/" + version + "/tx/" + sig) == Lookup(version, sig)
  {
    CanonicalParts(version, sig);
  }

  lemma CanonicalParts(version: string, sig: string)
    requires IsValidVersion(version)
    requires IsSegment(sig) && '/' !in sig
    ensures Parts("/" + version + "/tx/" + sig) == [version, "tx", sig]
  {
    CanonicalSplit(version, sig);
    ValidVersionIsSegment(version);
    CanonicalClean(version, sig);
  }

  lemma CanonicalSplit(version: string, sig: string)
    requires IsValidVersion(version) && '/' !in sig
    ensures Split("/" + version + "/tx/" + sig, '/') == ["", version, "tx", sig]
  {
    var pieces := ["", version, "tx", sig];
    ValidVersionIsSegment(version);
    assert forall i :: 0 <= i < |pieces| ==> '/' !in pieces[i];
    CanonicalJoin(version, sig);
    SplitJoin(pieces, '/');
  }

  lemma CanonicalClean(version: string, sig: string)
    requires IsSegment(version) && IsSegment(sig)
    ensures Clean(["", version, "tx", sig]) == [version, "tx", sig]
  {
    var rest := [version, "tx", sig];
    assert IsSegment("tx");
    assert forall i :: 0 <= i < |rest| ==> IsSegment(rest[i]);
    CleanOfClean(rest);
    CleanOfEmptyPiece();
    var all := ["", version, "tx", sig];
    assert all == [all[0]] + all[1..];
    assert all[1..] == rest;
    CleanConcat([""], rest);
  }

  lemma ValidVersionIsSegment(version: string)
    requires IsValidVersion(version)
    ensures IsSegment(version) && '/' !in version
  {
    if version == "0" {
      assert IsSegment("0");
    } else {
      assert IsSegment("latest");
    }
  }

  lemma CanonicalJoin(version: string, sig: string)
    ensures Join(["", version, "tx", sig], '/') == "/" + version + "/tx/" + sig
  {
    var pieces := ["", version, "tx", sig];
    assert pieces[1..][1..][1..] == [sig];
    assert Join(pieces[2..], '/') == "tx" + ['/'] + sig;
    assert Join(pieces[1..], '/') == version + ['/'] + ("tx" + ['/'] + sig);
  }

  lemma CleanOfEmptyPiece()
    ensures Clean([""]) == []
  {
    assert [""][..0] == [];
    assert TrimSpace("") == "";
  }

  /** Segments after the third never change the route. */
  lemma RouteIgnoresTail(path: string, tail: string)
    requires path != "/" && |Parts(path)| >= 3
    requires '/' !in tail
    ensures RouteOf(path + ['/'] + tail) == RouteOf(path)
  {
    var longer := path + ['/'] + tail;
    PartsOfEmpty();
    assert path != "";
    assert longer != "/" by {
      assert |longer| == |path| + 1 + |tail|;
    }
    PartsExtend(path, tail);
    RouteOfPartsExtend(Parts(path), Clean([tail]));
  }

  /** Only the first three segments decide the route. */
  lemma RouteOfPartsExtend(parts: seq<string>, extra: seq<string>)
    requires |parts| >= 3
    ensures RouteOfParts(parts + extra) == RouteOfParts(parts)
  {
    var q := parts + extra;
    assert q[0] == parts[0] && q[1] == parts[1] && q[2] == parts[2];
  }

  /** The empty path has no segments. */
  lemma PartsOfEmpty()
    ensures Parts("") == []
  {
    assert Split("", '/') == [""];
    CleanOfEmptyPiece();
  }

  /** Appending a slash and a slash-free tail appends the tail's cleaning to the segments. */
  lemma PartsExtend(path: string, tail: string)
    requires '/' !in tail
    ensures Parts(path + ['/'] + tail) == Parts(path) + Clean([tail])
  {
    var pieces := Split(path, '/');
    JoinSplit(path, '/');
    SplitJoinExtend(pieces, tail);
    CleanConcat(pieces, [tail]);
  }

  /** Split of a string with one more piece appended. */
  lemma SplitJoinExtend(pieces: seq<string>, tail: string)
    requires |pieces| >= 1 && forall i :: 0 <= i < |pieces| ==> '/' !in pieces[i]
    requires '/' !in tail
    ensures Split(Join(pieces, '/') + ['/'] + tail, '/') == pieces + [tail]
  {
    JoinAppend(pieces, tail);
    SplitJoin(pieces + [tail], '/');
  }

  lemma {:induction false} JoinAppend(pieces: seq<string>, tail: string)
    requires |pieces| >= 1
    ensures Join(pieces + [tail], '/') == Join(pieces, '/') + ['/'] + tail
    decreases |pieces|
  {
    if |pieces| == 1 {
      assert pieces + [tail] == [pieces[0], tail];
    } else {
      JoinAppend(pieces[1..], tail);
      assert (pieces + [tail])[1..] == pieces[1..] + [tail];
    }
  }

  /** HandleTxV0: look the signature up through the gate and the cache and
      turn the tri-state reply into (err, notFound) and the 200 body. */
  method HandleTxV0<T>(st: State<T>, sig: string, env: Env<T>) returns (err: Option<Error>, notFound: bool, written: Option<Response<T>>)
    modifies st, st.TxMap, st.TxIL
    ensures written == Some(Pending) ==> err == None && !notFound && sig in old(st.TxIL.IL)
    ensures written != Some(Pending) ==>
      Handled(err, notFound, written) == V0Handled(CachedReply(old(st.TxMap.m), sig, env.now, env.fetch))
    ensures st.Served(sig, env, written != Some(Pending))
  {
    if !IsValidTxSignature(sig) {
      return Some("not found"), true, None;
    }
    var tx, isSet, e, returned, polls := st.InterlockedGetCachedTx(sig, env);
    if !returned {
      return None, false, Some(Pending);
    }
    if e.Some? {
      return e, false, None;
    } else if !isSet {
      return Some("yikes"), false, None;
    }
    return None, false, Some(TxOkResponse(tx));
  }

  /** HandleTx: versions "0" and "latest" are both served by HandleTxV0; any
      other version gets the invalid-version response and touches nothing. */
  method HandleTx<T>(st: State<T>, version: string, sig: string, env: Env<T>) returns (err: Option<Error>, notFound: bool, written: Option<Response<T>>)
    modifies st, st.TxMap, st.TxIL
    ensures IsValidVersion(version) ==>
      (written == Some(Pending) ==> err == None && !notFound && sig in old(st.TxIL.IL)) &&
      (written != Some(Pending) ==>
        Handled(err, notFound, written) == V0Handled(CachedReply(old(st.TxMap.m), sig, env.now, env.fetch))) &&
      st.Served(sig, env, written != Some(Pending))
    ensures !IsValidVersion(version) ==>
      Handled(err, notFound, written) == Handled(None, false, Some(InvalidVersionResponse(version))) &&
      unchanged(st, st.TxMap, st.TxIL)
  {
    if !IsValidTxSignature(sig) {
      return Some("not found"), true, None;
    }
    if version == "0" {
      err, notFound, written := HandleTxV0(st, sig, env);
      return;
    } else if version == "latest" {
      err, notFound, written := HandleTxV0(st, sig, env);
      return;
    }
    // RespondWithInvalidVersionError
    return None, false, Some(InvalidVersionResponse(version));
  }

  /** IndexHandler: routes the request path and assembles the response from
      the locals `handled`, `notFound` and `err`, as the source does. Every
      route other than a lookup leaves the state alone; a lookup responds as
      RouteResponse says for the reply the cache gives, unless it is still
      waiting on the gate (only a follower can be). */
  method IndexHandler<T>(st: State<T>, path: string, env: Env<T>) returns (resp: Response<T>)
    modifies st, st.TxMap, st.TxIL
    ensures !RouteOf(path).Lookup? ==>
      resp == RouteResponse(RouteOf(path), Reply(None, false, None)) && unchanged(st, st.TxMap, st.TxIL)
    ensures RouteOf(path).Lookup? ==>
      var sig := RouteOf(path).sig;
      (resp == Pending ==> sig in old(st.TxIL.IL)) &&
      (resp != Pending ==> resp == RouteResponse(RouteOf(path), CachedReply(old(st.TxMap.m), sig, env.now, env.fetch))) &&
      st.Served(sig, env, resp != Pending)
  {
    if path == "/" {
      return RootResponse();
    }
    var handled := false;
    var notFound := true;
    var err: Option<Error> := None;
    var written: Option<Response<T>> := None;

    var parts := CleanStringSlice(Split(path, '/'));
    assert RouteOf(path) == RouteOfParts(parts);
    if |parts| > 2 {
      var version := parts[0];
      var objectName := parts[1];
      if !IsValidVersion(version) {
        // RespondWithInvalidVersionError
        err, notFound, written := None, false, Some(InvalidVersionResponse(version));
        if err == None {
          handled := true;
        }
      } else {
        if objectName == "tx" {
          if |parts| > 2 {
            var txSig := parts[2];
            err, notFound, written := HandleTx(st, version, txSig, env);
            if err == None {
              handled := true;
            }
          }
        }
      }
    }

    if handled {
      resp := written.value;
    } else if err.Some? {
      resp := UnavailableResponse();
    } else if notFound {
      resp := NotFoundResponse();
    } else {
      resp := Response(200, None, Text(""));  // nothing written
    }
  }
}
