/**
 * The browser client's request helper: which stored key is attached as the
 * `x-access-key` header for which path, how the caller's headers are merged
 * with the computed ones, and the message a failed request raises. The
 * session storage reads become parameters; the fetch itself is not modelled.
 */
module ApiClient {
  import opened Common
  import opened Access

  type HeaderMap = map<string, string>

  const ACCESS_HEADER: string := "x-access-key"
  const CONTENT_TYPE: string := "Content-Type"
  const JSON_TYPE: string := "application/json"

  /** `if (k)` on a `sessionStorage.getItem` result: stored and non-empty. */
  predicate Stored(k: Option<string>) {
    k.Some? && k.value != ""
  }

  predicate MentorPath(path: string) {
    StartsWith(path, "/api/mentor") || StartsWith(path, "/api/tasks")
  }

  predicate AdminPath(path: string) {
    StartsWith(path, "/api/admin")
  }

  /** No path is both a mentor or task path and an admin path. */
  lemma PathsExclusive(path: string)
    ensures !(MentorPath(path) && AdminPath(path))
  {
    if AdminPath(path) {
      assert path[..10][5] == 'a';
    }
  }

  /**
   * The key `withAccessKey` attaches: the mentor key on mentor and task
   * paths, the manager key on admin paths, each only when stored; none on
   * any other path.
   */
  function KeyFor(path: string, mentorKey: Option<string>, managerKey: Option<string>): (r: Option<string>)
    ensures MentorPath(path) && Stored(mentorKey) ==> r == mentorKey
    ensures AdminPath(path) && Stored(managerKey) ==> r == managerKey
    ensures r.Some? ==> (MentorPath(path) && r == mentorKey) || (AdminPath(path) && r == managerKey)
    ensures r.Some? ==> r.value != ""
  {
    PathsExclusive(path);
    if AdminPath(path) && Stored(managerKey) then managerKey
    else if MentorPath(path) && Stored(mentorKey) then mentorKey
    else None
  }

  /**
   * The headers after `withAccessKey`: the chosen key under `x-access-key`
   * (replacing a caller's value), every other header as it was.
   */
  function Attached(h: HeaderMap, path: string, mentorKey: Option<string>, managerKey: Option<string>): (r: HeaderMap)
    ensures KeyFor(path, mentorKey, managerKey).Some? ==>
              ACCESS_HEADER in r && r[ACCESS_HEADER] == KeyFor(path, mentorKey, managerKey).value
    ensures KeyFor(path, mentorKey, managerKey).None? ==> r == h
    ensures forall k :: k != ACCESS_HEADER ==> (k in r <==> k in h)
    ensures forall k :: k != ACCESS_HEADER && k in h ==> r[k] == h[k]
  {
    var key := KeyFor(path, mentorKey, managerKey);
    if key.Some? then h[ACCESS_HEADER := key.value] else h
  }

  /** A header object the client fills in before a request. */
  class Headers {
    var entries: HeaderMap

    constructor (init: HeaderMap)
      ensures entries == init
    {
      entries := init;
    }

    /**
     * `withAccessKey(path, headers)`: three prefix tests in turn, each
     * writing the stored key into the header object when there is one.
     */
    method WithAccessKey(path: string, mentorKey: Option<string>, managerKey: Option<string>)
      modifies this
      ensures entries == Attached(old(entries), path, mentorKey, managerKey)
    {
      PathsExclusive(path);
      if StartsWith(path, "/api/mentor") {
        if Stored(mentorKey) {
          entries := entries[ACCESS_HEADER := mentorKey.value];
        }
      }
      if StartsWith(path, "/api/tasks") {
        if Stored(mentorKey) {
          entries := entries[ACCESS_HEADER := mentorKey.value];
        }
      }
      if StartsWith(path, "/api/admin") {
        if Stored(managerKey) {
          entries := entries[ACCESS_HEADER := managerKey.value];
        }
      }
    }
  }

  /**
   * `{"Content-Type": "application/json", ...(options.headers || {})}`
   * with the key attached: the headers `api` computes.
   */
  function ComputedHeaders(callerHeaders: Option<HeaderMap>, path: string, mentorKey: Option<string>, managerKey: Option<string>): (r: HeaderMap)
    ensures CONTENT_TYPE in r
    ensures callerHeaders.None? || CONTENT_TYPE !in callerHeaders.value ==> r[CONTENT_TYPE] == JSON_TYPE
    ensures callerHeaders.Some? ==> forall k :: k in callerHeaders.value && k != ACCESS_HEADER ==>
              k in r && r[k] == callerHeaders.value[k]
    ensures KeyFor(path, mentorKey, managerKey).Some? ==>
              ACCESS_HEADER in r && r[ACCESS_HEADER] == KeyFor(path, mentorKey, managerKey).value
  {
    var base := map[CONTENT_TYPE := JSON_TYPE];
    Attached(base + (if callerHeaders.Some? then callerHeaders.value else map[]), path, mentorKey, managerKey)
  }

  /**
   * The headers `fetch` receives from `{headers, ...options}`: the spread
   * comes last, so a caller's own `headers` replace the computed ones
   * entirely.
   */
  function SentHeaders(callerHeaders: Option<HeaderMap>, path: string, mentorKey: Option<string>, managerKey: Option<string>): (r: HeaderMap)
    ensures callerHeaders.Some? ==> r == callerHeaders.value
    ensures callerHeaders.None? ==> r == ComputedHeaders(None, path, mentorKey, managerKey)
  {
    if callerHeaders.Some? then callerHeaders.value else ComputedHeaders(None, path, mentorKey, managerKey)
  }

  /**
   * `api(path, options)` up to the fetch: a fresh header object holding the
   * defaults and the caller's headers, the key attached in place, and the
   * request options spread over it.
   */
  method RequestHeaders(callerHeaders: Option<HeaderMap>, path: string, mentorKey: Option<string>, managerKey: Option<string>)
    returns (sent: HeaderMap)
    ensures sent == SentHeaders(callerHeaders, path, mentorKey, managerKey)
    ensures callerHeaders.None? ==> CONTENT_TYPE in sent && sent[CONTENT_TYPE] == JSON_TYPE
  {
    var init := map[CONTENT_TYPE := JSON_TYPE] + (if callerHeaders.Some? then callerHeaders.value else map[]);
    var h := new Headers(init);
    h.WithAccessKey(path, mentorKey, managerKey);
    sent := h.entries;
    if callerHeaders.Some? {
      sent := callerHeaders.value;
    }
  }

  /** The header value the server's `requireKey` reads. */
  function AccessHeader(h: HeaderMap): (r: Option<string>)
    ensures r.Some? <==> ACCESS_HEADER in h
    ensures r.Some? ==> r.value == h[ACCESS_HEADER]
  {
    if ACCESS_HEADER in h then Some(h[ACCESS_HEADER]) else None
  }

  /**
   * The task page's create and move calls pass `headers: {"x-app-key": k}`.
   * Those replace the computed headers, so no `x-access-key` is sent even
   * with the mentor key stored, and the server's key check refuses the
   * request with 403 whenever a mentor key is configured.
   */
  lemma TaskWriteLosesAccessKey(taskPath: string, stored: string, serverKey: string)
    requires StartsWith(taskPath, "/api/tasks") && stored != "" && serverKey != ""
    ensures var sent := SentHeaders(Some(map["x-app-key" := stored]), taskPath, Some(stored), None);
            ACCESS_HEADER !in sent && CONTENT_TYPE !in sent
            && RequireKey("MENTOR_KEY", Some(serverKey), AccessHeader(sent)) == Deny(403, "Access denied")
  {
  }

  /**
   * The merge as evidently intended, `{...options, headers}`: the computed
   * headers win, so the caller's headers are kept and the key is attached.
   */
  function FixedSentHeaders(callerHeaders: Option<HeaderMap>, path: string, mentorKey: Option<string>, managerKey: Option<string>): (r: HeaderMap)
    ensures callerHeaders.Some? ==> forall k :: k in callerHeaders.value && k != ACCESS_HEADER ==>
              k in r && r[k] == callerHeaders.value[k]
  {
    ComputedHeaders(callerHeaders, path, mentorKey, managerKey)
  }

  /**
   * With the intended merge a task write with the stored mentor key passes
   * the server's key check whenever the stored key is the configured one,
   * whatever headers the caller adds.
   */
  lemma FixedTaskWriteKeepsAccessKey(taskPath: string, callerHeaders: Option<HeaderMap>, stored: string)
    requires StartsWith(taskPath, "/api/tasks") && stored != ""
    ensures var sent := FixedSentHeaders(callerHeaders, taskPath, Some(stored), None);
            AccessHeader(sent) == Some(stored) && CONTENT_TYPE in sent
            && RequireKey("MENTOR_KEY", Some(stored), AccessHeader(sent)) == Pass
  {
    assert MentorPath(taskPath);
  }

  /** `new Error(data.error || "Request failed")`: the message a failed request raises. */
  function FailureMessage(error: JsValue): (r: string)
    ensures !Truthy(error) ==> r == "Request failed"
    ensures Truthy(error) ==> r == JsString(error)
    ensures r != ""
  {
    if Truthy(error) then JsString(error) else "Request failed"
  }

  /** A server error reply `{error: m}` with a non-empty text is raised with exactly that text. */
  lemma ServerErrorShown(m: string)
    requires m != ""
    ensures FailureMessage(Str(m)) == m
  {
  }
}
