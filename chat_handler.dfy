/**
 * The `/chat` handler and the `/health` session count, over the two process-wide
 * dictionaries: the deduplication cache and the last-activity map of sessions.
 * One request is handled at a time.
 */
module ChatHandler {
  import opened Wrappers
  import opened Requests
  import opened Fingerprint
  import RequestCache

  /** One row handed to the persistence sink: session label (if truthy), input, response. */
  datatype Exchange = Exchange(session: Option<string>, input: string, response: string)

  /**
   * The state a request can see or change: the cache, `session_activity`
   * (session label to the instant of its last cache miss), and the rows handed
   * to the persistence sink so far.
   */
  datatype State = State(cache: RequestCache.Cache<Payload>, sessions: map<string, nat>, saved: seq<Exchange>)

  /** The result of handling one request: the next state and the reply. */
  datatype Step = Step(next: State, reply: Reply)

  /** The cache keeps its insertion order in step with its entries and under its cap. */
  ghost predicate Consistent(st: State)
  {
    RequestCache.Valid(st.cache)
  }

  /** The state at process start: both dictionaries empty, nothing persisted. */
  function Initial(): (st: State)
    ensures Consistent(st) && |st.sessions| == 0 && st.saved == []
  {
    State(RequestCache.Empty(), map[], [])
  }

  /** The `active_sessions` figure reported by `/health`. */
  function ActiveSessions(st: State): nat
  {
    |st.sessions|
  }

  /** `session_activity[session_id] = now` when the label is truthy; otherwise no change. */
  function Touch(sessions: map<string, nat>, session: Option<string>, now: nat): (r: map<string, nat>)
    ensures r.Keys == sessions.Keys + (if session.Some? then {session.value} else {})
    ensures session.Some? ==> r[session.value] == now
    ensures forall id :: id in sessions && Some(id) != session ==> r[id] == sessions[id]
  {
    if session.Some? then sessions[session.value := now] else sessions
  }

  /** The request passes validation and its key is not in the cache. */
  predicate Misses(st: State, req: Request, now: nat)
  {
    Admit(req).Ok? && RequestId(Admit(req).value.fields, now) !in st.cache.entries
  }

  /**
   * Handling one request at clock reading `now`, with `generate` standing for the
   * model call. A rejected request changes nothing. A request whose key is cached
   * gets the cached payload and changes nothing. Otherwise the session (if truthy)
   * is touched, the response is generated from the stripped input, the exchange is
   * handed to the persistence sink, and the payload is stored under the key.
   */
  function Serve(st: State, req: Request, now: nat, generate: string -> string): (s: Step)
    requires Consistent(st)
    ensures Consistent(s.next)
  {
    match Admit(req)
    case Err(rejection) => Step(st, rejection)
    case Ok(a) =>
      var key := RequestId(a.fields, now);
      if key in st.cache.entries then Step(st, Answered(st.cache.entries[key]))
      else
        var sessions := Touch(st.sessions, a.session, now);
        var text := generate(a.input);
        var payload := Payload(text, now);
        var saved := st.saved + [Exchange(a.session, a.input, text)];
        Step(State(RequestCache.Store(st.cache, key, payload), sessions, saved), Answered(payload))
  }

  /**
   * A request that fails validation is answered with a 4xx or 500 error and
   * touches neither the cache, the sessions nor the persistence sink.
   */
  lemma RejectedRequestChangesNothing(st: State, req: Request, now: nat, generate: string -> string)
    requires Consistent(st) && Admit(req).Err?
    ensures Serve(st, req, now, generate).next == st
    ensures Serve(st, req, now, generate).reply.Rejected?
    ensures Serve(st, req, now, generate).reply.status in {400, 415, 500}
  {
    AdmitRejections(req);
  }

  /**
   * A valid request whose key is cached is answered with the stored payload
   * verbatim, without generating, persisting or touching its session.
   */
  lemma CacheHitReplays(st: State, req: Request, now: nat, generate: string -> string)
    requires Consistent(st) && Admit(req).Ok? && !Misses(st, req, now)
    ensures Serve(st, req, now, generate)
            == Step(st, Answered(st.cache.entries[RequestId(req.body.fields, now)]))
  {
    AdmitValue(req);
  }

  /**
   * A valid request whose key is not cached is answered with the text generated
   * from its stripped input; the payload is then retrievable under the key and
   * the cache stays within its cap.
   */
  lemma CacheMissGenerates(st: State, req: Request, now: nat, generate: string -> string)
    requires Consistent(st) && Misses(st, req, now)
    ensures var s := Serve(st, req, now, generate);
      var input := Text.Strip(req.body.fields[UserInputKey].s);
      var key := RequestId(req.body.fields, now);
      && s.reply == Answered(Payload(generate(input), now))
      && key in s.next.cache.entries && s.next.cache.entries[key] == s.reply.payload
      && |s.next.cache.entries| <= RequestCache.Capacity
  {
    AdmitValue(req);
    RequestCache.SizeMatchesOrder(Serve(st, req, now, generate).next.cache);
  }

  /** On a cache miss exactly one exchange is handed to the persistence sink. */
  lemma CacheMissPersists(st: State, req: Request, now: nat, generate: string -> string)
    requires Consistent(st) && Misses(st, req, now)
    ensures var input := Text.Strip(req.body.fields[UserInputKey].s);
      Serve(st, req, now, generate).next.saved
        == st.saved + [Exchange(SessionOf(req.body.fields), input, generate(input))]
  {
    AdmitValue(req);
  }

  /**
   * On a cache miss only the request's own session (if truthy) gets a new
   * last-seen instant, and no other session is added or changed.
   */
  lemma CacheMissTouchesSession(st: State, req: Request, now: nat, generate: string -> string)
    requires Consistent(st) && Misses(st, req, now)
    ensures var sessions := Serve(st, req, now, generate).next.sessions;
      var session := SessionOf(req.body.fields);
      && sessions.Keys == st.sessions.Keys + (if session.Some? then {session.value} else {})
      && (session.Some? ==> sessions[session.value] == now)
      && (forall id :: id in st.sessions && Some(id) != session ==> sessions[id] == st.sessions[id])
  {
    AdmitValue(req);
  }

  /**
   * `active_sessions` grows by one exactly when a cache miss carries a truthy
   * session label not seen before, and stays the same otherwise.
   */
  lemma ActiveSessionsGrowth(st: State, req: Request, now: nat, generate: string -> string)
    requires Consistent(st)
    ensures ActiveSessions(Serve(st, req, now, generate).next)
            == ActiveSessions(st)
               + (if Misses(st, req, now) && SessionOf(req.body.fields).Some?
                     && SessionOf(req.body.fields).value !in st.sessions then 1 else 0)
  {
    if Admit(req).Ok? {
      AdmitValue(req);
    }
  }

  /**
   * Sending the same request twice within one ten-second bucket gives the same
   * reply twice, and the second one changes nothing: the model is asked at most
   * once and at most one exchange is persisted.
   */
  lemma ReplayWithinWindow(st: State, req: Request, t1: nat, t2: nat, generate: string -> string)
    requires Consistent(st) && t1 / WindowSeconds == t2 / WindowSeconds
    ensures var first := Serve(st, req, t1, generate);
      var second := Serve(first.next, req, t2, generate);
      && second.reply == first.reply
      && second.next == first.next
      && |second.next.saved| <= |st.saved| + 1
  {
    if Admit(req).Ok? {
      SameKeyIffSameBucket(Admit(req).value.fields, t1, t2);
    }
  }

  /**
   * The running service: `request_cache` as its insertion order and entries,
   * `session_activity`, and (as a record only) the rows persisted so far.
   */
  class ChatServer {
    var order: seq<string>
    var entries: map<string, Payload>
    var sessions: map<string, nat>
    ghost var saved: seq<Exchange>

    /** The state these fields represent. */
    ghost function Model(): State
      reads this
    {
      State(RequestCache.Cache(order, entries), sessions, saved)
    }

    ghost predicate Valid()
      reads this
    {
      Consistent(Model())
    }

    /** Process start: empty cache, no sessions. */
    constructor ()
      ensures Valid() && Model() == Initial()
    {
      order, entries, sessions := [], map[], map[];
      saved := [];
    }

    /**
     * `POST /chat`: validate, answer a cached key from the cache, otherwise touch
     * the session, generate, persist, reply, store and evict the oldest entry when
     * the cache is over its cap.
     */
    method Chat(req: Request, now: nat, generate: string -> string) returns (reply: Reply)
      requires Valid()
      modifies this
      ensures Valid()
      ensures Step(Model(), reply) == Serve(old(Model()), req, now, generate)
    {
      ghost var before := Model();
      var admitted := Admit(req);
      if admitted.Err? {
        assert Serve(before, req, now, generate) == Step(before, admitted.error);
        return admitted.error;
      }
      var a := admitted.value;
      var key := RequestId(a.fields, now);
      if key in entries {
        assert Serve(before, req, now, generate) == Step(before, Answered(entries[key]));
        return Answered(entries[key]);
      }
      if a.session.Some? {
        sessions := sessions[a.session.value := now];
      }
      var text := generate(a.input);
      saved := saved + [Exchange(a.session, a.input, text)];
      var payload := Payload(text, now);
      var newEntries, newOrder := entries[key := payload], order + [key];
      if |newEntries| > RequestCache.Capacity {
        var oldest := newOrder[0];
        newEntries, newOrder := newEntries - {oldest}, newOrder[1..];
      }
      assert RequestCache.Cache(newOrder, newEntries) == RequestCache.Store(before.cache, key, payload);
      entries, order := newEntries, newOrder;
      reply := Answered(payload);
      assert Serve(before, req, now, generate) == Step(Model(), reply);
    }

    /** `GET /health`: the number of sessions tracked so far. */
    method ActiveSessionCount() returns (n: nat)
      ensures n == ActiveSessions(Model())
    {
      n := |sessions|;
    }
  }
}
