/**
 * The two request handlers (backend/controllers/snippetController.js),
 * written against the store model.
 *
 * Each handler takes the store, the clock reading `now` (milliseconds since
 * the epoch) and the set `failing` of ordinals of the store calls it issues
 * that fail (connection loss, timeout). It returns the new store and the
 * reply. The save handler's calls are numbered EXISTS 0 .. k-1, then the
 * two SETEX calls k and k+1; the read handler issues GET as call 0 and INCR
 * as call 1, both always, since the source sends them together.
 */
module SnippetController {
  import opened Results
  import opened JsValues
  import opened KeyValueStore
  import opened SnippetKeys
  import opened IdGenerator
  import opened Validation

  /** The persisted record. `createdAt` is in milliseconds since the epoch;
      `fileSize` is the content size the validator measured. */
  datatype SnippetRecord = SnippetRecord(
    content: JsValue,
    language: JsValue,
    title: JsValue,
    createdAt: int,
    fileSize: nat)

  type SnippetStore = Store<SnippetRecord>

  /** The JSON reply of a handler. `Refused` is every `success: false`
      answer, with its HTTP status. */
  datatype Reply =
    | Created(id: string, url: string, expiresAt: int)
    | Found(id: string, snippet: SnippetRecord, views: int)
    | Refused(status: nat, error: string)

  datatype Step = Step(store: SnippetStore, reply: Reply)

  const InternalError := "Internal server error"
  const NotFoundError := "Snippet not found or expired"

  /** The largest magnitude of a valid JavaScript Date, in milliseconds. */
  const MaxDateMillis: int := 8_640_000_000_000_000

  /** `new Date(t).toISOString()` succeeds. */
  predicate IsValidDate(t: int) {
    -MaxDateMillis <= t <= MaxDateMillis
  }

  /** The record built from a request body at time `now`; a falsy title is
      stored as null. */
  function NewRecord(body: SnippetBody, now: int, contentSize: nat): SnippetRecord {
    SnippetRecord(body.content, body.language, if Truthy(body.title) then body.title else Null, now, contentSize)
  }

  function ServerError(): Reply {
    Refused(500, InternalError)
  }

  /** Every key other than `a` and `b` holds exactly what it held before. */
  ghost predicate SameExcept(s: SnippetStore, s': SnippetStore, a: string, b: string) {
    forall k :: k != a && k != b ==> (k in s' <==> k in s) && (k in s ==> s'[k] == s[k])
  }

  /**
   * `saveSnippet`: allocate an identifier, then write the record and a
   * zero view counter under it, both with the fourteen-day time to live,
   * and report the expiry.
   */
  function SaveSnippet(s: SnippetStore, now: int, body: SnippetBody, contentSize: nat,
                       draws: Draws, failing: set<nat>): (r: Step)
    ensures var a := Allocate(s, now, draws, failing, 0);
            r.reply.Created? <==>
              && a.result.Success? && a.checks !in failing && a.checks + 1 !in failing
              && IsValidDate(now + TtlMillis)
    ensures !r.reply.Created? ==> r.reply == Refused(500, InternalError)
    ensures var a := Allocate(s, now, draws, failing, 0);
            (a.result.Failure? || a.checks in failing) ==> r.store == s
    ensures var a := Allocate(s, now, draws, failing, 0);
            (a.result.Success? && a.checks !in failing) ==>
              var id := a.result.value;
              && IsSnippetId(id)
              && !Exists(s, now, RecordKey(id))
              && RecordKey(id) in r.store
              && r.store[RecordKey(id)].deadline == Some(now + TtlSeconds * 1000)
              && r.store[RecordKey(id)].value.Blob?
              && var rec := r.store[RecordKey(id)].value.payload;
              && rec.content == body.content
              && rec.language == body.language
              && (Truthy(body.title) ==> rec.title == body.title)
              && (!Truthy(body.title) ==> rec.title == Null)
              && rec.createdAt == now
              && rec.fileSize == contentSize
    ensures var a := Allocate(s, now, draws, failing, 0);
            (a.result.Success? && a.checks !in failing && a.checks + 1 in failing) ==>
              SameExcept(s, r.store, RecordKey(a.result.value), RecordKey(a.result.value))
    ensures var a := Allocate(s, now, draws, failing, 0);
            (a.result.Success? && a.checks !in failing && a.checks + 1 !in failing) ==>
              var id := a.result.value;
              && ViewsKey(id) in r.store
              && r.store[ViewsKey(id)] == Entry(Integer(0), Some(now + TtlSeconds * 1000))
              && SameExcept(s, r.store, RecordKey(id), ViewsKey(id))
    ensures r.reply.Created? ==>
              && r.reply.id == Allocate(s, now, draws, failing, 0).result.value
              && r.reply.url == "/api/snippets/" + r.reply.id
              && r.reply.expiresAt == now + TtlSeconds * 1000
  {
    var a := Allocate(s, now, draws, failing, 0);
    match a.result
    case Failure(_) => Step(s, ServerError())
    case Success(id) =>
      if a.checks in failing then
        Step(s, ServerError())
      else
        KeysAreSeparate(id, id);
        var s1 := SetEx(s, now, RecordKey(id), TtlSeconds, Blob(NewRecord(body, now, contentSize)));
        if a.checks + 1 in failing then
          Step(s1, ServerError())
        else
          var s2 := SetEx(s1, now, ViewsKey(id), TtlSeconds, Integer(0));
          var expiresAt := now + TtlMillis;
          // formatting the expiry throws once it lies past the last valid Date
          if IsValidDate(expiresAt) then Step(s2, Created(id, "/api/snippets/" + id, expiresAt))
          else Step(s2, ServerError())
  }

  /**
   * `getSnippet`: read the record and bump the view counter. The counter
   * is bumped whether or not the record exists; a missing record is a 404,
   * a failed call or a record the reply cannot be built from is a 500.
   */
  function GetSnippet(s: SnippetStore, now: int, id: string, failing: set<nat>): (r: Step)
    ensures (0 in failing || 1 in failing) ==> r.reply == Refused(500, InternalError)
    ensures var c := CounterAt(s, now, ViewsKey(id));
            if 1 !in failing && c.Some? && MinInteger <= c.value < MaxInteger
            then CounterAt(r.store, now, ViewsKey(id)) == Some(c.value + 1)
            else r.store == s
    ensures SameExcept(s, r.store, ViewsKey(id), ViewsKey(id))
    ensures Exists(s, now, ViewsKey(id)) ==>
              ViewsKey(id) in r.store && r.store[ViewsKey(id)].deadline == s[ViewsKey(id)].deadline
    ensures 1 !in failing && !Exists(s, now, ViewsKey(id)) ==>
              ViewsKey(id) in r.store && r.store[ViewsKey(id)] == Entry(Integer(1), None)
    ensures (&& 0 !in failing && 1 !in failing && Incr(s, now, ViewsKey(id)).Success?
             && Exists(s, now, RecordKey(id)) && s[RecordKey(id)].value.Blob?
             && IsValidDate(s[RecordKey(id)].value.payload.createdAt))
              ==> r.reply == Found(id, s[RecordKey(id)].value.payload, CounterAt(s, now, ViewsKey(id)).value + 1)
    ensures r.reply == Refused(404, NotFoundError) <==>
              && 0 !in failing && 1 !in failing && Incr(s, now, ViewsKey(id)).Success?
              && !Exists(s, now, RecordKey(id))
    ensures r.reply.Found? ==>
              && 0 !in failing && 1 !in failing
              && r.reply.id == id
              && Get(s, now, RecordKey(id)) == Some(Blob(r.reply.snippet))
              && IsValidDate(r.reply.snippet.createdAt)
              && CounterAt(s, now, ViewsKey(id)).Some?
              && r.reply.views == CounterAt(s, now, ViewsKey(id)).value + 1
              && CounterAt(r.store, now, ViewsKey(id)) == Some(r.reply.views)
    ensures Incr(s, now, ViewsKey(id)).Failure? ==> r.reply == Refused(500, InternalError)
    ensures (&& Exists(s, now, RecordKey(id))
             && (|| s[RecordKey(id)].value.Integer?
                 || !IsValidDate(s[RecordKey(id)].value.payload.createdAt)))
              ==> r.reply == Refused(500, InternalError)
    ensures || r.reply.Found?
            || r.reply == Refused(404, NotFoundError)
            || r.reply == Refused(500, InternalError)
  {
    IncrAddsOne(s, now, ViewsKey(id));
    var fetched := if 0 in failing then None else Some(Get(s, now, RecordKey(id)));
    var bumped := if 1 in failing then Failure(Unavailable) else Incr(s, now, ViewsKey(id));
    var s' := if bumped.Success? then bumped.value.store else s;
    if fetched.None? || bumped.Failure? then
      Step(s', ServerError())
    else
      match fetched.value
      case None => Step(s', Refused(404, NotFoundError))
      case Some(Integer(_)) => Step(s', ServerError())
      case Some(Blob(rec)) =>
        if IsValidDate(rec.createdAt) then Step(s', Found(id, rec, bumped.value.count))
        else Step(s', ServerError())
  }
}

/** Properties that relate several handler calls, or a handler call to the
    store's expiry. */
module SnippetLifecycle {
  import opened Results
  import opened JsValues
  import opened KeyValueStore
  import opened SnippetKeys
  import opened IdGenerator
  import opened Validation
  import opened SnippetController

  /** A read rewrites no record: the record key of the id read, and of every
      well-formed identifier, keeps its entry. */
  lemma ReadKeepsRecords(s: SnippetStore, now: int, id: string, failing: set<nat>, x: string)
    requires x == id || IsSnippetId(x)
    ensures var s' := GetSnippet(s, now, id, failing).store;
            (RecordKey(x) in s' <==> RecordKey(x) in s)
            && (RecordKey(x) in s ==> s'[RecordKey(x)] == s[RecordKey(x)])
  {
    KeysAreSeparate(x, id);
  }

  /** The allocator answers alike on stores no command can tell apart. */
  lemma {:induction false} AllocateRespectsIndistinguishable<B>(s1: Store<B>, s2: Store<B>, now: int,
                                                              draws: Draws, failing: set<nat>, from: nat)
    requires from <= MaxAttempts
    requires Indistinguishable(s1, s2, now)
    ensures Allocate(s1, now, draws, failing, from) == Allocate(s2, now, draws, failing, from)
    decreases MaxAttempts - from
  {
    if from < MaxAttempts {
      assert Observe(s1, now, RecordKey(GenerateSnippetId(draws[from])))
          == Observe(s2, now, RecordKey(GenerateSnippetId(draws[from])));
      AllocateRespectsIndistinguishable(s1, s2, now, draws, failing, from + 1);
    }
  }

  /** The save handler gives the same reply on stores no command can tell
      apart, and leaves stores no command can tell apart. */
  lemma SaveRespectsIndistinguishable(s1: SnippetStore, s2: SnippetStore, now: int,
                                      body: SnippetBody, contentSize: nat, draws: Draws,
                                      failing: set<nat>)
    requires Indistinguishable(s1, s2, now)
    ensures SaveSnippet(s1, now, body, contentSize, draws, failing).reply
         == SaveSnippet(s2, now, body, contentSize, draws, failing).reply
    ensures Indistinguishable(SaveSnippet(s1, now, body, contentSize, draws, failing).store,
                              SaveSnippet(s2, now, body, contentSize, draws, failing).store, now)
  {
    AllocateRespectsIndistinguishable(s1, s2, now, draws, failing, 0);
    var a := Allocate(s1, now, draws, failing, 0);
    if a.result.Success? {
      var nid := a.result.value;
      var rec := NewRecord(body, now, contentSize);
      CommandsRespectIndistinguishable(s1, s2, now, RecordKey(nid), TtlSeconds, Blob(rec));
      var t1 := SetEx(s1, now, RecordKey(nid), TtlSeconds, Blob(rec));
      var t2 := SetEx(s2, now, RecordKey(nid), TtlSeconds, Blob(rec));
      CommandsRespectIndistinguishable(t1, t2, now, ViewsKey(nid), TtlSeconds, Integer(0));
    }
  }

  /** The read handler gives the same reply on stores no command can tell
      apart, and leaves stores no command can tell apart. */
  lemma GetRespectsIndistinguishable(s1: SnippetStore, s2: SnippetStore, now: int,
                                     id: string, failing: set<nat>)
    requires Indistinguishable(s1, s2, now)
    ensures GetSnippet(s1, now, id, failing).reply == GetSnippet(s2, now, id, failing).reply
    ensures Indistinguishable(GetSnippet(s1, now, id, failing).store,
                              GetSnippet(s2, now, id, failing).store, now)
  {
    CommandsRespectIndistinguishable(s1, s2, now, RecordKey(id), TtlSeconds, Integer(0));
    CommandsRespectIndistinguishable(s1, s2, now, ViewsKey(id), TtlSeconds, Integer(0));
  }

  /** A read of a snippet whose keys have expired answers exactly as a read
      of a snippet never written: expiry and absence cannot be told apart. */
  lemma ExpiredSnippetIsNeverWritten(s: SnippetStore, now: int, id: string, failing: set<nat>)
    requires RecordKey(id) in s && !Live(s[RecordKey(id)], now)
    requires ViewsKey(id) in s && !Live(s[ViewsKey(id)], now)
    ensures GetSnippet(s, now, id, failing).reply
         == GetSnippet(s - {RecordKey(id), ViewsKey(id)}, now, id, failing).reply
    ensures 0 !in failing && 1 !in failing ==>
              GetSnippet(s, now, id, failing).reply == Refused(404, NotFoundError)
  {
  }

  /** A read of an identifier with no live record and no live counter
      answers 404 yet leaves behind a counter of 1 that never expires. */
  lemma ReadOfMissingSnippetLeavesPersistentCounter(s: SnippetStore, now: int, id: string)
    requires !Exists(s, now, RecordKey(id)) && !Exists(s, now, ViewsKey(id))
    ensures GetSnippet(s, now, id, {}).reply == Refused(404, NotFoundError)
    ensures var s' := GetSnippet(s, now, id, {}).store;
            ViewsKey(id) in s' && s'[ViewsKey(id)] == Entry(Integer(1), None)
  {
  }

  /** The first read of a live record whose counter was never written (its
      SETEX failed) or has expired: the record is served as the first view,
      and the counter it leaves behind never expires while the record does. */
  lemma ReadOfRecordWithoutCounter(s: SnippetStore, now: int, id: string)
    requires Exists(s, now, RecordKey(id)) && s[RecordKey(id)].value.Blob?
    requires IsValidDate(s[RecordKey(id)].value.payload.createdAt)
    requires !Exists(s, now, ViewsKey(id))
    ensures GetSnippet(s, now, id, {}).reply == Found(id, s[RecordKey(id)].value.payload, 1)
    ensures var s' := GetSnippet(s, now, id, {}).store;
            && ViewsKey(id) in s' && s'[ViewsKey(id)] == Entry(Integer(1), None)
            && s'[RecordKey(id)] == s[RecordKey(id)]
  {
  }
}
