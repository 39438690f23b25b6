/**
 * The two routes (backend/routes/snippets.js): each validator runs in front
 * of its handler, and a request the validator halts never reaches the
 * store. Also the end-to-end properties of sequences of requests.
 */
module Routes {
  import opened Results
  import opened JsValues
  import opened KeyValueStore
  import opened SnippetKeys
  import opened IdGenerator
  import opened Validation
  import opened SnippetController
  import opened SnippetLifecycle

  /** POST /api/snippets: validateSnippet, then saveSnippet with the
      measured content size. */
  function PostSnippet(s: SnippetStore, now: int, body: SnippetBody, draws: Draws, failing: set<nat>)
    : (r: Step)
    ensures ValidateSnippet(body).Halt? ==>
              r.store == s && r.reply == Refused(ValidateSnippet(body).status, ValidateSnippet(body).error)
    ensures r.reply.Created? ==>
              && body.content.Str? && |body.content.s| > 0
              && body.language.Str? && body.language.s in AllowedLanguages
              && |Encode(body.content.s)| <= MaxContentBytes
              && RecordKey(r.reply.id) in r.store
              && r.store[RecordKey(r.reply.id)].value.Blob?
              && r.store[RecordKey(r.reply.id)].value.payload.fileSize == |Encode(body.content.s)|
    ensures ValidateSnippet(body).Next? ==>
              r == SaveSnippet(s, now, body, |Encode(body.content.s)|, draws, failing)
  {
    match ValidateSnippet(body)
    case Halt(status, error) => Step(s, Refused(status, error))
    case Next(contentSize) => SaveSnippet(s, now, body, contentSize, draws, failing)
  }

  /** GET /api/snippets/:id: validateSnippetId, then getSnippet. A
      malformed id is refused whatever the store holds and whichever store
      calls would fail, so no store call is made for it. */
  function FetchSnippet(s: SnippetStore, now: int, id: string, failing: set<nat>): (r: Step)
    ensures !IsSnippetId(id) ==> r == Step(s, Refused(400, InvalidIdFormat))
    ensures IsSnippetId(id) ==> r == GetSnippet(s, now, id, failing)
  {
    match ValidateSnippetId(id)
    case Halt(status, error) => Step(s, Refused(status, error))
    case Next(_) => GetSnippet(s, now, id, failing)
  }

  /** One request as it reaches the backend. */
  datatype Request = Post(body: SnippetBody, draws: Draws) | Fetch(id: string)

  /** A request, the clock when it is handled, and which of its store calls
      fail. */
  datatype Event = Event(at: int, request: Request, failing: set<nat>)

  function Handle(s: SnippetStore, e: Event): Step {
    match e.request
    case Post(body, draws) => PostSnippet(s, e.at, body, draws, e.failing)
    case Fetch(id) => FetchSnippet(s, e.at, id, e.failing)
  }

  /** Requests handled one after another; the final store and the replies. */
  function Run(s: SnippetStore, events: seq<Event>): (r: (SnippetStore, seq<Reply>))
    ensures |r.1| == |events|
    decreases |events|
  {
    if events == [] then (s, [])
    else
      var step := Handle(s, events[0]);
      var rest := Run(step.store, events[1..]);
      (rest.0, [step.reply] + rest.1)
  }

  // ---------------------------------------------------------------------
  // Round trip, view counting and expiry
  // ---------------------------------------------------------------------

  /** A snippet written at `created` whose record and counter are live until
      `deadline`, with `views` reads so far. */
  ghost predicate Stored(s: SnippetStore, id: string, rec: SnippetRecord, deadline: int, views: int) {
    && RecordKey(id) in s && s[RecordKey(id)] == Entry(Blob(rec), Some(deadline))
    && ViewsKey(id) in s && s[ViewsKey(id)] == Entry(Integer(views), Some(deadline))
  }

  /** A successful POST leaves the snippet stored with no views, live for
      exactly the reported expiry. */
  lemma PostStores(s: SnippetStore, now: int, body: SnippetBody, draws: Draws, failing: set<nat>)
    requires PostSnippet(s, now, body, draws, failing).reply.Created?
    ensures var r := PostSnippet(s, now, body, draws, failing);
            var rec := r.store[RecordKey(r.reply.id)].value.payload;
            && Stored(r.store, r.reply.id, rec, now + TtlMillis, 0)
            && r.reply.expiresAt == now + TtlMillis
            && rec.content == body.content && rec.language == body.language
            && rec.title == (if Truthy(body.title) then body.title else Null)
            && rec.createdAt == now
  {
  }

  /** Reading the same identifier once per entry of `times`, with no store
      call failing; the replies in order. */
  function ReadRepeatedly(s: SnippetStore, id: string, times: seq<int>): (r: (SnippetStore, seq<Reply>))
    ensures |r.1| == |times|
    decreases |times|
  {
    if times == [] then (s, [])
    else
      var step := FetchSnippet(s, times[0], id, {});
      var rest := ReadRepeatedly(step.store, id, times[1..]);
      (rest.0, [step.reply] + rest.1)
  }

  /** While the snippet is live, the j-th read after `views` earlier reads
      reports view number `views + j + 1` and the saved record unchanged. */
  lemma {:induction false} ReadsCountUp(s: SnippetStore, id: string, rec: SnippetRecord, deadline: int,
                                        views: nat, times: seq<int>)
    requires IsSnippetId(id) && IsValidDate(rec.createdAt)
    requires Stored(s, id, rec, deadline, views)
    requires views + |times| < MaxInteger
    requires forall j :: 0 <= j < |times| ==> times[j] <= deadline
    ensures forall j :: 0 <= j < |times| ==> ReadRepeatedly(s, id, times).1[j] == Found(id, rec, views + j + 1)
    ensures Stored(ReadRepeatedly(s, id, times).0, id, rec, deadline, views + |times|)
    decreases |times|
  {
    if times != [] {
      var step := FetchSnippet(s, times[0], id, {});
      KeysAreSeparate(id, id);
      assert step.reply == Found(id, rec, views + 1);
      assert Stored(step.store, id, rec, deadline, views + 1);
      ReadsCountUp(step.store, id, rec, deadline, views + 1, times[1..]);
      var replies := ReadRepeatedly(s, id, times).1;
      var later := ReadRepeatedly(step.store, id, times[1..]).1;
      assert replies == [step.reply] + later;
      forall j | 0 <= j < |times|
        ensures replies[j] == Found(id, rec, views + j + 1)
      {
        if j > 0 {
          assert replies[j] == later[j - 1];
          assert later[j - 1] == Found(id, rec, (views + 1) + (j - 1) + 1);
        } else {
          assert replies[0] == step.reply;
        }
      }
    }
  }

  /** Round trip: after a successful POST, every read within the fourteen
      days returns the submitted fields, and the k-th read reports k views. */
  lemma SaveThenRead(s: SnippetStore, now: int, body: SnippetBody, draws: Draws, failing: set<nat>,
                     times: seq<int>)
    requires IsValidDate(now)
    requires PostSnippet(s, now, body, draws, failing).reply.Created?
    requires |times| < MaxInteger
    requires forall j :: 0 <= j < |times| ==> times[j] <= now + TtlMillis
    ensures var r := PostSnippet(s, now, body, draws, failing);
            var replies := ReadRepeatedly(r.store, r.reply.id, times).1;
            forall j :: 0 <= j < |times| ==>
              && replies[j].Found?
              && replies[j].id == r.reply.id
              && replies[j].views == j + 1
              && replies[j].snippet.content == body.content
              && replies[j].snippet.language == body.language
              && replies[j].snippet.title == (if Truthy(body.title) then body.title else Null)
              && replies[j].snippet.createdAt == now
  {
    var r := PostSnippet(s, now, body, draws, failing);
    PostStores(s, now, body, draws, failing);
    var rec := r.store[RecordKey(r.reply.id)].value.payload;
    ReadsCountUp(r.store, r.reply.id, rec, now + TtlMillis, 0, times);
  }

  /** Once the fourteen days are past, a read of a saved snippet answers
      404, exactly as for an identifier never used. */
  lemma ReadAfterExpiryIsNotFound(s: SnippetStore, now: int, body: SnippetBody, draws: Draws,
                                  failing: set<nat>, later: int)
    requires PostSnippet(s, now, body, draws, failing).reply.Created?
    requires later > now + TtlMillis
    ensures var r := PostSnippet(s, now, body, draws, failing);
            FetchSnippet(r.store, later, r.reply.id, {}).reply == Refused(404, NotFoundError)
  {
  }

  // ---------------------------------------------------------------------
  // Uniqueness
  // ---------------------------------------------------------------------

  /** The record of `x` is still visible at every time up to `horizon`. */
  ghost predicate HeldUntil(s: SnippetStore, x: string, horizon: int) {
    RecordKey(x) in s && Live(s[RecordKey(x)], horizon)
  }

  /** All events fall within one fourteen-day window ending at `horizon`. */
  ghost predicate WithinLifetime(events: seq<Event>, horizon: int) {
    forall i :: 0 <= i < |events| ==> horizon - TtlMillis <= events[i].at <= horizon
  }

  /** One request keeps every held well-formed identifier held, and an
      identifier it creates is new and held until the horizon. */
  lemma HandleKeepsHeld(s: SnippetStore, e: Event, held: set<string>, horizon: int)
    requires horizon - TtlMillis <= e.at <= horizon
    requires forall x :: x in held ==> IsSnippetId(x) && HeldUntil(s, x, horizon)
    ensures var step := Handle(s, e);
            forall x :: x in held ==> HeldUntil(step.store, x, horizon)
    ensures var step := Handle(s, e);
            step.reply.Created? ==>
              && step.reply.id !in held
              && IsSnippetId(step.reply.id)
              && HeldUntil(step.store, step.reply.id, horizon)
  {
  }

  /** Uniqueness: within any fourteen-day window, however POSTs and reads
      interleave and whichever store calls fail, the identifiers of all
      successful POSTs are pairwise distinct, and none of them had a record
      live through the end of the window. An identifier whose record
      expires inside the window can be handed out again. */
  lemma {:induction false} CreatedIdsAreDistinct(s: SnippetStore, events: seq<Event>, held: set<string>,
                                                 horizon: int)
    requires WithinLifetime(events, horizon)
    requires forall x :: x in held ==> IsSnippetId(x) && HeldUntil(s, x, horizon)
    ensures forall i :: 0 <= i < |events| && Run(s, events).1[i].Created? ==>
              Run(s, events).1[i].id !in held
    ensures forall i, j :: 0 <= i < j < |events| && Run(s, events).1[i].Created? && Run(s, events).1[j].Created? ==>
              Run(s, events).1[i].id != Run(s, events).1[j].id
    decreases |events|
  {
    if events != [] {
      var step := Handle(s, events[0]);
      HandleKeepsHeld(s, events[0], held, horizon);
      var held' := if step.reply.Created? then held + {step.reply.id} else held;
      assert WithinLifetime(events[1..], horizon);
      CreatedIdsAreDistinct(step.store, events[1..], held', horizon);
      var replies := Run(s, events).1;
      var later := Run(step.store, events[1..]).1;
      assert replies == [step.reply] + later;
      forall i | 0 <= i < |replies| && replies[i].Created?
        ensures replies[i].id !in held
      {
        if i > 0 {
          assert replies[i] == later[i - 1];
        }
      }
      forall i, j | 0 <= i < j < |replies| && replies[i].Created? && replies[j].Created?
        ensures replies[i].id != replies[j].id
      {
        assert replies[j] == later[j - 1];
        if i > 0 {
          assert replies[i] == later[i - 1];
        }
      }
    }
  }
}
