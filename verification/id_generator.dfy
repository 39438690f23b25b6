/**
 * Identifier allocation (backend/utils/idGenerator.js).
 *
 * The random source is an input: each candidate is built from one draw of
 * twelve random bytes, each byte picking one of the 64 URL-safe symbols by
 * its low six bits, as nanoid does. The allocator draws at most five
 * candidates and returns the first whose record key does not exist.
 */
module IdGenerator {
  import opened Results
  import opened JsValues
  import opened KeyValueStore
  import opened SnippetKeys

  /** How many candidates the allocator tries before giving up. */
  const MaxAttempts: nat := 5

  /** Twelve random bytes, the raw material of one candidate. */
  type RandomDraw = b: seq<byte> | |b| == IdLength
    witness [0, 0, 0, 0, 0, 0, 0, 0, 0, 0, 0, 0]

  /** A draw of twelve zero bytes. */
  const ZeroDraw: RandomDraw := [0, 0, 0, 0, 0, 0, 0, 0, 0, 0, 0, 0]

  /** Enough draws for every attempt: the random source never runs dry. */
  type Draws = d: seq<RandomDraw> | |d| >= MaxAttempts
    witness [ZeroDraw, ZeroDraw, ZeroDraw, ZeroDraw, ZeroDraw]

  /** The k-th symbol of the URL-safe alphabet `A-Z a-z 0-9 - _`. */
  function Symbol(k: nat): (c: char)
    requires k < 64
    ensures IsUrlSafe(c)
  {
    if k < 26 then ('A' as int + k) as char
    else if k < 52 then ('a' as int + (k - 26)) as char
    else if k < 62 then ('0' as int + (k - 52)) as char
    else if k == 62 then '-'
    else '_'
  }

  /** The position of a URL-safe symbol in the alphabet. */
  function SymbolIndex(c: char): (k: nat)
    requires IsUrlSafe(c)
    ensures k < 64
  {
    if 'A' <= c <= 'Z' then c as int - 'A' as int
    else if 'a' <= c <= 'z' then 26 + (c as int - 'a' as int)
    else if '0' <= c <= '9' then 52 + (c as int - '0' as int)
    else if c == '-' then 62
    else 63
  }

  /** The alphabet has exactly 64 symbols, and they are exactly the URL-safe
      characters: `Symbol` and `SymbolIndex` are inverse bijections. */
  lemma AlphabetIsUrlSafe(k: nat, c: char)
    ensures k < 64 ==> SymbolIndex(Symbol(k)) == k
    ensures IsUrlSafe(c) ==> Symbol(SymbolIndex(c)) == c
  {
  }

  /** `generateSnippetId`: one candidate from one draw. */
  function GenerateSnippetId(draw: RandomDraw): (id: string)
    ensures IsSnippetId(id)
  {
    seq(IdLength, i requires 0 <= i < IdLength => Symbol(draw[i] as int % 64))
  }

  /** Every well-formed identifier is the candidate of some draw, so the
      model restricts the random source in no way beyond its shape. */
  lemma EveryIdCanBeGenerated(id: string)
    requires IsSnippetId(id)
    ensures exists d: RandomDraw :: GenerateSnippetId(d) == id
  {
    var d: RandomDraw := seq(IdLength, i requires 0 <= i < IdLength => SymbolIndex(id[i]) as byte);
    forall i | 0 <= i < IdLength
      ensures GenerateSnippetId(d)[i] == id[i]
    {
      AlphabetIsUrlSafe(0, id[i]);
    }
  }

  /** Why allocation failed: every candidate was taken (the source's
      'Failed to generate unique ID'), or an EXISTS call itself failed. */
  datatype AllocError = Exhausted | StoreUnavailable

  /** The allocator's outcome together with the number of EXISTS calls it
      issued. */
  datatype Allocation = Allocation(result: Result<string, AllocError>, checks: nat)

  /** The candidate of draw `j` collides with a live snippet. */
  predicate Taken<B>(s: Store<B>, now: int, draw: RandomDraw) {
    Exists(s, now, RecordKey(GenerateSnippetId(draw)))
  }

  /**
   * Allocation from attempt `from` on. `failing` holds the ordinals of the
   * store calls of this request that fail; EXISTS number j is call j.
   */
  function Allocate<B>(s: Store<B>, now: int, draws: Draws, failing: set<nat>, from: nat)
    : (a: Allocation)
    requires from <= MaxAttempts
    ensures from <= a.checks <= MaxAttempts
    ensures forall j :: from <= j < a.checks - 1 ==> j !in failing && Taken(s, now, draws[j])
    ensures a.result.Success? ==>
              && from < a.checks
              && a.checks - 1 !in failing
              && a.result.value == GenerateSnippetId(draws[a.checks - 1])
              && !Exists(s, now, RecordKey(a.result.value))
    ensures a.result == Failure(StoreUnavailable) ==> from < a.checks && a.checks - 1 in failing
    ensures a.result == Failure(Exhausted) ==>
              a.checks == MaxAttempts
              && forall j :: from <= j < MaxAttempts ==> j !in failing && Taken(s, now, draws[j])
    decreases MaxAttempts - from
  {
    if from == MaxAttempts then
      Allocation(Failure(Exhausted), from)
    else if from in failing then
      Allocation(Failure(StoreUnavailable), from + 1)
    else if Taken(s, now, draws[from]) then
      Allocate(s, now, draws, failing, from + 1)
    else
      Allocation(Success(GenerateSnippetId(draws[from])), from + 1)
  }

  /** Allocation gives up with `Exhausted` exactly when all five candidates
      are taken and no check failed. */
  lemma {:induction false} ExhaustedIffAllTaken<B>(s: Store<B>, now: int, draws: Draws,
                                                   failing: set<nat>, from: nat)
    requires from <= MaxAttempts
    ensures Allocate(s, now, draws, failing, from).result == Failure(Exhausted) <==>
              forall j :: from <= j < MaxAttempts ==> j !in failing && Taken(s, now, draws[j])
    decreases MaxAttempts - from
  {
    if from < MaxAttempts && from !in failing && Taken(s, now, draws[from]) {
      ExhaustedIffAllTaken(s, now, draws, failing, from + 1);
    }
  }

  /** `generateUniqueId`, the bounded retry loop as the source writes it. */
  method GenerateUniqueId<B>(s: Store<B>, now: int, draws: Draws, failing: set<nat>)
    returns (r: Result<string, AllocError>, checks: nat)
    ensures Allocation(r, checks) == Allocate(s, now, draws, failing, 0)
    ensures 1 <= checks <= MaxAttempts
    ensures r.Success? ==> IsSnippetId(r.value) && !Exists(s, now, RecordKey(r.value))
    ensures r.Success? ==> r.value == GenerateSnippetId(draws[checks - 1])
    ensures forall j :: 0 <= j < checks - 1 ==> Taken(s, now, draws[j])
    ensures r == Failure(Exhausted) <==> forall j :: 0 <= j < MaxAttempts ==> j !in failing && Taken(s, now, draws[j])
  {
    ExhaustedIffAllTaken(s, now, draws, failing, 0);
    var attempts: nat := 0;
    while attempts < MaxAttempts
      invariant attempts <= MaxAttempts
      invariant Allocate(s, now, draws, failing, attempts) == Allocate(s, now, draws, failing, 0)
      invariant forall j :: 0 <= j < attempts ==> j !in failing && Taken(s, now, draws[j])
    {
      if attempts in failing {
        assert Allocate(s, now, draws, failing, attempts) == Allocation(Failure(StoreUnavailable), attempts + 1);
        return Failure(StoreUnavailable), attempts + 1;
      }
      var id := GenerateSnippetId(draws[attempts]);
      var found := Exists(s, now, RecordKey(id));
      if !found {
        assert Allocate(s, now, draws, failing, attempts) == Allocation(Success(id), attempts + 1);
        return Success(id), attempts + 1;
      }
      assert Allocate(s, now, draws, failing, attempts) == Allocate(s, now, draws, failing, attempts + 1);
      attempts := attempts + 1;
    }
    assert Allocate(s, now, draws, failing, attempts) == Allocation(Failure(Exhausted), MaxAttempts);
    return Failure(Exhausted), attempts;
  }
}
