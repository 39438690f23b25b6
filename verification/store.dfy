/**
 * The key/value store the backend talks to (Valkey, a Redis fork), reduced
 * to the four commands the handlers issue: EXISTS, GET, SETEX and INCR.
 *
 * A store is a map from key to entry; an entry holds a value and an
 * optional absolute deadline in milliseconds since the epoch. The clock is
 * a parameter of every command. Expiry is lazy, as in the real store: an
 * entry whose deadline has passed stays in the map but every command treats
 * it as absent.
 */
module KeyValueStore {
  import opened Results

  /** A stored value: either an opaque payload (the serialized snippet
      record) or a string holding a decimal integer (a view counter). */
  datatype Value<B> = Blob(payload: B) | Integer(n: int)

  /** `deadline == None` is a key without a time to live. */
  datatype Entry<B> = Entry(value: Value<B>, deadline: Option<int>)

  type Store<B> = map<string, Entry<B>>

  /** Why a command failed: the store refused it (a value that is not an
      integer, or an increment past the largest one), or the call never got
      an answer because the connection failed. */
  datatype CommandError = NotAnInteger | IncrementOverflow | Unavailable

  /** The range of a 64-bit signed integer, the store's counter width. */
  const MinInteger: int := -0x8000_0000_0000_0000
  const MaxInteger: int := 0x7FFF_FFFF_FFFF_FFFF

  /** A key stops being visible once the clock is strictly past its deadline. */
  predicate Live<B>(e: Entry<B>, now: int) {
    e.deadline.None? || now <= e.deadline.value
  }

  /** What any command can see at `key` at time `now`: the live entry, or
      nothing. */
  function Observe<B>(s: Store<B>, now: int, key: string): (r: Option<Entry<B>>)
    ensures r.Some? <==> key in s && Live(s[key], now)
    ensures r.Some? ==> r.value == s[key]
  {
    if key in s && Live(s[key], now) then Some(s[key]) else None
  }

  /** EXISTS key */
  predicate Exists<B>(s: Store<B>, now: int, key: string)
    ensures Exists(s, now, key) <==>
              key in s && (s[key].deadline.None? || now <= s[key].deadline.value)
  {
    Observe(s, now, key).Some?
  }

  /** GET key */
  function Get<B>(s: Store<B>, now: int, key: string): (r: Option<Value<B>>)
    ensures r.Some? <==> Exists(s, now, key)
    ensures r.Some? ==> r.value == s[key].value
  {
    match Observe(s, now, key)
    case None => None
    case Some(e) => Some(e.value)
  }

  /** SETEX key seconds value: overwrite `key` with a deadline `seconds`
      from now. The store refuses a non-positive expire time. */
  function SetEx<B>(s: Store<B>, now: int, key: string, seconds: int, v: Value<B>): (s': Store<B>)
    requires seconds > 0
    ensures key in s' && s'[key] == Entry(v, Some(now + seconds * 1000))
    ensures Exists(s', now, key)
    ensures forall k :: k != key ==> Observe(s', now, k) == Observe(s, now, k)
    ensures forall k :: k != key ==> (k in s' <==> k in s) && (k in s ==> s'[k] == s[k])
  {
    s[key := Entry(v, Some(now + seconds * 1000))]
  }

  /** The outcome of INCR: the new store and the value after the increment. */
  datatype Incremented<B> = Incremented(store: Store<B>, count: int)

  /** INCR key. An absent or expired key is treated as 0 and the result is
      stored WITHOUT a time to live; a live integer keeps its deadline; a
      value that is not a 64-bit integer, or that is already the largest
      one, is an error and changes nothing. */
  function Incr<B>(s: Store<B>, now: int, key: string): (r: Result<Incremented<B>, CommandError>)
    ensures r.Success? ==> key in r.value.store && r.value.store[key].value == Integer(r.value.count)
    ensures r.Success? ==>
              forall k :: k != key ==>
                (k in r.value.store <==> k in s) && (k in s ==> r.value.store[k] == s[k])
    ensures !Exists(s, now, key) ==> r == Success(Incremented(s[key := Entry(Integer(1), None)], 1))
    ensures r.Success? && Exists(s, now, key) ==> r.value.store[key].deadline == s[key].deadline
  {
    match Observe(s, now, key)
    case None =>
      Success(Incremented(s[key := Entry(Integer(1), None)], 1))
    case Some(Entry(Integer(n), deadline)) =>
      if !(MinInteger <= n <= MaxInteger) then Failure(NotAnInteger)
      else if n == MaxInteger then Failure(IncrementOverflow)
      else Success(Incremented(s[key := Entry(Integer(n + 1), deadline)], n + 1))
    case Some(Entry(Blob(_), _)) =>
      Failure(NotAnInteger)
  }

  /** The counter INCR reads at `key`: the live integer, or 0 when absent. */
  function CounterAt<B>(s: Store<B>, now: int, key: string): Option<int> {
    match Observe(s, now, key)
    case None => Some(0)
    case Some(Entry(Integer(n), _)) => Some(n)
    case Some(Entry(Blob(_), _)) => None
  }

  /** INCR adds exactly one to the counter it reads, succeeds exactly when
      that counter is a 64-bit integer below the maximum, and leaves the
      key live. */
  lemma IncrAddsOne<B>(s: Store<B>, now: int, key: string)
    ensures Incr(s, now, key).Success? <==>
              CounterAt(s, now, key).Some? && MinInteger <= CounterAt(s, now, key).value < MaxInteger
    ensures Incr(s, now, key).Success? ==>
              Incr(s, now, key).value.count == CounterAt(s, now, key).value + 1
              && CounterAt(Incr(s, now, key).value.store, now, key) == Some(Incr(s, now, key).value.count)
  {
  }

  // ---------------------------------------------------------------------
  // Indistinguishability: expiry leaves no trace
  // ---------------------------------------------------------------------

  /** Two stores that no command can tell apart at time `now`. */
  ghost predicate Indistinguishable<B>(s1: Store<B>, s2: Store<B>, now: int) {
    forall k :: Observe(s1, now, k) == Observe(s2, now, k)
  }

  /** An expired key is indistinguishable from a key never written. */
  lemma ExpiredKeyIsNeverWritten<B>(s: Store<B>, now: int, key: string)
    requires key in s && !Live(s[key], now)
    ensures Indistinguishable(s, s - {key}, now)
  {
  }

  /** Every command answers the same on indistinguishable stores, and the
      writes keep them indistinguishable. */
  lemma CommandsRespectIndistinguishable<B>(s1: Store<B>, s2: Store<B>, now: int, key: string,
                                            seconds: int, v: Value<B>)
    requires Indistinguishable(s1, s2, now)
    requires seconds > 0
    ensures Exists(s1, now, key) == Exists(s2, now, key)
    ensures Get(s1, now, key) == Get(s2, now, key)
    ensures Indistinguishable(SetEx(s1, now, key, seconds, v), SetEx(s2, now, key, seconds, v), now)
    ensures Incr(s1, now, key).Success? == Incr(s2, now, key).Success?
    ensures Incr(s1, now, key).Success? ==>
              Incr(s1, now, key).value.count == Incr(s2, now, key).value.count
              && Indistinguishable(Incr(s1, now, key).value.store, Incr(s2, now, key).value.store, now)
  {
    assert Observe(s1, now, key) == Observe(s2, now, key);
    var a, b := SetEx(s1, now, key, seconds, v), SetEx(s2, now, key, seconds, v);
    forall k ensures Observe(a, now, k) == Observe(b, now, k) {
      if k != key {
        assert Observe(s1, now, k) == Observe(s2, now, k);
      }
    }
    var i1, i2 := Incr(s1, now, key), Incr(s2, now, key);
    if i1.Success? {
      forall k ensures Observe(i1.value.store, now, k) == Observe(i2.value.store, now, k) {
        if k != key {
          assert Observe(s1, now, k) == Observe(s2, now, k);
        }
      }
    }
  }
}
