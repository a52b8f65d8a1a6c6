/**
 * The service layer of the URL shortener (services.py): the module-level
 * Redis client `r`, the id counter kept at key "next_short_id", and the
 * short-code mappings kept at every other key.
 */
module Services {
  import opened Wrappers
  import Codec

  /** The Redis key the id counter lives at. */
  const COUNTER_KEY: string := "next_short_id"

  /** The message `get_long_url` raises while `r` is still None. */
  const NOT_INITIALIZED_MESSAGE: string := "Redis connection not initialized."

  /** What Python raises for `r.incr(...)` while `r` is still None. */
  const NO_CLIENT_MESSAGE: string := "'NoneType' object has no attribute 'incr'"

  /** The exceptions the service layer can raise. */
  datatype Exception = RuntimeError(message: string) | AttributeError(message: string)

  /**
   * What the service sees at one moment: whether `r` has been assigned,
   * the integer at COUNTER_KEY (absent until the first INCR), and every
   * other key of the Redis database.
   */
  datatype RedisState = RedisState(connected: bool, counter: Option<nat>, mappings: map<string, string>)

  /**
   * The counter and the mappings never claim the same key. This keeps the
   * representation canonical: the state built by the constructor has it and
   * every operation keeps it. A state without it (a URL stored at
   * "next_short_id" and no counter) is one Redis could not have produced by
   * this service; there INCR would raise, while `Generate` starts from 0.
   */
  predicate Consistent(s: RedisState)
  {
    COUNTER_KEY !in s.mappings
  }

  /** The counter as INCR reads it: an absent key counts as 0. */
  function CounterValue(s: RedisState): nat
  {
    if s.counter.Some? then s.counter.value else 0
  }

  /** The decimal string Redis returns for an integer value. */
  function DecimalString(n: nat): string
  {
    Codec.Encode(n, Codec.DIGITS)
  }

  /** The whole database as one map from keys to string values, as Redis holds it. */
  function Keyspace(s: RedisState): map<string, string>
  {
    if s.counter.Some? then s.mappings[COUNTER_KEY := DecimalString(s.counter.value)] else s.mappings
  }

  /** Redis GET: the value at `key`, or None when the key is absent. */
  function Get(s: RedisState, key: string): (value: Option<string>)
    ensures value.Some? <==> key in Keyspace(s)
    ensures value.Some? ==> value.value == Keyspace(s)[key]
    ensures key != COUNTER_KEY ==> (value.Some? <==> key in s.mappings)
    ensures key == COUNTER_KEY && s.counter.Some? ==> value == Some(DecimalString(s.counter.value))
  {
    if key in Keyspace(s) then Some(Keyspace(s)[key]) else None
  }

  /** The short code `generate_and_store_url` issues for counter value `id`. */
  function ShortCode(id: nat): (code: string)
    ensures Codec.AsWritten(id, Codec.BASE62_ALPHABET) == Some(code)
    ensures code != COUNTER_KEY
  {
    Codec.AsWrittenIsOneSymbol(id, Codec.BASE62_ALPHABET);
    Codec.AsWritten(id, Codec.BASE62_ALPHABET).value
  }

  /** The state after `init_redis`: `r` is assigned whether or not the ping succeeds. */
  function Initialized(s: RedisState): (t: RedisState)
    ensures t.connected
    ensures Keyspace(t) == Keyspace(s) && t.counter == s.counter
  {
    s.(connected := true)
  }

  /**
   * `generate_and_store_url`: INCR the counter, encode the new value, SET
   * the code to the URL. Without a client, `r.incr` raises before Redis is
   * touched.
   */
  function Generate(s: RedisState, longUrl: string): (r: (RedisState, Result<string, Exception>))
    ensures r.0.connected == s.connected
    ensures !s.connected ==> r == (s, Err(AttributeError(NO_CLIENT_MESSAGE)))
    ensures s.connected ==> r.1.Ok? && r.0.counter == Some(CounterValue(s) + 1)
    ensures s.connected ==> Codec.AsWritten(CounterValue(r.0), Codec.BASE62_ALPHABET) == Some(r.1.value)
    ensures s.connected ==>
      Keyspace(r.0) == Keyspace(s)[COUNTER_KEY := DecimalString(CounterValue(s) + 1)][r.1.value := longUrl]
    ensures Consistent(s) ==> Consistent(r.0)
  {
    if !s.connected then (s, Err(AttributeError(NO_CLIENT_MESSAGE)))
    else
      var newId := CounterValue(s) + 1;
      var code := ShortCode(newId);
      (RedisState(true, Some(newId), s.mappings[code := longUrl]), Ok(code))
  }

  /** `get_long_url`: RuntimeError while `r` is None, otherwise a GET of the code. */
  function GetLongUrl(s: RedisState, shortCode: string): (r: Result<Option<string>, Exception>)
    ensures r.Err? <==> !s.connected
    ensures r.Err? ==> r.error == RuntimeError(NOT_INITIALIZED_MESSAGE)
    ensures r.Ok? ==> r.value == Get(s, shortCode)
  {
    if !s.connected then Err(RuntimeError(NOT_INITIALIZED_MESSAGE)) else Ok(Get(s, shortCode))
  }

  /** `get_long_url` raises exactly when `r` is None, and then with its fixed message. */
  lemma GetLongUrlRaisesIffUninitialized(s: RedisState, shortCode: string)
    ensures GetLongUrl(s, shortCode).Err? <==> !s.connected
    ensures GetLongUrl(s, shortCode).Err? ==>
      GetLongUrl(s, shortCode).error == RuntimeError(NOT_INITIALIZED_MESSAGE)
    ensures GetLongUrl(s, shortCode).Ok? ==>
      (GetLongUrl(s, shortCode).value == None <==> shortCode !in Keyspace(s))
    ensures s.connected && shortCode in Keyspace(s) ==>
      GetLongUrl(s, shortCode) == Ok(Some(Keyspace(s)[shortCode]))
  {
  }

  /** `init_redis` does nothing once `r` is set, and never touches the data. */
  lemma InitializedIsIdempotent(s: RedisState)
    ensures Initialized(Initialized(s)) == Initialized(s)
    ensures s.connected ==> Initialized(s) == s
    ensures Keyspace(Initialized(s)) == Keyspace(s)
  {
  }

  /**
   * After `init_redis`, even one whose ping failed, `get_long_url` no longer
   * raises RuntimeError: it goes on to the GET.
   */
  lemma InitializedNeverRaises(s: RedisState, shortCode: string)
    ensures GetLongUrl(Initialized(s), shortCode) == Ok(Get(s, shortCode))
  {
  }

  /** The first id the counter issues is encoded as "1". */
  lemma FirstCodeIsOne()
    ensures ShortCode(1) == "1"
  {
    Codec.Base62Ranks();
  }

  /** A code is always one symbol long, so it is never the counter's key. */
  lemma ShortCodeAvoidsCounter(id: nat)
    ensures |ShortCode(id)| == 1
    ensures ShortCode(id)[0] in Codec.BASE62_ALPHABET
    ensures '_' !in Codec.BASE62_ALPHABET
  {
    Codec.Base62Ranks();
  }

  /** Resolving the code just issued gives back exactly the URL stored under it. */
  lemma GenerateThenGet(s: RedisState, longUrl: string)
    requires s.connected
    ensures GetLongUrl(Generate(s, longUrl).0, Generate(s, longUrl).1.value) == Ok(Some(longUrl))
  {
  }

  /**
   * Generating touches only the counter and the issued code: every other
   * key reads as before, and the counter reads as its new value.
   */
  lemma GenerateChangesNothingElse(s: RedisState, longUrl: string, key: string)
    requires s.connected
    ensures key != COUNTER_KEY && key != Generate(s, longUrl).1.value ==>
      Get(Generate(s, longUrl).0, key) == Get(s, key)
    ensures Get(Generate(s, longUrl).0, COUNTER_KEY) == Some(DecimalString(CounterValue(s) + 1))
  {
  }

  /** The state after issuing codes for `urls` one after another. */
  function GenerateAll(s: RedisState, urls: seq<string>): RedisState
    decreases |urls|
  {
    if urls == [] then s else GenerateAll(Generate(s, urls[0]).0, urls[1..])
  }

  /** Each call issues the next id: after `k` calls the counter has grown by exactly `k`. */
  lemma {:induction false} GenerateAllAdvancesCounter(s: RedisState, urls: seq<string>)
    requires s.connected
    ensures GenerateAll(s, urls).connected
    ensures CounterValue(GenerateAll(s, urls)) == CounterValue(s) + |urls|
    decreases |urls|
  {
    if urls != [] {
      GenerateAllAdvancesCounter(Generate(s, urls[0]).0, urls[1..]);
    }
  }

  /**
   * Sixty-two calls after a code was issued the same code is issued again,
   * and its unconditional SET replaces the URL the first call stored.
   */
  lemma {:induction false} LaterUrlOverwrites(s: RedisState, first: string, between: seq<string>, later: string)
    requires s.connected && |between| == 61
    ensures var s1 := Generate(s, first).0;
            var s3 := Generate(GenerateAll(s1, between), later).0;
            var code := Generate(s, first).1.value;
            && GetLongUrl(s1, code) == Ok(Some(first))
            && Generate(GenerateAll(s1, between), later).1 == Ok(code)
            && GetLongUrl(s3, code) == Ok(Some(later))
  {
    var s1 := Generate(s, first).0;
    GenerateAllAdvancesCounter(s1, between);
    var s2 := GenerateAll(s1, between);
    assert CounterValue(s2) + 1 == (CounterValue(s) + 1) + 62;
    Codec.AsWrittenPeriodic(CounterValue(s) + 1, Codec.BASE62_ALPHABET);
    Codec.Base62AlphabetIsDistinct();
    assert ShortCode(CounterValue(s2) + 1) == ShortCode(CounterValue(s) + 1);
  }

  /**
   * The service object of services.py. `connected` stands for the module
   * global `r` being set; `counter` and `mappings` are the Redis data the
   * client reaches.
   */
  class RedisService {
    var connected: bool
    var counter: Option<nat>
    var mappings: map<string, string>

    function State(): RedisState
      reads this
    {
      RedisState(connected, counter, mappings)
    }

    /** The service as the module is imported (`r = None`), over what Redis already holds. */
    constructor (counter: Option<nat>, mappings: map<string, string>)
      requires COUNTER_KEY !in mappings
      ensures State() == RedisState(false, counter, mappings)
      ensures Consistent(State())
    {
      this.connected := false;
      this.counter := counter;
      this.mappings := mappings;
    }

    /**
     * `init_redis`: when `r` is None it is assigned before the ping, so a
     * failed ping (only logged) leaves it assigned all the same.
     */
    method InitRedis(pingSucceeds: bool)
      modifies this
      ensures State() == Initialized(old(State()))
    {
      if !connected {
        connected := true;
      }
    }

    /** `generate_and_store_url`, one atomic step against Redis. */
    method GenerateAndStoreUrl(longUrl: string) returns (result: Result<string, Exception>)
      requires Consistent(State())
      modifies this
      ensures (State(), result) == Generate(old(State()), longUrl)
      ensures Consistent(State())
    {
      if !connected {
        return Err(AttributeError(NO_CLIENT_MESSAGE));
      }
      var newId := (if counter.Some? then counter.value else 0) + 1;
      counter := Some(newId);
      var encoded := Codec.BaseEncode(newId);
      var shortCode := encoded.value;
      mappings := mappings[shortCode := longUrl];
      return Ok(shortCode);
    }
  }
}
