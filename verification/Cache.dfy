/** The in-memory cache with expiring items, against a plain map in which expired items don't exist. */
module Cache {
  import opened Options

  // Durations.
  const DEFAULT_EXPIRATION := 0
  const NO_EXPIRATION := -1
  const KEEP_TTL := -2

  /** An item; an expiration of zero means that it never expires. */
  datatype Item<T> = Item(value: T, expiration: int)

  predicate Expired<T>(i: Item<T>, now: int) {
    i.expiration != 0 && now > i.expiration
  }

  type Data<T> = map<string, Item<T>>

  /** The items that have not expired by a given time. */
  function Live<T>(data: Data<T>, now: int): Data<T> {
    map k | k in data && !Expired(data[k], now) :: data[k]
  }

  function ExpirationTime(defaultExpiration: int, ttl: int, now: int): int {
    var d := if ttl == DEFAULT_EXPIRATION then defaultExpiration else ttl;
    if d > DEFAULT_EXPIRATION then now + d else 0
  }

  /** A value stored with a time to live is there for just that long; without one, for as long as the default says. */
  lemma StoredValueExpires<T>(value: T, defaultExpiration: int, ttl: int, now: int, later: int)
    requires 0 < now <= later
    ensures Expired(Item(value, ExpirationTime(defaultExpiration, ttl, now)), later) <==>
            || (ttl > DEFAULT_EXPIRATION && later - now > ttl)
            || (ttl == DEFAULT_EXPIRATION && defaultExpiration > 0 && later - now > defaultExpiration)
  {
  }

  lemma LiveLater<T>(data: Data<T>, now: int, later: int)
    requires now <= later
    ensures Live(Live(data, now), later) == Live(data, later)
    ensures Live(Live(data, later), later) == Live(data, later)
  {
  }

  // ----- Calls, as transitions on values

  datatype Call<T> =
    | CallGet(key: string)
    | CallItem(key: string)
    | CallSet(key: string, value: T, ttl: int)
    | CallAdd(key: string, value: T, ttl: int)
    | CallReplace(key: string, value: T, ttl: int)
    | CallDel(key: string)
    | CallClear
    | CallItems        // Keys and the item count are read off the items.
    | CallSweep(tick: int)

  datatype Answer<T> = Nothing | Value(v: Option<T>) | Found(i: Option<Item<T>>) | Done(b: bool) | All(items: Data<T>)

  /** What a call does to the cache: expired items stay until they are swept, overwritten or looked up. */
  function Lazily<T>(data: Data<T>, d: int, c: Call<T>, now: int): (Data<T>, Answer<T>) {
    match c
    case CallGet(key) =>
      if key in Live(data, now) then (data, Value(Some(data[key].value))) else (data - {key}, Value(None))
    case CallItem(key) =>
      if key in Live(data, now) then (data, Found(Some(data[key]))) else (data - {key}, Found(None))
    case CallSet(key, v, ttl) => (data[key := Item(v, ExpirationTime(d, ttl, now))], Nothing)
    case CallAdd(key, v, ttl) =>
      if key in Live(data, now) then (data, Done(false))
      else (data[key := Item(v, ExpirationTime(d, ttl, now))], Done(true))
    case CallReplace(key, v, ttl) =>
      if key !in Live(data, now) then (data - {key}, Done(false))
      else
        var until := if ttl == KEEP_TTL then data[key].expiration else ExpirationTime(d, ttl, now);
        (data[key := Item(v, until)], Done(true))
    case CallDel(key) => (data - {key}, Nothing)
    case CallClear => (map[], Nothing)
    case CallItems => (data, All(Live(data, now)))
    case CallSweep(tick) => (Live(data, tick), Nothing)
  }

  // ----- The cache, updated in place

  class Cache<T> {
    var data: Data<T>
    const defaultExpiration: int

    constructor (defaultExpiration: int)
      ensures data == map[]
      ensures this.defaultExpiration ==
              if defaultExpiration <= DEFAULT_EXPIRATION then NO_EXPIRATION else defaultExpiration
    {
      data := map[];
      this.defaultExpiration := if defaultExpiration <= DEFAULT_EXPIRATION then NO_EXPIRATION else defaultExpiration;
    }

    /** The periodic clean-up, with the time of the tick that started it, however long ago that was. */
    method Sweep(tick: int)
      modifies `data
      ensures data == Live(old(data), tick)
    {
      ghost var before := data;
      var todo := data.Keys;
      while todo != {}
        invariant todo <= before.Keys
        invariant data == map k | k in before && (k in todo || !Expired(before[k], tick)) :: before[k]
      {
        var key :| key in todo;
        if data[key].expiration != 0 && tick > data[key].expiration {
          data := data - {key};
        }
        todo := todo - {key};
      }
    }

    method Del(key: string)
      modifies `data
      ensures data == old(data) - {key}
      ensures forall now :: (data, Nothing) == Lazily(old(data), defaultExpiration, CallDel(key), now)
    {
      data := data - {key};
    }

    /** Looks up an item, and deletes it if it has expired. */
    method GetItem(key: string, now: int) returns (r: Option<Item<T>>)
      modifies `data
      ensures (data, Found(r)) == Lazily(old(data), defaultExpiration, CallItem(key), now)
    {
      if key !in data {
        assert data - {key} == data;
        return None;
      }
      var item := data[key];
      if Expired(item, now) {
        Del(key);
        return None;
      }
      return Some(item);
    }

    method Get(key: string, now: int) returns (r: Option<T>)
      modifies `data
      ensures (data, Value(r)) == Lazily(old(data), defaultExpiration, CallGet(key), now)
    {
      var item := GetItem(key, now);
      return if item == None then None else Some(item.value.value);
    }

    method Set(key: string, value: T, ttl: int, now: int)
      modifies `data
      ensures (data, Nothing) == Lazily(old(data), defaultExpiration, CallSet(key, value, ttl), now)
    {
      data := data[key := Item(value, ExpirationTime(defaultExpiration, ttl, now))];
    }

    method Add(key: string, value: T, ttl: int, now: int) returns (added: bool)
      modifies `data
      ensures (data, Done(added)) == Lazily(old(data), defaultExpiration, CallAdd(key, value, ttl), now)
    {
      if key in data && !Expired(data[key], now) {
        return false;
      }
      data := data[key := Item(value, ExpirationTime(defaultExpiration, ttl, now))];
      return true;
    }

    method Replace(key: string, value: T, ttl: int, now: int) returns (replaced: bool)
      modifies `data
      ensures (data, Done(replaced)) == Lazily(old(data), defaultExpiration, CallReplace(key, value, ttl), now)
    {
      if key !in data || Expired(data[key], now) {
        data := data - {key};
        return false;
      }
      var item := data[key].(value := value);
      if ttl != KEEP_TTL {
        item := item.(expiration := ExpirationTime(defaultExpiration, ttl, now));
      }
      data := data[key := item];
      return true;
    }

    method Clear()
      modifies `data
      ensures forall now :: (data, Nothing) == Lazily(old(data), defaultExpiration, CallClear, now)
    {
      data := map[];
    }

    /** All unexpired keys, each once, in no particular order. */
    method Keys(now: int) returns (keys: seq<string>)
      ensures forall k :: k in keys <==> k in Live(data, now)
      ensures forall i, j :: 0 <= i < j < |keys| ==> keys[i] != keys[j]
    {
      keys := [];
      var todo := data.Keys;
      while todo != {}
        invariant todo <= data.Keys
        invariant forall k :: k in keys <==> k in Live(data, now) && k !in todo
        invariant forall i, j :: 0 <= i < j < |keys| ==> keys[i] != keys[j]
      {
        var k :| k in todo;
        if !Expired(data[k], now) {
          keys := keys + [k];
        }
        todo := todo - {k};
      }
    }

    method Items(now: int) returns (m: Data<T>)
      ensures m == Live(data, now)
    {
      m := map[];
      var todo := data.Keys;
      while todo != {}
        invariant todo <= data.Keys
        invariant m == map k | k in data && k !in todo && !Expired(data[k], now) :: data[k]
      {
        var k :| k in todo;
        if !Expired(data[k], now) {
          m := m[k := data[k]];
        }
        todo := todo - {k};
      }
    }

    method ItemCount(now: int) returns (count: nat)
      ensures count == |Live(data, now)|
    {
      count := 0;
      var todo := data.Keys;
      ghost var seen: Data<T> := map[];
      while todo != {}
        invariant todo <= data.Keys
        invariant seen == map k | k in data && k !in todo && !Expired(data[k], now) :: data[k]
        invariant count == |seen|
      {
        var k :| k in todo;
        if !Expired(data[k], now) {
          count := count + 1;
          seen := seen[k := data[k]];
        }
        todo := todo - {k};
      }
      assert seen == Live(data, now);
    }
  }

  // ----- Every run gives the same results as a plain timed map

  /** What a call does to a plain map `m` that never holds expired items. Sweeps don't exist for it. */
  function Plainly<T>(m: Data<T>, d: int, c: Call<T>, now: int): (Data<T>, Answer<T>) {
    match c
    case CallGet(key) => (m, Value(if key in m then Some(m[key].value) else None))
    case CallItem(key) => (m, Found(if key in m then Some(m[key]) else None))
    case CallSet(key, v, ttl) => (m[key := Item(v, ExpirationTime(d, ttl, now))], Nothing)
    case CallAdd(key, v, ttl) =>
      if key in m then (m, Done(false)) else (m[key := Item(v, ExpirationTime(d, ttl, now))], Done(true))
    case CallReplace(key, v, ttl) =>
      if key !in m then (m, Done(false))
      else
        var until := if ttl == KEEP_TTL then m[key].expiration else ExpirationTime(d, ttl, now);
        (m[key := Item(v, until)], Done(true))
    case CallDel(key) => (m - {key}, Nothing)
    case CallClear => (map[], Nothing)
    case CallItems => (m, All(m))
    case CallSweep(_) => (m, Nothing)
  }

  type Calls<T> = seq<(Call<T>, int)>

  /** Time never goes back, and a sweep's tick is not in the future (but may be long past). */
  ghost predicate Timed<T>(calls: Calls<T>, start: int) {
    && (forall i :: 0 <= i < |calls| ==> start <= calls[i].1)
    && (forall i, j :: 0 <= i < j < |calls| ==> calls[i].1 <= calls[j].1)
    && (forall i :: 0 <= i < |calls| && calls[i].0.CallSweep? ==> calls[i].0.tick <= calls[i].1)
  }

  function LazyAnswers<T>(data: Data<T>, d: int, calls: Calls<T>): seq<Answer<T>>
    decreases |calls|
  {
    if calls == [] then []
    else
      var (next, answer) := Lazily(data, d, calls[0].0, calls[0].1);
      [answer] + LazyAnswers(next, d, calls[1..])
  }

  /** In the plain map, items vanish by themselves when their time is up. */
  function PlainAnswers<T>(m: Data<T>, d: int, calls: Calls<T>): seq<Answer<T>>
    decreases |calls|
  {
    if calls == [] then []
    else
      var (next, answer) := Plainly(Live(m, calls[0].1), d, calls[0].0, calls[0].1);
      [answer] + PlainAnswers(next, d, calls[1..])
  }

  lemma StoringRefines<T>(data: Data<T>, m: Data<T>, key: string, item: Item<T>, now: int, later: int)
    requires Live(data, now) == Live(m, now) && now <= later
    ensures Live(data[key := item], later) == Live(Live(m, now)[key := item], later)
  {
    LiveLater(data, now, later);
    LiveLater(m, now, later);
    assert Live(data, later) == Live(m, later);
    forall k | k != key
      ensures k in Live(data[key := item], later) <==> k in Live(data, later)
      ensures k in Live(Live(m, now)[key := item], later) <==> k in Live(m, later)
    {
      assert k in Live(Live(m, now), later) <==> k in Live(m, later);
    }
  }

  lemma DeletingRefines<T>(data: Data<T>, m: Data<T>, key: string, now: int, later: int)
    requires Live(data, now) == Live(m, now) && now <= later
    ensures Live(data - {key}, later) == Live(Live(m, now) - {key}, later)
    ensures key !in Live(m, now) ==> Live(data - {key}, later) == Live(Live(m, now), later)
  {
    LiveLater(data, now, later);
    LiveLater(m, now, later);
    assert key !in Live(m, now) ==> Live(m, now) - {key} == Live(m, now);
    forall k | k != key
      ensures k in Live(data - {key}, later) <==> k in Live(data, later)
      ensures k in Live(Live(m, now) - {key}, later) <==> k in Live(m, later)
    {
      assert k in Live(Live(m, now), later) <==> k in Live(m, later);
    }
  }

  /** One call: same answer, and again the same live items from then on. */
  lemma CallRefines<T>(data: Data<T>, m: Data<T>, d: int, c: Call<T>, now: int, later: int)
    requires Live(data, now) == Live(m, now) && now <= later
    requires c.CallSweep? ==> c.tick <= now
    ensures var (data', a) := Lazily(data, d, c, now);
            var (m', b) := Plainly(Live(m, now), d, c, now);
            a == b && Live(data', later) == Live(m', later)
  {
    LiveLater(data, now, later);
    LiveLater(m, now, later);
    assert forall k :: k in Live(data, now) <==> k in Live(m, now);
    assert forall k :: k in Live(data, now) ==> Live(data, now)[k] == data[k];
    match c
    case CallGet(key) => DeletingRefines(data, m, key, now, later);
    case CallItem(key) => DeletingRefines(data, m, key, now, later);
    case CallSet(key, v, ttl) => StoringRefines(data, m, key, Item(v, ExpirationTime(d, ttl, now)), now, later);
    case CallAdd(key, v, ttl) => StoringRefines(data, m, key, Item(v, ExpirationTime(d, ttl, now)), now, later);
    case CallReplace(key, v, ttl) =>
      DeletingRefines(data, m, key, now, later);
      if key in Live(data, now) {
        var until := if ttl == KEEP_TTL then data[key].expiration else ExpirationTime(d, ttl, now);
        StoringRefines(data, m, key, Item(v, until), now, later);
      }
    case CallDel(key) => DeletingRefines(data, m, key, now, later);
    case CallClear =>
    case CallItems =>
    case CallSweep(tick) => LiveLater(data, tick, later);
  }

  /** Over any run, with sweeps at any moment, the cache answers as a plain map without expired items does. */
  lemma {:induction false} CacheRefinesPlainMap<T>(data: Data<T>, m: Data<T>, d: int, calls: Calls<T>, start: int)
    requires Timed(calls, start) && Live(data, start) == Live(m, start)
    ensures LazyAnswers(data, d, calls) == PlainAnswers(m, d, calls)
    decreases |calls|
  {
    if calls != [] {
      var (c, now) := calls[0];
      LiveLater(data, start, now);
      LiveLater(m, start, now);
      CallRefines(data, m, d, c, now, now);
      CacheRefinesPlainMap(Lazily(data, d, c, now).0, Plainly(Live(m, now), d, c, now).0, d, calls[1..], now);
    }
  }

  // ----- What is read after each kind of call

  /** What `Get` yields at a given time. */
  function Read<T>(data: Data<T>, d: int, key: string, now: int): Option<T> {
    match Lazily(data, d, CallGet(key), now).1
    case Value(v) => v
    case _ => None
  }

  lemma ReadMeans<T>(data: Data<T>, d: int, key: string, now: int)
    ensures Lazily(data, d, CallGet(key), now).1 == Value(Read(data, d, key, now))
    ensures Read(data, d, key, now) == if key in data && !Expired(data[key], now) then Some(data[key].value) else None
  {
  }

  /** A time to live, or the default one, has run out. */
  predicate RanOut(d: int, ttl: int, age: int) {
    (ttl > DEFAULT_EXPIRATION && age > ttl) || (ttl == DEFAULT_EXPIRATION && d > 0 && age > d)
  }

  /** A value that was set is read until its time has run out; all other keys are unaffected. */
  lemma ReadAfterSet<T>(data: Data<T>, d: int, k: string, v: T, ttl: int, now: int, key: string, later: int)
    requires 0 < now <= later
    ensures Read(Lazily(data, d, CallSet(k, v, ttl), now).0, d, key, later) ==
            if key != k then Read(data, d, key, later) else if RanOut(d, ttl, later - now) then None else Some(v)
  {
    StoredValueExpires(v, d, ttl, now, later);
  }

  /** Adding does that exactly if nothing can be read under the key, and otherwise nothing. */
  lemma ReadAfterAdd<T>(data: Data<T>, d: int, k: string, v: T, ttl: int, now: int, key: string, later: int)
    requires 0 < now <= later
    ensures var added := Read(data, d, k, now) == None;
            && Lazily(data, d, CallAdd(k, v, ttl), now).1 == Done(added)
            && Read(Lazily(data, d, CallAdd(k, v, ttl), now).0, d, key, later) ==
               if key != k || !added then Read(data, d, key, later)
               else if RanOut(d, ttl, later - now) then None else Some(v)
  {
    StoredValueExpires(v, d, ttl, now, later);
  }

  /** Replacing does so exactly if something can be read, whose time it can leave as it was. */
  lemma ReadAfterReplace<T>(data: Data<T>, d: int, k: string, v: T, ttl: int, now: int, key: string, later: int)
    requires 0 < now <= later
    ensures var replaced := Read(data, d, k, now) != None;
            && Lazily(data, d, CallReplace(k, v, ttl), now).1 == Done(replaced)
            && Read(Lazily(data, d, CallReplace(k, v, ttl), now).0, d, key, later) ==
               if key != k || !replaced then Read(data, d, key, later)
               else if ttl == KEEP_TTL then (if Read(data, d, k, later) == None then None else Some(v))
               else if RanOut(d, ttl, later - now) then None else Some(v)
  {
    StoredValueExpires(v, d, ttl, now, later);
  }

  /** What is deleted or cleared is gone, and look-ups and sweeps are not to be noticed. */
  lemma ReadAfterOtherCalls<T>(data: Data<T>, d: int, k: string, now: int, tick: int, key: string, later: int)
    requires tick <= now <= later
    ensures Read(Lazily(data, d, CallDel(k), now).0, d, key, later) ==
            if key == k then None else Read(data, d, key, later)
    ensures Read(Lazily(data, d, CallClear, now).0, d, key, later) == None
    ensures Read(Lazily(data, d, CallSweep(tick), now).0, d, key, later) == Read(data, d, key, later)
    ensures Read(Lazily(data, d, CallGet(k), now).0, d, key, later) == Read(data, d, key, later)
    ensures Read(Lazily(data, d, CallItem(k), now).0, d, key, later) == Read(data, d, key, later)
    ensures Lazily(data, d, CallItems, now).0 == data
  {
  }

  /** Listings show exactly what can be read, and so does a look-up of an item. */
  lemma ListedMeans<T>(data: Data<T>, d: int, k: string, now: int)
    ensures match Lazily(data, d, CallItems, now).1
            case All(items) => Read(data, d, k, now) == if k in items then Some(items[k].value) else None
            case _ => false
    ensures match Lazily(data, d, CallItem(k), now).1
            case Found(i) => Read(data, d, k, now) == if i.Some? then Some(i.value.value) else None
            case _ => false
  {
  }
}
