/** The table of mutexes, one per data file, kept in a cache from which unused ones expire. */
module FileMutexes {
  import opened Cache
  import opened Options

  /** A pointer to a mutex, or nil. Mutexes are numbered in the order of their creation. */
  type Pointer = Option<nat>

  const NIL: Pointer := None
  const MUTEX_EXPIRATION := 24 * 60 * 60

  /** The up to three steps of a call read the clock one after the other. */
  datatype Readings = Readings(added: int, got: int, stored: int) {
    predicate InOrder() {
      0 < added <= got <= stored
    }
  }

  /**
   * The new table and the mutex returned, where `created` is the next new mutex. If the item expires between the
   * first and the second step, the result is nil, and that is then stored.
   */
  function AfterCall(data: Data<Pointer>, created: nat, key: string, c: Readings): (Data<Pointer>, Pointer) {
    if key !in Live(data, c.added) then (data[key := Item(Some(created), c.added + MUTEX_EXPIRATION)], Some(created))
    else
      var mu := if key in Live(data, c.got) then data[key].value else NIL;
      (data[key := Item(mu, c.stored + MUTEX_EXPIRATION)], mu)
  }

  /** In a table without nil, a call returns nil exactly if the item expires between its first two steps. */
  lemma NilIsReturnedExactly(data: Data<Pointer>, created: nat, key: string, c: Readings)
    requires c.InOrder() && forall k :: k in data ==> data[k].value != NIL
    ensures AfterCall(data, created, key, c).1 == NIL <==> key in data && c.added <= data[key].expiration < c.got
  {
    var live := Live(data, c.added);
    assert key in live <==> key in data && !Expired(data[key], c.added);
    assert key in Live(data, c.got) <==> key in data && !Expired(data[key], c.got);
  }

  /** A stored nil is returned again exactly if the next call begins within 24 hours. */
  lemma NilIsReturnedAgainExactly(data: Data<Pointer>, created: nat, key: string, c: Readings, at: int)
    requires c.InOrder() && 0 < at && key in data && data[key] == Item(NIL, at + MUTEX_EXPIRATION)
    ensures AfterCall(data, created, key, c).1 == NIL <==> c.added <= at + MUTEX_EXPIRATION
  {
    assert key in Live(data, c.added) <==> !Expired(data[key], c.added);
  }

  // ----- The table, updated in place

  class MutexTable {
    const cache: Cache<Pointer>
    var created: nat

    constructor ()
      ensures fresh(cache) && cache.data == map[] && created == 0
      ensures cache.defaultExpiration == MUTEX_EXPIRATION
    {
      cache := new Cache<Pointer>(MUTEX_EXPIRATION);
      created := 0;
    }

    /** Returns the mutex for a key, creating it if need be, and refreshes its expiration. */
    method GetDataFileMutex(key: string, c: Readings) returns (mu: Pointer)
      requires c.InOrder() && cache.defaultExpiration == MUTEX_EXPIRATION
      modifies this, cache
      ensures (cache.data, mu) == AfterCall(old(cache.data), old(created), key, c)
      ensures created == old(created) + 1
      ensures cache.data == old(cache.data)[key := cache.data[key]] && cache.data[key].value == mu
      ensures cache.data[key].expiration ==
              (if key in old(cache.data) && !Expired(old(cache.data)[key], c.added) then c.stored else c.added) + 86400
    {
      mu := Some(created);
      created := created + 1;
      var added := cache.Add(key, mu, DEFAULT_EXPIRATION, c.added);
      if !added {
        var got := cache.Get(key, c.got);
        mu := if got.Some? then got.value else NIL;
        cache.Set(key, mu, DEFAULT_EXPIRATION, c.stored); // Starts the 24 hours over.
        assert cache.data == old(cache.data)[key := cache.data[key]];
      }
    }
  }

  // ----- Runs of calls and sweeps, one at a time

  datatype Event = Call(key: string, c: Readings) | Sweep(tick: int, now: int) {
    function Start(): int {
      match this
      case Call(_, c) => c.added
      case Sweep(_, now) => now
    }

    function End(): int {
      match this
      case Call(_, c) => c.stored
      case Sweep(_, now) => now
    }

    predicate IsCall(key: string) {
      Call? && this.key == key
    }
  }

  datatype Table = Table(data: Data<Pointer>, created: nat)

  /** Every call makes a new mutex, even if it is not used. */
  function Next(t: Table, e: Event): Table {
    match e
    case Call(key, c) => Table(AfterCall(t.data, t.created, key, c).0, t.created + 1)
    case Sweep(tick, _) => t.(data := Live(t.data, tick))
  }

  type Events = seq<Event>

  /** Time never goes back, and a sweep's tick is not in the future (but may be long past). */
  ghost predicate Timed(es: Events) {
    && (forall e :: e in es && e.Call? ==> e.c.InOrder())
    && (forall e :: e in es && e.Sweep? ==> e.tick <= e.now)
    && (forall i, j :: 0 <= i < j < |es| ==> es[i].End() <= es[j].Start())
  }

  ghost predicate IsRun(ts: seq<Table>, es: Events) {
    && |ts| == |es| + 1 && ts[0] == Table(map[], 0) && Timed(es)
    && forall i :: 0 <= i < |es| ==> ts[i + 1] == Next(ts[i], es[i])
  }

  /** The mutex that the `i`th event, a call, returns. */
  function Returned(ts: seq<Table>, es: Events, i: nat): Pointer
    requires |ts| == |es| + 1 && i < |es| && es[i].Call?
  {
    AfterCall(ts[i].data, ts[i].created, es[i].key, es[i].c).1
  }

  /** Until when the `i`th event, a call, keeps its mutex: from its last step on, or from its first if that was all. */
  function KeptUntil(ts: seq<Table>, es: Events, i: nat): int
    requires |ts| == |es| + 1 && i < |es| && es[i].Call?
  {
    (if es[i].key in Live(ts[i].data, es[i].c.added) then es[i].c.stored else es[i].c.added) + MUTEX_EXPIRATION
  }

  ghost predicate NoCallBetween(es: Events, key: string, i: int, j: nat)
    requires -1 <= i && j <= |es|
  {
    forall k :: i < k < j ==> !es[k].IsCall(key)
  }

  /** Events `a` and `b` are calls for a key, with none in between. */
  ghost predicate Consecutive(es: Events, key: string, a: nat, b: nat)
    requires b < |es|
  {
    a < b && es[a].IsCall(key) && es[b].IsCall(key) && NoCallBetween(es, key, a, b)
  }

  /** All mutexes in the table, and those returned, were created before. */
  lemma {:induction false} TableHoldsOldMutexes(ts: seq<Table>, es: Events, i: nat)
    requires IsRun(ts, es) && i < |ts|
    ensures forall k :: k in ts[i].data && ts[i].data[k].value.Some? ==> ts[i].data[k].value.value < ts[i].created
  {
    if i > 0 {
      TableHoldsOldMutexes(ts, es, i - 1);
      assert ts[i - 1 + 1] == Next(ts[i - 1], es[i - 1]);
    }
  }

  lemma {:induction false} UnknownBeforeFirstCall(ts: seq<Table>, es: Events, key: string, i: nat)
    requires IsRun(ts, es) && i < |ts| && NoCallBetween(es, key, -1, i)
    ensures key !in ts[i].data
  {
    if i > 0 {
      UnknownBeforeFirstCall(ts, es, key, i - 1);
      assert ts[i - 1 + 1] == Next(ts[i - 1], es[i - 1]);
      assert !es[i - 1].IsCall(key);
    }
  }

  /** After a call for a key, and until the next one, its item stays as it is or is swept once it has expired. */
  lemma {:induction false} ItemStays(ts: seq<Table>, es: Events, i: nat, j: nat)
    requires IsRun(ts, es) && i < j <= |es| && es[i].Call? && NoCallBetween(es, es[i].key, i, j)
    ensures var key, item := es[i].key, Item(Returned(ts, es, i), KeptUntil(ts, es, i));
            if key in ts[j].data then ts[j].data[key] == item else es[j - 1].End() > item.expiration
    decreases j
  {
    assert ts[j - 1 + 1] == Next(ts[j - 1], es[j - 1]);
    assert es[i] in es && es[j - 1] in es;
    if i < j - 1 {
      ItemStays(ts, es, i, j - 1);
      assert !es[j - 1].IsCall(es[i].key);
      assert es[j - 2].End() <= es[j - 1].Start() <= es[j - 1].End();
    }
  }

  lemma {:induction false} CreatedGrows(ts: seq<Table>, es: Events, i: nat, j: nat)
    requires IsRun(ts, es) && i < j <= |es| && es[i].Call?
    ensures Returned(ts, es, i).Some? ==> Returned(ts, es, i).value < ts[j].created
    decreases j
  {
    TableHoldsOldMutexes(ts, es, i);
    assert ts[j - 1 + 1] == Next(ts[j - 1], es[j - 1]);
    if i < j - 1 {
      CreatedGrows(ts, es, i, j - 1);
    }
  }

  /**
   * The second of two consecutive calls for a key gets the mutex of the first one if that has been kept until its
   * second step, a new one if it has expired by its first step, and nil if it expires in between,
   * whatever sweeps and calls for other keys come between the two.
   */
  lemma ConsecutiveCalls(ts: seq<Table>, es: Events, i: nat, j: nat)
    requires IsRun(ts, es) && i < j < |es| && es[i].Call? && Consecutive(es, es[i].key, i, j)
    ensures Returned(ts, es, j) == if es[j].c.got <= KeptUntil(ts, es, i) then Returned(ts, es, i)
                                   else if es[j].c.added <= KeptUntil(ts, es, i) then NIL
                                   else Some(ts[j].created)
    ensures Returned(ts, es, i) != Some(ts[j].created)
  {
    ItemStays(ts, es, i, j);
    CreatedGrows(ts, es, i, j);
    assert es[j] in es && es[i] in es && es[j - 1].End() <= es[j].Start();
  }

  lemma {:induction false} PreviousCall(es: Events, key: string, i: nat, j: nat) returns (p: nat)
    requires i < j <= |es| && !NoCallBetween(es, key, i - 1, j)
    ensures i <= p < j && es[p].IsCall(key) && NoCallBetween(es, key, p, j)
    decreases j
  {
    if es[j - 1].IsCall(key) {
      p := j - 1;
    } else {
      p := PreviousCall(es, key, i, j - 1);
    }
  }

  // ----- When all calls for a key return the same mutex

  /** Between the calls for this key, its mutex is always kept. */
  ghost predicate KeptWarm(ts: seq<Table>, es: Events, key: string, i: nat, j: nat)
    requires |ts| == |es| + 1 && j < |es|
  {
    forall a: nat, b: nat :: i <= a < b <= j && Consecutive(es, key, a, b) ==> es[b].c.got <= KeptUntil(ts, es, a)
  }

  ghost predicate AllReturn(ts: seq<Table>, es: Events, key: string, i: nat, j: nat, mu: Pointer)
    requires |ts| == |es| + 1 && j < |es|
  {
    forall k: nat :: i <= k <= j && es[k].IsCall(key) ==> Returned(ts, es, k) == mu
  }

  lemma {:induction false} WarmCallsShareMutex(ts: seq<Table>, es: Events, i: nat, j: nat)
    requires IsRun(ts, es) && i <= j < |es| && es[i].Call? && es[j].IsCall(es[i].key)
    requires KeptWarm(ts, es, es[i].key, i, j)
    ensures Returned(ts, es, j) == Returned(ts, es, i)
    decreases j
  {
    if i < j {
      var p := PreviousCall(es, es[i].key, i, j);
      assert KeptWarm(ts, es, es[i].key, i, p);
      WarmCallsShareMutex(ts, es, i, p);
      ConsecutiveCalls(ts, es, p, j);
    }
  }

  /** After a call that got a mutex, all calls for its key return that mutex exactly if it is always kept in between. */
  lemma OneMutexPerKeyExactly(ts: seq<Table>, es: Events, i: nat, j: nat)
    requires IsRun(ts, es) && i <= j < |es| && es[i].Call? && Returned(ts, es, i) != NIL
    ensures AllReturn(ts, es, es[i].key, i, j, Returned(ts, es, i)) <==> KeptWarm(ts, es, es[i].key, i, j)
  {
    var key := es[i].key;
    if KeptWarm(ts, es, key, i, j) {
      forall k: nat | i <= k <= j && es[k].IsCall(key)
        ensures Returned(ts, es, k) == Returned(ts, es, i)
      {
        assert KeptWarm(ts, es, key, i, k);
        WarmCallsShareMutex(ts, es, i, k);
      }
    }
    if AllReturn(ts, es, key, i, j, Returned(ts, es, i)) {
      forall a: nat, b: nat | i <= a < b <= j && Consecutive(es, key, a, b)
        ensures es[b].c.got <= KeptUntil(ts, es, a)
      {
        ConsecutiveCalls(ts, es, a, b);
      }
    }
  }

  /** In particular if each call, up to its second step, is at most 24 hours after the one before. */
  lemma OneMutexPerKey(ts: seq<Table>, es: Events, i: nat, j: nat)
    requires IsRun(ts, es) && i <= j < |es| && es[i].Call? && NoCallBetween(es, es[i].key, -1, i)
    requires forall a: nat, b: nat :: i <= a < b <= j && Consecutive(es, es[i].key, a, b) ==>
                                        es[b].c.got - es[a].c.added <= MUTEX_EXPIRATION
    ensures AllReturn(ts, es, es[i].key, i, j, Returned(ts, es, i)) && Returned(ts, es, i) != NIL
  {
    UnknownBeforeFirstCall(ts, es, es[i].key, i);
    forall a: nat, b: nat | i <= a < b <= j && Consecutive(es, es[i].key, a, b)
      ensures es[b].c.got <= KeptUntil(ts, es, a)
    {
      assert es[a] in es && es[a].c.InOrder();
    }
    OneMutexPerKeyExactly(ts, es, i, j);
  }

  // ----- When a call returns nil

  /** Of two consecutive calls, the mutex of the first expires between the first two steps of the second. */
  ghost predicate ExpiresBetweenSteps(ts: seq<Table>, es: Events, key: string, a: nat, b: nat)
    requires |ts| == |es| + 1 && b < |es|
  {
    Consecutive(es, key, a, b) && es[b].c.added <= KeptUntil(ts, es, a) < es[b].c.got
  }

  /** Among these calls, none comes late enough to get a new mutex. */
  ghost predicate NeverRenewed(ts: seq<Table>, es: Events, key: string, i: nat, j: nat)
    requires |ts| == |es| + 1 && j < |es|
  {
    forall a: nat, b: nat :: i <= a < b <= j && Consecutive(es, key, a, b) ==> es[b].c.added <= KeptUntil(ts, es, a)
  }

  lemma {:induction false} NilStays(ts: seq<Table>, es: Events, i: nat, j: nat)
    requires IsRun(ts, es) && i <= j < |es| && es[i].Call? && es[j].IsCall(es[i].key)
    requires Returned(ts, es, i) == NIL && NeverRenewed(ts, es, es[i].key, i, j)
    ensures Returned(ts, es, j) == NIL
    decreases j
  {
    if i < j {
      var p := PreviousCall(es, es[i].key, i, j);
      assert NeverRenewed(ts, es, es[i].key, i, p);
      NilStays(ts, es, i, p);
      ConsecutiveCalls(ts, es, p, j);
    }
  }

  lemma {:induction false} NilHasACause(ts: seq<Table>, es: Events, j: nat) returns (a: nat, b: nat)
    requires IsRun(ts, es) && j < |es| && es[j].Call? && Returned(ts, es, j) == NIL
    ensures b <= j && ExpiresBetweenSteps(ts, es, es[j].key, a, b) && NeverRenewed(ts, es, es[j].key, b, j)
  {
    var key := es[j].key;
    if NoCallBetween(es, key, -1, j) {
      UnknownBeforeFirstCall(ts, es, key, j);
    }
    var p := PreviousCall(es, key, 0, j);
    ConsecutiveCalls(ts, es, p, j);
    if es[j].c.got <= KeptUntil(ts, es, p) {
      a, b := NilHasACause(ts, es, p);
      assert es[j] in es && es[j].c.InOrder();
      forall c: nat, d: nat | b <= c < d <= j && Consecutive(es, key, c, d)
        ensures es[d].c.added <= KeptUntil(ts, es, c)
      {
        assert d <= p || (d == j && c == p);
      }
    } else {
      a, b := p, j;
    }
  }

  /**
   * A call returns nil exactly if, at that call or an earlier one for the same key, the mutex expired between
   * the first two steps, and no call since then came late enough to get a new one.
   */
  lemma NilExactly(ts: seq<Table>, es: Events, j: nat)
    requires IsRun(ts, es) && j < |es| && es[j].Call?
    ensures Returned(ts, es, j) == NIL <==>
            exists a: nat, b: nat :: b <= j && ExpiresBetweenSteps(ts, es, es[j].key, a, b)
                                     && NeverRenewed(ts, es, es[j].key, b, j)
  {
    if Returned(ts, es, j) == NIL {
      var a, b := NilHasACause(ts, es, j);
    }
    if a: nat, b: nat :| b <= j && ExpiresBetweenSteps(ts, es, es[j].key, a, b)
                         && NeverRenewed(ts, es, es[j].key, b, j) {
      ConsecutiveCalls(ts, es, a, b);
      NilStays(ts, es, b, j);
    }
  }

  /** Three calls for a key: the second is a day after the first, and gets nil; so does the third, a second later. */
  lemma ExpiryInBetweenYieldsNil() returns (ts: seq<Table>, es: Events)
    ensures IsRun(ts, es) && |es| == 3 && es[0].IsCall("k") && es[1].IsCall("k") && es[2].IsCall("k")
    ensures Returned(ts, es, 0) != NIL && Returned(ts, es, 1) == NIL && Returned(ts, es, 2) == NIL
  {
    var t0 := Table(map[], 0);
    var e0 := Call("k", Readings(1, 1, 1));
    var e1 := Call("k", Readings(86401, 86402, 86402));
    var e2 := Call("k", Readings(86403, 86403, 86403));
    var t1 := Next(t0, e0);
    var t2 := Next(t1, e1);
    es := [e0, e1, e2];
    ts := [t0, t1, t2, Next(t2, e2)];
    assert t1.data == map["k" := Item(Some(0), 86401)];
    NilIsReturnedExactly(t1.data, 1, "k", e1.c);
    assert t2.data == map["k" := Item(NIL, 86402 + MUTEX_EXPIRATION)];
    NilIsReturnedAgainExactly(t2.data, 2, "k", e2.c, 86402);
  }
}
