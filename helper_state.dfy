/**
 * The stateful helpers of the UI script `helper.js`: the log filter of
 * `_Logger` (its subscription and ignore lists), `LSWrapper` (an in-memory
 * stand-in for the browser's local storage) and `AsyncObjectCache` (a cache
 * of fetched objects that makes each request once and queues the callbacks
 * waiting for it).
 */
module HelperState {
  import opened Wrappers
  import Search

  // ----- the JavaScript array operations the helpers use -----

  /** `xs.indexOf(x)` with `===`: the first position of `x`, or -1. */
  function IndexOf<T(==)>(xs: seq<T>, x: T): (r: int)
    ensures r == -1 <==> x !in xs
    ensures 0 <= r ==> r < |xs| && xs[r] == x && x !in xs[..r]
    ensures -1 <= r
  {
    if xs == [] then -1
    else if xs[0] == x then 0
    else
      var r := IndexOf(xs[1..], x);
      if r == -1 then -1
      else
        assert xs[..r + 1] == [xs[0]] + xs[1..][..r];
        r + 1
  }

  /** `if (xs.indexOf(x) === -1) xs.push(x)`. */
  function Added<T(==)>(xs: seq<T>, x: T): seq<T>
  {
    if IndexOf(xs, x) == -1 then xs + [x] else xs
  }

  /** `pos = xs.indexOf(x); if (pos !== -1) xs.splice(pos, 1)`. */
  function RemoveFirst<T(==)>(xs: seq<T>, x: T): seq<T>
  {
    var pos := IndexOf(xs, x);
    if pos == -1 then xs else xs[..pos] + xs[pos + 1..]
  }

  predicate NoDuplicates<T(==)>(xs: seq<T>)
  {
    forall i, j :: 0 <= i < j < |xs| ==> xs[i] != xs[j]
  }

  /** Adding puts `x` in the list once: it is there afterwards, the list
      grows by `x` only when it was missing, no duplicate appears, and adding
      again changes nothing. */
  lemma AddedSpec<T>(xs: seq<T>, x: T)
    ensures x in Added(xs, x)
    ensures multiset(Added(xs, x)) == multiset(xs) + (if x in xs then multiset{} else multiset{x})
    ensures NoDuplicates(xs) ==> NoDuplicates(Added(xs, x))
    ensures Added(Added(xs, x), x) == Added(xs, x)
  {
    if x !in xs {
      var ys := xs + [x];
      assert ys[|xs|] == x;
      if NoDuplicates(xs) {
        forall i, j | 0 <= i < j < |ys|
          ensures ys[i] != ys[j]
        {
          if j == |xs| {
            assert ys[i] == xs[i];
          }
        }
      }
    }
  }

  /** Removing takes out exactly one copy of `x` when there is one and keeps
      the rest in order; in a list without duplicates `x` is then gone and
      every other element stays. */
  lemma RemoveFirstSpec<T>(xs: seq<T>, x: T)
    ensures multiset(RemoveFirst(xs, x)) == multiset(xs) - multiset{x}
    ensures x !in xs ==> RemoveFirst(xs, x) == xs
    ensures x in xs ==> |RemoveFirst(xs, x)| == |xs| - 1
    ensures NoDuplicates(xs) ==> NoDuplicates(RemoveFirst(xs, x)) && x !in RemoveFirst(xs, x)
    ensures forall y :: y != x ==> (y in RemoveFirst(xs, x) <==> y in xs)
  {
    var pos := IndexOf(xs, x);
    if pos != -1 {
      assert RemoveFirst(xs, x) == xs[..pos] + xs[pos + 1..];
      RemoveAtCount(xs, pos);
      if NoDuplicates(xs) {
        RemoveAtNoDuplicates(xs, pos);
      }
    } else {
      assert RemoveFirst(xs, x) == xs;
      assert multiset(xs)[x] == 0;
      assert multiset(xs) - multiset{x} == multiset(xs);
    }
  }

  /** Splicing out position `pos` removes one copy of what is there. */
  lemma RemoveAtCount<T>(xs: seq<T>, pos: int)
    requires 0 <= pos < |xs|
    ensures multiset(xs[..pos] + xs[pos + 1..]) == multiset(xs) - multiset{xs[pos]}
    ensures |xs[..pos] + xs[pos + 1..]| == |xs| - 1
    ensures forall y :: y != xs[pos] ==> (y in xs[..pos] + xs[pos + 1..] <==> y in xs)
  {
    var r := xs[..pos] + xs[pos + 1..];
    assert xs == xs[..pos] + [xs[pos]] + xs[pos + 1..];
    assert multiset(xs) == multiset(xs[..pos]) + multiset{xs[pos]} + multiset(xs[pos + 1..]);
    assert multiset(r) == multiset(xs) - multiset{xs[pos]};
    forall y | y != xs[pos]
      ensures y in r <==> y in xs
    {
      assert multiset(r)[y] == multiset(xs)[y];
    }
  }

  /** Splicing a list without duplicates leaves one without duplicates and
      without the element spliced out. */
  lemma RemoveAtNoDuplicates<T>(xs: seq<T>, pos: int)
    requires 0 <= pos < |xs| && NoDuplicates(xs)
    ensures NoDuplicates(xs[..pos] + xs[pos + 1..]) && xs[pos] !in xs[..pos] + xs[pos + 1..]
  {
    var r := xs[..pos] + xs[pos + 1..];
    forall i, j | 0 <= i < j < |r|
      ensures r[i] != r[j]
    {
      var i' := if i < pos then i else i + 1;
      var j' := if j < pos then j else j + 1;
      assert r[i] == xs[i'] && r[j] == xs[j'];
    }
    forall k | 0 <= k < |r|
      ensures r[k] != xs[pos]
    {
      var k' := if k < pos then k else k + 1;
      assert r[k] == xs[k'];
    }
  }

  /** Removing what was just added, when it was not there before, gives back
      the list. */
  lemma RemoveUndoesAdd<T>(xs: seq<T>, x: T)
    requires x !in xs
    ensures RemoveFirst(Added(xs, x), x) == xs
  {
    var ys := xs + [x];
    assert ys[|xs|] == x && ys[..|xs|] == xs;
    assert x !in ys[..|xs|];
    assert IndexOf(ys, x) == |xs|;
  }

  // ----- _Logger -----

  /** `type.split('.')[0]`: the text before the first `.`, all of it when
      there is none. */
  function Prefix(t: string): (p: string)
    ensures '.' !in p && |p| <= |t| && p == t[..|p|]
  {
    if '.' in t then t[..Search.FirstIndexOf(t, '.')] else t
  }

  /** `subscribed(type)` over the two lists: a missing or empty type is
      always shown; otherwise a type is shown when it is not ignored and it
      or its prefix before the first `.` is subscribed. */
  function Shown(subscriptions: seq<string>, ignored: seq<string>, t: Option<string>): (r: bool)
    ensures t.None? || t.value == "" ==> r
    ensures t.Some? && t.value != "" ==>
      (r <==> t.value !in ignored && (t.value in subscriptions || Prefix(t.value) in subscriptions))
  {
    if t.Some? && t.value != "" then
      IndexOf(ignored, t.value) == -1
        && (IndexOf(subscriptions, t.value) != -1 || IndexOf(subscriptions, Prefix(t.value)) != -1)
    else true
  }

  /** The prefix of `p.rest` is `p` when `p` has no `.`. */
  lemma PrefixOfDotted(p: string, rest: string)
    requires '.' !in p
    ensures Prefix(p + "." + rest) == p
  {
    var t := p + "." + rest;
    assert t == p + ['.'] + rest;
    Search.FirstIndexOfAppend(p, '.', rest);
    assert t[..|p|] == p;
  }

  /** Subscribing to a type that is not ignored shows it, and shows every
      type under it; ignoring a type hides it whatever is subscribed. */
  lemma ShownAfterChanges(subscriptions: seq<string>, ignored: seq<string>, t: string, rest: string)
    requires t != ""
    ensures t !in ignored ==> Shown(Added(subscriptions, t), ignored, Some(t))
    ensures '.' !in t && t + "." + rest !in ignored ==> Shown(Added(subscriptions, t), ignored, Some(t + "." + rest))
    ensures !Shown(subscriptions, Added(ignored, t), Some(t))
  {
    AddedSpec(subscriptions, t);
    AddedSpec(ignored, t);
    if '.' !in t {
      PrefixOfDotted(t, rest);
    }
  }

  /** In lists without duplicates, unsubscribing a type that has no `.`
      hides it, and unignoring a type shows it exactly when it or its prefix
      is subscribed. */
  lemma ShownAfterRemovals(subscriptions: seq<string>, ignored: seq<string>, t: string)
    requires t != "" && NoDuplicates(subscriptions) && NoDuplicates(ignored)
    ensures '.' !in t ==> !Shown(RemoveFirst(subscriptions, t), ignored, Some(t))
    ensures Shown(subscriptions, RemoveFirst(ignored, t), Some(t)) <==> t in subscriptions || Prefix(t) in subscriptions
  {
    RemoveFirstSpec(subscriptions, t);
    RemoveFirstSpec(ignored, t);
    if '.' !in t {
      assert t[..|t|] == t;
    }
  }

  /** The log filter of `_Logger`: the two lists its methods change in
      place, and `subscribed` over them. */
  class Logger {
    var subscriptions: seq<string>
    var ignored: seq<string>

    /** Neither list holds a type twice. */
    ghost predicate Valid()
      reads this
    {
      NoDuplicates(subscriptions) && NoDuplicates(ignored)
    }

    /** The initial lists: nothing subscribed, the status and ping messages
        ignored. */
    constructor ()
      ensures subscriptions == [] && ignored == ["WS.STATUS", "WS.PING"]
      ensures Valid()
    {
      subscriptions := [];
      ignored := ["WS.STATUS", "WS.PING"];
    }

    method Subscribe(t: string)
      modifies this
      ensures subscriptions == Added(old(subscriptions), t) && ignored == old(ignored)
      ensures t in subscriptions
      ensures old(Valid()) ==> Valid()
    {
      if IndexOf(subscriptions, t) == -1 {
        subscriptions := subscriptions + [t];
      }
      AddedSpec(old(subscriptions), t);
    }

    method Unsubscribe(t: string)
      modifies this
      ensures subscriptions == RemoveFirst(old(subscriptions), t) && ignored == old(ignored)
      ensures old(Valid()) ==> Valid() && t !in subscriptions
    {
      var pos := IndexOf(subscriptions, t);
      if pos != -1 {
        subscriptions := subscriptions[..pos] + subscriptions[pos + 1..];
      }
      RemoveFirstSpec(old(subscriptions), t);
    }

    method Ignore(t: string)
      modifies this
      ensures ignored == Added(old(ignored), t) && subscriptions == old(subscriptions)
      ensures t in ignored
      ensures old(Valid()) ==> Valid()
    {
      if IndexOf(ignored, t) == -1 {
        ignored := ignored + [t];
      }
      AddedSpec(old(ignored), t);
    }

    method Unignore(t: string)
      modifies this
      ensures ignored == RemoveFirst(old(ignored), t) && subscriptions == old(subscriptions)
      ensures old(Valid()) ==> Valid() && t !in ignored
    {
      var pos := IndexOf(ignored, t);
      if pos != -1 {
        ignored := ignored[..pos] + ignored[pos + 1..];
      }
      RemoveFirstSpec(old(ignored), t);
    }

    /** `subscribed(type)`; `None` stands for an undefined type. */
    function Subscribed(t: Option<string>): bool
      reads this
    {
      Shown(subscriptions, ignored, t)
    }
  }

  // ----- LSWrapper -----

  /** `getItem(key)` on a storage object: `null` (`None`) for a missing key. */
  function Lookup<V>(items: map<string, V>, key: string): (r: Option<V>)
    ensures r.Some? <==> key in items
  {
    if key in items then Some(items[key]) else None
  }

  /** Reading back what was set, removed or cleared: a set key reads its
      new value, a removed key and any key of an empty store read `null`,
      and no other key changes. */
  lemma LookupAfterChanges<V>(items: map<string, V>, key: string, value: V, other: string)
    requires other != key
    ensures Lookup(items[key := value], key) == Some(value)
    ensures Lookup(items[key := value], other) == Lookup(items, other)
    ensures Lookup(items - {key}, key) == None
    ensures Lookup(items - {key}, other) == Lookup(items, other)
    ensures var empty: map<string, V> := map[]; Lookup(empty, key) == None
  {
  }

  /** `LSWrapper`: the storage object is a dictionary its methods change in
      place. */
  class LocalStore<V> {
    var items: map<string, V>

    constructor ()
      ensures items == map[]
    {
      items := map[];
    }

    /** `isLoaded()`: the storage object has at least one key. */
    function IsLoaded(): (r: bool)
      reads this
      ensures r <==> exists key :: key in items
    {
      |items.Keys| != 0
    }

    method SetItem(key: string, value: V)
      modifies this
      ensures items == old(items)[key := value]
      ensures IsLoaded()
    {
      items := items[key := value];
    }

    function GetItem(key: string): Option<V>
      reads this
    {
      Lookup(items, key)
    }

    method RemoveItem(key: string)
      modifies this
      ensures items == old(items) - {key}
      ensures GetItem(key) == None
    {
      items := items - {key};
    }

    method Clear()
      modifies this
      ensures items == map[]
      ensures !IsLoaded()
    {
      items := map[];
    }
  }

  // ----- AsyncObjectCache -----

  /** A cache entry: the callbacks waiting for the object, and the object
      once it has arrived. */
  datatype Entry<O, C> = Entry(callbacks: seq<C>, value: Option<O>)

  /** The calls `_runRegisteredCallbacks` makes: in order, each callback
      that is a function, given the value. */
  function Runs<O, C>(callbacks: seq<C>, isFunction: C -> bool, value: O): seq<(C, O)>
  {
    if callbacks == [] then []
    else
      var last := callbacks[|callbacks| - 1];
      Runs(callbacks[..|callbacks| - 1], isFunction, value) + (if isFunction(last) then [(last, value)] else [])
  }

  /** Every waiting callback that is a function runs with the value exactly
      as often as it was registered, the others never, and nothing else
      runs. */
  lemma {:induction false} RunsCount<O, C>(callbacks: seq<C>, isFunction: C -> bool, value: O, c: C, o: O)
    ensures multiset(Runs(callbacks, isFunction, value))[(c, o)]
      == if o == value && isFunction(c) then multiset(callbacks)[c] else 0
  {
    if callbacks != [] {
      var init := callbacks[..|callbacks| - 1];
      var last := callbacks[|callbacks| - 1];
      RunsCount(init, isFunction, value, c, o);
      assert callbacks == init + [last];
      var step: seq<(C, O)> := if isFunction(last) then [(last, value)] else [];
      assert multiset(Runs(init, isFunction, value) + step)
        == multiset(Runs(init, isFunction, value)) + multiset(step);
    }
  }

  /** A fetch of an id not fetched since `since` keeps the fetches since
      then free of duplicates. */
  lemma FetchOnce(fetched: seq<string>, since: nat, id: string)
    requires since <= |fetched| && NoDuplicates(fetched[since..]) && id !in fetched[since..]
    ensures (fetched + [id])[since..] == fetched[since..] + [id]
    ensures NoDuplicates((fetched + [id])[since..])
  {
    assert (fetched + [id])[since..] == fetched[since..] + [id];
    AddedSpec(fetched[since..], id);
  }

  /** `AsyncObjectCache(fetchFunction)`. The calls into `fetchFunction` and
      into the callbacks are recorded in `fetched` and `ran`; `idOf` reads an
      object's `id` and `isFunction` is the `typeof callback === "function"`
      test. */
  class AsyncObjectCache<O, C(==)> {
    var cache: map<string, Entry<O, C>>
    /** the ids handed to `fetchFunction`, in order */
    var fetched: seq<string>
    /** the callbacks run so far, each with the object it was given */
    var ran: seq<(C, O)>
    /** how many fetches happened before the last `clear` */
    ghost var since: nat
    const idOf: O -> string
    const isFunction: C -> bool

    /** Since the last `clear` every id was fetched at most once and is in
        the cache; an id still waiting was fetched; an id with its object
        has no callbacks left and holds the object with that id. */
    ghost predicate Valid()
      reads this
    {
      && since <= |fetched|
      && NoDuplicates(fetched[since..])
      && (forall k :: since <= k < |fetched| ==> fetched[k] in cache)
      && (forall id :: id in cache && cache[id].value.None? ==> id in fetched[since..])
      && (forall id :: id in cache && cache[id].value.Some? ==>
            cache[id].callbacks == [] && idOf(cache[id].value.value) == id)
    }

    constructor (idOf: O -> string, isFunction: C -> bool)
      ensures cache == map[] && fetched == [] && ran == []
      ensures this.idOf == idOf && this.isFunction == isFunction
      ensures Valid()
    {
      cache := map[];
      fetched := [];
      ran := [];
      since := 0;
      this.idOf := idOf;
      this.isFunction := isFunction;
    }

    /** `registerCallbackForId(id, callback)`: the first registration
        fetches and queues the callback, later ones queue it while the
        object is missing, and once it is there the callback runs at once. */
    method RegisterCallbackForId(id: string, callback: C)
      requires Valid()
      modifies this
      ensures Valid() && since == old(since)
      ensures id !in old(cache) ==>
        cache == old(cache)[id := Entry([callback], None)] && fetched == old(fetched) + [id] && ran == old(ran)
      ensures id in old(cache) && old(cache)[id].value.None? ==>
        cache == old(cache)[id := Entry(old(cache)[id].callbacks + [callback], None)]
        && fetched == old(fetched) && ran == old(ran)
      ensures id in old(cache) && old(cache)[id].value.Some? ==>
        cache == old(cache) && fetched == old(fetched)
        && ran == old(ran) + (if isFunction(callback) then [(callback, old(cache)[id].value.value)] else [])
    {
      if id !in cache {
        FetchOnce(fetched, since, id);
        cache := cache[id := Entry([callback], None)];
        fetched := fetched + [id];
      } else if cache[id].value.None? {
        cache := cache[id := Entry(cache[id].callbacks + [callback], None)];
      } else if isFunction(callback) {
        ran := ran + [(callback, cache[id].value.value)];
      }
    }

    /** `addObject(obj)`: stores an object nobody waits for, hands a
        waited-for object to its queued callbacks and empties the queue, and
        ignores an object whose id already has one. */
    method AddObject(obj: O)
      requires Valid()
      modifies this
      ensures Valid() && since == old(since) && fetched == old(fetched)
      ensures idOf(obj) !in old(cache) ==>
        cache == old(cache)[idOf(obj) := Entry([], Some(obj))] && ran == old(ran)
      ensures idOf(obj) in old(cache) && old(cache)[idOf(obj)].value.None? ==>
        cache == old(cache)[idOf(obj) := Entry([], Some(obj))]
        && ran == old(ran) + Runs(old(cache)[idOf(obj)].callbacks, isFunction, obj)
      ensures idOf(obj) in old(cache) && old(cache)[idOf(obj)].value.Some? ==>
        cache == old(cache) && ran == old(ran)
    {
      var id := idOf(obj);
      if id !in cache {
        cache := cache[id := Entry([], Some(obj))];
      } else if cache[id].value.None? {
        cache := cache[id := Entry(cache[id].callbacks, Some(obj))];
        RunRegisteredCallbacks(id);
      }
    }

    /** `_runRegisteredCallbacks(id)`: runs the queued callbacks in order
        with the stored object, then empties the queue. */
    method RunRegisteredCallbacks(id: string)
      requires id in cache ==> cache[id].value.Some?
      modifies this
      ensures fetched == old(fetched) && since == old(since)
      ensures id !in old(cache) ==> cache == old(cache) && ran == old(ran)
      ensures id in old(cache) ==>
        cache == old(cache)[id := Entry([], old(cache)[id].value)]
        && ran == old(ran) + Runs(old(cache)[id].callbacks, isFunction, old(cache)[id].value.value)
    {
      if id in cache {
        var callbacks := cache[id].callbacks;
        var value := cache[id].value.value;
        var i := 0;
        while i < |callbacks|
          invariant 0 <= i <= |callbacks|
          invariant ran == old(ran) + Runs(callbacks[..i], isFunction, value)
          invariant cache == old(cache) && fetched == old(fetched) && since == old(since)
        {
          assert callbacks[..i + 1][..i] == callbacks[..i];
          if isFunction(callbacks[i]) {
            ran := ran + [(callbacks[i], value)];
          }
          i := i + 1;
        }
        assert callbacks[..|callbacks|] == callbacks;
        cache := cache[id := Entry([], cache[id].value)];
      }
    }

    /** `clear()`: forgets every entry, so the next registration of any id
        fetches again. */
    method Clear()
      requires Valid()
      modifies this
      ensures cache == map[] && fetched == old(fetched) && ran == old(ran)
      ensures Valid() && since == |fetched|
    {
      cache := map[];
      since := |fetched|;
    }
  }

  // ----- the behaviour in sequence -----

  lemma RunsOfTwo<O, C>(isFunction: C -> bool, obj: O, c1: C, c2: C)
    requires isFunction(c1) && isFunction(c2)
    ensures Runs([c1, c2], isFunction, obj) == [(c1, obj), (c2, obj)]
  {
    assert [c1, c2][..1] == [c1] && [c1][..0] == [];
    assert Runs([c1], isFunction, obj) == [(c1, obj)];
  }

  /** Two callbacks registered before the object arrives: one fetch, and
      each callback run once with the object, in order. */
  method CacheQueued<O, C(==)>(idOf: O -> string, isFunction: C -> bool, obj: O, c1: C, c2: C)
    returns (fetched: seq<string>, ran: seq<(C, O)>)
    requires isFunction(c1) && isFunction(c2)
    ensures fetched == [idOf(obj)]
    ensures ran == [(c1, obj), (c2, obj)]
  {
    var id := idOf(obj);
    var cache := new AsyncObjectCache(idOf, isFunction);
    cache.RegisterCallbackForId(id, c1);
    cache.RegisterCallbackForId(id, c2);
    assert [c1] + [c2] == [c1, c2];
    RunsOfTwo(isFunction, obj, c1, c2);
    cache.AddObject(obj);
    fetched := cache.fetched;
    ran := cache.ran;
  }

  /** An object added before anyone asks for it is never fetched; a
      callback registered afterwards runs at once, and a second delivery is
      ignored. */
  method CacheStored<O, C(==)>(idOf: O -> string, isFunction: C -> bool, obj: O, other: O, c: C)
    returns (fetched: seq<string>, ran: seq<(C, O)>)
    requires isFunction(c) && idOf(other) == idOf(obj)
    ensures fetched == [] && ran == [(c, obj)]
  {
    var cache := new AsyncObjectCache(idOf, isFunction);
    cache.AddObject(obj);
    cache.AddObject(other);
    cache.RegisterCallbackForId(idOf(obj), c);
    fetched := cache.fetched;
    ran := cache.ran;
  }

  /** Registrations for the same id fetch once; after `clear` the next
      registration fetches again. */
  method CacheCleared<O, C(==)>(idOf: O -> string, isFunction: C -> bool, id: string, c1: C, c2: C, c3: C)
    returns (fetched: seq<string>)
    ensures fetched == [id, id]
  {
    var cache := new AsyncObjectCache(idOf, isFunction);
    cache.RegisterCallbackForId(id, c1);
    cache.RegisterCallbackForId(id, c2);
    cache.Clear();
    cache.RegisterCallbackForId(id, c3);
    fetched := cache.fetched;
  }

  lemma DefaultIgnores()
    ensures !Shown(["WS"], ["WS.STATUS", "WS.PING"], Some("WS.STATUS"))
    ensures Shown(["WS"], ["WS.STATUS", "WS.PING"], Some("WS.EVENT"))
    ensures Shown(["WS"], ["WS.PING"], Some("WS.STATUS"))
  {
    PrefixOfDotted("WS", "EVENT");
    assert "WS.EVENT" == "WS" + "." + "EVENT";
    PrefixOfDotted("WS", "STATUS");
    assert "WS.STATUS" == "WS" + "." + "STATUS";
  }

  /** The initial ignore list hides the status messages even under a
      subscribed prefix, shows the other messages under it, and shows the
      status messages once they are no longer ignored. */
  method LoggerRun() returns (status: bool, other: bool, undefinedType: bool, statusLater: bool)
    ensures !status && other && undefinedType && statusLater
  {
    var logger := new Logger();
    logger.Subscribe("WS");
    assert logger.subscriptions == ["WS"];
    DefaultIgnores();
    status := logger.Subscribed(Some("WS.STATUS"));
    other := logger.Subscribed(Some("WS.EVENT"));
    undefinedType := logger.Subscribed(None);
    logger.Unignore("WS.STATUS");
    assert logger.ignored == ["WS.PING"] by {
      assert IndexOf(["WS.STATUS", "WS.PING"], "WS.STATUS") == 0;
    }
    statusLater := logger.Subscribed(Some("WS.STATUS"));
  }
}
