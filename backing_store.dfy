/** The in-memory backing store of generated models: a change-tracking map
    from property name to value, plus a table of callbacks notified of every
    write. Java's null value is `None`; a callback is an opaque value of type
    `C`, and what `set` does with the callbacks is returned as the list of
    invocations it makes. */
module BackingStore {
  import opened Common

  /** A stored value with its dirty flag (the source's Pair<Boolean, Object>). */
  datatype Entry<V> = Entry(changed: bool, value: Option<V>)

  /** One call `callback.accept(key, previous, current)` made by `set`. */
  datatype Invocation<V, C> =
    Invocation(subscriptionId: string, callback: C, key: string, previous: Option<V>, current: Option<V>)

  // ---------------------------------------------------------------------------
  // The store's observable behaviour as functions of its entry map.

  /** getValueFromWrapper: what `get` hands out for an entry, or for no entry. */
  function Filtered<V>(wrapper: Option<Entry<V>>, onlyChanged: bool): (r: Option<V>)
    ensures r.Some? ==> wrapper.Some? && r == wrapper.value.value
    ensures wrapper.Some? && (!onlyChanged || wrapper.value.changed) ==> r == wrapper.value.value
    ensures wrapper.Some? && onlyChanged && !wrapper.value.changed ==> r.None?
  {
    if wrapper.Some? && (!onlyChanged || wrapper.value.changed) then wrapper.value.value else None
  }

  /** What `get(key)` returns. */
  function Lookup<V>(entries: map<string, Entry<V>>, key: string, onlyChanged: bool): (r: Option<V>)
    ensures key !in entries ==> r.None?
    ensures r.Some? ==> key in entries && r == entries[key].value
    ensures key in entries && !onlyChanged ==> r == entries[key].value
  {
    Filtered(if key in entries then Some(entries[key]) else None, onlyChanged)
  }

  /** What `enumerate()` returns: every key whose filtered value is not null. */
  function Visible<V>(entries: map<string, Entry<V>>, onlyChanged: bool): map<string, V> {
    map k | k in entries && Lookup(entries, k, onlyChanged).Some? :: Lookup(entries, k, onlyChanged).value
  }

  /** The keys `enumerateKeysForValuesChangedToNull()` reports. */
  function ChangedToNull<V>(entries: map<string, Entry<V>>): set<string> {
    set k | k in entries && entries[k].value.None? && entries[k].changed
  }

  /** The entries after every dirty flag has been rewritten to `changed`. */
  function Restamped<V>(entries: map<string, Entry<V>>, changed: bool): map<string, Entry<V>> {
    map k | k in entries :: Entry(changed, entries[k].value)
  }

  /** `calls` invokes every subscription exactly once, with the arguments `set` passes. */
  ghost predicate NotifiesEach<V, C>(calls: seq<Invocation<V, C>>, subscriptions: map<string, C>,
                                    key: string, previous: Option<V>, current: Option<V>)
  {
    && (forall i, j :: 0 <= i < j < |calls| ==> calls[i].subscriptionId != calls[j].subscriptionId)
    && (forall i :: 0 <= i < |calls| ==>
          calls[i].subscriptionId in subscriptions
          && calls[i] == Invocation(calls[i].subscriptionId, subscriptions[calls[i].subscriptionId],
                                    key, previous, current))
    && (forall id :: id in subscriptions ==>
          exists i :: 0 <= i < |calls| && calls[i].subscriptionId == id)
  }

  /** The loop of `set` over `subscriptionStore.values()`: every callback is
      called once with the key and the previous and new values. */
  method Notify<V, C>(subscriptions: map<string, C>, key: string, previous: Option<V>, current: Option<V>)
    returns (calls: seq<Invocation<V, C>>)
    ensures NotifiesEach(calls, subscriptions, key, previous, current)
  {
    var order := IterationOrder(subscriptions.Keys);
    assert forall j :: 0 <= j < |order| ==> order[j] in subscriptions by {
      assert forall j :: 0 <= j < |order| ==> order[j] in order;
    }
    calls := [];
    for i := 0 to |order|
      invariant |calls| == i
      invariant forall j :: 0 <= j < i ==>
                  calls[j] == Invocation(order[j], subscriptions[order[j]], key, previous, current)
    {
      calls := calls + [Invocation(order[i], subscriptions[order[i]], key, previous, current)];
    }
    forall id | id in subscriptions
      ensures exists i :: 0 <= i < |calls| && calls[i].subscriptionId == id
    {
      var i :| 0 <= i < |order| && order[i] == id;
      assert calls[i].subscriptionId == id;
    }
  }

  // ---------------------------------------------------------------------------

  class InMemoryBackingStore<V, C> {
    var isInitializationCompleted: bool
    var returnOnlyChangedValues: bool
    var store: map<string, Entry<V>>
    var subscriptionStore: map<string, C>

    /** A new store: initialization completed, all values returned, nothing stored. */
    constructor ()
      ensures isInitializationCompleted && !returnOnlyChangedValues
      ensures store == map[] && subscriptionStore == map[]
    {
      isInitializationCompleted := true;
      returnOnlyChangedValues := false;
      store := map[];
      subscriptionStore := map[];
    }

    /** Sets the flag and rewrites every entry's dirty flag to its negation;
        keys and values stay. */
    method SetIsInitializationCompleted(value: bool)
      modifies this
      ensures isInitializationCompleted == value
      ensures store == Restamped(old(store), !value)
      ensures returnOnlyChangedValues == old(returnOnlyChangedValues)
      ensures subscriptionStore == old(subscriptionStore)
    {
      isInitializationCompleted := value;
      var pending := store.Keys;
      while pending != {}
        invariant isInitializationCompleted == value
        invariant pending <= store.Keys == old(store).Keys
        invariant forall k :: k in store ==>
                    store[k] == if k in pending then old(store)[k] else Entry(!value, old(store)[k].value)
        invariant returnOnlyChangedValues == old(returnOnlyChangedValues)
        invariant subscriptionStore == old(subscriptionStore)
        decreases pending
      {
        var key :| key in pending;
        store := store[key := Entry(!value, store[key].value)];
        pending := pending - {key};
      }
    }

    method SetReturnOnlyChangedValues(value: bool)
      modifies this
      ensures returnOnlyChangedValues == value
      ensures isInitializationCompleted == old(isInitializationCompleted)
      ensures store == old(store) && subscriptionStore == old(subscriptionStore)
    {
      returnOnlyChangedValues := value;
    }

    /** Removes every entry; subscriptions and flags stay. */
    method Clear()
      modifies this
      ensures store == map[]
      ensures subscriptionStore == old(subscriptionStore)
      ensures isInitializationCompleted == old(isInitializationCompleted)
      ensures returnOnlyChangedValues == old(returnOnlyChangedValues)
    {
      store := map[];
    }

    /** `get(key)`: null for an absent key, and, when only changed values are
        returned, null for an entry that is not marked changed. */
    function Get(key: string): (r: Option<V>)
      reads this
      ensures key !in store ==> r.None?
      ensures key in store && !returnOnlyChangedValues ==> r == store[key].value
      ensures key in store && returnOnlyChangedValues ==>
                r == if store[key].changed then store[key].value else None
    {
      Lookup(store, key, returnOnlyChangedValues)
    }

    /** `enumerate()`: exactly the keys `get` finds a non-null value for, each
        mapped to that value. */
    method Enumerate() returns (result: map<string, V>)
      ensures result == Visible(store, returnOnlyChangedValues)
      ensures forall k :: Get(k) == if k in result then Some(result[k]) else None
    {
      result := map[];
      var pending := store.Keys;
      while pending != {}
        invariant pending <= store.Keys
        invariant forall k :: k in result <==>
                    k in store && k !in pending && Lookup(store, k, returnOnlyChangedValues).Some?
        invariant forall k :: k in result ==> Some(result[k]) == Lookup(store, k, returnOnlyChangedValues)
        decreases pending
      {
        var key :| key in pending;
        var wrapper := store[key];
        var value := Filtered(Some(wrapper), returnOnlyChangedValues);
        if value.Some? {
          result := result[key := wrapper.value.value];
        }
        pending := pending - {key};
      }
    }

    /** `enumerateKeysForValuesChangedToNull()`: each key whose value is null and
        whose dirty flag is set, once; the filter flag plays no part. */
    method EnumerateKeysForValuesChangedToNull() returns (result: seq<string>)
      ensures forall i, j :: 0 <= i < j < |result| ==> result[i] != result[j]
      ensures forall k :: k in result <==> k in store && store[k].value.None? && store[k].changed
      ensures (set k | k in result) == ChangedToNull(store)
    {
      result := [];
      var pending := store.Keys;
      while pending != {}
        invariant pending <= store.Keys
        invariant forall i, j :: 0 <= i < j < |result| ==> result[i] != result[j]
        invariant forall k :: k in result <==>
                    k in store && k !in pending && store[k].value.None? && store[k].changed
        decreases pending
      {
        var key :| key in pending;
        var wrapper := store[key];
        if wrapper.value.None? && wrapper.changed {
          result := result + [key];
        }
        pending := pending - {key};
      }
    }

    /** `set(key, value)`: stores the value stamped with the current
        initialization flag, then calls every subscription once with
        (key, previous value, value). With no previous entry and at least one
        subscription, the read of the previous value throws after the write. */
    method Set(key: string, value: Option<V>) returns (r: Result<seq<Invocation<V, C>>>)
      modifies this
      ensures store == old(store)[key := Entry(old(isInitializationCompleted), value)]
      ensures isInitializationCompleted == old(isInitializationCompleted)
      ensures returnOnlyChangedValues == old(returnOnlyChangedValues)
      ensures subscriptionStore == old(subscriptionStore)
      ensures r.Err? <==> key !in old(store) && subscriptionStore != map[]
      ensures r.Err? ==> r.error == NullPointerException
      ensures r.Ok? ==> NotifiesEach(r.value, subscriptionStore, key,
                                     if key in old(store) then old(store)[key].value else None, value)
    {
      var oldValue := if key in store then Some(store[key]) else None;
      store := store[key := Entry(isInitializationCompleted, value)];
      if oldValue.None? && |subscriptionStore| > 0 {
        return Err(NullPointerException);
      }
      // with no subscription the loop never reads the previous value
      var previous := if oldValue.Some? then oldValue.value.value else None;
      var calls := Notify(subscriptionStore, key, previous, value);
      r := Ok(calls);
    }

    method Unsubscribe(subscriptionId: string)
      modifies this
      ensures subscriptionStore == old(subscriptionStore) - {subscriptionId}
      ensures store == old(store)
      ensures isInitializationCompleted == old(isInitializationCompleted)
      ensures returnOnlyChangedValues == old(returnOnlyChangedValues)
    {
      subscriptionStore := subscriptionStore - {subscriptionId};
    }

    /** `subscribe(callback)`: registers under a generated id, which the caller
        supplies here, and returns it. */
    method SubscribeWithGeneratedId(callback: C, generatedId: string) returns (subscriptionId: string)
      modifies this
      ensures subscriptionId == generatedId
      ensures subscriptionStore == old(subscriptionStore)[generatedId := callback]
      ensures store == old(store)
      ensures isInitializationCompleted == old(isInitializationCompleted)
      ensures returnOnlyChangedValues == old(returnOnlyChangedValues)
    {
      subscriptionId := generatedId;
      Subscribe(subscriptionId, callback);
    }

    /** `subscribe(id, callback)`: registers, or replaces, the callback under `id`. */
    method Subscribe(subscriptionId: string, callback: C)
      modifies this
      ensures subscriptionStore == old(subscriptionStore)[subscriptionId := callback]
      ensures store == old(store)
      ensures isInitializationCompleted == old(isInitializationCompleted)
      ensures returnOnlyChangedValues == old(returnOnlyChangedValues)
    {
      subscriptionStore := subscriptionStore[subscriptionId := callback];
    }
  }

  // ---------------------------------------------------------------------------
  // Properties of the observable behaviour.

  /** After a write, the written key reads back the value unless it is hidden
      by the filter, and every other key reads as before. */
  lemma LookupAfterWrite<V>(entries: map<string, Entry<V>>, key: string, value: Option<V>,
                            completed: bool, onlyChanged: bool)
    ensures Lookup(entries[key := Entry(completed, value)], key, onlyChanged)
            == if !onlyChanged || completed then value else None
    ensures forall k :: k != key ==>
              Lookup(entries[key := Entry(completed, value)], k, onlyChanged) == Lookup(entries, k, onlyChanged)
  {
  }

  /** `enumerate` and `get` apply the same filter. */
  lemma VisibleIsLookup<V>(entries: map<string, Entry<V>>, onlyChanged: bool, key: string)
    ensures key in Visible(entries, onlyChanged) <==> Lookup(entries, key, onlyChanged).Some?
    ensures key in Visible(entries, onlyChanged) ==>
              Some(Visible(entries, onlyChanged)[key]) == Lookup(entries, key, onlyChanged)
  {
  }

  /** Restamping keeps every key and every value. */
  lemma RestampedKeepsValues<V>(entries: map<string, Entry<V>>, changed: bool)
    ensures Restamped(entries, changed).Keys == entries.Keys
    ensures forall k :: k in entries ==>
              Restamped(entries, changed)[k].value == entries[k].value
              && Restamped(entries, changed)[k].changed == changed
  {
  }

  /** Only the last flag flip matters. */
  lemma RestampedTwice<V>(entries: map<string, Entry<V>>, first: bool, second: bool)
    ensures Restamped(Restamped(entries, first), second) == Restamped(entries, second)
  {
    var a, b := Restamped(Restamped(entries, first), second), Restamped(entries, second);
    assert a.Keys == b.Keys;
    assert forall k :: k in a ==> a[k] == b[k];
  }

  /** After `setIsInitializationCompleted(true)` no value reads as changed:
      change-only enumeration is empty and no key is reported as set to null.
      After `setIsInitializationCompleted(false)` every null value is reported. */
  lemma ChangedAfterRestamp<V>(entries: map<string, Entry<V>>)
    ensures Visible(Restamped(entries, false), true) == map[]
    ensures ChangedToNull(Restamped(entries, false)) == {}
    ensures ChangedToNull(Restamped(entries, true)) == set k | k in entries && entries[k].value.None?
  {
    assert Visible(Restamped(entries, false), true).Keys == {};
  }

  /** Flag flips never change what the unfiltered `enumerate` returns. */
  lemma UnfilteredIgnoresFlags<V>(entries: map<string, Entry<V>>, changed: bool)
    ensures Visible(Restamped(entries, changed), false) == Visible(entries, false)
  {
    var a, b := Visible(Restamped(entries, changed), false), Visible(entries, false);
    assert a.Keys == b.Keys;
  }

  /** The change-only enumeration is a sub-map of the full one. */
  lemma OnlyChangedIsSubmap<V>(entries: map<string, Entry<V>>)
    ensures Visible(entries, true).Keys <= Visible(entries, false).Keys
    ensures forall k :: k in Visible(entries, true) ==> Visible(entries, true)[k] == Visible(entries, false)[k]
  {
  }
}
