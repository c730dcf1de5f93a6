/** The change-tracking in-memory backing store of a generated model: a key-to-value map, a
    key-to-changed-flag map, the subscribers that hear of every change, and two mode flags that the
    serialization and parsing hooks flip. */
module BackingStore {
  import opened Wrappers
  import opened Text

  /** A non-nil value held in the store. `reflect.DeepEqual` on two such values is their equality. */
  datatype Payload = Payload(content: string)

  /** What a store slot holds; `None` is Go's nil. */
  type Value = Option<Payload>

  /** A subscriber callback, known by its identity; the model records every call made to it. */
  datatype Subscriber = Subscriber(handle: nat)

  /** One call `subscriber(key, oldVal, newVal)`, made to the callback registered under `id`. */
  datatype Notification = Notification(id: string, subscriber: Subscriber, key: string, oldValue: Value, newValue: Value)

  const ErrEmptyKey := Error("key cannot be an empty string")
  const ErrEmptySubscriptionId := Error("subscriptionId cannot be an empty string")

  /** A `Set` takes effect when the current value is nil or not deep-equal to the new one, so setting
      nil over nil still counts as a change. */
  predicate Changes(current: Value, value: Value) {
    current.None? || current != value
  }

  /** Go's `changedValues[key]`: a missing key reads as false. */
  predicate Flagged(changed: map<string, bool>, key: string) {
    key in changed && changed[key]
  }

  /** The filter shared by `Get` and `Enumerate`: with `returnOnlyChangedValues` set, only flagged keys
      are reported. */
  predicate Reports(changed: map<string, bool>, onlyChanged: bool, key: string) {
    !onlyChanged || Flagged(changed, key)
  }

  /** The calls one `Set` makes: every subscription is called exactly once, in some order, each time
      with the same key, old value and new value. */
  predicate NotifiesEach(batch: seq<Notification>, subscribers: map<string, Subscriber>,
                         key: string, oldValue: Value, newValue: Value)
  {
    && (forall i :: 0 <= i < |batch| ==>
          batch[i].id in subscribers
          && batch[i] == Notification(batch[i].id, subscribers[batch[i].id], key, oldValue, newValue))
    && (forall i, j :: 0 <= i < j < |batch| ==> batch[i].id != batch[j].id)
    && (forall id :: id in subscribers ==> exists i :: 0 <= i < |batch| && batch[i].id == id)
  }

  /** The identifiers a batch of notifications went to. */
  function Recipients(batch: seq<Notification>): (r: set<string>)
    ensures forall i :: 0 <= i < |batch| ==> batch[i].id in r
    ensures forall id :: id in r ==> exists i :: 0 <= i < |batch| && batch[i].id == id
  {
    if batch == [] then {} else Recipients(batch[..|batch| - 1]) + {batch[|batch| - 1].id}
  }

  /** Distinct recipients: a batch without repeats has as many recipients as calls. */
  lemma {:induction false} DistinctRecipients(batch: seq<Notification>)
    requires forall i, j :: 0 <= i < j < |batch| ==> batch[i].id != batch[j].id
    ensures |Recipients(batch)| == |batch|
  {
    if batch != [] {
      var init := batch[..|batch| - 1];
      DistinctRecipients(init);
      forall i | 0 <= i < |init|
        ensures init[i].id != batch[|batch| - 1].id
      {
        assert init[i] == batch[i];
      }
    }
  }

  /** Exactly once each: a `Set` makes as many calls as there are subscriptions, and no two of them go
      to the same subscription. */
  lemma NotifiesEachCount(batch: seq<Notification>, subscribers: map<string, Subscriber>,
                          key: string, oldValue: Value, newValue: Value)
    requires NotifiesEach(batch, subscribers, key, oldValue, newValue)
    ensures |batch| == |subscribers|
    ensures Recipients(batch) == subscribers.Keys
  {
    DistinctRecipients(batch);
    assert Recipients(batch) == subscribers.Keys;
  }

  /** A subscription that is gone hears nothing: no call of a later `Set` goes to it. */
  lemma UnsubscribedHearsNothing(batch: seq<Notification>, subscribers: map<string, Subscriber>, id: string,
                                 key: string, oldValue: Value, newValue: Value)
    requires NotifiesEach(batch, subscribers - {id}, key, oldValue, newValue)
    ensures forall i :: 0 <= i < |batch| ==> batch[i].id != id
  {
  }

  /** The loop over the subscribers in `Set`: one call per subscription, taken in some order, as Go's
      map iteration takes them. */
  method NotifySubscribers(subscribers: map<string, Subscriber>, key: string, oldValue: Value, newValue: Value)
    returns (batch: seq<Notification>)
    ensures NotifiesEach(batch, subscribers, key, oldValue, newValue)
  {
    batch := [];
    var pending := subscribers.Keys;
    while pending != {}
      invariant pending <= subscribers.Keys
      invariant forall i :: 0 <= i < |batch| ==>
                  batch[i].id in subscribers.Keys - pending
                  && batch[i] == Notification(batch[i].id, subscribers[batch[i].id], key, oldValue, newValue)
      invariant forall i, j :: 0 <= i < j < |batch| ==> batch[i].id != batch[j].id
      invariant forall id :: id in subscribers.Keys - pending ==> exists i :: 0 <= i < |batch| && batch[i].id == id
      decreases pending
    {
      var id :| id in pending;
      ghost var before, was := batch, pending;
      batch := batch + [Notification(id, subscribers[id], key, oldValue, newValue)];
      assert batch[|before|].id == id;
      assert forall i :: 0 <= i < |before| ==> batch[i] == before[i];
      pending := pending - {id};
      forall x | x in subscribers.Keys - pending
        ensures exists i :: 0 <= i < |batch| && batch[i].id == x
      {
        if x == id {
          assert batch[|before|].id == x;
        } else {
          assert x in subscribers.Keys - was;
          var i :| 0 <= i < |before| && before[i].id == x;
          assert batch[i].id == x;
        }
      }
    }
    assert subscribers.Keys - pending == subscribers.Keys;
  }

  /** `inMemoryBackingStore`. Every method has a pointer receiver and updates the fields in place. */
  class InMemoryBackingStore {
    var returnOnlyChangedValues: bool
    var initializationCompleted: bool
    var store: map<string, Value>
    var subscribers: map<string, Subscriber>
    var changedValues: map<string, bool>
    /** The calls made to subscribers so far, oldest first. */
    var notifications: seq<Notification>

    /** Every stored key has a changed flag and every flag belongs to a stored key: `Set` writes both,
        `Clear` deletes both. */
    ghost predicate Valid()
      reads this
    {
      changedValues.Keys == store.Keys
    }

    /** `NewInMemoryBackingStore`: empty, reporting every value, initialization completed. */
    constructor ()
      ensures Valid()
      ensures !returnOnlyChangedValues && initializationCompleted
      ensures store == map[] && subscribers == map[] && changedValues == map[] && notifications == []
    {
      returnOnlyChangedValues := false;
      initializationCompleted := true;
      store := map[];
      subscribers := map[];
      changedValues := map[];
      notifications := [];
    }

    /** Go's `store[key]`: nil for a missing key. */
    function Stored(key: string): Value
      reads this
    {
      if key in store then store[key] else None
    }

    /** Whether `Get` and `Enumerate` report the value under key in the current mode. */
    predicate Reported(key: string)
      reads this
    {
      Reports(changedValues, returnOnlyChangedValues, key)
    }

    /** Whether `Get` and `Enumerate` report only the flagged keys: when it is false, every key is
        reported. */
    function GetReturnOnlyChangedValues(): (r: bool)
      reads this
      ensures r == returnOnlyChangedValues
      ensures !r ==> forall k :: Reports(changedValues, returnOnlyChangedValues, k)
      ensures r ==> forall k :: Reports(changedValues, returnOnlyChangedValues, k) == Flagged(changedValues, k)
    {
      returnOnlyChangedValues
    }

    /** The flag `Set` records for the keys it writes. */
    function GetInitializationCompleted(): (r: bool)
      reads this
      ensures r == initializationCompleted
    {
      initializationCompleted
    }

    /** `Get`: the key is trimmed; a blank key is an error. A reported key gives its stored value (nil
        when absent), an unreported key gives nil. */
    function Get(key: string): (r: Result<Value, Error>)
      reads this
      ensures r.Failure? <==> IsBlank(key)
      ensures r.Failure? ==> r.error == ErrEmptyKey
      ensures r.Success? && r.value.Some? ==>
                TrimSpace(key) in store && store[TrimSpace(key)] == r.value && Reported(TrimSpace(key))
      ensures r.Success? && Reported(TrimSpace(key)) ==> r.value == Stored(TrimSpace(key))
    {
      var k := TrimSpace(key);
      if k == "" then Failure(ErrEmptyKey)
      else if (GetReturnOnlyChangedValues() && Flagged(changedValues, k)) || !GetReturnOnlyChangedValues() then
        Success(Stored(k))
      else
        Success(None)
    }

    /** `Set`: a blank trimmed key is an error and changes nothing. Otherwise, when the value changes,
        the store holds it, its flag records whether initialization was completed, and every
        subscription is called once with the old and new values; an unchanged value does nothing. */
    method Set(key: string, value: Value) returns (err: Option<Error>)
      requires Valid()
      modifies this
      ensures Valid()
      ensures err == if IsBlank(key) then Some(ErrEmptyKey) else None
      ensures returnOnlyChangedValues == old(returnOnlyChangedValues)
      ensures initializationCompleted == old(initializationCompleted)
      ensures subscribers == old(subscribers)
      ensures var k := TrimSpace(key);
              if !IsBlank(key) && Changes(old(Stored(k)), value) then
                && store == old(store)[k := value]
                && changedValues == old(changedValues)[k := old(initializationCompleted)]
                && |notifications| >= |old(notifications)|
                && notifications[..|old(notifications)|] == old(notifications)
                && NotifiesEach(notifications[|old(notifications)|..], subscribers, k, old(Stored(k)), value)
              else
                store == old(store) && changedValues == old(changedValues) && notifications == old(notifications)
      ensures (!IsBlank(key) && Changes(old(Stored(TrimSpace(key))), value)
               && (initializationCompleted || !returnOnlyChangedValues)) ==> Get(key) == Success(value)
      ensures (!IsBlank(key) && Changes(old(Stored(TrimSpace(key))), value) && !initializationCompleted
               && returnOnlyChangedValues) ==> Get(key) == Success(None)
    {
      var k := TrimSpace(key);
      if k == "" {
        return Some(ErrEmptyKey);
      }
      var current := Stored(k);
      if Changes(current, value) {
        changedValues := changedValues[k := GetInitializationCompleted()];
        store := store[k := value];
        var batch := NotifySubscribers(subscribers, k, current, value);
        notifications := notifications + batch;
        assert notifications[|old(notifications)|..] == batch;
      }
      return None;
    }

    /** The entries `Enumerate` reports: every stored entry whose key passes the filter of `Get`. */
    function ReportedEntries(): (r: map<string, Value>)
      reads this
      ensures forall k :: k in r <==> k in store && Reported(k)
      ensures forall k :: k in r ==> r[k] == store[k]
    {
      map k | k in store && Reported(k) :: store[k]
    }

    /** `Enumerate`: a fresh map of exactly the reported entries; the store is left as it was. */
    method Enumerate() returns (items: map<string, Value>)
      ensures forall k :: k in items <==> k in store && Reported(k)
      ensures forall k :: k in items ==> items[k] == store[k]
    {
      items := map[];
      var pending := store.Keys;
      while pending != {}
        invariant pending <= store.Keys
        invariant forall k :: k in items <==> k in store.Keys - pending && Reported(k)
        invariant forall k :: k in items ==> items[k] == store[k]
        decreases pending
      {
        var k :| k in pending;
        if !GetReturnOnlyChangedValues() || Flagged(changedValues, k) {
          items := items[k := store[k]];
        }
        pending := pending - {k};
      }
    }

    /** A key whose value was changed to nil: stored as nil with its changed flag set. */
    predicate ChangedToNil(key: string)
      reads this
    {
      key in store && store[key].None? && Flagged(changedValues, key)
    }

    /** `EnumerateKeysForValuesChangedToNil`: every key changed to nil, each once, in no particular
        order. */
    method EnumerateKeysForValuesChangedToNil() returns (keys: seq<string>)
      ensures forall i, j :: 0 <= i < j < |keys| ==> keys[i] != keys[j]
      ensures forall k :: k in keys <==> ChangedToNil(k)
    {
      keys := [];
      var pending := store.Keys;
      while pending != {}
        invariant pending <= store.Keys
        invariant forall i, j :: 0 <= i < j < |keys| ==> keys[i] != keys[j]
        invariant forall k :: k in keys <==> k in store.Keys - pending && ChangedToNil(k)
        decreases pending
      {
        var k :| k in pending;
        assert k !in keys;
        if Flagged(changedValues, k) && store[k].None? {
          keys := keys + [k];
        }
        pending := pending - {k};
      }
    }

    /** `Subscribe`: registers the callback under a new identifier. Go draws it from `uuid.New`; the
        model takes it as a parameter. */
    method Subscribe(callback: Subscriber, newId: string) returns (id: string)
      modifies this`subscribers
      ensures id == newId
      ensures subscribers == old(subscribers)[newId := callback]
    {
      id := newId;
      subscribers := subscribers[id := callback];
    }

    /** `SubscribeWithId`: the trimmed identifier must not be blank; any earlier callback under it is
        replaced. */
    method SubscribeWithId(callback: Subscriber, subscriptionId: string) returns (err: Option<Error>)
      modifies this`subscribers
      ensures err == if IsBlank(subscriptionId) then Some(ErrEmptySubscriptionId) else None
      ensures subscribers == if IsBlank(subscriptionId) then old(subscribers)
                             else old(subscribers)[TrimSpace(subscriptionId) := callback]
    {
      var id := TrimSpace(subscriptionId);
      if id == "" {
        return Some(ErrEmptySubscriptionId);
      }
      subscribers := subscribers[id := callback];
      return None;
    }

    /** `Unsubscribe`: the trimmed identifier must not be blank; its callback, if any, is removed. */
    method Unsubscribe(subscriptionId: string) returns (err: Option<Error>)
      modifies this`subscribers
      ensures err == if IsBlank(subscriptionId) then Some(ErrEmptySubscriptionId) else None
      ensures subscribers == if IsBlank(subscriptionId) then old(subscribers)
                             else old(subscribers) - {TrimSpace(subscriptionId)}
      ensures !IsBlank(subscriptionId) ==> TrimSpace(subscriptionId) !in subscribers
    {
      var id := TrimSpace(subscriptionId);
      if id == "" {
        return Some(ErrEmptySubscriptionId);
      }
      subscribers := subscribers - {id};
      return None;
    }

    /** `Clear`: deletes every store entry and its changed flag; subscribers and both flags stay. */
    method Clear()
      requires Valid()
      modifies this`store, this`changedValues
      ensures Valid()
      ensures store == map[] && changedValues == map[]
    {
      ghost var keys := store.Keys;
      var pending := store.Keys;
      while pending != {}
        invariant pending <= keys
        invariant store.Keys == pending && changedValues.Keys == pending
        decreases pending
      {
        var k :| k in pending;
        store := store - {k};
        changedValues := changedValues - {k};
        pending := pending - {k};
      }
    }

    method SetInitializationCompleted(val: bool)
      modifies this`initializationCompleted
      ensures initializationCompleted == val
    {
      initializationCompleted := val;
    }

    method SetReturnOnlyChangedValues(val: bool)
      modifies this`returnOnlyChangedValues
      ensures returnOnlyChangedValues == val
    {
      returnOnlyChangedValues := val;
    }
  }

  /** `Get` and `Enumerate` apply one filter: a key's `Get` is its reported entry, or nil. */
  lemma GetAgreesWithEnumerate(s: InMemoryBackingStore, key: string)
    requires !IsBlank(key)
    ensures var entries := s.ReportedEntries();
            var k := TrimSpace(key);
            s.Get(key) == Success(if k in entries then entries[k] else None)
  {
  }
}
