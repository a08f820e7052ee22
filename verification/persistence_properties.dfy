/** Properties that relate several engine operations: reads after writes,
    the frame of each mutation, the empty-identifier invariant, revision
    counting and version monotonicity over runs of `Set`, and the listener
    registry's ordering. */
module PersistenceProperties {
  import opened Tables
  import opened Listeners
  import opened Persistence

  // ---------------------------------------------------------------------
  // Single calls

  /** `Get` with the identifier a successful `Set` returned yields the value
      stored, `Contains` reports it, and every other identifier of the type
      reads as before. */
  lemma SetThenGet<V>(s: Store<V>, tag: TypeTag, value: V, id: Id, version: int32, now: Time, freshId: Id, zero: V)
    requires FreshOk(s, tag, freshId)
    requires !Downgrade(s, tag, version)
    ensures var r := Set(s, tag, value, id, version, now, freshId);
      && Get(r.store, tag, r.id, zero) == value
      && Contains(r.store, tag, r.id)
      && (forall k :: k != r.id ==> Get(r.store, tag, k, zero) == Get(s, tag, k, zero))
      && (forall k :: k != r.id ==> Contains(r.store, tag, k) == Contains(s, tag, k))
  {
  }

  /** `Set` on one type is invisible through every other type. */
  lemma SetLeavesOtherTypes<V>(s: Store<V>, tag: TypeTag, value: V, id: Id, version: int32, now: Time, freshId: Id, other: TypeTag)
    requires FreshOk(s, tag, freshId)
    requires other != tag
    ensures var r := Set(s, tag, value, id, version, now, freshId);
      && GetMetadata(r.store, other) == GetMetadata(s, other)
      && GetCollection(r.store, other) == GetCollection(s, other)
      && ListenersOf(r.store, other) == ListenersOf(s, other)
  {
  }

  /** A downgrade is observably a no-op: the same metadata and collection
      for the type, and the caller's identifier comes back. */
  lemma DowngradeIsRejected<V>(s: Store<V>, tag: TypeTag, value: V, id: Id, version: int32, now: Time, freshId: Id)
    requires FreshOk(s, tag, freshId)
    requires version != NoVersion && GetMetadata(s, tag) != Unknown && version < GetMetadata(s, tag).version
    ensures var r := Set(s, tag, value, id, version, now, freshId);
      && r.id == id
      && GetMetadata(r.store, tag) == GetMetadata(s, tag)
      && GetCollection(r.store, tag) == GetCollection(s, tag)
      && r.events == [] && r.deliveries == []
  {
    assert tag in s.tables;
  }

  /** The first `Set` of a type creates its table with the given version
      (0 for the `-1` sentinel) and revision 0, then counts itself: the
      metadata reads `(version, 1, now)` and the entry is an `Add`. */
  lemma FirstSetCreatesTable<V>(s: Store<V>, tag: TypeTag, value: V, id: Id, version: int32, now: Time, freshId: Id)
    requires FreshOk(s, tag, freshId)
    requires tag !in s.tables
    ensures var r := Set(s, tag, value, id, version, now, freshId);
      && GetMetadata(r.store, tag) == Metadata(if version == NoVersion then 0 else version, 1, now)
      && r.events == [Event(Add, r.id, value)]
      && GetCollection(r.store, tag) == map[r.id := value]
  {
  }

  /** `Set` never lowers a stored table's version, and a successful `Set`
      counts exactly one revision (as long as the 32-bit counter does not
      wrap). */
  lemma SetVersionAndRevision<V>(s: Store<V>, tag: TypeTag, value: V, id: Id, version: int32, now: Time, freshId: Id)
    requires FreshOk(s, tag, freshId)
    requires tag in s.tables
    ensures var r := Set(s, tag, value, id, version, now, freshId);
      && GetMetadata(r.store, tag).version >= GetMetadata(s, tag).version
      && (!Downgrade(s, tag, version) && GetMetadata(s, tag).revision < Int32Max ==>
            GetMetadata(r.store, tag).revision as int == GetMetadata(s, tag).revision as int + 1)
  {
  }

  /** Once a type has been stored without the counter wrapping, its metadata
      can no longer be mistaken for the "never stored" answer. */
  lemma StoredTypeIsKnown<V>(s: Store<V>, tag: TypeTag, value: V, id: Id, version: int32, now: Time, freshId: Id)
    requires FreshOk(s, tag, freshId)
    requires !Downgrade(s, tag, version)
    requires 0 <= BaseRevision(s, tag) < Int32Max
    ensures var r := Set(s, tag, value, id, version, now, freshId);
      GetMetadata(r.store, tag).revision >= 1 && GetMetadata(r.store, tag) != Unknown
  {
  }

  /** The empty identifier never becomes a key: `Set` and `Delete` keep
      `Valid`, and under it a successful `Set` returns a non-empty id. */
  lemma SetKeepsValid<V>(s: Store<V>, tag: TypeTag, value: V, id: Id, version: int32, now: Time, freshId: Id)
    requires FreshOk(s, tag, freshId)
    requires Valid(s)
    ensures var r := Set(s, tag, value, id, version, now, freshId);
      && Valid(r.store)
      && (!Downgrade(s, tag, version) ==> r.id != EmptyId)
  {
  }

  lemma DeleteKeepsValid<V>(s: Store<V>, tag: TypeTag, id: Id)
    requires Valid(s)
    ensures Valid(Persistence.Delete(s, tag, id).store)
  {
  }

  /** After `Delete`, `Contains` is false for that identifier; every other
      identifier, and every other type, reads as before. */
  lemma DeleteThenContains<V>(s: Store<V>, tag: TypeTag, id: Id, zero: V)
    ensures var r := Persistence.Delete(s, tag, id);
      && !Contains(r.store, tag, id)
      && Get(r.store, tag, id, zero) == zero
      && (forall k :: k != id ==> Get(r.store, tag, k, zero) == Get(s, tag, k, zero))
      && (forall t :: t != tag ==> GetCollection(r.store, t) == GetCollection(s, t))
      && (forall t :: GetMetadata(r.store, t) == GetMetadata(s, t))
  {
  }

  /** `GetCollection` and `Get` agree, and an unknown type has an empty
      collection. */
  lemma CollectionAgreesWithGet<V>(s: Store<V>, tag: TypeTag, zero: V)
    ensures tag !in s.tables ==> GetCollection(s, tag) == map[]
    ensures forall id :: id in GetCollection(s, tag) ==> GetCollection(s, tag)[id] == Get(s, tag, id, zero)
    ensures forall id :: id !in GetCollection(s, tag) ==> Get(s, tag, id, zero) == zero && !Contains(s, tag, id)
  {
  }

  // ---------------------------------------------------------------------
  // Runs of Set on one type

  /** The arguments of one `Set` call on a fixed type. */
  datatype SetCall<V> = SetCall(value: V, id: Id, version: int32, now: Time, freshId: Id)

  /** Every call of the run gets a usable fresh identifier. */
  predicate CanRun<V>(s: Store<V>, tag: TypeTag, calls: seq<SetCall<V>>)
    decreases |calls|
  {
    |calls| == 0 ||
    (var c := calls[0];
     FreshOk(s, tag, c.freshId)
     && CanRun(Set(s, tag, c.value, c.id, c.version, c.now, c.freshId).store, tag, calls[1..]))
  }

  /** The state after the calls, in order. */
  function Run<V>(s: Store<V>, tag: TypeTag, calls: seq<SetCall<V>>): Store<V>
    requires CanRun(s, tag, calls)
    decreases |calls|
  {
    if |calls| == 0 then s
    else
      var c := calls[0];
      Run(Set(s, tag, c.value, c.id, c.version, c.now, c.freshId).store, tag, calls[1..])
  }

  /** Successive `Set` calls with explicit, non-decreasing versions: the
      metadata reports the last version, a revision that counts every call
      (from 0 for a type stored for the first time), and the last clock
      reading. */
  lemma {:induction false} RunCountsRevisions<V>(s: Store<V>, tag: TypeTag, calls: seq<SetCall<V>>)
    requires CanRun(s, tag, calls)
    requires |calls| > 0
    requires forall i :: 0 <= i < |calls| ==> calls[i].version != NoVersion
    requires forall i, j :: 0 <= i < j < |calls| ==> calls[i].version <= calls[j].version
    requires !Downgrade(s, tag, calls[0].version)
    requires BaseRevision(s, tag) as int + |calls| <= Int32Max as int
    ensures var last := calls[|calls| - 1];
      GetMetadata(Run(s, tag, calls), tag)
        == Metadata(last.version, (BaseRevision(s, tag) as int + |calls|) as int32, last.now)
    decreases |calls|
  {
    var c := calls[0];
    var s' := Set(s, tag, c.value, c.id, c.version, c.now, c.freshId).store;
    assert BaseRevision(s', tag) as int == BaseRevision(s, tag) as int + 1;
    if |calls| > 1 {
      var rest := calls[1..];
      assert rest[0] == calls[1];
      assert s'.tables[tag].version == c.version <= calls[1].version;
      RunCountsRevisions(s', tag, rest);
      assert rest[|rest| - 1] == calls[|calls| - 1];
    }
  }

  /** Whatever the versions passed, including downgrades and the `-1`
      sentinel, a stored table's version never goes down over a run. */
  lemma {:induction false} RunNeverLowersVersion<V>(s: Store<V>, tag: TypeTag, calls: seq<SetCall<V>>)
    requires CanRun(s, tag, calls)
    requires tag in s.tables
    ensures tag in Run(s, tag, calls).tables
    ensures GetMetadata(Run(s, tag, calls), tag).version >= GetMetadata(s, tag).version
    decreases |calls|
  {
    if |calls| > 0 {
      var c := calls[0];
      var s' := Set(s, tag, c.value, c.id, c.version, c.now, c.freshId).store;
      RunNeverLowersVersion(s', tag, calls[1..]);
    }
  }

  /** No run of `Set` makes the empty identifier a key. */
  lemma {:induction false} RunKeepsValid<V>(s: Store<V>, tag: TypeTag, calls: seq<SetCall<V>>)
    requires CanRun(s, tag, calls)
    requires Valid(s)
    ensures Valid(Run(s, tag, calls))
    decreases |calls|
  {
    if |calls| > 0 {
      var c := calls[0];
      SetKeepsValid(s, tag, c.value, c.id, c.version, c.now, c.freshId);
      RunKeepsValid(Set(s, tag, c.value, c.id, c.version, c.now, c.freshId).store, tag, calls[1..]);
    }
  }

  /** The walk-through of one type's life: a first `Set` with an empty id
      and version 1 generates the id and reads `(1, 1, t1)`; a second `Set`
      on that id is an `Update` and reads `(1, 2, t2)`; a third with version
      0 is refused and returns the id it was given. No order is assumed
      between the clock readings. */
  lemma LifeOfOneType<V>(tag: TypeTag, p1: V, p2: V, p3: V, g1: Id, g2: Id, g3: Id, t1: Time, t2: Time, t3: Time)
    requires g1 != EmptyId && g2 != EmptyId && g3 != EmptyId && g2 != g1 && g3 != g1
    ensures var r1 := Set(EmptyStore<V>(), tag, p1, EmptyId, 1, t1, g1);
      && r1.id == g1
      && r1.events == [Event(Add, g1, p1)]
      && GetMetadata(r1.store, tag) == Metadata(1, 1, t1)
      && var r2 := Set(r1.store, tag, p2, g1, 1, t2, g2);
      && r2.events == [Event(Update, g1, p2)]
      && GetMetadata(r2.store, tag) == Metadata(1, 2, t2)
      && var r3 := Set(r2.store, tag, p3, g1, 0, t3, g3);
      && r3.id == g1
      && r3.store == r2.store
      && r3.events == []
  {
  }

  // ---------------------------------------------------------------------
  // Listener registry

  /** A callback appended by `AddListener` is invoked after every callback
      registered before it; a null one adds no invocation. */
  lemma AddListenerDeliversLast<V>(s: Store<V>, tag: TypeTag, cb: Callback, e: Event<V>)
    ensures cb.Handler? ==>
      RaiseEvent(AddListener(s, tag, cb), tag, e) == RaiseEvent(s, tag, e) + [Delivery(cb.handle, e)]
    ensures cb.Null? ==> RaiseEvent(AddListener(s, tag, cb), tag, e) == RaiseEvent(s, tag, e)
  {
    DeliverConcat(ListenersOf(s, tag), [cb], e);
  }

  /** Registering `A` then `B` makes the next successful `Set` invoke every
      callback registered before, then `A`, then `B`, with the event of that
      `Set`; on a type without listeners, `A` and `B` are invoked once each,
      in that order. */
  lemma RegistrationOrderIsDeliveryOrder<V>(s: Store<V>, tag: TypeTag, a: nat, b: nat, value: V, id: Id, version: int32, now: Time, freshId: Id)
    requires FreshOk(s, tag, freshId)
    requires !Downgrade(s, tag, version)
    ensures var s2 := AddListener(AddListener(s, tag, Handler(a)), tag, Handler(b));
      var r := Set(s2, tag, value, id, version, now, freshId);
      r.deliveries == RaiseEvent(s, tag, r.events[0]) + [Delivery(a, r.events[0]), Delivery(b, r.events[0])]
    ensures ListenersOf(s, tag) == [] ==>
      var s2 := AddListener(AddListener(s, tag, Handler(a)), tag, Handler(b));
      var r := Set(s2, tag, value, id, version, now, freshId);
      r.deliveries == [Delivery(a, r.events[0]), Delivery(b, r.events[0])]
  {
    var s2 := AddListener(AddListener(s, tag, Handler(a)), tag, Handler(b));
    var r := Set(s2, tag, value, id, version, now, freshId);
    TwoAddsDeliverInOrder(s, tag, a, b, r.events[0]);
  }

  /** Two appended handlers are invoked after the earlier ones, in the
      order they were added. */
  lemma TwoAddsDeliverInOrder<V>(s: Store<V>, tag: TypeTag, a: nat, b: nat, e: Event<V>)
    ensures var s2 := AddListener(AddListener(s, tag, Handler(a)), tag, Handler(b));
      RaiseEvent(s2, tag, e) == RaiseEvent(s, tag, e) + [Delivery(a, e), Delivery(b, e)]
    ensures ListenersOf(s, tag) == [] ==> RaiseEvent(s, tag, e) == []
  {
    var s1 := AddListener(s, tag, Handler(a));
    AddListenerDeliversLast(s, tag, Handler(a), e);
    AddListenerDeliversLast(s1, tag, Handler(b), e);
  }

  /** Removing a callback right after adding it (when it was not already
      registered) restores the type's list. */
  lemma AddThenRemoveListener<V>(s: Store<V>, tag: TypeTag, cb: Callback)
    requires cb !in ListenersOf(s, tag)
    ensures ListenersOf(RemoveListener(AddListener(s, tag, cb), tag, cb), tag) == ListenersOf(s, tag)
  {
    RemoveFirstAfterAppend(ListenersOf(s, tag), cb);
  }
}
