/** The engine's in-memory state and its create/read/update/delete and
    listener-registry operations (class `Persistence` in
    Core/Persistence.cs). Every mutating operation is a pure function from
    the old state to an outcome holding the new state, what it returns to its
    caller, the events it raised and the invocations they caused. */
module Persistence {
  import opened Tables
  import opened Listeners

  /** `DataTables` (one table per type ever stored) and `listeners` (one
      callback list per type ever listened to). */
  datatype Store<V> = Store(tables: map<TypeTag, Table<V>>, listeners: map<TypeTag, seq<Callback>>)

  function EmptyStore<V>(): Store<V>
  {
    Store(map[], map[])
  }

  /** The state invariant `Set` and `Delete` keep: no table has an entry
      under the empty identifier. */
  ghost predicate Valid<V>(s: Store<V>)
  {
    forall tag :: tag in s.tables ==> EmptyId !in s.tables[tag].entries
  }

  /** The entries of `tag`'s table, or none when the type was never stored. */
  function Entries<V>(s: Store<V>, tag: TypeTag): map<Id, V>
  {
    if tag in s.tables then s.tables[tag].entries else map[]
  }

  /** The callbacks registered for `tag`, or none. */
  function ListenersOf<V>(s: Store<V>, tag: TypeTag): seq<Callback>
  {
    if tag in s.listeners then s.listeners[tag] else []
  }

  /** The version a `Set` on `tag` compares against: the table's version, or
      for a new table the version it would be created with. */
  function BaseVersion<V>(s: Store<V>, tag: TypeTag, version: int32): int32
  {
    if tag in s.tables then s.tables[tag].version
    else if version == NoVersion then 0 else version
  }

  /** The revision a `Set` on `tag` starts from (a new table starts at 0). */
  function BaseRevision<V>(s: Store<V>, tag: TypeTag): int32
  {
    if tag in s.tables then s.tables[tag].revision else 0
  }

  /** A `Set` with an explicit version below the table's current one. */
  predicate Downgrade<V>(s: Store<V>, tag: TypeTag, version: int32)
  {
    tag in s.tables && version != NoVersion && version < s.tables[tag].version
  }

  /** `RaiseEvent<T>`: deliver `e` to every callback registered for `tag`. */
  function RaiseEvent<V>(s: Store<V>, tag: TypeTag, e: Event<V>): (r: seq<Delivery<V>>)
    ensures |r| == |Live(ListenersOf(s, tag))|
    ensures tag !in s.listeners ==> r == []
    ensures forall i :: 0 <= i < |r| ==> r[i] == Delivery(Live(ListenersOf(s, tag))[i], e)
  {
    Deliver(ListenersOf(s, tag), e)
  }

  /** The outcome of `Set`: the new state, the identifier returned, the
      events raised (at most one), their invocations, and the state the
      callbacks could observe while they ran. */
  datatype SetOutcome<V> = SetOutcome(
    store: Store<V>,
    id: Id,
    events: seq<Event<V>>,
    deliveries: seq<Delivery<V>>,
    seenByListeners: Store<V>)

  /** What `Set` demands of its fresh identifier: non-empty and not yet a
      key of the type's table, as a new GUID is. */
  predicate FreshOk<V>(s: Store<V>, tag: TypeTag, freshId: Id)
  {
    freshId != EmptyId && freshId !in Entries(s, tag)
  }

  /** `Set<T>(value, id, version)` at clock reading `now`. `freshId` stands
      for `Guid.NewGuid()`: a non-empty identifier not yet in the table. */
  function Set<V>(s: Store<V>, tag: TypeTag, value: V, id: Id, version: int32, now: Time, freshId: Id)
    : (r: SetOutcome<V>)
    requires FreshOk(s, tag, freshId)
    // A downgrade is refused: nothing changes, nothing is raised, the
    // caller's identifier comes back.
    ensures Downgrade(s, tag, version) <==> r.events == []
    ensures Downgrade(s, tag, version) ==> r.store == s && r.id == id && r.deliveries == []
    // Otherwise the table exists afterwards, and no other table and no
    // listener list changes.
    ensures !Downgrade(s, tag, version) ==>
      && r.store.tables.Keys == s.tables.Keys + {tag}
      && r.store.listeners == s.listeners
      && (forall t :: t in s.tables && t != tag ==> r.store.tables[t] == s.tables[t])
    // The returned identifier is the key actually written: the caller's,
    // or a fresh non-empty one when the caller's was empty and unused.
    ensures !Downgrade(s, tag, version) ==>
      && r.store.tables[tag].entries == Entries(s, tag)[r.id := value]
      && (if id == EmptyId && id !in Entries(s, tag)
          then r.id != EmptyId && r.id !in Entries(s, tag)
          else r.id == id)
    // Exactly one event: Update for a key that existed, Add otherwise.
    ensures !Downgrade(s, tag, version) ==>
      && r.events == [Event(if id in Entries(s, tag) then Update else Add, r.id, value)]
      && r.deliveries == RaiseEvent(s, tag, r.events[0])
    // Metadata: one more revision, stamped now, version never below the
    // base version.
    ensures !Downgrade(s, tag, version) ==>
      && r.store.tables[tag].revision == Increment(BaseRevision(s, tag))
      && r.store.tables[tag].timestamp == now
      && r.store.tables[tag].version == (if version == NoVersion then BaseVersion(s, tag, version) else version)
      && r.store.tables[tag].version >= BaseVersion(s, tag, version)
    // Callbacks run after the entry is written but before the metadata is
    // updated: they see the new entries with the old revision, timestamp
    // and version (a new table's creation values), and every other table
    // as it was.
    ensures !Downgrade(s, tag, version) ==>
      && r.seenByListeners.tables.Keys == s.tables.Keys + {tag}
      && r.seenByListeners.listeners == s.listeners
      && (forall t :: t in s.tables && t != tag ==> r.seenByListeners.tables[t] == s.tables[t])
      && r.seenByListeners.tables[tag].entries == r.store.tables[tag].entries
      && r.seenByListeners.tables[tag].revision == BaseRevision(s, tag)
      && r.seenByListeners.tables[tag].timestamp == (if tag in s.tables then s.tables[tag].timestamp else now)
      && r.seenByListeners.tables[tag].version == BaseVersion(s, tag, version)
  {
    var table :=
      if tag in s.tables then s.tables[tag]
      else Table(if version == NoVersion then 0 else version, 0, now, map[]);
    var created := s.(tables := s.tables[tag := table]);
    if version != NoVersion && version < table.version then
      SetOutcome(created, id, [], [], created)
    else
      var effective := if version == NoVersion then table.version else version;
      var existed := id in table.entries;
      var key := if existed || id != EmptyId then id else freshId;
      var e := Event(if existed then Update else Add, key, value);
      var written := table.(entries := table.entries[key := value]);
      var seen := s.(tables := s.tables[tag := written]);
      var stamped := written.(revision := Increment(written.revision), timestamp := now, version := effective);
      SetOutcome(s.(tables := s.tables[tag := stamped]), key, [e], RaiseEvent(s, tag, e), seen)
  }

  /** `Get<T>(id)`: the stored value, or `zero` (standing for
      `default(T)`) when the type or the identifier is unknown. */
  function Get<V>(s: Store<V>, tag: TypeTag, id: Id, zero: V): (r: V)
    ensures id in Entries(s, tag) ==> r == Entries(s, tag)[id]
    ensures id !in Entries(s, tag) ==> r == zero
  {
    if tag in s.tables && id in s.tables[tag].entries then s.tables[tag].entries[id] else zero
  }

  /** `Contains<T>(id)`: whether the identifier is a key of the type's
      table; false for a type never stored. */
  function Contains<V>(s: Store<V>, tag: TypeTag, id: Id): (r: bool)
    ensures r <==> id in Entries(s, tag)
  {
    if tag in s.tables then id in s.tables[tag].entries else false
  }

  /** The triple returned by `GetMetadata<T>()`. */
  datatype Metadata = Metadata(version: int32, revision: int32, timestamp: Time)

  /** The "never stored" answer of `GetMetadata<T>()`. */
  const Unknown: Metadata := Metadata(-1, -1, DefaultTime)

  /** `GetMetadata<T>()`: the table's version, revision and timestamp, or
      `(-1, -1, default)` for a type never stored. */
  function GetMetadata<V>(s: Store<V>, tag: TypeTag): (r: Metadata)
    ensures tag !in s.tables ==> r == Unknown
    ensures tag in s.tables ==>
      r.version == s.tables[tag].version && r.revision == s.tables[tag].revision
      && r.timestamp == s.tables[tag].timestamp
  {
    if tag in s.tables then
      var t := s.tables[tag];
      Metadata(t.version, t.revision, t.timestamp)
    else Unknown
  }

  /** `GetCollection<T>()`: a copy of the table's identifier-to-value map,
      empty for an unknown type. Its keys are exactly the identifiers
      `Contains` reports and its values what `Get` returns. */
  function GetCollection<V>(s: Store<V>, tag: TypeTag): (r: map<Id, V>)
    ensures forall id :: id in r <==> Contains(s, tag, id)
    ensures forall id :: id in r ==> id in Entries(s, tag) && r[id] == Entries(s, tag)[id]
  {
    if tag in s.tables then
      map id | id in s.tables[tag].entries :: s.tables[tag].entries[id]
    else map[]
  }

  /** The outcome of `Delete`: the new state, whether the identifier was
      found, the events raised (at most one), their invocations, and the
      state the callbacks could observe while they ran. */
  datatype DeleteOutcome<V> = DeleteOutcome(
    store: Store<V>,
    found: bool,
    events: seq<Event<V>>,
    deliveries: seq<Delivery<V>>,
    seenByListeners: Store<V>)

  /** `Delete<T>(id)`. */
  function Delete<V>(s: Store<V>, tag: TypeTag, id: Id): (r: DeleteOutcome<V>)
    ensures r.found <==> Contains(s, tag, id)
    // A miss changes nothing and raises nothing.
    ensures !r.found ==> r.store == s && r.events == [] && r.deliveries == []
    // A hit raises one Delete carrying the value being removed, while the
    // entry is still present, then removes exactly that entry; revision,
    // timestamp and version stay as they were.
    ensures r.found ==>
      && r.events == [Event(Action.Delete, id, Entries(s, tag)[id])]
      && r.deliveries == RaiseEvent(s, tag, r.events[0])
      && r.seenByListeners == s
      && r.store.tables.Keys == s.tables.Keys
      && r.store.listeners == s.listeners
      && (forall t :: t in s.tables && t != tag ==> r.store.tables[t] == s.tables[t])
      && r.store.tables[tag].entries == Entries(s, tag) - {id}
      && GetMetadata(r.store, tag) == GetMetadata(s, tag)
  {
    if tag in s.tables && id in s.tables[tag].entries then
      var table := s.tables[tag];
      var e := Event(Action.Delete, id, table.entries[id]);
      var removed := table.(entries := table.entries - {id});
      DeleteOutcome(s.(tables := s.tables[tag := removed]), true, [e], RaiseEvent(s, tag, e), s)
    else
      DeleteOutcome(s, false, [], [], s)
  }

  /** `AddListener<T>(callback)`: appends to `tag`'s list, creating it if
      needed. */
  function AddListener<V>(s: Store<V>, tag: TypeTag, cb: Callback): (r: Store<V>)
    ensures ListenersOf(r, tag) == ListenersOf(s, tag) + [cb]
    ensures r.tables == s.tables
    ensures forall t :: t != tag ==> ListenersOf(r, t) == ListenersOf(s, t)
  {
    var list := if tag in s.listeners then s.listeners[tag] else [];
    s.(listeners := s.listeners[tag := list + [cb]])
  }

  /** `RemoveListener<T>(callback)`: removes the first registration of
      `callback` from `tag`'s list; nothing happens for a type without a
      list. */
  function RemoveListener<V>(s: Store<V>, tag: TypeTag, cb: Callback): (r: Store<V>)
    ensures tag !in s.listeners ==> r == s
    ensures cb in ListenersOf(s, tag) ==>
      var i := IndexOf(ListenersOf(s, tag), cb);
      ListenersOf(r, tag) == ListenersOf(s, tag)[..i] + ListenersOf(s, tag)[i + 1..]
    ensures cb !in ListenersOf(s, tag) ==> ListenersOf(r, tag) == ListenersOf(s, tag)
    ensures r.tables == s.tables
    ensures forall t :: t != tag ==> ListenersOf(r, t) == ListenersOf(s, t)
  {
    if tag in s.listeners then
      s.(listeners := s.listeners[tag := RemoveFirst(s.listeners[tag], cb)])
    else s
  }
}
