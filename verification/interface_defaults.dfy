/** `Set` called with its optional arguments left out. C# takes default
    argument values from the static type of the call: the inline
    `IPersistence` declares `version = 0` (Core/Persistence.cs:12) while the
    class `Persistence` declares `version = -1` (Core/Persistence.cs:67).
    The same call therefore means "keep the table's version" through the
    class and "explicit version 0" through the interface. */
module InterfaceDefaults {
  import opened Tables
  import opened Listeners
  import opened Persistence
  import opened PersistenceProperties

  /** The version the interface supplies when the caller gives none. */
  const InterfaceDefaultVersion: int32 := 0

  /** `IPersistence.Set(value)`, as written: empty id, version 0. */
  function SetThroughInterface<V>(s: Store<V>, tag: TypeTag, value: V, now: Time, freshId: Id): (r: SetOutcome<V>)
    requires FreshOk(s, tag, freshId)
    ensures r.events == [] <==> tag in s.tables && s.tables[tag].version > 0
  {
    Set(s, tag, value, EmptyId, InterfaceDefaultVersion, now, freshId)
  }

  /** As written, leaving the version out through the interface on a table
      whose version is above 0 is refused as a downgrade: the value is
      dropped, nothing is raised, and the empty identifier is returned. */
  lemma InterfaceDefaultDropsValue<V>(s: Store<V>, tag: TypeTag, value: V, now: Time, freshId: Id)
    requires FreshOk(s, tag, freshId)
    requires tag in s.tables && s.tables[tag].version >= 1
    ensures var r := SetThroughInterface(s, tag, value, now, freshId);
      && r.id == EmptyId
      && r.store == s
      && r.events == []
      && GetCollection(r.store, tag) == GetCollection(s, tag)
  {
  }

  /** `Set(value)` with the class's defaults, which the interface's default
      evidently means: empty id, no explicit version. */
  function SetWithDefaults<V>(s: Store<V>, tag: TypeTag, value: V, now: Time, freshId: Id): (r: SetOutcome<V>)
    requires FreshOk(s, tag, freshId)
    ensures r.events != []
  {
    Set(s, tag, value, EmptyId, NoVersion, now, freshId)
  }

  /** With the class's defaults the call is never refused: `Get` returns
      the value and the table keeps its version. The value is added under a
      fresh non-empty identifier unless the table already has the empty
      identifier as a key (only a loaded table can), in which case that
      entry is updated. */
  lemma DefaultsStoreValue<V>(s: Store<V>, tag: TypeTag, value: V, now: Time, freshId: Id, zero: V)
    requires FreshOk(s, tag, freshId)
    ensures var r := SetWithDefaults(s, tag, value, now, freshId);
      && Get(r.store, tag, r.id, zero) == value
      && GetMetadata(r.store, tag).version == BaseVersion(s, tag, NoVersion)
      && (EmptyId !in Entries(s, tag) ==>
            && r.id != EmptyId && r.id !in Entries(s, tag)
            && r.events == [Event(Add, r.id, value)])
      && (EmptyId in Entries(s, tag) ==>
            r.id == EmptyId && r.events == [Event(Update, EmptyId, value)])
    ensures Valid(s) ==> SetWithDefaults(s, tag, value, now, freshId).id != EmptyId
  {
  }
}
