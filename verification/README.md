# Persistence engine — Dafny model

This project models the core of the `Persistence` class from LegendaryTools.Persistence (`Core/Persistence.cs`). That core is a typed in-memory object store: one data table per value type, each holding identifier-to-value entries plus a `Version`, a `Revision` and a `Timestamp`. The model covers:

- the create/read/update/delete contract (`Set`, `Get`, `Contains`, `GetMetadata`, `GetCollection`, `Delete`), with the `-1` "no version" sentinel, refusal of version downgrades, fresh-identifier generation and the Add/Update choice;
- the listener registry (`AddListener`, `RemoveListener`, `RaiseEvent`) and the order in which callbacks are invoked;
- the byte and string post-processing stages applied around serialization (`SavePostProcessBinary`, `LoadPostProcessBinary`, `SavePostProcessString`, `LoadPostProcessString`) and the `CanEncrypt` switch.

Every mutating operation is a pure function. `Set` and `Delete` return an outcome record holding the new state together with:

- the identifier or flag the C# method returns;
- the events it raised, as `(action, id, value)`;
- the callback invocations those events caused, in order;
- the state the callbacks could observe while they ran.

The registry operations `AddListener` and `RemoveListener` raise nothing and return only the new state.

Modules:

- `Tables` (`tables.dfy`): C# `int` as `int32` with the wrapping `++`, clock readings, identifiers, type tags and the table record.
- `Listeners` (`listeners.dfy`): callbacks, delivery of one event to a callback list, and `List<T>.Remove`.
- `Persistence` (`persistence.dfy`): the store and its operations.
- `PersistenceProperties` (`persistence_properties.dfy`): lemmas relating the operations, including runs of successive `Set` calls.
- `InterfaceDefaults` (`interface_defaults.dfy`): `Set` called with its optional arguments left out (see Findings).
- `PostProcess` (`post_process.dfy`): the save/load transforms.

Modelling choices:

- The values stored are a type parameter `V`, standing for C# `object`. The `(T)` casts are dropped.
- The runtime type used as a dictionary key is a `TypeTag`.
- `default(T)` returned by `Get` on a miss is a caller-supplied `zero`.
- `default(DateTime)` is tick 0.
- `DateTime.UtcNow` is a `now` argument. Both clock reads inside one `Set` (lines 77 and 111) are taken to be the same reading. A freshly created table can never be a downgrade, so the stored timestamp is always the second reading. The callbacks of that call, however, run between the two reads (lines 97, 107) and could see the first one; the model shows them `now` (see Left out). No order between the readings of successive calls is assumed.
- `Guid.NewGuid()` is a `freshId` argument. It must be non-empty and not already a key of the table, which models the uniqueness of a GUID.
- `Version` and `Revision` are 32-bit. `Revision++` wraps at `int.MaxValue` (unchecked arithmetic). Lemmas that count revisions state "no wrap" as a hypothesis.
- A delegate is a `Callback`, either `Handler(handle)` or `Null`. A handle stands for one `Delegate.Equals` equivalence class (same target and method list), which is how `List.Remove` matches callbacks (line 323). So removing a delegate built afresh from the same method removes an earlier registration of it. `AddListener` accepts a null delegate. `RaiseEvent` skips it (`callback?.Invoke`). `RemoveListener(null)` removes the first null.
- Encryption, GZip, Base64 and UTF-8 are function values held in the `Pipeline` record. The round-trip lemmas take "decrypt undoes encrypt", "decompress undoes compress", "Base64 decoding undoes encoding" and "UTF-8 decoding undoes encoding" as hypotheses. Each is required only when the stage that needs it is active.

Behaviour of the code that the model keeps as written:

- `Delete` leaves `Revision` and `Timestamp` unchanged (Core/Persistence.cs:158-172).
- `Set` raises its event after writing the entry but before updating `Revision`, `Timestamp` and `Version` (lines 97, 107 against 110-112).
- `Delete` raises its event before removing the entry (lines 165-166).
- The `seenByListeners` field of each outcome records the state the callbacks can read while they run.
- An explicit negative version other than `-1` is accepted. On a new table it becomes the table's version.

## Model

| member | source | states |
|---|---|---|
| Tables.Increment | Core/Persistence.cs:110 | `Revision++` is `+1` modulo 2^32: exactly one more below `int.MaxValue`, wrapping at it |
| Listeners.Live | Core/Persistence.cs:333-336 | the callbacks invoked are the non-null registered ones, in list order, each as many times as it was registered |
| Listeners.Deliver | Core/Persistence.cs:327-338 | the k-th invocation goes to the k-th live callback and every invocation carries the same (action, id, value) |
| Listeners.LiveConcat | Core/Persistence.cs:307-315 | callbacks appended later are invoked after those registered earlier |
| Listeners.DeliverConcat | Core/Persistence.cs:327-338 | delivering to a list registered in two batches delivers to the first batch, then to the second |
| Listeners.IndexOf | Core/Persistence.cs:323 | the position found is an occurrence of the callback with no earlier occurrence |
| Listeners.RemoveFirst | Core/Persistence.cs:323 | `List.Remove` drops exactly the first equal element and keeps the order of the rest; without a match the list is unchanged |
| Listeners.RemoveFirstAfterAppend | Core/Persistence.cs:307-325 | removing a callback just appended, and not registered before, restores the list |
| Persistence.RaiseEvent | Core/Persistence.cs:327-338 | one invocation per live callback of the type, the k-th going to the k-th live callback in registration order, each with the raised event; none for a type without a list |
| Persistence.Set | Core/Persistence.cs:67-115 | downgrade iff nothing raised, and a downgrade changes nothing and returns the caller's id; otherwise the table exists, only entry `r.id` is written, an empty unused id is always replaced by a fresh non-empty one that was not a key, and any other id is returned as given, exactly one Update (key existed) or Add, revision +1, timestamp now, version the explicit one or kept, never below the base; other tables and listener lists unchanged; callbacks see the new entries with the old revision, timestamp and version, and every other table as it was |
| Persistence.Get | Core/Persistence.cs:117-129 | the stored value for a known id, the default otherwise, including for an unknown type |
| Persistence.Contains | Core/Persistence.cs:174-183 | true exactly when the identifier is a key of the type's table; false for a type never stored |
| Persistence.GetMetadata | Core/Persistence.cs:131-140 | `(-1, -1, default)` for a type never stored, otherwise the table's version, revision and timestamp |
| Persistence.GetCollection | Core/Persistence.cs:142-156 | the keys are exactly those `Contains` reports, and each value is the one stored |
| Persistence.Delete | Core/Persistence.cs:158-172 | found iff `Contains`; a miss changes and raises nothing; a hit raises one Delete with the pre-removal value while the entry is still visible, removes only that entry, and leaves metadata, other tables and listeners unchanged |
| Persistence.AddListener | Core/Persistence.cs:307-315 | the callback is appended to the type's list, created if absent; tables and other lists unchanged |
| Persistence.RemoveListener | Core/Persistence.cs:317-325 | the first registration of the callback is removed from the type's list; no-op for a type without a list or a callback not registered |
| PersistenceProperties.SetThenGet | Core/Persistence.cs:94-129 | after a successful Set, Get with the returned id yields the value and Contains holds; every other id of the type reads as before |
| PersistenceProperties.SetLeavesOtherTypes | Core/Persistence.cs:67-115 | a Set on one type leaves every other type's metadata, collection and listener list unchanged |
| PersistenceProperties.DowngradeIsRejected | Core/Persistence.cs:85-91 | an explicit version below the stored one returns the given id and leaves metadata and collection unchanged, with no event |
| PersistenceProperties.FirstSetCreatesTable | Core/Persistence.cs:71-84 | the first Set of a type yields metadata `(version or 0, 1, now)`, one Add, and a one-entry collection |
| PersistenceProperties.SetVersionAndRevision | Core/Persistence.cs:81-112 | a Set never lowers a stored version, and a successful one adds exactly 1 to the revision when it does not wrap |
| PersistenceProperties.StoredTypeIsKnown | Core/Persistence.cs:131-140 | from a non-negative revision below `int.MaxValue`, a successful Set leaves a revision of at least 1, so the metadata differs from the never-stored answer (a loaded table with a negative revision can still read as never stored) |
| PersistenceProperties.SetKeepsValid | Core/Persistence.cs:94-108 | the empty id never becomes a key, and a successful Set in a valid store returns a non-empty id |
| PersistenceProperties.DeleteKeepsValid | Core/Persistence.cs:158-172 | Delete keeps the empty id out of every table |
| PersistenceProperties.DeleteThenContains | Core/Persistence.cs:158-183 | after Delete, Contains is false and Get yields the default for that id; other ids and types read as before; no metadata changes |
| PersistenceProperties.CollectionAgreesWithGet | Core/Persistence.cs:117-183 | GetCollection agrees with Get and Contains, and is empty for an unknown type |
| PersistenceProperties.RunCountsRevisions | Core/Persistence.cs:67-115 | after successive Sets with explicit non-decreasing versions, the metadata is the last version, the base revision plus the number of calls, and the last clock reading |
| PersistenceProperties.RunNeverLowersVersion | Core/Persistence.cs:81-112 | over any run of Sets, whatever versions are passed, a stored table's version never goes down |
| PersistenceProperties.RunKeepsValid | Core/Persistence.cs:94-108 | no run of Sets makes the empty id a key |
| PersistenceProperties.LifeOfOneType | Core/Persistence.cs:67-140 | the first Set with an empty id and version 1 generates the id and reads `(1, 1, t1)`; the next Set on it is an Update reading `(1, 2, t2)`; a Set with version 0 is refused and returns the id |
| PersistenceProperties.AddListenerDeliversLast | Core/Persistence.cs:307-338 | a callback added by AddListener is invoked after all earlier ones; a null one adds no invocation |
| PersistenceProperties.RegistrationOrderIsDeliveryOrder | Core/Persistence.cs:307-338 | registering A then B makes the next successful Set invoke every earlier registration, then A, then B, with that Set's event; on a type with no listeners yet, A and B are invoked once each, in that order |
| PersistenceProperties.TwoAddsDeliverInOrder | Core/Persistence.cs:307-338 | two handlers added in turn are invoked after every earlier registration, in the order they were added |
| PersistenceProperties.AddThenRemoveListener | Core/Persistence.cs:307-325 | RemoveListener right after AddListener of a new callback restores the type's list |
| InterfaceDefaults.SetThroughInterface | Core/Persistence.cs:12 | leaving the version out through the interface raises nothing exactly when the type's table has a version above 0 |
| InterfaceDefaults.InterfaceDefaultDropsValue | Core/Persistence.cs:12 | on a table with version 1 or more, the interface-default call drops the value, changes nothing and returns the empty id |
| InterfaceDefaults.SetWithDefaults | Core/Persistence.cs:67 | with the class's defaults, Set is never refused |
| InterfaceDefaults.DefaultsStoreValue | Core/Persistence.cs:67-115 | with the class's defaults the call is never refused: Get returns the value and the version is kept; the value is added under a fresh non-empty id with one Add, unless the table already has `""` as a key (possible only for loaded data), in which case that entry is updated; in a store where no table has the empty id as a key, the id returned is never empty |
| PostProcess.CanEncrypt | Core/Persistence.cs:52 | encryption is in effect exactly when it is switched on and a provider exists: never without a provider, never while switched off, always with both |
| PostProcess.SavePostProcessBinary | Core/Persistence.cs:340-349 | with neither encryption nor compression active, the bytes pass through unchanged (the order of active stages is stated by `EncryptedStageOrder` and `CompressionOnlyStage`) |
| PostProcess.LoadPostProcessBinary | Core/Persistence.cs:351-360 | with neither stage active, the bytes pass through unchanged (the order of active stages is stated by `EncryptedStageOrder` and `CompressionOnlyStage`) |
| PostProcess.SavePostProcessString | Core/Persistence.cs:362-379 | with neither stage active, the text passes through unchanged (the active path is stated by `EncryptedStringStageOrder` and `StringPathWrapsBinaryPath`) |
| PostProcess.LoadPostProcessString | Core/Persistence.cs:381-398 | with neither stage active, the text passes through unchanged (the active path is stated by `EncryptedStringStageOrder` and `StringPathWrapsBinaryPath`) |
| PostProcess.EncryptedStageOrder | Core/Persistence.cs:340-360 | with encryption switched on and a provider given, saving encrypts and then compresses when GZip is on; loading decompresses when GZip is on and then decrypts |
| PostProcess.CompressionOnlyStage | Core/Persistence.cs:340-360 | without encryption in effect and with GZip on, saving is exactly compression and loading exactly decompression |
| PostProcess.EncryptedStringStageOrder | Core/Persistence.cs:362-398 | with encryption in effect, saving text is UTF-8, encrypt, optional compress, Base64, and loading is Base64, optional decompress, decrypt, UTF-8, in that order |
| PostProcess.BinaryRoundTrip | Core/Persistence.cs:340-360 | loading what was saved returns the original bytes under every switch combination, given that each active stage is inverted by its partner |
| PostProcess.StringRoundTrip | Core/Persistence.cs:362-398 | loading what was saved returns the original text under every switch combination, given the byte stages and, when active, Base64 and UTF-8 invert |
| PostProcess.StringPathWrapsBinaryPath | Core/Persistence.cs:362-398 | when a stage is active, the text path is the binary path wrapped in UTF-8 and Base64 |
| PostProcess.ProviderIgnoredWhenSwitchedOff | Core/Persistence.cs:52 | with encryption switched off the provider is never consulted |

## Left out

- `Save`, `Load`, `SaveAsync`, `LoadAsync` and the `IsBusy` flag (Core/Persistence.cs:189-305): they dispatch on the runtime capabilities of external serializers and storage, and perform asynchronous I/O. Only the pure post-processing stages they call are modelled.
- The `OnBeforeSerialize`/`OnAfterSerialized`/`OnBeforeDeserialize`/`OnAfterDeserialize` loops (Core/Persistence.cs:400-446): they only invoke callbacks on stored values.
- The constructor's initial `Load()` (Core/Persistence.cs:57-65): I/O. `EmptyStore` stands for a store that loaded nothing.
- `Debug.LogError` on a refused downgrade (Core/Persistence.cs:89): the message itself is not modelled.
- Null values: `V` has no null. In C#, a refused downgrade of a `null` value throws `NullReferenceException` while building the log message (`dataToSave.GetType()`, line 89) instead of returning `id` (line 90). The model always returns `id` on a refused downgrade.
- Multicast delegates: a callback that combines several methods is recorded as one delivery, not one per method it invokes.
- The callbacks of a `Set` that creates a table can read the creation timestamp taken at line 77 through `GetMetadata`; `seenByListeners` shows them `now`, because both clock reads of one call are one argument.
- Strings with lone surrogates: Dafny's `char` cannot hold a surrogate, so such C# strings are not representable. For them the real UTF-8 encode/decode round trip fails (.NET replaces lone surrogates), so the string round trip would not hold.
- Callbacks re-entering the engine, and exceptions thrown by a callback: invocations are recorded, not run. `seenByListeners` states what a re-entrant callback would read.
- Reference semantics of stored values: `V` is an immutable value, while C# `object` is a reference. `Get`, `GetCollection` (a shallow copy) and the callbacks hand out the stored object itself, so a caller that mutates it changes the entry without any event, revision or timestamp change. The model has no such aliasing.
- Null identifiers: identifiers are non-null strings. In C# a null id would make the dictionary lookups throw.
- Dictionary enumeration order in `GetCollection`: a map has none, and the order of a C# `Dictionary` is not part of its contract.
- Encryption provider, `GZipUtility`, `Base64Utility` and `Encoding.UTF8`: library code that is not part of this model. They are function values, and their round-trip behaviour appears only as hypotheses.
- Serialization.cs, Serialization/OdinBinaryProvider.cs and Core/IPersistence.cs: wrappers over external serializers and file I/O, and an interface with no behaviour.

## Findings

| source | as written | input that shows it | evidently intended | confidence | as-written member | corrected member |
|---|---|---|---|---|---|---|
| Core/Persistence.cs:12 | the interface declares `version = 0` as Set's default, while the class declares `-1`, the "no version" sentinel (line 67); C# takes defaults from the static type of the call | a table whose version is 1, then `Set(value)` through an `IPersistence` reference: the call passes version 0, is refused as a downgrade, drops the value and returns `""` | the interface default should be `-1`, so that leaving the version out keeps the table's version and stores the value | medium, not executed | InterfaceDefaults.InterfaceDefaultDropsValue | InterfaceDefaults.DefaultsStoreValue |
