# Config library: a Dafny model

This project models the core of SuperMartijn642's config library for Minecraft mods. The library has three parts:

- **Schema builder.** `ModConfigBuilder` lets a mod declare typed configuration values under categories. Each value can carry modifiers: a comment, "requires a game restart" and "do not sync".
- **Config module.** `ModConfig` is built from the declared values.
  - It derives the *updatable* values (no restart needed), the *syncable* values and an index from path to value.
  - It refreshes the values from the persistence backend and keeps a path-to-value snapshot of the syncable ones.
  - It accepts overrides routed by path from the server, and it can clear those overrides again.
- **Registry.** `ConfigLib` registers modules under unique identifiers, broadcasts lifecycle events to them, sends one sync packet per module with syncable values, and dispatches incoming packets by identifier.

The files are:

- `outcomes.dfy`: `Option`, `Result`, `Outcome` and the `Error` kinds. An exception that propagates becomes a `Fail`/`Err` result and leaves the state unchanged. The read failure caught at `ConfigLib.java:102` becomes `FailureLogged`, and the entries before it stay applied.
- `values.dfy`: the value record `ConfigValue`. It holds an immutable `Declaration`, the stored value and an optional synced override.
- `config.dfy`: the class `ModConfig` and the functions that specify it:
  - `Where`: the order-preserving filters;
  - `PathIndex`: the path index;
  - `Snapshot`: the sync snapshot;
  - `Refreshed`, `ClearedSyncable`, `WithSyncValue`, `ApplyEntries`: the effects of the operations;
  - `WriteSyncableEntries`: the entry writer.
- `library.dfy`: the class `ConfigLib` and the packet writer `WriteSyncedEntriesPacket`.
- `builder.dfy`: the class `ModConfigBuilder` and the pure helpers `GetPath` and `PoppedCategory`.
- `scenario.dfy`: one mod followed end to end, server to client. On the server, "maxPlayers" is 30 and "debugMode" is true; neither is at its default. The client reads 30 while connected, keeps its own debugMode (false), and reads 10 again once the overrides are cleared.

### How the model is built

- Objects the source mutates in place are Dafny classes: the builder, a config module and the registry. Each method states its whole new state.
- The value objects of a `ModConfig` are records held in the sequence `values`.
  - `updatableValues`, `syncableValues` and `valuesByPath` point at those objects in the source. Here they hold positions into `values`, so they alias the same values the way the Java lists do.
  - `Valid()` ties the positions to `Where` and `PathIndex`.
- The persistence backend is a parameter `read` (path, initial flag).
- The network buffer is a sequence of tokens with a capacity. A token is `Utf(identifier)` or `Pair(path, value)`.
- The iteration order of the snapshot's `HashMap` is a parameter `order` that lists every key exactly once (`IsKeyOrder`).

### Different versions of the library

The three files come from three versions of the library. `ModConfigBuilder.java` is from an older Forge version: it imports `net.minecraftforge.common.config.Configuration` and reads `Minecraft.getMinecraft().mcDataDir`. `ModConfig.java` is from a later Forge version that uses `net.minecraftforge.fml.config.ModConfig.Type`. `ConfigLib.java` is from a Fabric version that uses a generic `ModConfig<?>`. This is why the constructor calls do not match: `ModConfigBuilder.java:160` calls a four-argument `ModConfig` constructor, but `ModConfig.java:36` takes three. In the model, a config is built from the identifier, the modid, the kind and the values.

`ConfigLib.java` calls several members that the Forge `ModConfig.java` does not define, so the model supplies each:

| member used by `ConfigLib.java` | in the model |
|---|---|
| `getIdentifier` | a field of the config |
| `hasSyncableEntries` | true when the syncable subset is non-empty; `HasSyncableEntriesIff` proves what that means |
| `writeSyncableEntries` | writes the `valuesToSync` snapshot, one entry per key |
| `readSyncableValues` | applies entries through `setSyncValue` until the first token that is not an entry |

### Duplicate paths

The source does not reject duplicate paths.

- The path index is last-write-wins, as `PathIndexSound` proves.
- `DuplicatePathBreaksRoundTrip` shows that the sent value for such a path reaches the later, non-syncable duplicate and not the receiver's syncable value.
- `DuplicatePathOverrideSurvivesClear` exhibits a syncable value and a non-syncable value that share one path. The override goes to the non-syncable one, and `clearSyncedValues` then leaves that override in place.
- The round-trip lemmas therefore assume distinct paths (`UniquePaths`).

## Model

| member | source | states |
|---|---|---|
| Config.Where | src/main/java/com/supermartijn642/configlib/ModConfig.java:40-44 | The updatable and syncable lists hold exactly the positions of values in the subset: in range, strictly increasing (declaration order), and complete |
| Config.ModConfig.constructor | src/main/java/com/supermartijn642/configlib/ModConfig.java:36-47 | After construction the updatable and syncable lists are the order-preserving filters of the values and the index is the path index; values and declarations are the given list; the snapshot is empty |
| Config.PathIndexSound | src/main/java/com/supermartijn642/configlib/ModConfig.java:45 | Every key of valuesByPath names a value with that path, and no later value has that path (last-write-wins) |
| Config.PathIndexCovers | src/main/java/com/supermartijn642/configlib/ModConfig.java:45 | Every declared path is a key of valuesByPath |
| Config.UniquePathIndex | src/main/java/com/supermartijn642/configlib/ModConfig.java:45 | With distinct paths, the index maps each path to the position of its own value |
| Config.PathIndex | src/main/java/com/supermartijn642/configlib/ModConfig.java:45 | valuesByPath maps every key to a position in range; what it holds is stated by PathIndexSound, PathIndexCovers and UniquePathIndex |
| Config.Refreshed | src/main/java/com/supermartijn642/configlib/ModConfig.java:59-65 | On the initial update every value re-reads its stored value; on a later update only values that need no restart do, and restart-required values are unchanged; overrides and declarations are kept |
| Config.ModConfig.UpdateValues | src/main/java/com/supermartijn642/configlib/ModConfig.java:57-71 | The values become Refreshed(old values) and the snapshot is rebuilt from scratch over the syncable values |
| Config.ModConfig.RefreshAll | src/main/java/com/supermartijn642/configlib/ModConfig.java:59-61 | The loop over all values leaves them equal to Refreshed with initial = true, and leaves the snapshot untouched |
| Config.ModConfig.RefreshUpdatable | src/main/java/com/supermartijn642/configlib/ModConfig.java:62-65 | The loop over the updatable values leaves all values equal to Refreshed with initial = false, and leaves the snapshot untouched |
| Config.TakeSnapshot | src/main/java/com/supermartijn642/configlib/ModConfig.java:67-69 | The loop that clears valuesToSync and puts each listed value under its path leaves exactly Snapshot(values, list) |
| Config.SnapshotHasSyncable | src/main/java/com/supermartijn642/configlib/ModConfig.java:67-69 | Every syncable value's path is a snapshot key; with distinct paths it maps to that value's get() |
| Config.Snapshot | src/main/java/com/supermartijn642/configlib/ModConfig.java:67-69 | valuesToSync built from a list of positions; its keys and values are stated by SnapshotLast, SnapshotKeys, SnapshotCovers and SnapshotOfSyncable |
| Config.SnapshotLast | src/main/java/com/supermartijn642/configlib/ModConfig.java:67-69 | A listed value with no later listed value on the same path is in the snapshot under its path with its effective value |
| Config.SnapshotKeys | src/main/java/com/supermartijn642/configlib/ModConfig.java:67-69 | Every snapshot key is the path of a listed value |
| Config.SnapshotCovers | src/main/java/com/supermartijn642/configlib/ModConfig.java:67-69 | The path of every listed value is a snapshot key |
| Config.SnapshotOfSyncable | src/main/java/com/supermartijn642/configlib/ModConfig.java:67-69 | After updateValues the snapshot keys are exactly the syncable paths (both directions); with distinct paths each maps to that value's get() |
| Config.WithSyncValue | src/main/java/com/supermartijn642/configlib/ModConfig.java:77-83 | An unknown path changes nothing; a known path gives the indexed value that override and changes no other value |
| Config.ModConfig.SetSyncValue | src/main/java/com/supermartijn642/configlib/ModConfig.java:77-83 | The values become WithSyncValue(old values, path, x); the snapshot is untouched |
| Config.ClearedSyncable | src/main/java/com/supermartijn642/configlib/ModConfig.java:85-90 | Every syncable value loses its override (its get() becomes its stored value); every non-syncable value is unchanged |
| Config.ModConfig.ClearSyncedValues | src/main/java/com/supermartijn642/configlib/ModConfig.java:85-90 | The loop over the syncable values leaves the values equal to ClearedSyncable(old values) and leaves the snapshot untouched |
| Config.ClearSyncedValuesIdempotent | src/main/java/com/supermartijn642/configlib/ModConfig.java:85-90 | Clearing the synced values twice is the same as clearing them once |
| Config.DuplicatePathOverrideSurvivesClear | src/main/java/com/supermartijn642/configlib/ModConfig.java:45 | With a syncable and a non-syncable value on one path, an override routed by path survives clearSyncedValues |
| Config.DuplicatePathBreaksRoundTrip | src/main/java/com/supermartijn642/configlib/ModConfig.java:45 | With a syncable and a later non-syncable value on one path, the snapshot sent holds the syncable value, but applying its entry on a receiver leaves the receiver's syncable value with its own get() and gives the sent value to the non-syncable duplicate |
| Config.ModConfig.HasSyncableEntries | src/main/java/com/supermartijn642/configlib/ConfigLib.java:59 | True when the syncable list is non-empty; HasSyncableEntriesIff states what that means for the declarations |
| Values.ConfigValue.Get | src/main/java/com/supermartijn642/configlib/ModConfig.java:69 | The effective value is the synced override when there is one, otherwise the stored value; its meaning is fixed by the contracts of UpdateValue, SetSyncedValue and ClearSyncedValue |
| Values.ConfigValue.UpdateValue | src/main/java/com/supermartijn642/configlib/ModConfig.java:59-64 | The stored value becomes what the backend holds for the path; declaration and override are kept, and without an override get() returns the new stored value |
| Values.ConfigValue.SetSyncedValue | src/main/java/com/supermartijn642/configlib/ModConfig.java:81 | After setting a synced value, the override holds it and get() returns it; declaration and stored value are kept |
| Values.ConfigValue.ClearSyncedValue | src/main/java/com/supermartijn642/configlib/ModConfig.java:88 | After clearing, there is no override and get() returns the stored value again; declaration and stored value are kept |
| Values.NewValue | src/main/java/com/supermartijn642/configlib/ModConfigBuilder.java:112-133 | A value as the builder creates it carries its declaration, has no override, and get() returns the declaration's default |
| Config.HasSyncableEntriesIff | src/main/java/com/supermartijn642/configlib/ConfigLib.java:59 | A config has syncable entries iff at least one of its declarations is synced |
| Config.Write | src/main/java/com/supermartijn642/configlib/ConfigLib.java:86 | A write succeeds iff the buffer has room, and then appends exactly the token |
| Config.WriteSyncableEntries | src/main/java/com/supermartijn642/configlib/ConfigLib.java:88 | Writing the entries succeeds iff all of them fit, and then appends one entry per snapshot key in iteration order |
| Config.EntryPrefix | src/main/java/com/supermartijn642/configlib/ConfigLib.java:100-104 | The length of the leading run of entries: all tokens before it are entries, the token at it is not |
| Config.ModConfig.ReadSyncableValues | src/main/java/com/supermartijn642/configlib/ConfigLib.java:100-104 | Reports success iff every token is an entry; the values become the old values with the leading entries applied in order (partial application stays); the snapshot is untouched |
| Config.ApplyEntries | src/main/java/com/supermartijn642/configlib/ModConfig.java:77-83 | The values after setSyncValue for each entry in turn keep their length; their content is stated by ApplyEntriesEffect |
| Config.EntryTokens | src/main/java/com/supermartijn642/configlib/ConfigLib.java:88 | One entry per listed key, in the listed order, each carrying the snapshot's value for that key |
| Config.ApplyEntriesEffect | src/main/java/com/supermartijn642/configlib/ModConfig.java:77-83 | With distinct paths, applying a run of entries gives each value the override of the last entry for its path (or keeps its old override) and changes nothing else |
| Config.LastOverrideOfSnapshot | src/main/java/com/supermartijn642/configlib/ConfigLib.java:88 | Entries written from a snapshot leave each written path with the snapshot's value and every other path with its earlier override |
| Config.EntryPrefixOfEntries | src/main/java/com/supermartijn642/configlib/ConfigLib.java:100-101 | A run made only of entries is read to its end |
| Config.SyncRoundTrip | src/main/java/com/supermartijn642/configlib/ModConfig.java:67-83 | Entries written from a sender's snapshot and applied to a receiver with the same distinct declarations give every syncable value the sender's get() and leave every other value exactly as it was |
| Library.WithSyncableEntries | src/main/java/com/supermartijn642/configlib/ConfigLib.java:59-61 | The syncable list holds only registered configs with syncable entries, and holds every such config |
| Library.WithSyncableEntriesIsSubsequence | src/main/java/com/supermartijn642/configlib/ConfigLib.java:57-61 | The syncable list is a subsequence of the registration list: its configs sit at increasing registration positions |
| Library.ConfigLib.constructor | src/main/java/com/supermartijn642/configlib/ConfigLib.java:26-29 | The registry starts empty and valid |
| Library.ConfigLib.AddConfig | src/main/java/com/supermartijn642/configlib/ConfigLib.java:53-63 | Fails iff the identifier is taken, with DuplicateConfig and all four collections unchanged; otherwise appends to CONFIGS and CONFIG_NAMES and, iff the config has syncable entries, to the syncable list and index; registry validity is preserved |
| Library.RegisteredConfigsDistinct | src/main/java/com/supermartijn642/configlib/ConfigLib.java:53-58 | In a valid registry no config is registered twice |
| Library.SyncableConfigsRegistered | src/main/java/com/supermartijn642/configlib/ConfigLib.java:57-62 | Every syncable config is registered and has syncable entries; every registered config with syncable entries is found in the index under its own identifier |
| Library.IdentifiersSnoc | src/main/java/com/supermartijn642/configlib/ConfigLib.java:57-58 | Appending a config adds exactly its identifier to the set of identifiers |
| Library.ConfigLib.Broadcast | src/main/java/com/supermartijn642/configlib/ConfigLib.java:67-73 | One hook call per registered config, in registration order |
| Library.ConfigLib.OnLoadGame | src/main/java/com/supermartijn642/configlib/ConfigLib.java:67-69 | onJoinGame is called once on every registered config, in registration order |
| Library.ConfigLib.OnLeaveGame | src/main/java/com/supermartijn642/configlib/ConfigLib.java:71-73 | onLeaveGame is called once on every registered config, in registration order |
| Library.ConfigLib.SendSyncConfigPackets | src/main/java/com/supermartijn642/configlib/ConfigLib.java:79-82 | One packet per syncable config, in registration order |
| Library.WriteSyncedEntriesPacket | src/main/java/com/supermartijn642/configlib/ConfigLib.java:84-92 | The identifier is written first, then the entries; a failure writing the identifier is BufferOverflow, and a failure writing the entries becomes WriteEntriesFailed(identifier) |
| Library.ConfigLib.HandleSyncConfigPacket | src/main/java/com/supermartijn642/configlib/ConfigLib.java:94-106 | A missing identifier is MalformedPacket; an unknown one is UnknownConfig and no config changes; for a known one only that config's values change, by its leading entries, and a read failure is reported as FailureLogged instead of propagating |
| Library.PacketRoundTrip | src/main/java/com/supermartijn642/configlib/ConfigLib.java:84-104 | A packet a sender writes is read fully by a receiver with the same distinct declarations, gives every syncable value the sender's get() and leaves every other value as it was |
| Builder.ModConfigBuilder.constructor | src/main/java/com/supermartijn642/configlib/ModConfigBuilder.java:18-35 | A new builder has no values, no category comments, no category, no comment, no restart flag and the sync flag; the kind defaults to COMMON |
| Builder.ModConfigBuilder.Push | src/main/java/com/supermartijn642/configlib/ModConfigBuilder.java:41-49 | An empty category fails with nothing changed; otherwise the category is set only when none is active, and nothing else changes |
| Builder.LastIndexOf | src/main/java/com/supermartijn642/configlib/ModConfigBuilder.java:58 | The result is -1 or a position holding the character, with no occurrence after it |
| Builder.PoppedCategory | src/main/java/com/supermartijn642/configlib/ModConfigBuilder.java:58-62 | Without a dot the category becomes empty; otherwise it is the prefix before the last dot |
| Builder.ModConfigBuilder.Pop | src/main/java/com/supermartijn642/configlib/ModConfigBuilder.java:54-63 | With no active category it fails and nothing changes; otherwise only the category changes, to PoppedCategory |
| Builder.ModConfigBuilder.CategoryComment | src/main/java/com/supermartijn642/configlib/ModConfigBuilder.java:69-80 | Fails, in the source's order, on an empty comment, on no active category, or on an already-commented category, changing nothing; otherwise adds exactly one map entry for the active category |
| Builder.ModConfigBuilder.GameRestart | src/main/java/com/supermartijn642/configlib/ModConfigBuilder.java:85-87 | Only the restart flag changes, to true |
| Builder.ModConfigBuilder.DontSync | src/main/java/com/supermartijn642/configlib/ModConfigBuilder.java:92-94 | Only the sync flag changes, to false |
| Builder.ModConfigBuilder.Comment | src/main/java/com/supermartijn642/configlib/ModConfigBuilder.java:100-109 | Fails on an empty comment or while a pending comment is unconsumed, changing nothing; otherwise only the pending comment changes |
| Builder.GetPath | src/main/java/com/supermartijn642/configlib/ModConfigBuilder.java:139-146 | Fails iff the name is empty; the path is the name alone with no category, else category, a dot, then the name |
| Builder.PopInvertsGetPath | src/main/java/com/supermartijn642/configlib/ModConfigBuilder.java:58-62 | Popping the path of a dot-free name gives back the category it was defined in |
| Builder.ModConfigBuilder.Define | src/main/java/com/supermartijn642/configlib/ModConfigBuilder.java:111-137 | An empty name fails before anything is appended, so values and modifiers stay unchanged; otherwise exactly one value is appended at the end, at GetPath's path, with the pending comment and flags and its default value; the modifiers are reset and the category and comments are kept |
| Builder.Reset | src/main/java/com/supermartijn642/configlib/ModConfigBuilder.java:148-152 | The pending comment becomes empty, restart false and sync true; nothing else changes |
| Builder.ModConfigBuilder.ResetValues | src/main/java/com/supermartijn642/configlib/ModConfigBuilder.java:148-152 | The builder state becomes Reset(old state) |
| Builder.ModConfigBuilder.Build | src/main/java/com/supermartijn642/configlib/ModConfigBuilder.java:160-164 | A fresh config is made from the declared values and given the initial update; it is registered, which fails iff its identifier is taken |
| Scenario.SyncStory | src/main/java/com/supermartijn642/configlib/ConfigLib.java:79-104 | For the maxPlayers/debugMode mod the client reads 30 while connected, keeps its own false debugMode, and reads 10 after clearing |

## Left out

- Java `null` checks on arguments (`push`, `comment`, `categoryComment`, `getPath`) are left out: Dafny strings cannot be null.
- `ModConfigBuilder.build`'s file path, the Forge `Configuration` object and `build(Configuration)` are left out. These are foreign persistence calls. `Build` models only the making, initial update and registration of the config.
- The persistence backend is the parameter `read`. Writing values back and the Forge declarations of categories and comments are not modelled.
- The byte encoding of the network buffer (`writeUtf`/`readUtf` and the per-value codecs inside `ModConfigValue`) is left out. ModConfigValue.java and ConfigSyncPacket.java are not part of this model.
- The buffer is a token sequence with a capacity. The failures it models are running out of capacity on a write, a token that is not an entry while reading entries, and a packet that is empty or does not start with a `Utf` identifier (`MalformedPacket`).
- Value validation and clamping (the bounds of integer and floating values, enum constants) belong to `ModConfigValue`, whose implementation is outside this model. `UpdateValue` stores whatever the backend returns, and floating values are modelled as `real`.
- `Values.ConfigValue.SetSyncedValue`: accepts any `Value`, with no check of its type or bounds against the declaration, so an integer override can land on a boolean declaration. Whatever checks `ModConfigValue`'s own `setSyncedValue` makes are outside this model.
- `Library.ConfigLib.AddConfig`: does not model the call to `config.initialize()`, which the Forge `ModConfig.java` does not define.
- `Library.ConfigLib.Broadcast`: `onJoinGame` and `onLeaveGame` are not defined in the Forge `ModConfig.java`, so the broadcast returns the sequence of hook calls instead of running them. Clearing overrides on disconnect is done directly with `ClearSyncedValues` in the scenario.
- The host glue is left out:
  - event registration in the `ConfigLib` constructor;
  - `onInitialize`;
  - `isClientEnvironment`, `isServerEnvironment` and `getConfigFolder`;
  - `onPlayerJoinServer`;
  - `ServerConfigurationNetworking.send`, whose place is taken by the returned packet list.
- Concurrency is left out: the `synchronized` on `addConfig` and ModConfig's `threadLock`. Every operation is modelled as sequential and atomic.
- Logging is left out: the logged read failure is the result `FailureLogged`.
- The mapping of `ModConfig.Type` to Forge types is pass-through, so only the three kinds are kept.
- `getModid`, `getType` and `getValuesToSync` are plain getters, so they are the fields `modid`, `kind` and `valuesToSync`.
- `Builder.ModConfigBuilder.Define`: the four Java overloads are one method taking an `Entry`. The returned `Supplier` is the position of the new value in declaration order, and reading it is `values[position].Get()` on the built config.
- The `HashMap` iteration order of `valuesToSync` and of the category comments is not modelled. Entries are written in any order `IsKeyOrder` admits.
- Wire order: a positional format (one value per syncable entry in declaration order, with no path) is not modelled. The model follows `ModConfig.java`, which keeps `valuesToSync` as a path-to-value map and routes incoming values by path (`setSyncValue`). It therefore sends `Pair(path, value)` entries in the map's iteration order.
- Read failures: a per-value skip, where a value that fails to decode is logged and the rest of the message is still decoded, is not modelled. The model has the single `try`/`catch` of `ConfigLib.java:100-104` around the whole read. Reading stops at the first token that is not an entry, and the entries before it stay applied.
- `Builder.ModConfigBuilder.Build`: the source hands its own `allValues` list to the config (`ModConfigBuilder.java:160`, stored at `ModConfig.java:39`), so a `define` after `build()` would grow the config's value list but not its derived lists. The model copies the sequence, so a later `Define` never changes a built config.
- `Config.SyncRoundTrip` and `Library.PacketRoundTrip`: these require distinct paths, because with duplicate paths the source does not round-trip: `DuplicatePathBreaksRoundTrip` shows the receiver's syncable value keeping its own value while the sent value lands on a non-syncable duplicate.
