/**
 * The synchronization story of one mod "m" end to end: "maxPlayers" (an integer, default 10, bounds
 * 1 to 50, synced) and "debugMode" (a boolean, default false, not synced, needs a restart). The server's
 * file holds maxPlayers = 30 and debugMode = true; the client's file holds the defaults.
 */
module Scenario {
  import opened Outcomes
  import opened Values
  import opened Config
  import opened Library
  import opened Builder

  const MaxPlayers := Declaration("maxPlayers", "", false, true, IntegerEntry(10, 1, 50))
  const DebugMode := Declaration("debugMode", "", true, false, BooleanEntry(false))

  /** The server's file: maxPlayers = 30, debugMode = true. */
  function ServerFile(path: string, initial: bool): Value {
    if path == "maxPlayers" then IntegerValue(30) else BooleanValue(true)
  }

  /** The client's file: the defaults. */
  function ClientFile(path: string, initial: bool): Value {
    if path == "maxPlayers" then IntegerValue(10) else BooleanValue(false)
  }

  /** The mod's declarations, made through a fresh builder. */
  method Declare(b: ModConfigBuilder)
    requires b.Valid() && b.State() == BuilderState([], map[], "", "", false, true)
    modifies b
    ensures b.Valid() && b.allValues == [NewValue(MaxPlayers), NewValue(DebugMode)]
  {
    var r := b.Define("maxPlayers", IntegerEntry(10, 1, 50));
    b.GameRestart();
    b.DontSync();
    r := b.Define("debugMode", BooleanEntry(false));
  }

  /** The mod's derived lists: only maxPlayers is syncable, and each path indexes its own value. */
  lemma ModLists()
    ensures Where([MaxPlayers, DebugMode], Syncable) == [0]
    ensures PathIndex([MaxPlayers, DebugMode]) == map["maxPlayers" := 0, "debugMode" := 1]
  {
    var schema := [MaxPlayers, DebugMode];
    assert schema[..0] == [] && schema[..2] == schema;
    assert InSubset(MaxPlayers, Syncable) && !InSubset(DebugMode, Syncable);
    WhereSnoc(schema, 0, Syncable);
    WhereSnoc(schema, 1, Syncable);
    PathIndexSnoc(schema, 0);
    PathIndexSnoc(schema, 1);
  }

  /** The snapshot of the mod's values holds maxPlayers' effective value alone. */
  lemma ModSnapshot(values: seq<ConfigValue>)
    requires |values| == 2 && values[0].decl == MaxPlayers
    ensures Snapshot(values, [0]) == map["maxPlayers" := values[0].Get()]
  {
    var idxs: seq<nat> := [0];
    assert idxs[..0] == [] && idxs[..1] == idxs;
    SnapshotSnoc(values, idxs, 0);
  }

  /** The initial update of the mod's declared values reads both from the file. */
  lemma ModRefreshed(read: Backend)
    ensures Declarations([NewValue(MaxPlayers), NewValue(DebugMode)]) == [MaxPlayers, DebugMode]
    ensures Refreshed([NewValue(MaxPlayers), NewValue(DebugMode)], true, read) ==
              [ConfigValue(MaxPlayers, read("maxPlayers", true), None), ConfigValue(DebugMode, read("debugMode", true), None)]
  {
    var declared := [NewValue(MaxPlayers), NewValue(DebugMode)];
    assert Declarations(declared) == [MaxPlayers, DebugMode];
    var refreshed := Refreshed(declared, true, read);
    assert refreshed[0] == ConfigValue(MaxPlayers, read("maxPlayers", true), None);
    assert refreshed[1] == ConfigValue(DebugMode, read("debugMode", true), None);
  }

  /** A fresh builder holding the mod's declarations. */
  method DeclaredMod() returns (b: ModConfigBuilder)
    ensures fresh(b) && b.Valid() && b.modid == "m" && b.allValues == [NewValue(MaxPlayers), NewValue(DebugMode)]
  {
    b := new ModConfigBuilder("m");
    Declare(b);
  }

  /** A built config for "m" with the given file, registered in a fresh registry. */
  method BuildMod(read: Backend) returns (lib: ConfigLib, config: ModConfig)
    ensures fresh(lib) && fresh(config) && lib.Valid() && config.Valid()
    ensures lib.syncableConfigs == [config] && lib.syncableById == map["m" := config]
    ensures config.identifier == "m" && config.byPath == map["maxPlayers" := 0, "debugMode" := 1]
    ensures config.values == [ConfigValue(MaxPlayers, read("maxPlayers", true), None),
                              ConfigValue(DebugMode, read("debugMode", true), None)]
    ensures config.valuesToSync == map["maxPlayers" := read("maxPlayers", true)]
  {
    lib := new ConfigLib();
    var b := DeclaredMod();
    var r;
    config, r := b.Build(lib, "m", read);
    ModRefreshed(read);
    ModLists();
    ModSnapshot(config.values);
    assert config.HasSyncableEntries();
  }

  /** The server builds the mod from its file and writes the one packet a joining player gets. */
  method ServerPacket() returns (packet: seq<Token>)
    ensures packet == [Utf("m"), Pair("maxPlayers", IntegerValue(30))]
  {
    var serverLib, server := BuildMod(ServerFile);
    var packets := serverLib.SendSyncConfigPackets();
    assert packets == [SyncPacket(server)];
    assert IsKeyOrder(["maxPlayers"], server.valuesToSync);
    var written := WriteSyncedEntriesPacket(packets[0], 16, ["maxPlayers"]);
    assert EntryTokens(server.valuesToSync, ["maxPlayers"]) == [Pair("maxPlayers", IntegerValue(30))];
    assert written == Ok([Utf("m")] + [Pair("maxPlayers", IntegerValue(30))]);
    packet := written.value;
  }

  /** The client reads 30 for maxPlayers while connected, keeps its own debugMode, and reads 10
      again once the synced values are cleared at disconnect. */
  method SyncStory() returns (connected: Value, debug: Value, disconnected: Value)
    ensures connected == IntegerValue(30)
    ensures debug == BooleanValue(false)
    ensures disconnected == IntegerValue(10)
  {
    var packet := ServerPacket();
    var clientLib, client := BuildMod(ClientFile);
    var r := clientLib.HandleSyncConfigPacket(packet);
    var entries := [Pair("maxPlayers", IntegerValue(30))];
    assert packet[1..] == entries;
    assert EntryPrefix(entries) == 1 && entries[..1] == entries;
    connected := client.values[0].Get();
    debug := client.values[1].Get();

    client.ClearSyncedValues();
    disconnected := client.values[0].Get();
  }
}
