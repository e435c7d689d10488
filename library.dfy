/** ConfigLib: the process-wide registry of config modules, its lifecycle broadcasts, and the
    sending and receiving of sync packets. */
module Library {
  import opened Outcomes
  import opened Values
  import opened Config

  function Identifiers(cs: seq<ModConfig>): set<string> {
    set i | 0 <= i < |cs| :: cs[i].identifier
  }

  ghost predicate DistinctIdentifiers(cs: seq<ModConfig>) {
    forall i, j :: 0 <= i < j < |cs| ==> cs[i].identifier != cs[j].identifier
  }

  /** The configs that have syncable entries, in registration order. */
  function WithSyncableEntries(cs: seq<ModConfig>): (r: seq<ModConfig>)
    ensures forall k :: 0 <= k < |r| ==> r[k] in cs && r[k].HasSyncableEntries()
    ensures forall i :: 0 <= i < |cs| && cs[i].HasSyncableEntries() ==> cs[i] in r
  {
    if cs == [] then []
    else
      var n := |cs| - 1;
      assert forall i :: 0 <= i < n ==> cs[..n][i] == cs[i];
      WithSyncableEntries(cs[..n]) + (if cs[n].HasSyncableEntries() then [cs[n]] else [])
  }

  /** The positions in cs at which a filter keeps its elements, in increasing order. */
  ghost predicate KeptAt(cs: seq<ModConfig>, r: seq<ModConfig>, p: seq<nat>) {
    && |p| == |r|
    && (forall k :: 0 <= k < |p| ==> p[k] < |cs| && r[k] == cs[p[k]])
    && (forall k, m :: 0 <= k < m < |p| ==> p[k] < p[m])
  }

  /** The syncable list is a subsequence of the registry: its configs appear in registration order. */
  lemma {:induction false} WithSyncableEntriesIsSubsequence(cs: seq<ModConfig>)
    ensures exists p :: KeptAt(cs, WithSyncableEntries(cs), p)
  {
    if cs == [] {
      var p: seq<nat> := [];
      assert KeptAt(cs, WithSyncableEntries(cs), p);
    } else {
      var n := |cs| - 1;
      WithSyncableEntriesIsSubsequence(cs[..n]);
      var front := WithSyncableEntries(cs[..n]);
      var q :| KeptAt(cs[..n], front, q);
      var r := WithSyncableEntries(cs);
      var p := if cs[n].HasSyncableEntries() then q + [n] else q;
      assert r == front + (if cs[n].HasSyncableEntries() then [cs[n]] else []);
      assert forall k :: 0 <= k < |q| ==> q[k] < n && cs[q[k]] == front[k];
      assert KeptAt(cs, r, p);
    }
  }

  /** A lifecycle hook of a config module, and one call of it made by a broadcast. */
  datatype Hook = JoinGame | LeaveGame
  datatype HookCall = HookCall(hook: Hook, config: ModConfig)

  /** A packet queued for a joining player: the config whose entries it will carry. */
  datatype SyncPacket = SyncPacket(config: ModConfig)

  /** What handleSyncConfigPacket did with the entries of a known config. */
  datatype ReadStatus = AllRead | FailureLogged

  /** The state of the registry, for stating what an operation leaves unchanged. */
  datatype Registry = Registry(configs: seq<ModConfig>, names: set<string>,
                               syncable: seq<ModConfig>, byIdentifier: map<string, ModConfig>)

  class ConfigLib {
    /** CONFIGS, CONFIG_NAMES, SYNCABLE_CONFIGS and SYNCABLE_CONFIGS_BY_IDENTIFIER. */
    var configs: seq<ModConfig>
    var configNames: set<string>
    var syncableConfigs: seq<ModConfig>
    var syncableById: map<string, ModConfig>

    ghost function State(): Registry
      reads this
    {
      Registry(configs, configNames, syncableConfigs, syncableById)
    }

    ghost predicate Valid()
      reads this, configs
    {
      && configNames == Identifiers(configs)
      && DistinctIdentifiers(configs)
      && syncableConfigs == WithSyncableEntries(configs)
      && syncableById.Keys == Identifiers(syncableConfigs)
      && (forall id :: id in syncableById ==> syncableById[id].identifier == id && syncableById[id] in syncableConfigs)
      && (forall c :: c in configs ==> c.Valid())
    }

    constructor ()
      ensures Valid() && configs == [] && configNames == {} && syncableConfigs == [] && syncableById == map[]
    {
      configs, configNames, syncableConfigs, syncableById := [], {}, [], map[];
    }

    /** Registers a config: refused when its identifier is taken, otherwise appended to the registry
        and, when it has syncable entries, to the syncable list and index. */
    method AddConfig(config: ModConfig) returns (r: Outcome)
      requires Valid() && config.Valid()
      modifies this
      ensures Valid()
      ensures r.Fail? <==> config.identifier in old(configNames)
      ensures r.Fail? ==> r.error == DuplicateConfig(config.identifier) && State() == old(State())
      ensures r.Pass? ==> configs == old(configs) + [config] && configNames == old(configNames) + {config.identifier}
      ensures r.Pass? ==> syncableConfigs == if config.HasSyncableEntries() then old(syncableConfigs) + [config] else old(syncableConfigs)
      ensures r.Pass? ==> syncableById == if config.HasSyncableEntries() then old(syncableById)[config.identifier := config] else old(syncableById)
    {
      if config.identifier in configNames {
        return Fail(DuplicateConfig(config.identifier));
      }
      IdentifiersSnoc(configs, config);
      configs := configs + [config];
      configNames := configNames + {config.identifier};
      if config.HasSyncableEntries() {
        IdentifiersSnoc(syncableConfigs, config);
        syncableConfigs := syncableConfigs + [config];
        syncableById := syncableById[config.identifier := config];
      }
      r := Pass;
    }

    /** Calls one hook on every registered config, in registration order. */
    method Broadcast(hook: Hook) returns (calls: seq<HookCall>)
      ensures |calls| == |configs|
      ensures forall i :: 0 <= i < |configs| ==> calls[i] == HookCall(hook, configs[i])
    {
      calls := [];
      for i := 0 to |configs|
        invariant |calls| == i
        invariant forall j :: 0 <= j < i ==> calls[j] == HookCall(hook, configs[j])
      {
        calls := calls + [HookCall(hook, configs[i])];
      }
    }

    method OnLoadGame() returns (calls: seq<HookCall>)
      ensures |calls| == |configs|
      ensures forall i :: 0 <= i < |configs| ==> calls[i] == HookCall(JoinGame, configs[i])
    {
      calls := Broadcast(JoinGame);
    }

    method OnLeaveGame() returns (calls: seq<HookCall>)
      ensures |calls| == |configs|
      ensures forall i :: 0 <= i < |configs| ==> calls[i] == HookCall(LeaveGame, configs[i])
    {
      calls := Broadcast(LeaveGame);
    }

    /** The packets sent to a joining player: one per syncable config, in registration order. */
    method SendSyncConfigPackets() returns (packets: seq<SyncPacket>)
      ensures |packets| == |syncableConfigs|
      ensures forall k :: 0 <= k < |syncableConfigs| ==> packets[k] == SyncPacket(syncableConfigs[k])
    {
      packets := [];
      for k := 0 to |syncableConfigs|
        invariant |packets| == k
        invariant forall j :: 0 <= j < k ==> packets[j] == SyncPacket(syncableConfigs[j])
      {
        packets := packets + [SyncPacket(syncableConfigs[k])];
      }
    }

    /** Reads the identifier; an unknown one is an error and touches no config. For a known one the
        entries are read into that config, and a failure while reading them is caught. */
    method HandleSyncConfigPacket(buffer: seq<Token>) returns (r: Result<ReadStatus>)
      requires Valid()
      modifies syncableById.Values
      ensures Valid() && State() == old(State())
      ensures forall c :: c in configs ==> c.valuesToSync == old(c.valuesToSync)
      ensures (buffer == [] || !buffer[0].Utf?) ==>
                r == Err(MalformedPacket) && forall c :: c in configs ==> c.values == old(c.values)
      ensures buffer != [] && buffer[0].Utf? && buffer[0].s !in syncableById ==>
                r == Err(UnknownConfig(buffer[0].s)) && forall c :: c in configs ==> c.values == old(c.values)
      ensures buffer != [] && buffer[0].Utf? && buffer[0].s in syncableById ==>
                var target := syncableById[buffer[0].s];
                var entries := buffer[1..];
                && target.values == ApplyEntries(old(target.values), target.byPath, entries[..EntryPrefix(entries)])
                && r == Ok(if EntryPrefix(entries) == |entries| then AllRead else FailureLogged)
                && forall c :: c in configs && c != target ==> c.values == old(c.values)
    {
      if buffer == [] || !buffer[0].Utf? {
        return Err(MalformedPacket);
      }
      var identifier := buffer[0].s;
      if identifier !in syncableById {
        return Err(UnknownConfig(identifier));
      }
      var config := syncableById[identifier];
      assert config in configs;
      var ok := config.ReadSyncableValues(buffer[1..]);
      assert forall c :: c in configs ==> c.Valid() && c.valuesToSync == old(c.valuesToSync);
      r := Ok(if ok then AllRead else FailureLogged);
    }
  }

  /** No config is registered twice, so a broadcast visits each registered config exactly once. */
  lemma RegisteredConfigsDistinct(lib: ConfigLib)
    requires lib.Valid()
    ensures forall i, j :: 0 <= i < j < |lib.configs| ==> lib.configs[i] != lib.configs[j]
  {
  }

  /** The syncable list holds exactly the registered configs that have syncable entries, each once,
      and the index finds each of them under its own identifier. */
  lemma SyncableConfigsRegistered(lib: ConfigLib)
    requires lib.Valid()
    ensures forall k :: 0 <= k < |lib.syncableConfigs| ==>
              lib.syncableConfigs[k] in lib.configs && lib.syncableConfigs[k].HasSyncableEntries()
    ensures forall i :: 0 <= i < |lib.configs| && lib.configs[i].HasSyncableEntries() ==>
              lib.configs[i].identifier in lib.syncableById && lib.syncableById[lib.configs[i].identifier] == lib.configs[i]
  {
    forall i | 0 <= i < |lib.configs| && lib.configs[i].HasSyncableEntries()
      ensures lib.configs[i].identifier in lib.syncableById && lib.syncableById[lib.configs[i].identifier] == lib.configs[i]
    {
      var c := lib.configs[i];
      assert c in lib.syncableConfigs;
      var k :| 0 <= k < |lib.syncableConfigs| && lib.syncableConfigs[k] == c;
      assert c.identifier in Identifiers(lib.syncableConfigs);
      var d := lib.syncableById[c.identifier];
      assert d in lib.configs;
      var j :| 0 <= j < |lib.configs| && lib.configs[j] == d;
      assert d.identifier == c.identifier;
    }
  }

  lemma IdentifiersSnoc(cs: seq<ModConfig>, c: ModConfig)
    ensures Identifiers(cs + [c]) == Identifiers(cs) + {c.identifier}
  {
    var both := cs + [c];
    forall id | id in Identifiers(both) ensures id in Identifiers(cs) + {c.identifier} {
      var i :| 0 <= i < |both| && both[i].identifier == id;
      if i < |cs| { assert cs[i] == both[i]; }
    }
    forall id | id in Identifiers(cs) ensures id in Identifiers(both) {
      var i :| 0 <= i < |cs| && cs[i].identifier == id;
      assert both[i] == cs[i];
    }
    assert both[|cs|] == c;
  }

  /** writeSyncedEntriesPacket: the identifier first, then the config's entries. A failure writing the
      identifier propagates as it is; a failure writing the entries becomes WriteEntriesFailed. */
  function WriteSyncedEntriesPacket(packet: SyncPacket, capacity: nat, order: seq<string>): (r: Result<seq<Token>>)
    reads packet.config
    requires IsKeyOrder(order, packet.config.valuesToSync)
    ensures capacity == 0 ==> r == Err(BufferOverflow)
    ensures 0 < capacity < 1 + |order| ==> r == Err(WriteEntriesFailed(packet.config.identifier))
    ensures 1 + |order| <= capacity ==>
              r == Ok([Utf(packet.config.identifier)] + EntryTokens(packet.config.valuesToSync, order))
  {
    var config := packet.config;
    match Write([], capacity, Utf(config.identifier))
    case Err(e) => Err(e)
    case Ok(buffer) =>
      assert buffer == [Utf(config.identifier)];
      match WriteSyncableEntries(buffer, capacity, config.valuesToSync, order)
      case Err(_) => Err(WriteEntriesFailed(config.identifier))
      case Ok(written) => Ok(written)
  }

  /** Round trip of one packet: what a sender whose snapshot is current writes is read back by a
      receiver with the same declarations (and distinct paths) without a read failure, gives every
      syncable value the sender's effective value and leaves every other value as it was. */
  lemma {:induction false} PacketRoundTrip(sender: ModConfig, receiver: ModConfig, capacity: nat, order: seq<string>)
    requires sender.Valid() && receiver.Valid() && receiver.schema == sender.schema && UniquePaths(sender.schema)
    requires sender.valuesToSync == Snapshot(sender.values, sender.syncable)
    requires IsKeyOrder(order, sender.valuesToSync) && 1 + |order| <= capacity
    ensures var packet := WriteSyncedEntriesPacket(SyncPacket(sender), capacity, order);
      && packet.Ok? && packet.value != [] && packet.value[0] == Utf(sender.identifier)
      && var entries := packet.value[1..];
      && EntryPrefix(entries) == |entries|
      && var after := ApplyEntries(receiver.values, receiver.byPath, entries);
      && |after| == |sender.schema|
      && forall i :: 0 <= i < |sender.schema| ==>
           if sender.schema[i].sync then after[i].Get() == sender.values[i].Get() else after[i] == receiver.values[i]
  {
    var packet := WriteSyncedEntriesPacket(SyncPacket(sender), capacity, order);
    var entries := EntryTokens(sender.valuesToSync, order);
    assert packet.value[1..] == entries;
    EntryPrefixOfEntries(entries);
    SyncRoundTrip(sender.values, receiver.values, sender.schema, order);
  }
}
