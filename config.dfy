/** ModConfig: the values one mod declared, partitioned into the live-updatable and the syncable
    subsets, indexed by path, with the snapshot of syncable values that is sent to clients. */
module Config {
  import opened Outcomes
  import opened Values

  /** ModConfig.Type: a classification the persistence backend uses; no logic depends on it. */
  datatype ConfigType = Client | Server | Common

  /** The abstract contents of a packet buffer: a written string, or one (path, value) entry. */
  datatype Token = Utf(s: string) | Pair(path: string, value: Value)

  /** The two derived subsets of a module's values. */
  datatype Subset = Updatable | Syncable

  predicate InSubset(d: Declaration, s: Subset) {
    match s
    case Updatable => !d.restart
    case Syncable => d.sync
  }

  /** Positions of the declarations that belong to subset s, in declaration order:
      the order-preserving filter the constructor builds. */
  function Where(schema: seq<Declaration>, s: Subset): (r: seq<nat>)
    ensures forall k :: 0 <= k < |r| ==> r[k] < |schema| && InSubset(schema[r[k]], s)
    ensures forall k, m :: 0 <= k < m < |r| ==> r[k] < r[m]
    ensures forall i :: 0 <= i < |schema| && InSubset(schema[i], s) ==> i in r
  {
    if schema == [] then []
    else
      var n := |schema| - 1;
      Where(schema[..n], s) + (if InSubset(schema[n], s) then [n] else [])
  }

  /** One more declaration extends a filter by its position exactly when it is in the subset. */
  lemma WhereSnoc(schema: seq<Declaration>, i: nat, s: Subset)
    requires i < |schema|
    ensures Where(schema[..i + 1], s) == Where(schema[..i], s) + (if InSubset(schema[i], s) then [i] else [])
  {
    assert schema[..i + 1][..i] == schema[..i];
  }

  /** One more declaration adds its path to the index, at its own position. */
  lemma PathIndexSnoc(schema: seq<Declaration>, i: nat)
    requires i < |schema|
    ensures PathIndex(schema[..i + 1]) == PathIndex(schema[..i])[schema[i].path := i]
  {
    assert schema[..i + 1][..i] == schema[..i];
  }

  /** valuesByPath: every declared path, mapped to the position of the last declaration with that
      path (PathIndexSound, PathIndexCovers). */
  function PathIndex(schema: seq<Declaration>): (m: map<string, nat>)
    ensures forall p :: p in m ==> m[p] < |schema|
  {
    if schema == [] then map[]
    else
      var n := |schema| - 1;
      PathIndex(schema[..n])[schema[n].path := n]
  }

  /** A key of the index names a declaration with that path, and no later declaration has it:
      duplicate paths are last-write-wins. */
  lemma {:induction false} PathIndexSound(schema: seq<Declaration>, p: string)
    requires p in PathIndex(schema)
    ensures schema[PathIndex(schema)[p]].path == p
    ensures forall j :: PathIndex(schema)[p] < j < |schema| ==> schema[j].path != p
  {
    var n := |schema| - 1;
    if schema[n].path != p {
      PathIndexSound(schema[..n], p);
      assert schema[..n][PathIndex(schema[..n])[p]] == schema[PathIndex(schema)[p]];
    }
  }

  /** Every declared path is a key of the index. */
  lemma {:induction false} PathIndexCovers(schema: seq<Declaration>, i: nat)
    requires i < |schema|
    ensures schema[i].path in PathIndex(schema)
  {
    var n := |schema| - 1;
    if i < n {
      PathIndexCovers(schema[..n], i);
      assert schema[..n][i] == schema[i];
    }
  }

  ghost predicate UniquePaths(schema: seq<Declaration>) {
    forall i, j :: 0 <= i < j < |schema| ==> schema[i].path != schema[j].path
  }

  /** With distinct paths the index finds every value at its own position. */
  lemma UniquePathIndex(schema: seq<Declaration>, i: nat)
    requires UniquePaths(schema) && i < |schema|
    ensures schema[i].path in PathIndex(schema) && PathIndex(schema)[schema[i].path] == i
  {
    PathIndexCovers(schema, i);
    PathIndexSound(schema, schema[i].path);
  }

  function Declarations(vs: seq<ConfigValue>): (ds: seq<Declaration>)
    ensures |ds| == |vs| && forall i :: 0 <= i < |vs| ==> ds[i] == vs[i].decl
  {
    seq(|vs|, i requires 0 <= i < |vs| => vs[i].decl)
  }

  /** True when no later position of idxs carries the same path as position k. */
  ghost predicate LastWithPath(values: seq<ConfigValue>, idxs: seq<nat>, k: nat)
    requires k < |idxs| && forall m :: 0 <= m < |idxs| ==> idxs[m] < |values|
  {
    forall m :: k < m < |idxs| ==> values[idxs[m]].decl.path != values[idxs[k]].decl.path
  }

  /** valuesToSync: the path of every listed value, mapped to the current effective value of the
      last listed value with that path (SnapshotLast, SnapshotKeys, SnapshotCovers). */
  function Snapshot(values: seq<ConfigValue>, idxs: seq<nat>): map<string, Value>
    requires forall k :: 0 <= k < |idxs| ==> idxs[k] < |values|
  {
    if idxs == [] then map[]
    else
      var n := |idxs| - 1;
      var v := values[idxs[n]];
      Snapshot(values, idxs[..n])[v.decl.path := v.Get()]
  }

  /** The snapshot of the first k + 1 listed values adds the last of them to that of the first k. */
  lemma SnapshotSnoc(values: seq<ConfigValue>, idxs: seq<nat>, k: nat)
    requires forall m :: 0 <= m < |idxs| ==> idxs[m] < |values|
    requires k < |idxs|
    ensures Snapshot(values, idxs[..k + 1]) ==
              Snapshot(values, idxs[..k])[values[idxs[k]].decl.path := values[idxs[k]].Get()]
  {
    assert idxs[..k + 1][..k] == idxs[..k];
  }

  /** updateValues' second half: clears valuesToSync and puts every listed value under its path. */
  method TakeSnapshot(values: seq<ConfigValue>, idxs: seq<nat>) returns (snap: map<string, Value>)
    requires forall m :: 0 <= m < |idxs| ==> idxs[m] < |values|
    ensures snap == Snapshot(values, idxs)
  {
    snap := map[];
    for k := 0 to |idxs|
      invariant snap == Snapshot(values, idxs[..k])
    {
      SnapshotSnoc(values, idxs, k);
      var value := values[idxs[k]];
      snap := snap[value.decl.path := value.Get()];
    }
    assert idxs[..|idxs|] == idxs;
  }

  /** The last listed value with a path gives that path's snapshot entry. */
  lemma {:induction false} SnapshotLast(values: seq<ConfigValue>, idxs: seq<nat>, k: nat)
    requires forall m :: 0 <= m < |idxs| ==> idxs[m] < |values|
    requires k < |idxs| && LastWithPath(values, idxs, k)
    ensures values[idxs[k]].decl.path in Snapshot(values, idxs)
    ensures Snapshot(values, idxs)[values[idxs[k]].decl.path] == values[idxs[k]].Get()
  {
    var n := |idxs| - 1;
    if k < n {
      assert idxs[..n][k] == idxs[k];
      assert values[idxs[n]].decl.path != values[idxs[k]].decl.path;
      assert LastWithPath(values, idxs[..n], k);
      SnapshotLast(values, idxs[..n], k);
    }
  }

  /** Every key of the snapshot is the path of a listed value. */
  lemma {:induction false} SnapshotKeys(values: seq<ConfigValue>, idxs: seq<nat>, p: string)
    requires forall m :: 0 <= m < |idxs| ==> idxs[m] < |values|
    requires p in Snapshot(values, idxs)
    ensures exists k :: 0 <= k < |idxs| && values[idxs[k]].decl.path == p
  {
    var n := |idxs| - 1;
    if values[idxs[n]].decl.path != p {
      SnapshotKeys(values, idxs[..n], p);
      var k :| 0 <= k < n && values[idxs[..n][k]].decl.path == p;
      assert idxs[..n][k] == idxs[k];
    }
  }

  /** The path of every listed value is a key of the snapshot. */
  lemma {:induction false} SnapshotCovers(values: seq<ConfigValue>, idxs: seq<nat>, k: nat)
    requires forall m :: 0 <= m < |idxs| ==> idxs[m] < |values|
    requires k < |idxs|
    ensures values[idxs[k]].decl.path in Snapshot(values, idxs)
  {
    var n := |idxs| - 1;
    if k < n {
      SnapshotCovers(values, idxs[..n], k);
      assert idxs[..n][k] == idxs[k];
    }
  }

  /** The values after updateValues' refresh pass: every value when initial, otherwise only the
      values that need no restart. Overrides and declarations are untouched. */
  function Refreshed(vs: seq<ConfigValue>, initial: bool, read: Backend): (r: seq<ConfigValue>)
    ensures |r| == |vs|
    ensures forall i :: 0 <= i < |vs| ==> r[i].decl == vs[i].decl && r[i].override == vs[i].override
    ensures forall i :: 0 <= i < |vs| && (initial || !vs[i].decl.restart) ==>
              r[i].stored == read(vs[i].decl.path, initial)
    ensures forall i :: 0 <= i < |vs| && !initial && vs[i].decl.restart ==> r[i] == vs[i]
  {
    seq(|vs|, i requires 0 <= i < |vs| =>
      if initial || !vs[i].decl.restart then vs[i].UpdateValue(initial, read) else vs[i])
  }

  /** The values after clearSyncedValues: syncable values lose their override, the rest is untouched. */
  function ClearedSyncable(vs: seq<ConfigValue>): (r: seq<ConfigValue>)
    ensures |r| == |vs|
    ensures forall i :: 0 <= i < |vs| ==> r[i].decl == vs[i].decl && r[i].stored == vs[i].stored
    ensures forall i :: 0 <= i < |vs| && vs[i].decl.sync ==> r[i].override.None? && r[i].Get() == vs[i].stored
    ensures forall i :: 0 <= i < |vs| && !vs[i].decl.sync ==> r[i] == vs[i]
  {
    seq(|vs|, i requires 0 <= i < |vs| => if vs[i].decl.sync then vs[i].ClearSyncedValue() else vs[i])
  }

  lemma ClearSyncedValuesIdempotent(vs: seq<ConfigValue>)
    ensures ClearedSyncable(ClearedSyncable(vs)) == ClearedSyncable(vs)
  {
  }

  /** The values after setSyncValue(path, x): an unknown path changes nothing; a known path sets the
      override of the one value the index names and of no other. (An index naming a position past the
      end, which a valid config never has, also changes nothing.) */
  function WithSyncValue(values: seq<ConfigValue>, byPath: map<string, nat>, path: string, x: Value): (r: seq<ConfigValue>)
    ensures |r| == |values|
    ensures path !in byPath ==> r == values
    ensures path in byPath && byPath[path] < |values| ==> r[byPath[path]] == values[byPath[path]].SetSyncedValue(x)
    ensures path in byPath ==> forall j :: 0 <= j < |r| && j != byPath[path] ==> r[j] == values[j]
  {
    if path in byPath && byPath[path] < |values| then values[byPath[path] := values[byPath[path]].SetSyncedValue(x)] else values
  }

  /** The number of leading tokens that are entries. */
  function EntryPrefix(tokens: seq<Token>): (n: nat)
    ensures n <= |tokens|
    ensures forall k :: 0 <= k < n ==> tokens[k].Pair?
    ensures n < |tokens| ==> !tokens[n].Pair?
  {
    if tokens == [] || !tokens[0].Pair? then 0 else 1 + EntryPrefix(tokens[1..])
  }

  /** A run made only of entries is read to its end. */
  lemma {:induction false} EntryPrefixOfEntries(tokens: seq<Token>)
    requires forall k :: 0 <= k < |tokens| ==> tokens[k].Pair?
    ensures EntryPrefix(tokens) == |tokens|
  {
    if tokens != [] {
      EntryPrefixOfEntries(tokens[1..]);
    }
  }

  /** The values after setSyncValue has been applied to each entry in turn. */
  function ApplyEntries(values: seq<ConfigValue>, byPath: map<string, nat>, entries: seq<Token>): (r: seq<ConfigValue>)
    requires forall k :: 0 <= k < |entries| ==> entries[k].Pair?
    ensures |r| == |values|
  {
    if entries == [] then values
    else
      var n := |entries| - 1;
      WithSyncValue(ApplyEntries(values, byPath, entries[..n]), byPath, entries[n].path, entries[n].value)
  }

  /** The override left by a run of entries on the value at path: the last entry for that path wins. */
  function LastOverride(entries: seq<Token>, path: string, before: Option<Value>): Option<Value>
    requires forall k :: 0 <= k < |entries| ==> entries[k].Pair?
  {
    if entries == [] then before
    else
      var n := |entries| - 1;
      if entries[n].path == path then Some(entries[n].value) else LastOverride(entries[..n], path, before)
  }

  /** With distinct paths, applying entries gives each value exactly the override of the last entry
      for its path; everything else about every value stays. */
  lemma {:induction false} ApplyEntriesEffect(values: seq<ConfigValue>, schema: seq<Declaration>, entries: seq<Token>)
    requires |values| == |schema| && forall i :: 0 <= i < |values| ==> values[i].decl == schema[i]
    requires UniquePaths(schema)
    requires forall k :: 0 <= k < |entries| ==> entries[k].Pair?
    ensures var r := ApplyEntries(values, PathIndex(schema), entries);
      forall i :: 0 <= i < |values| ==>
        r[i].decl == values[i].decl && r[i].stored == values[i].stored &&
        r[i].override == LastOverride(entries, schema[i].path, values[i].override)
  {
    if entries != [] {
      var n := |entries| - 1;
      var index := PathIndex(schema);
      ApplyEntriesEffect(values, schema, entries[..n]);
      var before := ApplyEntries(values, index, entries[..n]);
      var p := entries[n].path;
      forall i | 0 <= i < |values|
        ensures ApplyEntries(values, index, entries)[i].decl == values[i].decl
        ensures ApplyEntries(values, index, entries)[i].stored == values[i].stored
        ensures ApplyEntries(values, index, entries)[i].override == LastOverride(entries, schema[i].path, values[i].override)
      {
        UniquePathIndex(schema, i);
        if p in index && index[p] == i {
          PathIndexSound(schema, p);
        } else {
          assert schema[i].path != p;
        }
      }
    }
  }

  /** True when order lists every key of snap exactly once: an iteration order of the map. */
  predicate IsKeyOrder(order: seq<string>, snap: map<string, Value>) {
    && (forall k :: 0 <= k < |order| ==> order[k] in snap)
    && (forall p :: p in snap ==> p in order)
    && (forall k, m :: 0 <= k < m < |order| ==> order[k] != order[m])
  }

  /** The entries written for a snapshot, in the given order. */
  function EntryTokens(snap: map<string, Value>, order: seq<string>): (t: seq<Token>)
    requires forall k :: 0 <= k < |order| ==> order[k] in snap
    ensures |t| == |order|
    ensures forall k :: 0 <= k < |order| ==> t[k] == Pair(order[k], snap[order[k]])
  {
    seq(|order|, k requires 0 <= k < |order| => Pair(order[k], snap[order[k]]))
  }

  /** Writing the first entry and then the rest writes all the entries. */
  lemma EntryTokensCons(snap: map<string, Value>, order: seq<string>, buffer: seq<Token>)
    requires order != [] && forall k :: 0 <= k < |order| ==> order[k] in snap
    ensures (buffer + [Pair(order[0], snap[order[0]])]) + EntryTokens(snap, order[1..]) == buffer + EntryTokens(snap, order)
  {
    var rest := EntryTokens(snap, order[1..]);
    var a := [Pair(order[0], snap[order[0]])] + rest;
    var b := EntryTokens(snap, order);
    forall k | 0 <= k < |a|
      ensures a[k] == b[k]
    {
      if k > 0 {
        assert a[k] == rest[k - 1] && order[1..][k - 1] == order[k];
      }
    }
    assert a == b;
    assert (buffer + [a[0]]) + rest == buffer + a;
  }

  /** An entry list written from a snapshot leaves, for every path, the snapshot's value when the
      path was written and the earlier override otherwise. */
  lemma {:induction false} LastOverrideOfSnapshot(snap: map<string, Value>, order: seq<string>, path: string, before: Option<Value>)
    requires forall k :: 0 <= k < |order| ==> order[k] in snap
    ensures LastOverride(EntryTokens(snap, order), path, before) == if path in order then Some(snap[path]) else before
  {
    if order != [] {
      var n := |order| - 1;
      assert EntryTokens(snap, order)[..n] == EntryTokens(snap, order[..n]);
      LastOverrideOfSnapshot(snap, order[..n], path, before);
      assert order == order[..n] + [order[n]];
    }
  }

  /** One write into a buffer of bounded capacity; a full buffer fails. */
  function Write(buffer: seq<Token>, capacity: nat, t: Token): (r: Result<seq<Token>>)
    ensures r.Ok? <==> |buffer| < capacity
    ensures r.Ok? ==> r.value == buffer + [t]
    ensures r.Err? ==> r.error == BufferOverflow
  {
    if |buffer| < capacity then Ok(buffer + [t]) else Err(BufferOverflow)
  }

  /** writeSyncableEntries: the snapshot's entries written one at a time, in the map's iteration order. */
  function WriteSyncableEntries(buffer: seq<Token>, capacity: nat, snap: map<string, Value>, order: seq<string>): (r: Result<seq<Token>>)
    requires |buffer| <= capacity
    requires forall k :: 0 <= k < |order| ==> order[k] in snap
    ensures r.Ok? <==> |buffer| + |order| <= capacity
    ensures r.Ok? ==> r.value == buffer + EntryTokens(snap, order)
    ensures r.Err? ==> r.error == BufferOverflow
    decreases |order|
  {
    if order == [] then Ok(buffer)
    else
      match Write(buffer, capacity, Pair(order[0], snap[order[0]]))
      case Err(e) => Err(e)
      case Ok(next) =>
        EntryTokensCons(snap, order, buffer);
        WriteSyncableEntries(next, capacity, snap, order[1..])
  }

  /** A syncable value's path is in the snapshot; with distinct paths it maps to that value's get(). */
  lemma {:induction false} SnapshotHasSyncable(values: seq<ConfigValue>, schema: seq<Declaration>, i: nat)
    requires |values| == |schema| && forall j :: 0 <= j < |values| ==> values[j].decl == schema[j]
    requires i < |schema| && schema[i].sync
    ensures schema[i].path in Snapshot(values, Where(schema, Syncable))
    ensures UniquePaths(schema) ==> Snapshot(values, Where(schema, Syncable))[schema[i].path] == values[i].Get()
  {
    var syn := Where(schema, Syncable);
    assert InSubset(schema[i], Syncable);
    var k :| 0 <= k < |syn| && syn[k] == i;
    SnapshotCovers(values, syn, k);
    if UniquePaths(schema) {
      assert LastWithPath(values, syn, k);
      SnapshotLast(values, syn, k);
    }
  }

  /** After updateValues the snapshot's keys are exactly the syncable paths; with distinct paths each
      syncable path maps to that value's effective value. */
  lemma {:induction false} SnapshotOfSyncable(values: seq<ConfigValue>, schema: seq<Declaration>, p: string)
    requires |values| == |schema| && forall i :: 0 <= i < |values| ==> values[i].decl == schema[i]
    ensures p in Snapshot(values, Where(schema, Syncable)) <==> exists i :: 0 <= i < |schema| && schema[i].sync && schema[i].path == p
    ensures UniquePaths(schema) ==> forall i :: 0 <= i < |schema| && schema[i].sync && schema[i].path == p ==>
              Snapshot(values, Where(schema, Syncable))[p] == values[i].Get()
  {
    var syn := Where(schema, Syncable);
    if p in Snapshot(values, syn) {
      SnapshotKeys(values, syn, p);
      var k :| 0 <= k < |syn| && values[syn[k]].decl.path == p;
      assert InSubset(schema[syn[k]], Syncable);
    }
    forall i | 0 <= i < |schema| && schema[i].sync
      ensures schema[i].path in Snapshot(values, syn)
      ensures UniquePaths(schema) ==> Snapshot(values, syn)[schema[i].path] == values[i].Get()
    {
      SnapshotHasSyncable(values, schema, i);
    }
  }

  /** Round trip of one sync: the entries written from a sender's snapshot, applied to a receiver
      with the same declarations and distinct paths, give every syncable value the sender's effective
      value and leave every other value exactly as it was. */
  lemma {:induction false} SyncRoundTrip(sent: seq<ConfigValue>, received: seq<ConfigValue>, schema: seq<Declaration>, order: seq<string>)
    requires |sent| == |schema| && forall i :: 0 <= i < |sent| ==> sent[i].decl == schema[i]
    requires |received| == |schema| && forall i :: 0 <= i < |received| ==> received[i].decl == schema[i]
    requires UniquePaths(schema)
    requires IsKeyOrder(order, Snapshot(sent, Where(schema, Syncable)))
    ensures var r := ApplyEntries(received, PathIndex(schema), EntryTokens(Snapshot(sent, Where(schema, Syncable)), order));
      forall i :: 0 <= i < |schema| ==>
        if schema[i].sync then r[i].Get() == sent[i].Get() else r[i] == received[i]
  {
    var snap := Snapshot(sent, Where(schema, Syncable));
    var entries := EntryTokens(snap, order);
    ApplyEntriesEffect(received, schema, entries);
    var r := ApplyEntries(received, PathIndex(schema), entries);
    forall i | 0 <= i < |schema|
      ensures if schema[i].sync then r[i].Get() == sent[i].Get() else r[i] == received[i]
    {
      var p := schema[i].path;
      LastOverrideOfSnapshot(snap, order, p, received[i].override);
      SnapshotOfSyncable(sent, schema, p);
    }
  }

  /** Duplicate paths are not rejected: with a syncable "a" declared before a non-syncable "a", the
      index routes an override to the non-syncable one, and clearSyncedValues leaves it in place. */
  lemma DuplicatePathOverrideSurvivesClear()
    ensures var schema := [Declaration("a", "", false, true, BooleanEntry(false)),
                           Declaration("a", "", false, false, BooleanEntry(false))];
      var vs := [NewValue(schema[0]), NewValue(schema[1])];
      var after := ClearedSyncable(WithSyncValue(vs, PathIndex(schema), "a", BooleanValue(true)));
      after[1].Get() == BooleanValue(true) && after[1].stored == BooleanValue(false)
  {
    var schema := [Declaration("a", "", false, true, BooleanEntry(false)),
                   Declaration("a", "", false, false, BooleanEntry(false))];
    assert schema[..1][..0] == [];
    assert PathIndex(schema) == map["a" := 1];
  }

  /** With the same two declarations on one path, sending the syncable value does not reach the
      receiver's syncable value: the entry for "a" lands on the non-syncable duplicate instead. */
  lemma DuplicatePathBreaksRoundTrip(sent: seq<ConfigValue>, recv: seq<ConfigValue>)
    requires var schema := [Declaration("a", "", false, true, BooleanEntry(false)),
                            Declaration("a", "", false, false, BooleanEntry(false))];
             |sent| == 2 && |recv| == 2 && Declarations(sent) == schema && Declarations(recv) == schema
    requires recv[0].Get() != sent[0].Get()
    ensures var schema := [Declaration("a", "", false, true, BooleanEntry(false)),
                           Declaration("a", "", false, false, BooleanEntry(false))];
      var snap := Snapshot(sent, Where(schema, Syncable));
      && snap == map["a" := sent[0].Get()]
      && var after := ApplyEntries(recv, PathIndex(schema), EntryTokens(snap, ["a"]));
         after[0] == recv[0] && after[0].Get() != sent[0].Get() && after[1].Get() == sent[0].Get()
  {
    var schema := [Declaration("a", "", false, true, BooleanEntry(false)),
                   Declaration("a", "", false, false, BooleanEntry(false))];
    assert sent[0].decl == schema[0] && sent[1].decl == schema[1];
    assert recv[0].decl == schema[0] && recv[1].decl == schema[1];
    assert schema[..0] == [] && schema[..2] == schema;
    WhereSnoc(schema, 0, Syncable);
    WhereSnoc(schema, 1, Syncable);
    PathIndexSnoc(schema, 0);
    PathIndexSnoc(schema, 1);
    var idxs: seq<nat> := [0];
    assert idxs[..0] == [] && idxs[..1] == idxs;
    SnapshotSnoc(sent, idxs, 0);
    var snap := Snapshot(sent, idxs);
    var entries := EntryTokens(snap, ["a"]);
    assert entries == [Pair("a", sent[0].Get())];
    assert entries[..0] == [];
  }

  class ModConfig {
    const identifier: string
    const modid: string
    const kind: ConfigType
    /** The declarations of values, in declaration order; fixed at construction. */
    const schema: seq<Declaration>
    /** updatableValues, as positions into values. */
    const updatable: seq<nat>
    /** syncableValues, as positions into values. */
    const syncable: seq<nat>
    /** valuesByPath, as positions into values. */
    const byPath: map<string, nat>
    var values: seq<ConfigValue>
    var valuesToSync: map<string, Value>

    ghost predicate Valid()
      reads this
    {
      && |values| == |schema|
      && (forall i :: 0 <= i < |values| ==> values[i].decl == schema[i])
      && updatable == Where(schema, Updatable)
      && syncable == Where(schema, Syncable)
      && byPath == PathIndex(schema)
    }

    /** hasSyncableEntries: at least one value is syncable. */
    predicate HasSyncableEntries() {
      |syncable| > 0
    }

    constructor (identifier: string, modid: string, kind: ConfigType, values: seq<ConfigValue>)
      ensures Valid()
      ensures this.identifier == identifier && this.modid == modid && this.kind == kind
      ensures this.values == values && schema == Declarations(values) && valuesToSync == map[]
    {
      var s := Declarations(values);
      var upd: seq<nat>, syn: seq<nat>, index: map<string, nat> := [], [], map[];
      for i := 0 to |values|
        invariant upd == Where(s[..i], Updatable)
        invariant syn == Where(s[..i], Syncable)
        invariant index == PathIndex(s[..i])
      {
        var value := values[i];
        WhereSnoc(s, i, Updatable);
        WhereSnoc(s, i, Syncable);
        PathIndexSnoc(s, i);
        if !value.decl.restart {
          upd := upd + [i];
        }
        if value.decl.sync {
          syn := syn + [i];
        }
        index := index[value.decl.path := i];
      }
      assert s[..|values|] == s;
      this.identifier := identifier;
      this.modid := modid;
      this.kind := kind;
      this.schema := s;
      this.updatable := upd;
      this.syncable := syn;
      this.byPath := index;
      this.values := values;
      this.valuesToSync := map[];
    }

    /** Refreshes every value (initial) or only the live-updatable ones, then rebuilds the snapshot of
        syncable values from the refreshed effective values. */
    method UpdateValues(initial: bool, read: Backend)
      requires Valid()
      modifies this
      ensures Valid()
      ensures values == Refreshed(old(values), initial, read)
      ensures valuesToSync == Snapshot(values, syncable)
    {
      if initial {
        RefreshAll(read);
      } else {
        RefreshUpdatable(read);
      }
      valuesToSync := TakeSnapshot(values, syncable);
    }

    /** The initial pass of updateValues: every value re-reads its stored value. */
    method RefreshAll(read: Backend)
      requires Valid()
      modifies this
      ensures Valid() && values == Refreshed(old(values), true, read)
      ensures valuesToSync == old(valuesToSync)
    {
      for i := 0 to |values|
        invariant |values| == |old(values)| && valuesToSync == old(valuesToSync)
        invariant forall j :: 0 <= j < i ==> values[j] == old(values)[j].UpdateValue(true, read)
        invariant forall j :: i <= j < |values| ==> values[j] == old(values)[j]
      {
        values := values[i := values[i].UpdateValue(true, read)];
      }
    }

    /** A later pass of updateValues: only the values in updatableValues re-read their stored value. */
    method RefreshUpdatable(read: Backend)
      requires Valid()
      modifies this
      ensures Valid() && values == Refreshed(old(values), false, read)
      ensures valuesToSync == old(valuesToSync)
    {
      for k := 0 to |updatable|
        invariant |values| == |old(values)| && valuesToSync == old(valuesToSync)
        invariant forall j :: 0 <= j < |values| ==>
                    values[j] == if j in updatable[..k] then old(values)[j].UpdateValue(false, read) else old(values)[j]
      {
        var i := updatable[k];
        assert i !in updatable[..k];
        assert updatable[..k + 1] == updatable[..k] + [i];
        values := values[i := values[i].UpdateValue(false, read)];
      }
      assert updatable[..|updatable|] == updatable;
    }

    /** Routes an override to the value with the given path; an unknown path is ignored. The snapshot
        is not touched. */
    method SetSyncValue(path: string, x: Value)
      requires Valid()
      modifies this
      ensures Valid() && valuesToSync == old(valuesToSync)
      ensures values == WithSyncValue(old(values), byPath, path, x)
    {
      if path in byPath {
        var i := byPath[path];
        values := values[i := values[i].SetSyncedValue(x)];
      }
    }

    /** Drops the override of every syncable value. The snapshot is not touched. */
    method ClearSyncedValues()
      requires Valid()
      modifies this
      ensures Valid() && valuesToSync == old(valuesToSync)
      ensures values == ClearedSyncable(old(values))
    {
      for k := 0 to |syncable|
        invariant |values| == |old(values)| && valuesToSync == old(valuesToSync)
        invariant forall j :: 0 <= j < |values| ==>
                    values[j] == if j in syncable[..k] then old(values)[j].ClearSyncedValue() else old(values)[j]
      {
        var i := syncable[k];
        assert i !in syncable[..k];
        assert syncable[..k + 1] == syncable[..k] + [i];
        values := values[i := values[i].ClearSyncedValue()];
      }
      assert syncable[..|syncable|] == syncable;
    }

    /** readSyncableValues: applies the entries in order through setSyncValue and stops at the first
        token that is not an entry, reporting the failure; entries before it stay applied. */
    method ReadSyncableValues(tokens: seq<Token>) returns (ok: bool)
      requires Valid()
      modifies this
      ensures Valid() && valuesToSync == old(valuesToSync)
      ensures ok <==> EntryPrefix(tokens) == |tokens|
      ensures values == ApplyEntries(old(values), byPath, tokens[..EntryPrefix(tokens)])
    {
      var k := 0;
      while k < |tokens| && tokens[k].Pair?
        invariant k <= EntryPrefix(tokens)
        invariant Valid() && valuesToSync == old(valuesToSync)
        invariant values == ApplyEntries(old(values), byPath, tokens[..k])
      {
        assert tokens[..k + 1][..k] == tokens[..k];
        SetSyncValue(tokens[k].path, tokens[k].value);
        k := k + 1;
      }
      ok := k == |tokens|;
    }
  }

  lemma HasSyncableEntriesIff(c: ModConfig)
    requires c.Valid()
    ensures c.HasSyncableEntries() <==> exists i :: 0 <= i < |c.schema| && c.schema[i].sync
  {
    if c.HasSyncableEntries() {
      assert InSubset(c.schema[c.syncable[0]], Syncable);
    }
    if i :| 0 <= i < |c.schema| && c.schema[i].sync {
      assert InSubset(c.schema[i], Syncable);
    }
  }
}
