/** `SyncStateManager` of `src/core/sync-state.ts`: the in-memory map from
    item ids to the ids they were synced as, and the rule that loading falls
    back to the empty map. Reading and writing the JSON file is outside the
    model; the file arrives as what reading and parsing it yielded. */
module SyncState {
  import opened Wrappers
  import opened Text

  type StateMap = map<string, string>

  /** The manager: where its state file lives and the current map. */
  datatype Manager = Manager(stateFilePath: string, state: StateMap)

  /** `new SyncStateManager(projectRoot)`: `<root>/.specbridge/sync-state.json`
      with an empty map; the root defaults to the working directory. */
  function NewManager(projectRoot: Option<string>, cwd: string): (m: Manager)
    ensures m.state == map[]
    ensures EndsWith(m.stateFilePath, "/.specbridge/sync-state.json")
  {
    var root := if Truthy(projectRoot) then projectRoot.value else cwd;
    Manager(root + "/.specbridge/sync-state.json", map[])
  }

  /** What reading the state file gives: no file, a file that does not parse,
      or the parsed map. */
  datatype StateFile = NoFile | Corrupt | Parsed(contents: StateMap)

  /** `load`: the parsed map, or the empty map when the file is absent or
      cannot be read or parsed. The map is both stored and returned. */
  function Load(m: Manager, file: StateFile): (r: (Manager, StateMap))
    ensures r.0.stateFilePath == m.stateFilePath && r.1 == r.0.state
    ensures file.Parsed? ==> r.1 == file.contents
    ensures !file.Parsed? ==> r.1 == map[]
  {
    var state := match file
      case Parsed(contents) => contents
      case _ => map[];
    (m.(state := state), state)
  }

  /** `getSyncId`, an own-property read. */
  function GetSyncId(m: Manager, itemId: string): (r: Option<string>)
    ensures r.Some? <==> itemId in m.state
    ensures r.Some? ==> r.value == m.state[itemId]
  {
    if itemId in m.state then Some(m.state[itemId]) else None
  }

  /** `setSyncId`. */
  function SetSyncId(m: Manager, itemId: string, syncId: string): (m': Manager)
    ensures GetSyncId(m', itemId) == Some(syncId)
    ensures forall k :: k != itemId ==> GetSyncId(m', k) == GetSyncId(m, k)
    ensures m'.stateFilePath == m.stateFilePath
  {
    m.(state := m.state[itemId := syncId])
  }

  /** `removeSyncId`: `delete` of the key. */
  function RemoveSyncId(m: Manager, itemId: string): (m': Manager)
    ensures GetSyncId(m', itemId) == None
    ensures forall k :: k != itemId ==> GetSyncId(m', k) == GetSyncId(m, k)
    ensures m'.stateFilePath == m.stateFilePath
  {
    m.(state := m.state - {itemId})
  }

  /** `getAll`: a shallow copy, equal to the current map. */
  function GetAll(m: Manager): (r: StateMap)
    ensures forall k :: k in r <==> GetSyncId(m, k).Some?
    ensures forall k :: k in r ==> Some(r[k]) == GetSyncId(m, k)
  {
    m.state
  }

  /** `clear`. */
  function Clear(m: Manager): (m': Manager)
    ensures forall k :: GetSyncId(m', k) == None
    ensures m'.stateFilePath == m.stateFilePath
  {
    m.(state := map[])
  }

  /** `hasSynced`, reading only the map's own keys. */
  function HasSynced(m: Manager, itemId: string): (r: bool)
    ensures r <==> GetSyncId(m, itemId).Some?
  {
    itemId in m.state
  }

  /** `getSyncedCount`: `Object.keys(state).length`. */
  function GetSyncedCount(m: Manager): (n: nat)
    ensures n == |m.state.Keys|
  {
    |m.state|
  }

  /** Setting a key that is already present keeps the count; setting a new
      one adds one. */
  lemma SetCount(m: Manager, itemId: string, syncId: string)
    ensures HasSynced(m, itemId) ==> GetSyncedCount(SetSyncId(m, itemId, syncId)) == GetSyncedCount(m)
    ensures !HasSynced(m, itemId) ==> GetSyncedCount(SetSyncId(m, itemId, syncId)) == GetSyncedCount(m) + 1
  {
    var s := m.state;
    var s' := s[itemId := syncId];
    if itemId in s {
      assert s'.Keys == s.Keys;
    } else {
      assert s'.Keys == s.Keys + {itemId};
    }
  }

  /** After removing a key it is no longer synced; the count drops by one
      exactly when the key was present. */
  lemma RemoveCount(m: Manager, itemId: string)
    ensures !HasSynced(RemoveSyncId(m, itemId), itemId)
    ensures HasSynced(m, itemId) ==> GetSyncedCount(RemoveSyncId(m, itemId)) + 1 == GetSyncedCount(m)
    ensures !HasSynced(m, itemId) ==> GetSyncedCount(RemoveSyncId(m, itemId)) == GetSyncedCount(m)
  {
    var s := m.state;
    var s' := s - {itemId};
    if itemId in s {
      assert s.Keys == s'.Keys + {itemId};
    } else {
      assert s'.Keys == s.Keys;
    }
  }

  /** After `clear` nothing is synced and the count is zero. */
  lemma ClearEmpties(m: Manager)
    ensures GetSyncedCount(Clear(m)) == 0
    ensures forall k :: !HasSynced(Clear(m), k)
  {
  }

  /** A round of `setSyncId` then `getSyncId` on another key sees the old map. */
  lemma SetKeepsOthers(m: Manager, itemId: string, syncId: string, other: string)
    requires other != itemId
    ensures HasSynced(SetSyncId(m, itemId, syncId), other) == HasSynced(m, other)
  {
  }

  // As written, `hasSynced` uses the `in` operator, which also sees the
  // properties every plain object inherits from `Object.prototype`.

  const PrototypeNames: set<string> := {
    "constructor", "hasOwnProperty", "isPrototypeOf", "propertyIsEnumerable",
    "toLocaleString", "toString", "valueOf", "__proto__",
    "__defineGetter__", "__defineSetter__", "__lookupGetter__", "__lookupSetter__"
  }

  /** `itemId in this.state` on a plain object. */
  function HasSyncedAsWritten(m: Manager, itemId: string): (r: bool)
    ensures itemId !in PrototypeNames ==> r == HasSynced(m, itemId)
  {
    itemId in m.state || itemId in PrototypeNames
  }

  /** What `this.state[itemId]` reads on a plain object: the stored id, or
      for a name of `Object.prototype` that is not an own key, the inherited
      member (a function, not a string). */
  datatype PropertyRead = OwnValue(id: string) | InheritedMember(name: string)

  /** `getSyncId` as written: the lookup also reaches the prototype. */
  function GetSyncIdAsWritten(m: Manager, itemId: string): (r: Option<PropertyRead>)
    ensures r.Some? <==> HasSyncedAsWritten(m, itemId)
    ensures itemId !in PrototypeNames ==> (r.Some? <==> GetSyncId(m, itemId).Some?)
    ensures GetSyncId(m, itemId).Some? ==> r == Some(OwnValue(GetSyncId(m, itemId).value))
    ensures r.Some? && r.value.InheritedMember? ==> itemId in PrototypeNames && GetSyncId(m, itemId).None?
  {
    if itemId in m.state then Some(OwnValue(m.state[itemId]))
    else if itemId in PrototypeNames then Some(InheritedMember(itemId))
    else None
  }

  /** As written, after `clear` the id read back for "toString" is the
      inherited method rather than `undefined`. */
  lemma PrototypeNameReadsMember(m: Manager)
    ensures GetSyncIdAsWritten(Clear(m), "toString") == Some(InheritedMember("toString"))
    ensures GetSyncId(Clear(m), "toString") == None
  {
  }

  /** As written, an item called "toString" counts as synced after `clear`
      and after it is removed, and without adding to the count. */
  lemma PrototypeNameAlwaysSynced(m: Manager)
    ensures HasSyncedAsWritten(Clear(m), "toString")
    ensures HasSyncedAsWritten(RemoveSyncId(m, "toString"), "toString")
    ensures GetSyncedCount(Clear(m)) == 0
  {
  }
}
