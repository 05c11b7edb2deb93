/**
 * The prefix table the bot keeps in memory (the global `role_prefixes`) and the
 * file it writes after each change.
 */
module Store {
  import opened Wrappers
  import opened Roles

  /**
   * `load_prefixes`, with the environment and the file given as values: a set,
   * parseable `ROLE_PREFIXES` wins, else the file's table, else the empty table.
   * `envSet` is Python's truthiness of the variable (present and non-empty);
   * `envParsed` is what `json.loads` made of it (None when it raised);
   * `file` is the file's table (None when the file does not exist).
   */
  function LoadPrefixes(envSet: bool, envParsed: Option<PrefixTable>, file: Option<PrefixTable>): (t: PrefixTable)
    ensures envSet && envParsed.Some? ==> t == envParsed.value
    ensures !(envSet && envParsed.Some?) && file.Some? ==> t == file.value
    ensures !(envSet && envParsed.Some?) && file.None? ==> t == map[]
  {
    if envSet && envParsed.Some? then envParsed.value
    else if file.None? then map[]
    else file.value
  }

  /** Whatever the file holds, a parseable environment table is what a restart loads. */
  lemma EnvironmentShadowsFile(envParsed: PrefixTable, f1: Option<PrefixTable>, f2: Option<PrefixTable>)
    ensures LoadPrefixes(true, Some(envParsed), f1) == LoadPrefixes(true, Some(envParsed), f2)
  {
  }

  /** The bot's prefix table and the file it persists to. */
  class PrefixStore {
    /** `role_prefixes`. */
    var prefixes: PrefixTable
    /** The table last written to `prefixes.json`, or None if there is no file. */
    var file: Option<PrefixTable>

    /** Process start: the table comes from `load_prefixes`; the file is as found. */
    constructor Load(envSet: bool, envParsed: Option<PrefixTable>, existing: Option<PrefixTable>)
      ensures prefixes == LoadPrefixes(envSet, envParsed, existing)
      ensures file == existing
    {
      prefixes := LoadPrefixes(envSet, envParsed, existing);
      file := existing;
    }

    /** `save_prefixes`: the file is overwritten with the whole table. */
    method Save()
      modifies this
      ensures prefixes == old(prefixes)
      ensures file == Some(prefixes)
    {
      file := Some(prefixes);
    }

    /** `setprefix`: insert or overwrite the role's entry, then save. */
    method SetPrefix(role: Role, prefix: string)
      modifies this
      ensures prefixes == old(prefixes)[RoleKey(role) := prefix]
      ensures RoleKey(role) in prefixes && prefixes[RoleKey(role)] == prefix
      ensures forall k :: k != RoleKey(role) ==>
        (k in prefixes <==> k in old(prefixes)) && (k in prefixes ==> prefixes[k] == old(prefixes)[k])
      ensures file == Some(prefixes)
    {
      prefixes := prefixes[RoleKey(role) := prefix];
      Save();
    }

    /**
     * `removeprefix`: delete the role's entry if present and save; otherwise
     * report that the role has no prefix and touch neither the table nor the file.
     */
    method RemovePrefix(role: Role) returns (removed: bool)
      modifies this
      ensures removed <==> RoleKey(role) in old(prefixes)
      ensures RoleKey(role) !in prefixes
      ensures forall k :: k != RoleKey(role) ==>
        (k in prefixes <==> k in old(prefixes)) && (k in prefixes ==> prefixes[k] == old(prefixes)[k])
      ensures removed ==> file == Some(prefixes)
      ensures !removed ==> prefixes == old(prefixes) && file == old(file)
    {
      var key := RoleKey(role);
      removed := key in prefixes;
      if removed {
        prefixes := prefixes - {key};
        Save();
      }
    }
  }

  /** Setting a prefix leaves every other role's prefix as it was (ids, not only keys, differ). */
  lemma SetPrefixKeepsOtherRoles(table: PrefixTable, role: Role, prefix: string, other: Role)
    requires other.id != role.id
    ensures RoleKey(other) in table[RoleKey(role) := prefix] <==> RoleKey(other) in table
    ensures RoleKey(other) in table ==> table[RoleKey(role) := prefix][RoleKey(other)] == table[RoleKey(other)]
  {
    Decimal.ToDecimalInjective(other.id, role.id);
  }

  /** Removing a prefix leaves every other role's entry as it was. */
  lemma RemovePrefixKeepsOtherRoles(table: PrefixTable, role: Role, other: Role)
    requires other.id != role.id
    ensures RoleKey(other) in table - {RoleKey(role)} <==> RoleKey(other) in table
  {
    Decimal.ToDecimalInjective(other.id, role.id);
  }

  /**
   * A client run on a fresh store with no file and no environment value: set,
   * overwrite, remove, and remove again. The second removal reports nothing to
   * remove, and the saved file ends up empty.
   */
  method StoreScenario(role: Role) returns (afterSet: PrefixTable, removed: bool, again: bool, saved: Option<PrefixTable>)
    ensures afterSet == map[RoleKey(role) := "👑"]
    ensures removed && !again
    ensures saved == Some(map[])
  {
    var store := new PrefixStore.Load(false, None, None);
    assert store.prefixes == map[];
    store.SetPrefix(role, "💎");
    store.SetPrefix(role, "👑");
    afterSet := store.prefixes;
    removed := store.RemovePrefix(role);
    assert store.prefixes == map[];
    again := store.RemovePrefix(role);
    saved := store.file;
  }
}
