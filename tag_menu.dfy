/**
 * The `!tag` selection menu: the options it offers a member, and what choosing
 * one does, re-checked when the choice is made.
 */
module TagMenu {
  import opened Wrappers
  import opened Decimal
  import opened Roles
  import opened Nickname

  /** One entry of the menu, as `discord.SelectOption` holds it. */
  datatype SelectOption = SelectOption(text: string, description: Option<string>, value: string, emoji: Option<string>)

  /** The entry that clears the nickname; it comes first. */
  const ClearOption: SelectOption := SelectOption("Remove Prefix", Some("Clear your nickname"), "clear", Some("🚫"))

  /** The lone entry shown when the member has no prefixed role. */
  const NoneOption: SelectOption := SelectOption("No prefixes available", None, "none", None)

  /** The entry for a prefixed role: its prefix as text (the label), its name as description, its id as value. */
  function RoleOption(r: Role, table: PrefixTable): (o: SelectOption)
    requires HasPrefixEntry(r, table)
    ensures ParseDecimal(o.value) == Some(r.id)
    ensures o.value != ClearOption.value && o.value != NoneOption.value
    ensures o.text == table[RoleKey(r)] && o.description == Some(r.name) && o.emoji.None?
  {
    ParseToDecimal(r.id);
    SelectOption(table[RoleKey(r)], Some(r.name), RoleKey(r), None)
  }

  predicate NonIncreasing(s: seq<Role>) {
    forall i, j :: 0 <= i < j < |s| ==> s[i].position >= s[j].position
  }

  /** A role no lower than every role of a sorted list may go in front of it. */
  lemma NonIncreasingCons(y: Role, t: seq<Role>)
    requires NonIncreasing(t)
    requires forall k :: 0 <= k < |t| ==> t[k].position <= y.position
    ensures NonIncreasing([y] + t)
  {
  }

  /** Put x in front of the first role that is not strictly higher than it. */
  function Insert(x: Role, s: seq<Role>): (r: seq<Role>)
    ensures |r| == |s| + 1
    decreases |s|
  {
    if s == [] || s[0].position <= x.position then [x] + s else [s[0]] + Insert(x, s[1..])
  }

  /** Inserting adds x and drops nothing. */
  lemma {:induction false} InsertPermutes(x: Role, s: seq<Role>)
    ensures multiset(Insert(x, s)) == multiset(s) + multiset{x}
    decreases |s|
  {
    if s != [] && s[0].position > x.position {
      assert s == [s[0]] + s[1..];
      InsertPermutes(x, s[1..]);
    }
  }

  /** Inserting into a list sorted by descending position keeps it sorted. */
  lemma {:induction false} InsertSorted(x: Role, s: seq<Role>)
    requires NonIncreasing(s)
    ensures NonIncreasing(Insert(x, s))
    decreases |s|
  {
    if s == [] || s[0].position <= x.position {
      assert forall k :: 0 <= k < |s| ==> s[k].position <= s[0].position;
      NonIncreasingCons(x, s);
    } else {
      var t := Insert(x, s[1..]);
      assert s == [s[0]] + s[1..];
      assert NonIncreasing(s[1..]);
      InsertSorted(x, s[1..]);
      InsertPermutes(x, s[1..]);
      forall k | 0 <= k < |t|
        ensures t[k].position <= s[0].position
      {
        assert t[k] in multiset(s[1..]) + multiset{x};
        if t[k] != x {
          assert t[k] in s[1..];
        }
      }
      NonIncreasingCons(s[0], t);
    }
  }

  /** `sorted(roles, key=lambda r: r.position, reverse=True)`. */
  function SortByPositionDesc(s: seq<Role>): (r: seq<Role>)
    ensures |r| == |s|
    ensures NonIncreasing(r)
    ensures multiset(r) == multiset(s)
    decreases |s|
  {
    if s == [] then []
    else
      assert s == [s[0]] + s[1..];
      InsertSorted(s[0], SortByPositionDesc(s[1..]));
      InsertPermutes(s[0], SortByPositionDesc(s[1..]));
      Insert(s[0], SortByPositionDesc(s[1..]))
  }

  /** The roles of s at position p, in the order of s. */
  function AtPosition(s: seq<Role>, p: int): seq<Role>
    decreases |s|
  {
    if s == [] then [] else (if s[0].position == p then [s[0]] else []) + AtPosition(s[1..], p)
  }

  lemma AtPositionCons(y: Role, t: seq<Role>, p: int)
    ensures AtPosition([y] + t, p) == (if y.position == p then [y] else []) + AtPosition(t, p)
  {
  }

  lemma {:induction false} InsertAtPosition(x: Role, s: seq<Role>, p: int)
    ensures AtPosition(Insert(x, s), p) == (if x.position == p then [x] else []) + AtPosition(s, p)
    decreases |s|
  {
    var xs := if x.position == p then [x] else [];
    if s == [] || s[0].position <= x.position {
      assert Insert(x, s) == [x] + s;
      AtPositionCons(x, s, p);
    } else {
      var h, t := s[0], Insert(x, s[1..]);
      var hs := if h.position == p then [h] else [];
      assert Insert(x, s) == [h] + t;
      assert s == [h] + s[1..];
      AtPositionCons(h, s[1..], p);
      InsertAtPosition(x, s[1..], p);
      AtPositionCons(h, t, p);
      assert AtPosition(Insert(x, s), p) == hs + (xs + AtPosition(s[1..], p));
      assert hs == [] || xs == [];
    }
  }

  /**
   * The sort is stable: roles of equal position keep their order, because Python's
   * `sorted` is stable also with `reverse=True`.
   */
  lemma {:induction false} SortIsStable(s: seq<Role>, p: int)
    ensures AtPosition(SortByPositionDesc(s), p) == AtPosition(s, p)
    decreases |s|
  {
    if s != [] {
      SortIsStable(s[1..], p);
      InsertAtPosition(s[0], SortByPositionDesc(s[1..]), p);
    }
  }

  /**
   * The roles the menu lists, in the order `TagSelect.__init__` visits them:
   * the member's prefixed roles sorted from the highest position down.
   */
  function MenuRoles(member: Member, table: PrefixTable): (roles: seq<Role>)
    ensures |roles| == |DisplayRoles(member.roles, table)|
    ensures forall j :: 0 <= j < |roles| ==> HasPrefixEntry(roles[j], table)
  {
    var d := DisplayRoles(member.roles, table);
    var sorted := SortByPositionDesc(d);
    assert forall j :: 0 <= j < |sorted| ==> sorted[j] in multiset(d);
    sorted
  }

  /**
   * The menu lists exactly the member's prefixed roles, by non-increasing position,
   * with roles of equal position in the member's own order.
   */
  lemma MenuRolesOrdered(member: Member, table: PrefixTable)
    ensures NonIncreasing(MenuRoles(member, table))
    ensures multiset(MenuRoles(member, table)) == multiset(DisplayRoles(member.roles, table))
    ensures forall p :: AtPosition(MenuRoles(member, table), p) == AtPosition(DisplayRoles(member.roles, table), p)
  {
    forall p
      ensures AtPosition(MenuRoles(member, table), p) == AtPosition(DisplayRoles(member.roles, table), p)
    {
      SortIsStable(DisplayRoles(member.roles, table), p);
    }
  }

  /**
   * `TagSelect.__init__`: "clear" first, then one entry per prefixed role from
   * the highest position down; a lone "none" entry when there is no prefixed role.
   */
  method BuildTagOptions(member: Member, table: PrefixTable) returns (options: seq<SelectOption>)
    ensures MenuRoles(member, table) == [] ==> options == [NoneOption]
    ensures MenuRoles(member, table) != [] ==>
      |options| == |MenuRoles(member, table)| + 1 && options[0] == ClearOption
    ensures MenuRoles(member, table) != [] ==>
      forall j :: 1 <= j < |options| ==> options[j] == RoleOption(MenuRoles(member, table)[j - 1], table)
  {
    options := [ClearOption];
    var roles := MenuRoles(member, table);
    for i := 0 to |roles|
      invariant |options| == i + 1 && options[0] == ClearOption
      invariant forall j :: 1 <= j <= i ==> options[j] == RoleOption(roles[j - 1], table)
    {
      options := options + [RoleOption(roles[i], table)];
    }
    if |options| == 1 {
      options := [NoneOption];
    }
  }

  /** A role's option value is digits, so it is never mistaken for "clear" or "none". */
  lemma RoleKeyIsNoKeyword(r: Role)
    ensures RoleKey(r) != "clear" && RoleKey(r) != "none"
  {
  }

  /** What a selection in the menu does. */
  datatype Selection =
    | NotInGuild            // the interaction did not come from a server
    | NoPrefixesAvailable   // "none" was chosen
    | ClearNickname         // "clear": `edit(nick=None)`
    | UnparseableChoice     // `int(choice)` would raise
    | NoLongerHeld          // the role is gone or the user does not hold it
    | NotConfigured         // the role has no prefix, or an empty one
    | SetNickname(nick: string)

  /** `guild.get_role(id)`: the first role of the guild with that id. */
  function GetRole(guildRoles: seq<Role>, id: nat): (r: Option<Role>)
    ensures r.Some? ==> r.value in guildRoles && r.value.id == id
    ensures r.None? <==> forall i :: 0 <= i < |guildRoles| ==> guildRoles[i].id != id
    decreases |guildRoles|
  {
    if guildRoles == [] then None
    else if guildRoles[0].id == id then Some(guildRoles[0])
    else
      assert forall i :: 1 <= i < |guildRoles| ==> guildRoles[i] == guildRoles[1..][i - 1];
      GetRole(guildRoles[1..], id)
  }

  /** `role in member.roles`; discord roles are equal when their ids are. */
  predicate HoldsRole(m: Member, role: Role)
    ensures role in m.roles ==> HoldsRole(m, role)
  {
    exists i :: 0 <= i < |m.roles| && m.roles[i].id == role.id
  }

  /** A choice that names a role: made in a server, neither "none" nor "clear", and `int` accepts it. */
  predicate IsRoleChoice(choice: string, guildRoles: Option<seq<Role>>) {
    guildRoles.Some? && choice != "none" && choice != "clear" && ParseDecimal(choice).Some?
  }

  /**
   * `TagSelect.callback`: `guildRoles` is None outside a server, `user` is the
   * member who made the choice, and `table` is the prefix table at that moment.
   * A nickname edit (`ClearNickname` or `SetNickname`) happens only when the checks pass.
   */
  function TagCallback(choice: string, guildRoles: Option<seq<Role>>, user: Member, table: PrefixTable): (s: Selection)
    ensures s == NotInGuild <==> guildRoles.None?
    ensures s == NoPrefixesAvailable <==> guildRoles.Some? && choice == "none"
    ensures s == ClearNickname <==> guildRoles.Some? && choice == "clear"
    ensures s == UnparseableChoice <==>
      guildRoles.Some? && choice != "none" && choice != "clear" && ParseDecimal(choice).None?
    ensures s.NoLongerHeld? || s.NotConfigured? || s.SetNickname? <==> IsRoleChoice(choice, guildRoles)
    ensures IsRoleChoice(choice, guildRoles) ==>
      var role := GetRole(guildRoles.value, ParseDecimal(choice).value);
      && (s == NoLongerHeld <==> role.None? || !HoldsRole(user, role.value))
      && (s == NotConfigured <==> role.Some? && HoldsRole(user, role.value) && ApplyPrefix(user, role.value, table).None?)
      && (s.SetNickname? <==> role.Some? && HoldsRole(user, role.value) && ApplyPrefix(user, role.value, table).Some?)
      && (s.SetNickname? ==> ApplyPrefix(user, role.value, table) == Some(s.nick))
  {
    if guildRoles.None? then NotInGuild
    else if choice == "none" then NoPrefixesAvailable
    else if choice == "clear" then ClearNickname
    else match ParseDecimal(choice)
      case None => UnparseableChoice
      case Some(id) =>
        match GetRole(guildRoles.value, id)
        case None => NoLongerHeld
        case Some(role) =>
          if !HoldsRole(user, role) then NoLongerHeld
          else
            match ApplyPrefix(user, role, table)
            case None => NotConfigured
            case Some(nick) => SetNickname(nick)
  }

  /**
   * Choosing a role's entry while the user still holds the role, the server still
   * has it and its prefix is still set requests the nickname `apply_prefix` would.
   */
  lemma SelectingRoleOption(r: Role, guildRoles: seq<Role>, user: Member, table: PrefixTable)
    requires r in guildRoles && r in user.roles
    requires HasPrefixEntry(r, table) && table[RoleKey(r)] != ""
    ensures TagCallback(RoleOption(r, table).value, Some(guildRoles), user, table) ==
      SetNickname(ComposeNickname(table[RoleKey(r)], user.displayName))
  {
    RoleKeyIsNoKeyword(r);
    ParseToDecimal(r.id);
    var g := GetRole(guildRoles, r.id);
    assert g.Some? by { var i :| 0 <= i < |guildRoles| && guildRoles[i] == r; }
    assert HoldsRole(user, g.value) by { var j :| 0 <= j < |user.roles| && user.roles[j] == r; }
    assert RoleKey(g.value) == RoleKey(r);
  }

  /** Once the role's prefix is removed or emptied, choosing its stale entry edits nothing. */
  lemma SelectingUnconfiguredRole(r: Role, guildRoles: seq<Role>, user: Member, table: PrefixTable)
    requires r in guildRoles && r in user.roles
    requires !HasPrefixEntry(r, table) || table[RoleKey(r)] == ""
    ensures TagCallback(RoleKey(r), Some(guildRoles), user, table) == NotConfigured
  {
    RoleKeyIsNoKeyword(r);
    ParseToDecimal(r.id);
    var g := GetRole(guildRoles, r.id);
    assert g.Some? by { var i :| 0 <= i < |guildRoles| && guildRoles[i] == r; }
    assert HoldsRole(user, g.value) by { var j :| 0 <= j < |user.roles| && user.roles[j] == r; }
    assert RoleKey(g.value) == RoleKey(r);
  }

  /** Once the user no longer holds the role, choosing its stale entry edits nothing. */
  lemma SelectingRoleNoLongerHeld(r: Role, guildRoles: Option<seq<Role>>, user: Member, table: PrefixTable)
    requires guildRoles.Some?
    requires forall x :: x in user.roles ==> x.id != r.id
    ensures TagCallback(RoleKey(r), guildRoles, user, table) == NoLongerHeld
  {
    RoleKeyIsNoKeyword(r);
    ParseToDecimal(r.id);
    var g := GetRole(guildRoles.value, r.id);
    if g.Some? {
      assert !HoldsRole(user, g.value) by {
        forall i | 0 <= i < |user.roles| ensures user.roles[i].id != g.value.id {
          assert user.roles[i] in user.roles;
        }
      }
    }
  }
}
