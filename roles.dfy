/**
 * Prefix resolution: which of a member's roles carry a configured prefix, and
 * which one of them is active (the one with the greatest position).
 */
module Roles {
  import opened Wrappers
  import opened Decimal

  /** A server role; a higher position means a higher priority. */
  datatype Role = Role(id: nat, position: int, name: string)

  /** A server member: the roles in the order the platform lists them, and the display name. */
  datatype Member = Member(roles: seq<Role>, displayName: string)

  /** Role id, as decimal text, to prefix text. */
  type PrefixTable = map<string, string>

  /** The key a role has in the prefix table: `str(role.id)`. */
  function RoleKey(r: Role): string {
    ToDecimal(r.id)
  }

  predicate HasPrefixEntry(r: Role, table: PrefixTable) {
    RoleKey(r) in table
  }

  /** `get_display_roles`: the roles whose key is in the table, in the member's order. */
  function DisplayRoles(roles: seq<Role>, table: PrefixTable): (d: seq<Role>)
    ensures |d| <= |roles|
    ensures forall r :: r in d <==> r in roles && HasPrefixEntry(r, table)
    decreases |roles|
  {
    if roles == [] then []
    else (if HasPrefixEntry(roles[0], table) then [roles[0]] else []) + DisplayRoles(roles[1..], table)
  }

  /** The filter keeps the relative order of roles: it distributes over concatenation. */
  lemma {:induction false} DisplayRolesAppend(a: seq<Role>, b: seq<Role>, table: PrefixTable)
    ensures DisplayRoles(a + b, table) == DisplayRoles(a, table) + DisplayRoles(b, table)
    decreases |a|
  {
    if a == [] {
      assert a + b == b;
    } else {
      assert (a + b)[1..] == a[1..] + b;
      DisplayRolesAppend(a[1..], b, table);
    }
  }

  /** A one-role list keeps its role exactly when the role has a prefix entry. */
  lemma DisplayRolesSingle(r: Role, table: PrefixTable)
    ensures DisplayRoles([r], table) == if HasPrefixEntry(r, table) then [r] else []
  {
  }

  /**
   * The index Python's `max(s, key=position)` picks: a greatest position, and the
   * first one in list order, since `max` only replaces its candidate on a strictly
   * greater key.
   */
  function FirstMaxIndex(s: seq<Role>): (k: nat)
    requires |s| > 0
    ensures k < |s|
    ensures forall j :: 0 <= j < |s| ==> s[j].position <= s[k].position
    ensures forall j :: 0 <= j < k ==> s[j].position < s[k].position
    decreases |s|
  {
    if |s| == 1 then 0
    else
      var k := FirstMaxIndex(s[..|s| - 1]);
      if s[|s| - 1].position > s[k].position then |s| - 1 else k
  }

  /** `get_highest_display_role`: the active role, or None when no role has a prefix entry. */
  function HighestDisplayRole(roles: seq<Role>, table: PrefixTable): Option<Role> {
    var d := DisplayRoles(roles, table);
    if d == [] then None else Some(d[FirstMaxIndex(d)])
  }

  /**
   * There is an active role exactly when some role has a prefix entry; it is one
   * of the member's roles, has an entry, and no role with an entry is higher.
   */
  lemma HighestDisplayRoleSpec(roles: seq<Role>, table: PrefixTable)
    ensures HighestDisplayRole(roles, table).None? <==>
      forall i :: 0 <= i < |roles| ==> !HasPrefixEntry(roles[i], table)
    ensures HighestDisplayRole(roles, table).Some? ==>
      HighestDisplayRole(roles, table).value in roles && HasPrefixEntry(HighestDisplayRole(roles, table).value, table)
    ensures HighestDisplayRole(roles, table).Some? ==>
      forall x :: x in roles && HasPrefixEntry(x, table) ==> x.position <= HighestDisplayRole(roles, table).value.position
  {
    var d := DisplayRoles(roles, table);
    if d == [] {
      assert forall i :: 0 <= i < |roles| ==> roles[i] in roles;
    } else {
      assert d[0] in roles;
    }
  }

  /** Adding a role at the end of the list changes the choice only if it is eligible and strictly higher. */
  lemma HighestDisplayRoleSnoc(p: seq<Role>, x: Role, table: PrefixTable)
    ensures HighestDisplayRole(p + [x], table) ==
      if HasPrefixEntry(x, table) &&
         (HighestDisplayRole(p, table).None? || x.position > HighestDisplayRole(p, table).value.position)
      then Some(x) else HighestDisplayRole(p, table)
  {
    DisplayRolesAppend(p, [x], table);
    DisplayRolesSingle(x, table);
    var d := DisplayRoles(p, table);
    var e := DisplayRoles(p + [x], table);
    if !HasPrefixEntry(x, table) {
      assert e == d;
    } else if d == [] {
      assert e == [x];
    } else {
      assert e == d + [x];
      assert e[..|e| - 1] == d;
      assert FirstMaxIndex(e) == if x.position > d[FirstMaxIndex(d)].position then |d| else FirstMaxIndex(d);
    }
  }

  /** roles[i] has a prefix entry, and every earlier role with one is strictly lower. */
  predicate FirstOfItsHeight(roles: seq<Role>, table: PrefixTable, i: int) {
    0 <= i < |roles| &&
    forall j :: 0 <= j < i && HasPrefixEntry(roles[j], table) ==> roles[j].position < roles[i].position
  }

  /** Among equally high eligible roles, the active one is the first in the member's list. */
  lemma {:induction false} HighestDisplayRoleIsFirst(roles: seq<Role>, table: PrefixTable)
    ensures HighestDisplayRole(roles, table).Some? ==>
      exists i :: FirstOfItsHeight(roles, table, i) && roles[i] == HighestDisplayRole(roles, table).value
    decreases |roles|
  {
    if roles != [] {
      var p, x := roles[..|roles| - 1], roles[|roles| - 1];
      assert roles == p + [x];
      HighestDisplayRoleSnoc(p, x, table);
      HighestDisplayRoleIsFirst(p, table);
      HighestDisplayRoleSpec(p, table);
      var prev := HighestDisplayRole(p, table);
      if HasPrefixEntry(x, table) && (prev.None? || x.position > prev.value.position) {
        var i := |roles| - 1;
        forall j | 0 <= j < i && HasPrefixEntry(roles[j], table)
          ensures roles[j].position < x.position
        {
          assert roles[j] == p[j];
          assert roles[j] in p;
        }
        assert FirstOfItsHeight(roles, table, i);
      } else if prev.Some? {
        var i :| FirstOfItsHeight(p, table, i) && p[i] == prev.value;
        assert forall j :: 0 <= j <= i ==> roles[j] == p[j];
        assert FirstOfItsHeight(roles, table, i);
      }
    }
  }

  /** Only prefixed roles compete: a higher role without a prefix entry is passed over. */
  lemma ActiveRoleIgnoresUnprefixedRole(r1: Role, r2: Role, prefix: string)
    requires r1.id != r2.id
    ensures HighestDisplayRole([r1, r2], map[RoleKey(r1) := prefix]) == Some(r1)
  {
    Decimal.ToDecimalInjective(r1.id, r2.id);
    HighestDisplayRoleSpec([r1, r2], map[RoleKey(r1) := prefix]);
  }
}
