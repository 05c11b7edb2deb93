/**
 * The handlers that resolve and apply a prefix: `updateall`, `updateuser` and
 * the `on_member_update` event. Each platform call `member.edit(nick=...)`
 * becomes the nickname it would request.
 */
module Commands {
  import opened Wrappers
  import opened Roles
  import opened Nickname

  /** A nickname edit requested for the guild member at index `member`. */
  datatype NickRequest = NickRequest(member: nat, nick: string)

  predicate HasDisplayRole(m: Member, table: PrefixTable) {
    HighestDisplayRole(m.roles, table).Some?
  }

  /** How many of the members hold at least one role with a prefix entry. */
  function CountWithDisplayRole(members: seq<Member>, table: PrefixTable): (n: nat)
    ensures n <= |members|
    decreases |members|
  {
    if members == [] then 0
    else
      var p := members[..|members| - 1];
      CountWithDisplayRole(p, table) + (if HasDisplayRole(members[|members| - 1], table) then 1 else 0)
  }

  /**
   * The edit `updateall` makes for one member: the composition with the prefix of
   * the active role, or nothing when there is no active role or its prefix is empty.
   */
  function EditFor(m: Member, table: PrefixTable): Option<string> {
    match HighestDisplayRole(m.roles, table)
    case None => None
    case Some(role) => ApplyPrefix(m, role, table)
  }

  /**
   * A member is edited exactly when their active role's prefix is non-empty, and
   * the edit composes that prefix with the display name.
   */
  lemma EditForActiveRole(m: Member, table: PrefixTable)
    ensures HighestDisplayRole(m.roles, table).Some? ==> HasPrefixEntry(HighestDisplayRole(m.roles, table).value, table)
    ensures EditFor(m, table).None? <==>
      HighestDisplayRole(m.roles, table).None? || table[RoleKey(HighestDisplayRole(m.roles, table).value)] == ""
    ensures EditFor(m, table).Some? ==>
      EditFor(m, table).value == ComposeNickname(table[RoleKey(HighestDisplayRole(m.roles, table).value)], m.displayName)
  {
    HighestDisplayRoleSpec(m.roles, table);
  }

  /**
   * The edit requests for a list of per-member outcomes, one for each `Some`,
   * in member order.
   */
  function EditsOf(outcomes: seq<Option<string>>): (edits: seq<NickRequest>)
    ensures |edits| <= |outcomes|
    ensures forall k :: 0 <= k < |edits| ==>
      edits[k].member < |outcomes| && outcomes[edits[k].member] == Some(edits[k].nick)
    decreases |outcomes|
  {
    if outcomes == [] then []
    else
      var n := |outcomes| - 1;
      var earlier := EditsOf(outcomes[..n]);
      var edits := earlier + (if outcomes[n].Some? then [NickRequest(n, outcomes[n].value)] else []);
      assert forall k :: 0 <= k < |earlier| ==> edits[k] == earlier[k];
      edits
  }

  /** Requests come in index order, at most one per index. */
  lemma {:induction false} EditsOfOrdered(outcomes: seq<Option<string>>)
    ensures forall a, b :: 0 <= a < b < |EditsOf(outcomes)| ==>
      EditsOf(outcomes)[a].member < EditsOf(outcomes)[b].member
    decreases |outcomes|
  {
    if outcomes != [] {
      var n := |outcomes| - 1;
      EditsOfOrdered(outcomes[..n]);
      var earlier := EditsOf(outcomes[..n]);
      var edits := EditsOf(outcomes);
      assert forall k :: 0 <= k < |earlier| ==> edits[k] == earlier[k] && earlier[k].member < n;
    }
  }

  /** Some request in `edits` is for the member at index `i`. */
  predicate Requested(edits: seq<NickRequest>, i: nat) {
    exists k :: 0 <= k < |edits| && edits[k].member == i
  }

  /** Every `Some` outcome, and only those, gets a request. */
  lemma {:induction false} EditsOfComplete(outcomes: seq<Option<string>>)
    ensures forall i :: 0 <= i < |outcomes| ==>
      (outcomes[i].Some? <==> Requested(EditsOf(outcomes), i))
    decreases |outcomes|
  {
    if outcomes != [] {
      var n := |outcomes| - 1;
      var p := outcomes[..n];
      EditsOfComplete(p);
      assert EditsOf(outcomes) == EditsOf(p) + (if outcomes[n].Some? then [NickRequest(n, outcomes[n].value)] else []);
      forall i | 0 <= i < |outcomes|
        ensures outcomes[i].Some? <==> Requested(EditsOf(outcomes), i)
      {
        if i < n {
          assert p[i] == outcomes[i];
          if outcomes[i].Some? {
            var k :| 0 <= k < |EditsOf(p)| && EditsOf(p)[k].member == i;
            assert EditsOf(outcomes)[k] == EditsOf(p)[k];
          } else {
            forall k | 0 <= k < |EditsOf(outcomes)|
              ensures EditsOf(outcomes)[k].member != i
            {
              if k < |EditsOf(p)| {
                assert EditsOf(outcomes)[k] == EditsOf(p)[k];
              }
            }
          }
        } else if outcomes[n].Some? {
          assert EditsOf(outcomes)[|EditsOf(p)|].member == n;
        }
      }
    }
  }

  /** `f` applied to every element, in order. */
  function MapSeq<T, U>(xs: seq<T>, f: T -> U): (ys: seq<U>)
    ensures |ys| == |xs| && forall i :: 0 <= i < |xs| ==> ys[i] == f(xs[i])
    decreases |xs|
  {
    if xs == [] then []
    else
      var n := |xs| - 1;
      assert forall i :: 0 <= i < n ==> xs[..n][i] == xs[i];
      MapSeq(xs[..n], f) + [f(xs[n])]
  }

  /** The per-member edit, as a function value. */
  function EditIn(table: PrefixTable): Member -> Option<string> {
    m => EditFor(m, table)
  }

  /** The edits `updateall` makes, in guild member order. */
  function PlannedEdits(members: seq<Member>, table: PrefixTable): seq<NickRequest> {
    EditsOf(MapSeq(members, EditIn(table)))
  }

  /**
   * Every edit is for a member holding a prefixed role, and requests exactly that
   * member's composed nickname.
   */
  lemma PlannedEditsSound(members: seq<Member>, table: PrefixTable)
    ensures |PlannedEdits(members, table)| <= CountWithDisplayRole(members, table)
    ensures forall k :: 0 <= k < |PlannedEdits(members, table)| ==>
      PlannedEdits(members, table)[k].member < |members| &&
      EditFor(members[PlannedEdits(members, table)[k].member], table) == Some(PlannedEdits(members, table)[k].nick)
  {
    EditsWithinCount(members, table);
    forall k | 0 <= k < |PlannedEdits(members, table)|
      ensures PlannedEdits(members, table)[k].member < |members| &&
        EditFor(members[PlannedEdits(members, table)[k].member], table) == Some(PlannedEdits(members, table)[k].nick)
    {
      var j := PlannedEdits(members, table)[k].member;
      assert MapSeq(members, EditIn(table))[j] == EditFor(members[j], table);
    }
  }

  /** Adding one more element adds at most the edit of that element. */
  lemma EditsOfMapSnoc<T>(xs: seq<T>, f: T -> Option<string>)
    requires xs != []
    ensures EditsOf(MapSeq(xs, f)) == EditsOf(MapSeq(xs[..|xs| - 1], f)) +
      (if f(xs[|xs| - 1]).Some? then [NickRequest(|xs| - 1, f(xs[|xs| - 1]).value)] else [])
  {
    assert MapSeq(xs, f)[..|xs| - 1] == MapSeq(xs[..|xs| - 1], f);
  }

  /** Adding a member at the end adds at most its own edit. */
  lemma PlannedEditsSnoc(members: seq<Member>, table: PrefixTable)
    requires members != []
    ensures PlannedEdits(members, table) == PlannedEdits(members[..|members| - 1], table) +
      (if EditFor(members[|members| - 1], table).Some?
       then [NickRequest(|members| - 1, EditFor(members[|members| - 1], table).value)] else [])
  {
    EditsOfMapSnoc(members, EditIn(table));
  }

  /** Only members with a prefixed role are edited, so edits never outnumber them. */
  lemma {:induction false} EditsWithinCount(members: seq<Member>, table: PrefixTable)
    ensures |EditsOf(MapSeq(members, EditIn(table)))| <= CountWithDisplayRole(members, table)
    decreases |members|
  {
    if members != [] {
      var n := |members| - 1;
      EditsWithinCount(members[..n], table);
      EditsOfMapSnoc(members, EditIn(table));
      assert EditFor(members[n], table).Some? ==> HasDisplayRole(members[n], table);
    }
  }

  /** No member is edited twice, and edits come in guild member order. */
  lemma PlannedEditsOrdered(members: seq<Member>, table: PrefixTable)
    ensures forall a, b :: 0 <= a < b < |PlannedEdits(members, table)| ==>
      PlannedEdits(members, table)[a].member < PlannedEdits(members, table)[b].member
  {
    EditsOfOrdered(MapSeq(members, EditIn(table)));
  }

  /** Every member whose active role has a non-empty prefix gets an edit, and no other member does. */
  lemma PlannedEditsComplete(members: seq<Member>, table: PrefixTable)
    ensures forall i :: 0 <= i < |members| ==>
      (EditFor(members[i], table).Some? <==> Requested(PlannedEdits(members, table), i))
  {
    EditsOfComplete(MapSeq(members, EditIn(table)));
    forall i | 0 <= i < |members|
      ensures EditFor(members[i], table).Some? <==> Requested(PlannedEdits(members, table), i)
    {
      assert MapSeq(members, EditIn(table))[i] == EditFor(members[i], table);
    }
  }

  /** What visiting member `i` adds to the planned edits and to the count. */
  lemma UpdateAllStep(members: seq<Member>, i: nat, table: PrefixTable)
    requires i < |members|
    ensures PlannedEdits(members[..i + 1], table) == PlannedEdits(members[..i], table) +
      (if EditFor(members[i], table).Some? then [NickRequest(i, EditFor(members[i], table).value)] else [])
    ensures CountWithDisplayRole(members[..i + 1], table) ==
      CountWithDisplayRole(members[..i], table) + (if HasDisplayRole(members[i], table) then 1 else 0)
  {
    assert members[..i + 1][..i] == members[..i];
    assert members[..i + 1][i] == members[i];
    PlannedEditsSnoc(members[..i + 1], table);
  }

  /**
   * `updateall`: visit every guild member, request the composed nickname for
   * those with an active role, and count them.
   */
  method UpdateAll(members: seq<Member>, table: PrefixTable) returns (count: nat, edits: seq<NickRequest>)
    ensures count == CountWithDisplayRole(members, table)
    ensures edits == PlannedEdits(members, table)
  {
    count, edits := 0, [];
    for i := 0 to |members|
      invariant count == CountWithDisplayRole(members[..i], table)
      invariant edits == PlannedEdits(members[..i], table)
    {
      UpdateAllStep(members, i, table);
      var role := HighestDisplayRole(members[i].roles, table);
      assert HasDisplayRole(members[i], table) == role.Some?;
      assert EditFor(members[i], table) == if role.Some? then ApplyPrefix(members[i], role.value, table) else None;
      if role.Some? {
        var nick := ApplyPrefix(members[i], role.value, table);
        if nick.Some? {
          edits := edits + [NickRequest(i, nick.value)];
        }
        count := count + 1;
      }
    }
    assert members[..|members|] == members;
  }

  /**
   * When every configured prefix is non-empty, each counted member gets exactly
   * one edit; an empty prefix is counted but edits nothing.
   */
  lemma {:induction false} EditsMatchCount(members: seq<Member>, table: PrefixTable)
    requires forall k :: k in table ==> table[k] != ""
    ensures |PlannedEdits(members, table)| == CountWithDisplayRole(members, table)
    decreases |members|
  {
    if members != [] {
      var n := |members| - 1;
      var p := members[..n];
      EditsMatchCount(p, table);
      PlannedEditsSnoc(members, table);
      HighestDisplayRoleSpec(members[n].roles, table);
    }
  }

  /** Three members, two of whom hold a prefixed role: `updateall` reports 2. */
  lemma UpdateAllScenario(r1: Role, r2: Role)
    requires r1.id != r2.id
    ensures var table := map[RoleKey(r1) := "💎"];
      var ms := [Member([r1], "Ann"), Member([r2], "Bo"), Member([r2, r1], "Cy")];
      CountWithDisplayRole(ms, table) == 2
  {
    var table := map[RoleKey(r1) := "💎"];
    Decimal.ToDecimalInjective(r1.id, r2.id);
    var a, b, c := Member([r1], "Ann"), Member([r2], "Bo"), Member([r2, r1], "Cy");
    var ms := [a, b, c];
    assert HasDisplayRole(a, table) by { assert a.roles[0] == r1; }
    assert !HasDisplayRole(b, table) by { assert b.roles == [r2]; }
    assert HasDisplayRole(c, table) by { assert c.roles[1] == r1; }
    assert ms[..2] == [a, b] && [a, b][..1] == [a] && [a][..0] == [];
    assert CountWithDisplayRole([a], table) == 1;
    assert CountWithDisplayRole([a, b], table) == 1;
  }

  /** The reply of `updateuser`: the edit requested, or that the member has no prefixed role. */
  datatype UpdateUserReply = Updated(request: Option<string>) | NoRolesWithPrefix

  /** `updateuser`: resolve and apply for one member. */
  function UpdateUser(member: Member, table: PrefixTable): (reply: UpdateUserReply)
    ensures reply.NoRolesWithPrefix? <==> forall i :: 0 <= i < |member.roles| ==> !HasPrefixEntry(member.roles[i], table)
    ensures reply.Updated? ==>
      reply.request == ApplyPrefix(member, HighestDisplayRole(member.roles, table).value, table)
    ensures reply.Updated? ==> reply.request == EditFor(member, table)
  {
    HighestDisplayRoleSpec(member.roles, table);
    match HighestDisplayRole(member.roles, table)
    case None => NoRolesWithPrefix
    case Some(role) => Updated(ApplyPrefix(member, role, table))
  }

  /** The role ids of a role list; discord compares roles by id. */
  function RoleIds(roles: seq<Role>): (ids: seq<nat>)
    ensures |ids| == |roles| && forall i :: 0 <= i < |roles| ==> ids[i] == roles[i].id
    decreases |roles|
  {
    if roles == [] then [] else [roles[0].id] + RoleIds(roles[1..])
  }

  /** `on_member_update`: the nickname edit a member-update event requests, if any. */
  function OnMemberUpdate(before: Member, after: Member, table: PrefixTable): (nick: Option<string>)
    ensures RoleIds(before.roles) == RoleIds(after.roles) ==> nick.None?
    ensures RoleIds(before.roles) != RoleIds(after.roles) ==> nick == EditFor(after, table)
  {
    if RoleIds(before.roles) == RoleIds(after.roles) then None
    else
      match HighestDisplayRole(after.roles, table)
      case None => None
      case Some(role) => ApplyPrefix(after, role, table)
  }

  /** After a change of roles the event requests exactly what `updateuser` would. */
  lemma OnMemberUpdateAgreesWithUpdateUser(before: Member, after: Member, table: PrefixTable)
    requires RoleIds(before.roles) != RoleIds(after.roles)
    ensures OnMemberUpdate(before, after, table) ==
      match UpdateUser(after, table)
      case NoRolesWithPrefix => None
      case Updated(request) => request
  {
  }
}
