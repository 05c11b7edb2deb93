/**
 * Nickname composition: strip an earlier prefix segment (everything up to and
 * including the first " | ") from the display name and put the new prefix in front.
 */
module Nickname {
  import opened Wrappers
  import opened Roles

  const Separator: string := " | "

  /** The separator occurs in s starting at index i. */
  predicate SeparatorAt(s: string, i: int) {
    0 <= i && i + 3 <= |s| && s[i] == ' ' && s[i + 1] == '|' && s[i + 2] == ' '
  }

  /** `" | " in s`. */
  predicate ContainsSeparator(s: string) {
    exists i :: 0 <= i <= |s| && SeparatorAt(s, i)
  }

  /** The first index at or after `from` where the separator starts, if any. */
  function FindSeparator(s: string, from: nat): (r: Option<nat>)
    ensures r.Some? ==> from <= r.value && SeparatorAt(s, r.value)
    ensures forall j :: from <= j && (r.None? || j < r.value) ==> !SeparatorAt(s, j)
    decreases |s| - from
  {
    if from + 3 > |s| then None
    else if SeparatorAt(s, from) then Some(from)
    else FindSeparator(s, from + 1)
  }

  /**
   * The base name `apply_prefix` keeps: `name.split(" | ", 1)[1]` when the
   * separator occurs, the whole name otherwise.
   */
  function StripPrefixSegment(name: string): (base: string)
    ensures !ContainsSeparator(name) ==> base == name
    ensures ContainsSeparator(name) ==>
      |base| + 3 <= |name| && base == name[|name| - |base|..] &&
      SeparatorAt(name, |name| - |base| - 3) &&
      forall j :: 0 <= j < |name| - |base| - 3 ==> !SeparatorAt(name, j)
  {
    match FindSeparator(name, 0)
    case Some(i) => name[i + 3..]
    case None => name
  }

  /** `f"{prefix} | {base_name}"` with the earlier segment stripped. */
  function ComposeNickname(prefix: string, displayName: string): (nick: string)
    ensures |nick| >= |prefix| + 3 && nick[..|prefix| + 3] == prefix + Separator
  {
    prefix + Separator + StripPrefixSegment(displayName)
  }

  /** A name without the separator is kept whole behind the new prefix. */
  lemma ComposeWithoutSeparator(prefix: string, name: string)
    requires !ContainsSeparator(name)
    ensures ComposeNickname(prefix, name) == prefix + Separator + name
  {
  }

  /** A name with the separator keeps only what follows its first occurrence. */
  lemma ComposeAfterFirstSeparator(prefix: string, name: string, i: nat)
    requires SeparatorAt(name, i)
    requires forall j :: 0 <= j < i ==> !SeparatorAt(name, j)
    ensures ComposeNickname(prefix, name) == prefix + Separator + name[i + 3..]
  {
  }

  /**
   * A prefix whose own text cannot run into the separator that follows it:
   * it has no " | " and does not end in " |".
   */
  predicate CleanPrefix(p: string) {
    !ContainsSeparator(p) && !(|p| >= 2 && p[|p| - 2..] == " |")
  }

  /** In a composed nickname with a clean prefix, the first separator is the one composition added. */
  lemma FirstSeparatorOfComposed(p: string, rest: string)
    requires CleanPrefix(p)
    ensures FindSeparator(p + Separator + rest, 0) == Some(|p|)
  {
    var s := p + Separator + rest;
    assert SeparatorAt(s, |p|);
    forall j | 0 <= j < |p|
      ensures !SeparatorAt(s, j)
    {
      if j + 3 <= |p| {
        assert !SeparatorAt(p, j);
      } else if j == |p| - 2 {
        assert p[|p| - 2..] == [p[j], p[j + 1]];
      }
    }
  }

  /**
   * No stacking: re-prefixing a nickname composed with a clean prefix gives the
   * same nickname as prefixing the original name directly.
   */
  lemma NoStacking(p1: string, p2: string, name: string)
    requires CleanPrefix(p1)
    ensures ComposeNickname(p2, ComposeNickname(p1, name)) == ComposeNickname(p2, name)
  {
    var rest := StripPrefixSegment(name);
    FirstSeparatorOfComposed(p1, rest);
    var s := p1 + Separator + rest;
    assert s[|p1| + 3..] == rest;
  }

  /** Re-applying the same clean prefix changes nothing. */
  lemma ComposeIdempotent(p: string, name: string)
    requires CleanPrefix(p)
    ensures ComposeNickname(p, ComposeNickname(p, name)) == ComposeNickname(p, name)
  {
    NoStacking(p, p, name);
  }

  /** A prefix ending in " |" has no separator of its own, yet its composed nicknames do stack. */
  lemma TrailingBarPrefixStacks()
    ensures !ContainsSeparator("A |")
    ensures ComposeNickname("B", ComposeNickname("A |", "Bob")) == "B | | Bob"
  {
    assert !SeparatorAt("A |", 0);
    ComposeWithoutSeparator("A |", "Bob");
    var s := "A | | Bob";
    assert ComposeNickname("A |", "Bob") == s;
    assert !SeparatorAt(s, 0);
    assert SeparatorAt(s, 1);
    ComposeAfterFirstSeparator("B", s, 1);
    assert s[4..] == "| Bob";
  }

  /** A display name "💎 | Alice" re-prefixed with "👑" becomes "👑 | Alice". */
  lemma ReplacesEarlierPrefix()
    ensures ComposeNickname("👑", "💎 | Alice") == "👑 | Alice"
  {
    var s := "💎 | Alice";
    assert !SeparatorAt(s, 0);
    assert SeparatorAt(s, 1);
    ComposeAfterFirstSeparator("👑", s, 1);
  }

  /**
   * `apply_prefix`: the nickname requested for a member and a role, or None when
   * the role has no entry or an empty prefix.
   */
  function ApplyPrefix(member: Member, role: Role, table: PrefixTable): (nick: Option<string>)
    ensures nick.None? <==> RoleKey(role) !in table || table[RoleKey(role)] == ""
    ensures nick.Some? ==> nick.value == ComposeNickname(table[RoleKey(role)], member.displayName)
  {
    var key := RoleKey(role);
    if key in table && table[key] != "" then Some(ComposeNickname(table[key], member.displayName)) else None
  }
}
