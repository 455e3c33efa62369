/**
 * The four list updates of the roster store, each a total function from the
 * current list of groups (and the arguments) to the next list. They are built,
 * as in the store, from append, filter and map only; an id that matches
 * nothing makes the update a no-op.
 */
module Groups {
  import opened Roster
  import opened Sequences

  /** No two groups share an id. */
  predicate UniqueGroupIds(groups: seq<Group>)
  {
    forall i, j :: 0 <= i < j < |groups| ==> groups[i].id != groups[j].id
  }

  /** No two members of one group share an id. */
  predicate UniqueMemberIds(members: seq<Member>)
  {
    forall i, j :: 0 <= i < j < |members| ==> members[i].id != members[j].id
  }

  /** The id invariant the roster relies on (the store itself never checks it). */
  predicate WellFormed(groups: seq<Group>)
  {
    UniqueGroupIds(groups) && forall i :: 0 <= i < |groups| ==> UniqueMemberIds(groups[i].members)
  }

  /** No group has id `id`. */
  predicate GroupIdFresh(groups: seq<Group>, id: string)
  {
    forall i :: 0 <= i < |groups| ==> groups[i].id != id
  }

  /**
   * The values addMemberToGroup draws from the environment for one new
   * member: a UUID for its id and a random string for its avatar seed.
   */
  datatype Draw = Draw(memberId: string, avatarSeed: string)

  /** No member of any group with id `groupId` has id `memberId`. */
  predicate MemberIdFresh(groups: seq<Group>, groupId: string, memberId: string)
  {
    forall i, k :: 0 <= i < |groups| && groups[i].id == groupId && 0 <= k < |groups[i].members| ==>
      groups[i].members[k].id != memberId
  }

  /**
   * For every group with id `groupId`, the member id it would be given
   * (`draws(i)` for the group at position `i`) is not yet used in that group.
   */
  predicate DrawsFresh(groups: seq<Group>, groupId: string, draws: nat -> Draw)
  {
    forall i, k :: 0 <= i < |groups| && groups[i].id == groupId && 0 <= k < |groups[i].members| ==>
      groups[i].members[k].id != draws(i).memberId
  }

  /** addGroup: the old groups, then one new empty group with the given name, id and timestamp. */
  function AddGroup(groups: seq<Group>, name: string, id: string, createdAt: string): (r: seq<Group>)
    ensures |r| == |groups| + 1
    ensures r[..|groups|] == groups
    ensures r[|groups|].id == id && r[|groups|].name == name
    ensures r[|groups|].members == [] && r[|groups|].createdAt == createdAt
  {
    groups + [Group(id, name, [], createdAt)]
  }

  /** removeGroup: the groups whose id differs from `id`. */
  function RemoveGroup(groups: seq<Group>, id: string): (r: seq<Group>)
    ensures |r| <= |groups|
    ensures forall i :: 0 <= i < |r| ==> r[i] in groups && r[i].id != id
    ensures forall i :: 0 <= i < |groups| && groups[i].id != id ==> groups[i] in r
  {
    Filter(groups, (g: Group) => g.id != id)
  }

  /** The member addMemberToGroup creates from one draw; the `excluded` flag is left unset. */
  function NewMember(draw: Draw, name: string): (m: Member)
  {
    Member(draw.memberId, name, draw.avatarSeed, None)
  }

  /**
   * addMemberToGroup: every group with id `groupId` gets a new member
   * appended. The map callback draws a fresh id and seed each time it builds
   * a member, so each matching group gets its own draw: `draws(i)` for the
   * group at position `i`.
   */
  function AddMemberToGroup(groups: seq<Group>, groupId: string, name: string,
                            draws: nat -> Draw): (r: seq<Group>)
    ensures |r| == |groups|
    ensures forall i :: 0 <= i < |groups| && groups[i].id != groupId ==> r[i] == groups[i]
    ensures forall i :: 0 <= i < |groups| && groups[i].id == groupId ==>
      r[i].id == groups[i].id && r[i].name == groups[i].name && r[i].createdAt == groups[i].createdAt &&
      r[i].members == groups[i].members + [Member(draws(i).memberId, name, draws(i).avatarSeed, None)]
  {
    MapIndexed(groups, (g: Group, i: nat) =>
      if g.id == groupId then g.(members := g.members + [NewMember(draws(i), name)]) else g)
  }

  /** The members of a list whose id differs from `memberId`. */
  function WithoutMember(members: seq<Member>, memberId: string): (r: seq<Member>)
    ensures |r| <= |members|
    ensures forall k :: 0 <= k < |r| ==> r[k] in members && r[k].id != memberId
    ensures forall k :: 0 <= k < |members| && members[k].id != memberId ==> members[k] in r
  {
    Filter(members, (m: Member) => m.id != memberId)
  }

  /** removeMemberFromGroup: every group with id `groupId` loses its members with id `memberId`. */
  function RemoveMemberFromGroup(groups: seq<Group>, groupId: string, memberId: string): (r: seq<Group>)
    ensures |r| == |groups|
    ensures forall i :: 0 <= i < |groups| && groups[i].id != groupId ==> r[i] == groups[i]
    ensures forall i :: 0 <= i < |groups| && groups[i].id == groupId ==>
      r[i].id == groups[i].id && r[i].name == groups[i].name && r[i].createdAt == groups[i].createdAt &&
      r[i].members == WithoutMember(groups[i].members, memberId)
  {
    Map(groups, (g: Group) =>
      if g.id == groupId then g.(members := WithoutMember(g.members, memberId)) else g)
  }

  // ----- removeGroup -----

  /** Removing a group keeps the survivors in their original order. */
  lemma RemoveGroupKeepsOrder(a: seq<Group>, b: seq<Group>, id: string)
    ensures RemoveGroup(a + b, id) == RemoveGroup(a, id) + RemoveGroup(b, id)
  {
    FilterConcat(a, b, (g: Group) => g.id != id);
  }

  /** Every surviving group is kept as often as it occurred; the removed id is gone. */
  lemma RemoveGroupCount(groups: seq<Group>, id: string, g: Group)
    ensures multiset(RemoveGroup(groups, id))[g] == if g.id != id then multiset(groups)[g] else 0
  {
    FilterCount(groups, (h: Group) => h.id != id, g);
  }

  /** Removing an id no group has changes nothing. */
  lemma RemoveGroupAbsent(groups: seq<Group>, id: string)
    requires GroupIdFresh(groups, id)
    ensures RemoveGroup(groups, id) == groups
  {
    FilterAllKept(groups, (g: Group) => g.id != id);
  }

  /** removeGroup applied twice is removeGroup applied once. */
  lemma RemoveGroupIdempotent(groups: seq<Group>, id: string)
    ensures RemoveGroup(RemoveGroup(groups, id), id) == RemoveGroup(groups, id)
  {
    FilterIdempotent(groups, (g: Group) => g.id != id);
  }

  /** Removing a freshly added group undoes the addition. */
  lemma AddGroupThenRemove(groups: seq<Group>, name: string, id: string, createdAt: string)
    requires GroupIdFresh(groups, id)
    ensures RemoveGroup(AddGroup(groups, name, id, createdAt), id) == groups
  {
    var added := Group(id, name, [], createdAt);
    RemoveGroupKeepsOrder(groups, [added], id);
    RemoveGroupAbsent(groups, id);
    assert RemoveGroup([added], id) == [];
  }

  // ----- addMemberToGroup / removeMemberFromGroup -----

  /** Adding a member to an unknown group changes nothing. */
  lemma AddMemberUnknownGroup(groups: seq<Group>, groupId: string, name: string, draws: nat -> Draw)
    requires GroupIdFresh(groups, groupId)
    ensures AddMemberToGroup(groups, groupId, name, draws) == groups
  {
  }

  /** Removing a member keeps the other members in their original order. */
  lemma WithoutMemberKeepsOrder(a: seq<Member>, b: seq<Member>, memberId: string)
    ensures WithoutMember(a + b, memberId) == WithoutMember(a, memberId) + WithoutMember(b, memberId)
  {
    FilterConcat(a, b, (m: Member) => m.id != memberId);
  }

  /** Every other member is kept as often as it occurred; members with the id are gone. */
  lemma WithoutMemberCount(members: seq<Member>, memberId: string, m: Member)
    ensures multiset(WithoutMember(members, memberId))[m] ==
            if m.id != memberId then multiset(members)[m] else 0
  {
    FilterCount(members, (k: Member) => k.id != memberId, m);
  }

  /** Removing a member id that no matching group holds changes nothing. */
  lemma RemoveMemberAbsent(groups: seq<Group>, groupId: string, memberId: string)
    requires MemberIdFresh(groups, groupId, memberId)
    ensures RemoveMemberFromGroup(groups, groupId, memberId) == groups
  {
    var r := RemoveMemberFromGroup(groups, groupId, memberId);
    forall i | 0 <= i < |groups| ensures r[i] == groups[i] {
      if groups[i].id == groupId {
        FilterAllKept(groups[i].members, (m: Member) => m.id != memberId);
      }
    }
  }

  /** removeMemberFromGroup applied twice is removeMemberFromGroup applied once. */
  lemma RemoveMemberIdempotent(groups: seq<Group>, groupId: string, memberId: string)
    ensures RemoveMemberFromGroup(RemoveMemberFromGroup(groups, groupId, memberId), groupId, memberId) ==
            RemoveMemberFromGroup(groups, groupId, memberId)
  {
    var r := RemoveMemberFromGroup(groups, groupId, memberId);
    forall i, k | 0 <= i < |r| && r[i].id == groupId && 0 <= k < |r[i].members|
      ensures r[i].members[k].id != memberId
    {
    }
    RemoveMemberAbsent(r, groupId, memberId);
  }

  /**
   * Removing a freshly added member undoes the addition. With group ids
   * unique, only the group at `i` gains a member, so the single id
   * `draws(i).memberId` names everything that was added.
   */
  lemma AddMemberThenRemove(groups: seq<Group>, groupId: string, name: string, draws: nat -> Draw, i: nat)
    requires UniqueGroupIds(groups)
    requires i < |groups| && groups[i].id == groupId
    requires DrawsFresh(groups, groupId, draws)
    ensures RemoveMemberFromGroup(AddMemberToGroup(groups, groupId, name, draws), groupId, draws(i).memberId) == groups
  {
    var memberId := draws(i).memberId;
    var added := AddMemberToGroup(groups, groupId, name, draws);
    var r := RemoveMemberFromGroup(added, groupId, memberId);
    forall j | 0 <= j < |groups| ensures r[j] == groups[j] {
      if groups[j].id == groupId {
        assert j == i;
        var ms := groups[i].members;
        var m := NewMember(draws(i), name);
        WithoutMemberKeepsOrder(ms, [m], memberId);
        FilterAllKept(ms, (k: Member) => k.id != memberId);
        assert WithoutMember([m], memberId) == [];
      }
    }
  }

  /**
   * Without unique group ids the undo can fail: two groups named by one id
   * each get their own draw, and removing the first draw's id leaves the
   * second group's new member in place.
   */
  lemma AddMemberThenRemoveNeedsUniqueGroups(name: string)
    ensures var groups := [Group("g", "A", [], "t0"), Group("g", "B", [], "t1")];
            var draws := (i: nat) => if i == 0 then Draw("u1", "s1") else Draw("u2", "s2");
            RemoveMemberFromGroup(AddMemberToGroup(groups, "g", name, draws), "g", "u1") != groups
  {
  }

  // ----- the id invariant -----

  /** Appending a group with a fresh id keeps ids unique. */
  lemma AddGroupPreservesWellFormed(groups: seq<Group>, name: string, id: string, createdAt: string)
    requires WellFormed(groups) && GroupIdFresh(groups, id)
    ensures WellFormed(AddGroup(groups, name, id, createdAt))
  {
  }

  /** Removing groups keeps ids unique. */
  lemma RemoveGroupPreservesWellFormed(groups: seq<Group>, id: string)
    requires WellFormed(groups)
    ensures WellFormed(RemoveGroup(groups, id))
  {
    var r := RemoveGroup(groups, id);
    FilterDistinct(groups, (g: Group) => g.id != id, (g: Group) => g.id);
    forall i | 0 <= i < |r| ensures UniqueMemberIds(r[i].members) {
      var k :| 0 <= k < |groups| && groups[k] == r[i];
    }
  }

  /** Adding members whose ids are fresh in their groups keeps ids unique. */
  lemma AddMemberPreservesWellFormed(groups: seq<Group>, groupId: string, name: string, draws: nat -> Draw)
    requires WellFormed(groups) && DrawsFresh(groups, groupId, draws)
    ensures WellFormed(AddMemberToGroup(groups, groupId, name, draws))
  {
  }

  /** Removing members keeps ids unique. */
  lemma RemoveMemberPreservesWellFormed(groups: seq<Group>, groupId: string, memberId: string)
    requires WellFormed(groups)
    ensures WellFormed(RemoveMemberFromGroup(groups, groupId, memberId))
  {
    var r := RemoveMemberFromGroup(groups, groupId, memberId);
    forall i | 0 <= i < |r| ensures UniqueMemberIds(r[i].members) {
      if groups[i].id == groupId {
        FilterDistinct(groups[i].members, (m: Member) => m.id != memberId, (m: Member) => m.id);
      }
    }
  }
}
