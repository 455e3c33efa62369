/**
 * The roster store: one state field, `groups`, replaced wholesale by each
 * update. Values the original draws from the environment inside an update
 * (a fresh UUID, the current time as an ISO string, a random avatar seed) are
 * arguments here, supplied by the caller.
 */
module RosterStore {
  import opened Roster
  import opened Groups

  class Store {
    var groups: seq<Group>

    /** The store starts with no groups. */
    constructor ()
      ensures groups == []
      ensures WellFormed(groups)
    {
      groups := [];
    }

    /** addGroup, with the new group's id and creation time supplied. */
    method AddGroup(name: string, id: string, createdAt: string)
      modifies this
      ensures groups == Groups.AddGroup(old(groups), name, id, createdAt)
      ensures old(WellFormed(groups)) && GroupIdFresh(old(groups), id) ==> WellFormed(groups)
    {
      if WellFormed(groups) && GroupIdFresh(groups, id) {
        AddGroupPreservesWellFormed(groups, name, id, createdAt);
      }
      groups := Groups.AddGroup(groups, name, id, createdAt);
    }

    /** removeGroup. */
    method RemoveGroup(id: string)
      modifies this
      ensures groups == Groups.RemoveGroup(old(groups), id)
      ensures old(WellFormed(groups)) ==> WellFormed(groups)
    {
      if WellFormed(groups) {
        RemoveGroupPreservesWellFormed(groups, id);
      }
      groups := Groups.RemoveGroup(groups, id);
    }

    /**
     * addMemberToGroup, with the id and avatar seed drawn for each new member
     * supplied: `draws(i)` for the group at position `i`.
     */
    method AddMemberToGroup(groupId: string, name: string, draws: nat -> Draw)
      modifies this
      ensures groups == Groups.AddMemberToGroup(old(groups), groupId, name, draws)
      ensures old(WellFormed(groups)) && DrawsFresh(old(groups), groupId, draws) ==> WellFormed(groups)
    {
      if WellFormed(groups) && DrawsFresh(groups, groupId, draws) {
        AddMemberPreservesWellFormed(groups, groupId, name, draws);
      }
      groups := Groups.AddMemberToGroup(groups, groupId, name, draws);
    }

    /** removeMemberFromGroup. */
    method RemoveMemberFromGroup(groupId: string, memberId: string)
      modifies this
      ensures groups == Groups.RemoveMemberFromGroup(old(groups), groupId, memberId)
      ensures old(WellFormed(groups)) ==> WellFormed(groups)
    {
      if WellFormed(groups) {
        RemoveMemberPreservesWellFormed(groups, groupId, memberId);
      }
      groups := Groups.RemoveMemberFromGroup(groups, groupId, memberId);
    }
  }
}
