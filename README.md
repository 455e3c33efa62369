# Random Roster store, modelled in Dafny

Random Roster keeps named groups of people in one client-side store and
splits a group's members into random teams. This project models that store
(`src/store/useStore.ts`) and proves properties of the model:

- four list updates: `addGroup`, `removeGroup`, `addMemberToGroup` and
  `removeMemberFromGroup`. Each is a total function from the current list of
  groups to the next one, built only from append, `filter` and `map`. An id
  that matches nothing makes the update a no-op.
- two team operations. `sortTeamMembers` copies the member list and reorders
  the copy at random. `shuffleTeam` does the same, then deals the reordered
  list round-robin into `numberOfTeams` teams.

Modules, one file each:

- `sequences.dfy` (`Sequences`): `Filter`, `Map` and `MapIndexed`, the order-preserving array primitives the store uses, with their lemmas; and `Flatten`, which the store never builds, to state what a list of teams holds altogether.
- `roster.dfy` (`Roster`): the `Member` and `Group` records of `src/types/index.ts`.
- `groups.dfy` (`Groups`): the four list updates as functions, their no-op, idempotence, order, undo and id-invariant lemmas.
- `store.dfy` (`RosterStore`): the store as a class `Store` with one field, `groups`. Each update method replaces that field with the matching `Groups` function of its old value.
- `teams.dfy` (`Teams`): `SortTeamMembers`, the dealing loop `Deal` (over an array of team buffers, as the original allocates), `ShuffleTeam`, and the team-size lemmas.

Values that the original takes from the environment are parameters supplied
by the caller:

- the new group's id (`crypto.randomUUID()`) and creation time
  (`new Date().toISOString()`);
- the new members' ids (`crypto.randomUUID()`) and avatar seeds
  (`Math.random().toString(36).substring(7)`). `addMemberToGroup` draws both
  inside its `map` callback, so every group that matches the id gets a draw of
  its own. The model takes them as a function `draws` from a group's position
  to a `Groups.Draw`.

The random comparator is modelled as a nondeterministic choice of some
reordering. Nothing is promised about that choice except that it is a
permutation of the input.

The store never checks that ids are unique; it relies on the UUIDs being
fresh. The model states that invariant as `Groups.WellFormed`. It proves that
every update keeps it, provided the id an add operation introduces is fresh.
The store methods themselves stay total, as in the original.

`numberOfTeams` must be at least 1 whenever there is a member to deal. With 0
teams and a non-empty list the original indexes `teams[NaN]` and throws; with
0 teams and an empty list it returns an empty list. `Deal` and `ShuffleTeam`
require `numberOfTeams >= 1 || members == []`, which admits exactly the whole
numbers below 2^32 for which the call does not throw (see "Left out" for
larger counts). The two callers (`src/app/shuffle/page.tsx:48` and
`src/app/all-in-one/page.tsx:89`) pass a whole number that is at least 1. It
can be larger than the member count, in which case the last teams stay empty
(`Teams.TeamsBeyondMembersEmpty`).

## Model

| member | source | states |
|---|---|---|
| `RosterStore.Store.constructor` | src/store/useStore.ts:18 | the store starts with no groups, which satisfies the id invariant |
| `RosterStore.Store.AddGroup` | src/store/useStore.ts:20-32 | the new `groups` is `Groups.AddGroup` of the old one; the id invariant is kept when the new id is fresh |
| `RosterStore.Store.RemoveGroup` | src/store/useStore.ts:34-38 | the new `groups` is `Groups.RemoveGroup` of the old one; the id invariant is kept |
| `RosterStore.Store.AddMemberToGroup` | src/store/useStore.ts:40-58 | the new `groups` is `Groups.AddMemberToGroup` of the old one, with each matching group's own draw; the id invariant is kept when every drawn id is fresh in the group it goes to |
| `RosterStore.Store.RemoveMemberFromGroup` | src/store/useStore.ts:60-71 | the new `groups` is `Groups.RemoveMemberFromGroup` of the old one; the id invariant is kept |
| `Groups.AddGroup` | src/store/useStore.ts:21-31 | the result is one longer than the old list; its prefix is the old list unchanged; its last group has the given id, name and timestamp and no members |
| `Groups.RemoveGroup` | src/store/useStore.ts:36 | every surviving group was in the old list and has a different id; every old group with a different id survives |
| `Groups.RemoveGroupKeepsOrder` | src/store/useStore.ts:36 | removal distributes over concatenation, so survivors keep their original relative order |
| `Groups.RemoveGroupCount` | src/store/useStore.ts:36 | a group with a different id survives exactly as many times as it occurred; a group with the id never survives |
| `Groups.RemoveGroupAbsent` | src/store/useStore.ts:34-38 | removing an id that no group has leaves the list unchanged |
| `Groups.RemoveGroupIdempotent` | src/store/useStore.ts:34-38 | removing the same id twice gives the same list as removing it once |
| `Groups.AddGroupThenRemove` | src/store/useStore.ts:20-38 | removing a group just added with a fresh id gives back the list from before the add |
| `Groups.AddMemberToGroup` | src/store/useStore.ts:42-56 | the number of groups is unchanged; groups with a different id are unchanged; a matching group at position `i` keeps its id, name and timestamp, and its members become the old members followed by one new member with the given name, the id and seed of draw `i`, and no exclusion flag |
| `Groups.AddMemberUnknownGroup` | src/store/useStore.ts:40-58 | adding a member to a group id that no group has leaves the list unchanged |
| `Groups.WithoutMember` | src/store/useStore.ts:66 | every kept member was in the list and has a different id; every member with a different id is kept |
| `Groups.WithoutMemberKeepsOrder` | src/store/useStore.ts:66 | member removal distributes over concatenation, so the remaining members keep their order |
| `Groups.WithoutMemberCount` | src/store/useStore.ts:66 | a member with a different id stays exactly as many times as it occurred; members with the id are gone |
| `Groups.RemoveMemberFromGroup` | src/store/useStore.ts:62-69 | the number of groups is unchanged; groups with a different id are unchanged; a matching group keeps its id, name and timestamp, and its members become `WithoutMember` of the old ones |
| `Groups.RemoveMemberAbsent` | src/store/useStore.ts:60-71 | when no matching group holds the member id, the list is unchanged, including the case of an unknown group id |
| `Groups.RemoveMemberIdempotent` | src/store/useStore.ts:60-71 | a second identical member removal changes nothing |
| `Groups.AddMemberThenRemove` | src/store/useStore.ts:40-71 | when group ids are unique and the drawn id is fresh in its group, removing the member just added gives back the list from before the add |
| `Groups.AddMemberThenRemoveNeedsUniqueGroups` | src/store/useStore.ts:40-71 | with two groups sharing an id, each gets its own new member, and removing the first one's id leaves the second in place, so the undo needs unique group ids |
| `Groups.AddGroupPreservesWellFormed` | src/store/useStore.ts:20-32 | appending a group with a fresh id keeps group ids and member ids unique |
| `Groups.RemoveGroupPreservesWellFormed` | src/store/useStore.ts:34-38 | removing groups keeps group ids and member ids unique |
| `Groups.AddMemberPreservesWellFormed` | src/store/useStore.ts:40-58 | adding members whose drawn ids are fresh in their groups keeps all ids unique |
| `Groups.RemoveMemberPreservesWellFormed` | src/store/useStore.ts:60-71 | removing members keeps all ids unique |
| `Teams.SortTeamMembers` | src/store/useStore.ts:84-86 | the result has the input's length and is a permutation of it (equal multisets) |
| `Teams.Deal` | src/store/useStore.ts:75-81 | exactly `numberOfTeams` teams; team `j` has `TeamSize(n, k, j)` members; member `i` is at place `i / k` of team `i % k`; place `t` of team `j` holds member `t * k + j`; the concatenated teams are a permutation of the input |
| `Teams.ShuffleTeam` | src/store/useStore.ts:73-82 | for some permutation `shuffled` of the members: exactly `numberOfTeams` teams, the team sizes of round-robin dealing, member `i` of `shuffled` in team `i % k`, and the concatenated teams a permutation of the members |
| `Teams.TeamSizeIsCeiling` | src/store/useStore.ts:77-79 | team `j` of `k` receives `ceil((n - j) / k)` members |
| `Teams.TeamSizesBalanced` | src/store/useStore.ts:77-79 | a later team is never larger than an earlier one, and any two team sizes differ by at most one |
| `Teams.TeamsBeyondMembersEmpty` | src/store/useStore.ts:75 | with `n` members and `k > n` teams, teams `n` to `k - 1` stay empty |
| `Teams.TeamSizeStep` | src/store/useStore.ts:77-79 | pushing member `i` makes team `i % k` one longer and leaves every other team's size alone |

## Left out

- Distribution of the shuffle: `sort(() => Math.random() - 0.5)` uses floating-point randomness and an inconsistent comparator. Only "the result is a permutation" is stated; nothing about uniformity or bias.
- Id, timestamp and avatar-seed generation (`crypto.randomUUID`, `Date.toISOString`, `Math.random().toString(36)`): foreign calls, passed in as opaque strings.
- Persistence: the `persist` middleware that mirrors the state to localStorage under the name `random-roster-storage` is I/O and library plumbing.
- The Zustand `set`/`get` machinery and subscriptions: the model replaces `groups` directly in each method.
- `createPairs`, `selectRandomMembers`, renaming a member, toggling exclusion and the exclusion filter: the store neither declares nor defines them, so there is no implementation to model. The `excluded` flag is kept in `Member` and is never read, as in the store.
- Non-integer, negative or `NaN` team counts: `numberOfTeams` is a `nat`, since every caller passes a whole number.
- Deal: does not model JavaScript's array-length limit. With `numberOfTeams` at 2^32 or more, `Array.from` throws a `RangeError`; the model builds the teams for every natural number.
- The pages, navigation, theming, avatar rendering and the debounce hook: rendering and event wiring, not store logic.
- Copy semantics: member lists are Dafny values, so "the caller's array is not modified" holds by construction. The model does not show the spread copy or aliasing.
