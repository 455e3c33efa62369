/**
 * The two persisted entities of the roster: a member and a group of members.
 * Identifiers, timestamps and avatar seeds are opaque strings produced outside
 * the store (a UUID generator, the clock, a random-string generator).
 */
module Roster {

  datatype Option<T> = None | Some(value: T)

  /** A person in a group. `excluded` is an optional flag that no store operation reads. */
  datatype Member = Member(id: string, name: string, avatarSeed: string, excluded: Option<bool>)

  /** A named group; `members` keeps insertion order. */
  datatype Group = Group(id: string, name: string, members: seq<Member>, createdAt: string)
}
