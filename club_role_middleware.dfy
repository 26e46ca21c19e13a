/** `requireClubRole(allowedRoles)`: admits a caller to a club route only when the
    club exists, the caller has an entry in its members list, and the role of the
    first such entry is one of the allowed roles. It reads the club and never
    changes it. */
module ClubRoleMiddleware {
  import opened Js
  import opened Ledger
  import opened Responses
  import opened ClubController

  /** What a middleware does with a request: pass the loaded club on to the next
      handler (`req.club = club; next()`), or answer the request itself. */
  datatype Gate = Next(club: Club) | Halt(outcome: Outcome)

  /** `found` is what looking up `params.id` gave, null when no club has that id. */
  function RequireClubRole(allowedRoles: seq<Role>, found: Club?, caller: UserId): (g: Gate)
    reads found
    ensures found == null ==> g == Halt(ClubNotFound)
    ensures found != null && !HasMember(found.members, caller) ==> g == Halt(NotClubMember)
    ensures g.Next? <==> found != null && RoleOf(found.members, caller).Some?
                         && RoleOf(found.members, caller).value in allowedRoles
    ensures g.Next? ==> g.club == found
    ensures found != null && HasMember(found.members, caller) && g.Halt? ==> g.outcome == InsufficientPermissions
  {
    if found == null then Halt(ClubNotFound)
    else
      match RoleOf(found.members, caller)
      case None => Halt(NotClubMember)
      case Some(role) => if role in allowedRoles then Next(found) else Halt(InsufficientPermissions)
  }

  /** With the default, empty list of allowed roles every caller is turned away,
      the owner included. */
  lemma DefaultRolesDenyEveryone(found: Club?, caller: UserId)
    ensures RequireClubRole([], found, caller).Halt?
  {
  }

  /** The first entry of the caller decides: a later entry with another role is
      never looked at. */
  lemma FirstEntryDecides(allowedRoles: seq<Role>, found: Club, caller: UserId, i: int)
    requires FirstEntry(found.members, caller, i)
    ensures RequireClubRole(allowedRoles, found, caller)
            == if found.members[i].role in allowedRoles then Next(found) else Halt(InsufficientPermissions)
  {
  }
}
