/** The club route table: every route first authenticates the caller; edit, invite
    and remove then pass `requireClubRole(['owner', 'officer'])`; create and respond
    have no role guard. Each route is the composition of its middleware and its
    handler, and the club is only touched once every middleware has let the
    request through. */
module ClubRoutes {
  import opened Js
  import opened Ledger
  import opened Responses
  import opened ClubController
  import opened ClubRoleMiddleware

  const ClubAdminRoles: seq<Role> := [Owner, Officer]

  /** `authMiddleware` then `requireClubRole(['owner', 'officer'])`. `auth` is the
      caller the bearer token identifies, None when the token is missing or does
      not verify. */
  function AdminGate(auth: Option<UserId>, found: Club?): (g: Gate)
    reads found
    ensures g.Next? <==> && auth.Some? && found != null
                         && (RoleOf(found.members, auth.value) == Some(Owner)
                             || RoleOf(found.members, auth.value) == Some(Officer))
    ensures g.Next? ==> g.club == found
    ensures auth.None? ==> g == Halt(Unauthenticated)
  {
    if auth.None? then Halt(Unauthenticated) else RequireClubRole(ClubAdminRoles, found, auth.value)
  }

  /** POST / : any authenticated caller may create a club. */
  method PostClub(auth: Option<UserId>, taken: set<string>, name: Option<string>, description: Option<string>)
    returns (o: Outcome, club: Club?)
    ensures auth.None? ==> o == Unauthenticated && club == null
    ensures auth.Some? ==> o == CreateResult(taken, name)
    ensures o != Created ==> club == null
    ensures o == Created ==> && auth.Some? && club != null && fresh(club) && club.Valid()
                             && club.name == Trim(name.value) && club.description == OrEmpty(description)
                             && club.createdBy == auth.value
                             && club.members == [Membership(auth.value, Owner)] && club.pending == []
  {
    if auth.None? {
      return Unauthenticated, null;
    }
    o, club := CreateClub(taken, auth.value, name, description);
  }

  /** PUT /:id : edit the profile, owner or officer only. */
  method PutClub(auth: Option<UserId>, found: Club?, name: Option<string>, description: Option<string>)
    returns (o: Outcome)
    requires found != null ==> found.Valid()
    modifies found
    ensures found != null ==> found.Valid()
    ensures old(AdminGate(auth, found)).Halt? ==> && o == old(AdminGate(auth, found)).outcome
                                                  && (found != null ==> unchanged(found))
    ensures old(AdminGate(auth, found)).Next? ==>
              && o == EditResult(name)
              && found.name == (if o == Ok && Truthy(name) then Trim(name.value) else old(found.name))
              && found.description == (if o == Ok && Truthy(description) then description.value
                                       else old(found.description))
              && found.members == old(found.members) && found.pending == old(found.pending)
              && found.createdBy == old(found.createdBy)
  {
    var g := AdminGate(auth, found);
    if g.Halt? {
      return g.outcome;
    }
    o := g.club.Edit(name, description);
  }

  /** POST /:id/invite : owner or officer only, so a plain member can never invite. */
  method PostInvite(auth: Option<UserId>, found: Club?, users: set<UserId>, target: UserId)
    returns (o: Outcome)
    requires found != null ==> found.Valid()
    modifies found
    ensures found != null ==> found.Valid()
    ensures old(AdminGate(auth, found)).Halt? ==> && o == old(AdminGate(auth, found)).outcome
                                                  && (found != null ==> unchanged(found))
    ensures old(AdminGate(auth, found)).Next? ==>
              && o == InviteResult(users, old(found.members), old(found.pending), target)
              && found.pending == (if o == Ok then old(found.pending) + [target] else old(found.pending))
              && found.members == old(found.members)
              && found.name == old(found.name) && found.description == old(found.description)
              && found.createdBy == old(found.createdBy)
    ensures auth.Some? && found != null && old(RoleOf(found.members, auth.value)) == Some(PlainMember) ==>
              o == InsufficientPermissions && unchanged(found)
  {
    var g := AdminGate(auth, found);
    if g.Halt? {
      return g.outcome;
    }
    o := g.club.Invite(users, target);
  }

  /** DELETE /:id/members/:userId : owner or officer only; together with the owner
      check of the handler, an officer can remove another officer and nobody can
      remove the owner. */
  method DeleteMember(auth: Option<UserId>, found: Club?, target: UserId) returns (o: Outcome)
    requires found != null ==> found.Valid()
    modifies found
    ensures found != null ==> found.Valid()
    ensures old(AdminGate(auth, found)).Halt? ==> && o == old(AdminGate(auth, found)).outcome
                                                  && (found != null ==> unchanged(found))
    ensures old(AdminGate(auth, found)).Next? ==>
              && o == RemoveResult(old(found.members), target)
              && found.members == (if o == Ok then WithoutUser(old(found.members), target) else old(found.members))
              && found.pending == old(found.pending)
              && found.name == old(found.name) && found.description == old(found.description)
              && found.createdBy == old(found.createdBy)
    ensures found != null && old(RoleOf(found.members, target)) == Some(Owner) ==>
              o != Ok && unchanged(found)
    ensures && auth.Some? && found != null
            && old(RoleOf(found.members, auth.value)) == Some(Officer)
            && old(RoleOf(found.members, target)) == Some(Officer) ==>
              o == Ok && !HasMember(found.members, target)
  {
    var g := AdminGate(auth, found);
    if g.Halt? {
      return g.outcome;
    }
    o := g.club.RemoveMember(target);
  }

  /** POST /:id/invitations/respond : authenticated, but no role guard, since the
      invitee is not a member yet. */
  method PostRespond(auth: Option<UserId>, found: Club?, accept: bool) returns (o: Outcome)
    requires found != null ==> found.Valid()
    modifies found
    ensures found != null ==> found.Valid()
    ensures auth.None? ==> o == Unauthenticated && (found != null ==> unchanged(found))
    ensures auth.Some? && found == null ==> o == ClubNotFound
    ensures auth.Some? && found != null ==>
              && o == RespondResult(old(found.pending), auth.value, accept)
              && found.members == (if o == Joined then old(found.members) + [Membership(auth.value, PlainMember)]
                                   else old(found.members))
              && found.pending == (if o == NoInvitation then old(found.pending)
                                   else WithoutId(old(found.pending), auth.value))
              && found.name == old(found.name) && found.description == old(found.description)
              && found.createdBy == old(found.createdBy)
  {
    if auth.None? {
      return Unauthenticated;
    }
    o := RespondToInvitation(found, auth.value, accept);
  }

  /** Creating a club through the routes: U1 becomes its only member, with role
      owner, and nobody is invited. */
  method CreateScenario(u1: UserId) returns (club: Club)
    ensures fresh(club) && club.Valid()
    ensures club.members == [Membership(u1, Owner)] && club.pending == []
  {
    TrimKeepsTrimmed("Chess club");
    var o, c := PostClub(Some(u1), {}, Some("Chess club"), None);
    assert o == Created;
    club := c;
  }

  /** U1, the owner, invites U2; inviting U2 again is refused and changes nothing. */
  method InviteTwiceScenario(club: Club, u1: UserId, u2: UserId)
    requires club.Valid() && u1 != u2
    requires club.members == [Membership(u1, Owner)] && club.pending == []
    modifies club
    ensures club.Valid()
    ensures club.members == [Membership(u1, Owner)] && club.pending == [u2]
  {
    var users := {u1, u2};
    var o := PostInvite(Some(u1), club, users, u2);
    assert o == Ok && club.pending == [u2] && club.members == [Membership(u1, Owner)];
    o := PostInvite(Some(u1), club, users, u2);
    assert o == AlreadyInvited && club.pending == [u2];
  }

  /** The same club once U2 is invited: U2 accepts and joins as a plain member,
      leaving no pending invitation; U1 cannot remove U1, the owner. */
  method AcceptScenario(club: Club, u1: UserId, u2: UserId)
    requires club.Valid() && u1 != u2
    requires club.members == [Membership(u1, Owner)] && club.pending == [u2]
    modifies club
    ensures club.Valid()
    ensures club.members == [Membership(u1, Owner), Membership(u2, PlainMember)] && club.pending == []
  {
    var o := PostRespond(Some(u2), club, true);
    assert o == Joined;
    assert club.members == [Membership(u1, Owner), Membership(u2, PlainMember)];
    assert club.pending == [] by {
      assert WithoutId([u2], u2) == [] + WithoutId([], u2);
    }

    o := DeleteMember(Some(u1), club, u1);
    assert o == CannotRemoveOwner;
  }

  /** After that, U2, a plain member, cannot invite U3, and the club is unchanged. */
  method PlainMemberInviteScenario(club: Club, u1: UserId, u2: UserId, u3: UserId)
    requires club.Valid() && u1 != u2
    requires club.members == [Membership(u1, Owner), Membership(u2, PlainMember)] && club.pending == []
    modifies club
  {
    assert FirstEntry(club.members, u2, 1);
    var o := PostInvite(Some(u2), club, {u1, u2, u3}, u3);
    assert o == InsufficientPermissions && club.pending == [];
  }

  /** The whole walk, from creation to the refused invitation by a plain member. */
  method ClubLifeScenario(u1: UserId, u2: UserId, u3: UserId)
    requires u1 != u2
  {
    var club := CreateScenario(u1);
    InviteTwiceScenario(club, u1, u2);
    AcceptScenario(club, u1, u2);
    PlainMemberInviteScenario(club, u1, u2, u3);
  }
}
