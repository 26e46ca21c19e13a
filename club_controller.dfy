/** The club handlers: create a club, edit its profile, invite a user, remove a
    member, and answer an invitation. Each handler checks its preconditions in a
    fixed order and only then changes the loaded club; a failed check leaves the
    club exactly as it was. */
module ClubController {
  import opened Js
  import opened Ledger
  import opened Responses

  /** A club document: its profile and its membership ledger. */
  class Club {
    var name: string
    var description: string
    var createdBy: UserId
    var members: seq<Membership>
    var pending: seq<UserId>

    /** The schema requires a name; the ledger keeps its invariant; and the creator
        holds the one owner entry. */
    ghost predicate Valid()
      reads this
    {
      && name != []
      && LedgerInvariant(members, pending)
      && RoleOf(members, createdBy) == Some(Owner)
    }

    /** `new Club({...})` as createClub fills it in. */
    constructor (name: string, description: string, creator: UserId)
      requires name != []
      ensures Valid()
      ensures this.name == name && this.description == description && createdBy == creator
      ensures members == [Membership(creator, Owner)] && pending == []
    {
      this.name := name;
      this.description := description;
      createdBy := creator;
      members := [Membership(creator, Owner)];
      pending := [];
      CreateEstablishes(creator);
    }

    /** editClub: a truthy name is trimmed and stored, a truthy description is stored
        as given; a name that trims to nothing fails the schema's `required` check
        when saving, and then nothing is stored. */
    method Edit(newName: Option<string>, newDescription: Option<string>) returns (o: Outcome)
      requires Valid()
      modifies this
      ensures Valid()
      ensures o == EditResult(newName)
      ensures name == if o == Ok && Truthy(newName) then Trim(newName.value) else old(name)
      ensures description == if o == Ok && Truthy(newDescription) then newDescription.value else old(description)
      ensures createdBy == old(createdBy) && members == old(members) && pending == old(pending)
    {
      var n, d := name, description;
      if Truthy(newName) {
        n := Trim(newName.value);
      }
      if Truthy(newDescription) {
        d := newDescription.value;
      }
      if n == [] {
        return ServerError;
      }
      name, description := n, d;
      o := Ok;
    }

    /** inviteMember: the target must be a known user, not yet a member and not yet
        invited, checked in that order; then exactly the target is appended to the
        pending list. */
    method Invite(users: set<UserId>, target: UserId) returns (o: Outcome)
      requires Valid()
      modifies this
      ensures Valid()
      ensures o == InviteResult(users, old(members), old(pending), target)
      ensures pending == if o == Ok then old(pending) + [target] else old(pending)
      ensures members == old(members)
      ensures name == old(name) && description == old(description) && createdBy == old(createdBy)
    {
      if target !in users {
        return UserNotFound;
      }
      if HasMember(members, target) {
        return AlreadyMember;
      }
      if target in pending {
        return AlreadyInvited;
      }
      InvitePreserves(members, pending, target);
      pending := pending + [target];
      o := Ok;
    }

    /** removeMember: a non-member is 404 and the owner is 403; otherwise every entry
        of the target goes, the others keep their order and their roles, and the
        pending list is untouched. */
    method RemoveMember(target: UserId) returns (o: Outcome)
      requires Valid()
      modifies this
      ensures Valid()
      ensures o == RemoveResult(old(members), target)
      ensures o != Ok ==> unchanged(this)
      ensures members == if o == Ok then WithoutUser(old(members), target) else old(members)
      ensures o == Ok ==> !HasMember(members, target)
      ensures forall v :: v != target ==> RoleOf(members, v) == old(RoleOf(members, v))
      ensures pending == old(pending)
      ensures name == old(name) && description == old(description) && createdBy == old(createdBy)
    {
      var membership := RoleOf(members, target);
      if membership.None? {
        return MemberNotFound;
      }
      if membership.value == Owner {
        return CannotRemoveOwner;
      }
      RemovePreserves(members, pending, target);
      members := WithoutUser(members, target);
      o := Ok;
    }

    /** respondToInvitation once the club is loaded: without a pending invitation the
        reply is 400; otherwise the caller leaves the pending list either way and is
        appended with role `member` exactly when accepting. */
    method Respond(caller: UserId, accept: bool) returns (o: Outcome)
      requires Valid()
      modifies this
      ensures Valid()
      ensures o == RespondResult(old(pending), caller, accept)
      ensures members == if o == Joined then old(members) + [Membership(caller, PlainMember)] else old(members)
      ensures pending == if o == NoInvitation then old(pending) else WithoutId(old(pending), caller)
      ensures forall v :: HasMember(old(members), v) ==> RoleOf(members, v) == old(RoleOf(members, v))
      ensures name == old(name) && description == old(description) && createdBy == old(createdBy)
    {
      if caller !in pending {
        return NoInvitation;
      }
      var joined := if accept then members + [Membership(caller, PlainMember)] else members;
      RespondPreserves(members, pending, caller, accept);
      assert RoleOf(joined, createdBy) == Some(Owner) by {
        assert HasMember(members, createdBy);
      }
      members, pending := joined, WithoutId(pending, caller);
      o := if accept then Joined else Declined;
    }
  }

  // ---------------------------------------------------------------------------
  // The order in which each handler's checks decide the reply

  /** createClub: reading `.trim()` of a missing name throws (500); a trimmed name
      that some club already has is 400; an empty trimmed name fails the schema's
      `required` check when saving (500). */
  function CreateResult(taken: set<string>, name: Option<string>): (o: Outcome)
    ensures o == Created <==> name.Some? && Trim(name.value) != [] && Trim(name.value) !in taken
    ensures o == NameTaken <==> name.Some? && Trim(name.value) in taken
    ensures o in {Created, NameTaken, ServerError}
  {
    if name.None? then ServerError
    else if Trim(name.value) in taken then NameTaken
    else if Trim(name.value) == [] then ServerError
    else Created
  }

  /** editClub succeeds unless a truthy new name trims to nothing. */
  function EditResult(newName: Option<string>): (o: Outcome)
    ensures o == Ok <==> !Truthy(newName) || !AllWhitespace(newName.value)
    ensures o != Ok ==> o == ServerError
  {
    TrimEmptyIffAllWhitespace(if newName.Some? then newName.value else []);
    if Truthy(newName) && Trim(newName.value) == [] then ServerError else Ok
  }

  function InviteResult(users: set<UserId>, members: seq<Membership>, pending: seq<UserId>, target: UserId): (o: Outcome)
    ensures o == UserNotFound <==> target !in users
    ensures o == AlreadyMember <==> target in users && HasMember(members, target)
    ensures o == AlreadyInvited <==> target in users && !HasMember(members, target) && target in pending
    ensures o == Ok <==> target in users && !HasMember(members, target) && target !in pending
  {
    if target !in users then UserNotFound
    else if HasMember(members, target) then AlreadyMember
    else if target in pending then AlreadyInvited
    else Ok
  }

  function RemoveResult(members: seq<Membership>, target: UserId): (o: Outcome)
    ensures o == MemberNotFound <==> !HasMember(members, target)
    ensures o == CannotRemoveOwner <==> RoleOf(members, target) == Some(Owner)
    ensures o == Ok <==> HasMember(members, target) && RoleOf(members, target) != Some(Owner)
  {
    match RoleOf(members, target)
    case None => MemberNotFound
    case Some(role) => if role == Owner then CannotRemoveOwner else Ok
  }

  function RespondResult(pending: seq<UserId>, caller: UserId, accept: bool): (o: Outcome)
    ensures o == NoInvitation <==> caller !in pending
    ensures o == Joined <==> caller in pending && accept
    ensures o == Declined <==> caller in pending && !accept
  {
    if caller !in pending then NoInvitation
    else if accept then Joined
    else Declined
  }

  // ---------------------------------------------------------------------------
  // Handlers that load or create the club themselves

  /** `Club.findById(id)` over the club collection: the club stored under `id`, or
      null when there is none. */
  function FindById(clubs: map<ClubId, Club>, id: ClubId): (c: Club?)
    ensures c != null <==> id in clubs
    ensures c != null ==> c == clubs[id]
  {
    if id in clubs then clubs[id] else null
  }

  /** createClub: `taken` is the set of names the club collection already holds. On
      success the new club has the trimmed name, the description or `''`, and the
      caller as its only member, with role `owner`; otherwise nothing is created. */
  method CreateClub(taken: set<string>, caller: UserId, name: Option<string>, description: Option<string>)
    returns (o: Outcome, club: Club?)
    ensures o == CreateResult(taken, name)
    ensures o != Created ==> club == null
    ensures o == Created ==> && club != null && fresh(club) && club.Valid()
                             && club.name == Trim(name.value) && club.name !in taken
                             && club.description == OrEmpty(description)
                             && club.createdBy == caller
                             && club.members == [Membership(caller, Owner)] && club.pending == []
  {
    club := null;
    if name.None? {
      return ServerError, null;
    }
    var trimmed := Trim(name.value);
    if trimmed in taken {
      return NameTaken, null;
    }
    if trimmed == [] {
      return ServerError, null;
    }
    club := new Club(trimmed, OrEmpty(description), caller);
    o := Created;
  }

  /** respondToInvitation: `found` is what looking up the club id gave (null when no
      club has it), which is checked before the invitation. */
  method RespondToInvitation(found: Club?, caller: UserId, accept: bool) returns (o: Outcome)
    requires found != null ==> found.Valid()
    modifies found
    ensures found == null ==> o == ClubNotFound
    ensures found != null ==> && found.Valid()
                              && o == RespondResult(old(found.pending), caller, accept)
                              && found.members == (if o == Joined then old(found.members) + [Membership(caller, PlainMember)]
                                                   else old(found.members))
                              && found.pending == (if o == NoInvitation then old(found.pending)
                                                   else WithoutId(old(found.pending), caller))
                              && found.name == old(found.name) && found.description == old(found.description)
                              && found.createdBy == old(found.createdBy)
  {
    if found == null {
      return ClubNotFound;
    }
    o := found.Respond(caller, accept);
  }
}
