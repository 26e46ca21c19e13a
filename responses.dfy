/** The replies the club handlers and middleware send: one case per distinct
    message, and the HTTP status code each carries. */
module Responses {

  datatype Outcome =
    // successes
    | Ok               // 200: club edited, invitation sent, member removed
    | Created          // 201: club or announcement stored
    | Joined           // 200: "You joined the club"
    | Declined         // 200: "Invitation declined"
    // authentication
    | Unauthenticated  // 401: no token, or a token that does not verify
    // validation and state conflicts
    | MissingClubId    // 400: "Missing club ID"
    | NameTaken        // 400: "Club name already exists"
    | AlreadyMember    // 400: "User is already a member"
    | AlreadyInvited   // 400: "User has already been invited"
    | NoInvitation     // 400: "No invitation found for this user"
    // authorization
    | NotClubMember            // 403: "You are not a member of this club"
    | InsufficientPermissions  // 403: "Access denied: insufficient permissions"
    | CannotRemoveOwner        // 403: "Cannot remove the club owner"
    | NotAuthorizedToPost      // 403: "Not authorized to post announcements"
    // missing entities
    | ClubNotFound     // 404: "Club not found"
    | UserNotFound     // 404: "User not found"
    | MemberNotFound   // 404: "User is not a member of the club"
    // a thrown error caught by the handler
    | ServerError      // 500: "Server error"

  predicate IsSuccess(o: Outcome) {
    o.Ok? || o.Created? || o.Joined? || o.Declined?
  }

  function StatusCode(o: Outcome): (code: int)
    ensures IsSuccess(o) <==> 200 <= code < 300
    ensures o.Created? <==> code == 201
    ensures code in {200, 201, 400, 401, 403, 404, 500}
    ensures code == 400 <==> o in {MissingClubId, NameTaken, AlreadyMember, AlreadyInvited, NoInvitation}
    ensures code == 401 <==> o == Unauthenticated
    ensures code == 403 <==> o in {NotClubMember, InsufficientPermissions, CannotRemoveOwner, NotAuthorizedToPost}
    ensures code == 404 <==> o in {ClubNotFound, UserNotFound, MemberNotFound}
    ensures code == 500 <==> o == ServerError
  {
    match o
    case Ok => 200
    case Created => 201
    case Joined => 200
    case Declined => 200
    case Unauthenticated => 401
    case MissingClubId => 400
    case NameTaken => 400
    case AlreadyMember => 400
    case AlreadyInvited => 400
    case NoInvitation => 400
    case NotClubMember => 403
    case InsufficientPermissions => 403
    case CannotRemoveOwner => 403
    case NotAuthorizedToPost => 403
    case ClubNotFound => 404
    case UserNotFound => 404
    case MemberNotFound => 404
    case ServerError => 500
  }
}
