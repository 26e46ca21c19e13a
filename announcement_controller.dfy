/** Announcements of a club: posting one (owner or officer only, checked before
    anything is stored) and listing a club's announcements newest first. The
    announcement collection is a sequence of records; posting returns the
    collection with the new record appended. */
module AnnouncementController {
  import opened Js
  import opened Ledger
  import opened Responses
  import opened ClubController
  import opened ClubRoleMiddleware

  /** An announcement record; `createdAt` is the clock reading when it was stored. */
  datatype Announcement = Announcement(club: ClubId, title: string, body: string, postedBy: UserId, createdAt: int)

  /** The posting check: the caller's first entry in the members list has role
      `owner` or `officer`. */
  predicate MayPost(members: seq<Membership>, caller: UserId) {
    RoleOf(members, caller) == Some(Owner) || RoleOf(members, caller) == Some(Officer)
  }

  /** The reply to a post and the announcement collection afterwards. */
  datatype Posting = Posting(outcome: Outcome, store: seq<Announcement>)

  /** createAnnouncement: `found` is what looking up `params.clubId` gave and `now`
      the clock. A missing club is 404 and a caller who may not post is 403, both
      before anything is stored; a missing or empty title or body fails the
      schema's `required` check when saving (500). */
  function CreateAnnouncement(store: seq<Announcement>, found: Club?, clubId: ClubId, caller: UserId,
                              title: Option<string>, body: Option<string>, now: int): (r: Posting)
    reads found
    ensures found == null ==> r.outcome == ClubNotFound
    ensures found != null && !MayPost(found.members, caller) ==> r.outcome == NotAuthorizedToPost
    ensures found != null && MayPost(found.members, caller) && !(Truthy(title) && Truthy(body)) ==>
              r.outcome == ServerError
    ensures r.outcome == Created <==> found != null && MayPost(found.members, caller) && Truthy(title) && Truthy(body)
    ensures r.outcome == Created ==> r.store == store + [Announcement(clubId, title.value, body.value, caller, now)]
    ensures r.outcome != Created ==> r.store == store
  {
    if found == null then Posting(ClubNotFound, store)
    else if !MayPost(found.members, caller) then Posting(NotAuthorizedToPost, store)
    else if !Truthy(title) || !Truthy(body) then Posting(ServerError, store)
    else Posting(Created, store + [Announcement(clubId, title.value, body.value, caller, now)])
  }

  /** The posting check is the owner/officer club-role guard. */
  lemma MayPostIsOwnerOfficerGuard(found: Club, caller: UserId)
    ensures MayPost(found.members, caller) <==> RequireClubRole([Owner, Officer], found, caller).Next?
  {
  }

  /** `Announcement.find({ club: clubId })` */
  function OfClub(store: seq<Announcement>, clubId: ClubId): (r: seq<Announcement>)
    ensures forall a :: a in r <==> a in store && a.club == clubId
  {
    if store == [] then []
    else (if store[0].club == clubId then [store[0]] else []) + OfClub(store[1..], clubId)
  }

  lemma {:induction false} OfClubAppend(a: seq<Announcement>, b: seq<Announcement>, clubId: ClubId)
    ensures OfClub(a + b, clubId) == OfClub(a, clubId) + OfClub(b, clubId)
  {
    if a != [] {
      assert (a + b)[1..] == a[1..] + b;
      OfClubAppend(a[1..], b, clubId);
    } else {
      assert a + b == b;
    }
  }

  predicate NewestFirst(s: seq<Announcement>) {
    forall i, j :: 0 <= i < j < |s| ==> s[i].createdAt >= s[j].createdAt
  }

  function InsertByDate(a: Announcement, s: seq<Announcement>): (r: seq<Announcement>)
    requires NewestFirst(s)
    ensures NewestFirst(r)
    ensures multiset(r) == multiset(s) + multiset{a}
    ensures |r| == |s| + 1 && (r[0] == a || (s != [] && r[0] == s[0]))
  {
    if s == [] then [a]
    else if a.createdAt >= s[0].createdAt then [a] + s
    else
      assert s == [s[0]] + s[1..];
      [s[0]] + InsertByDate(a, s[1..])
  }

  /** `.sort({ createdAt: -1 })` */
  function SortNewestFirst(s: seq<Announcement>): (r: seq<Announcement>)
    ensures NewestFirst(r)
    ensures multiset(r) == multiset(s)
  {
    if s == [] then []
    else
      assert s == [s[0]] + s[1..];
      InsertByDate(s[0], SortNewestFirst(s[1..]))
  }

  datatype Listing = Listed(items: seq<Announcement>) | NotListed(outcome: Outcome)

  /** getAnnouncements: a missing club is 404; otherwise exactly that club's
      announcements, newest first. Whether the caller is a member is not asked. */
  function GetAnnouncements(store: seq<Announcement>, found: Club?, clubId: ClubId): (r: Listing)
    ensures found == null ==> r == NotListed(ClubNotFound)
    ensures found != null ==> && r.Listed? && NewestFirst(r.items)
                              && multiset(r.items) == multiset(OfClub(store, clubId))
    ensures found != null ==> forall a :: a in r.items <==> a in store && a.club == clubId
  {
    if found == null then NotListed(ClubNotFound)
    else
      var items := SortNewestFirst(OfClub(store, clubId));
      assert forall a :: a in items <==> a in multiset(items);
      Listed(items)
  }

  /** An announcement posted later than every earlier one of its club heads that
      club's listing. */
  lemma NewPostListedFirst(store: seq<Announcement>, found: Club, clubId: ClubId, caller: UserId,
                           title: Option<string>, body: Option<string>, now: int)
    requires MayPost(found.members, caller) && Truthy(title) && Truthy(body)
    requires forall a :: a in store && a.club == clubId ==> a.createdAt < now
    ensures var posted := CreateAnnouncement(store, found, clubId, caller, title, body, now);
            var listing := GetAnnouncements(posted.store, found, clubId);
            && posted.outcome == Created
            && listing.Listed? && |listing.items| > 0
            && listing.items[0] == Announcement(clubId, title.value, body.value, caller, now)
  {
    var x := Announcement(clubId, title.value, body.value, caller, now);
    var posted := CreateAnnouncement(store, found, clubId, caller, title, body, now);
    var items := GetAnnouncements(posted.store, found, clubId).items;
    assert x in items;
    var k :| 0 <= k < |items| && items[k] == x;
  }
}
