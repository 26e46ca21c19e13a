/** `loadClub`: takes the club id from the `id` route parameter, falling back to
    `clubId`; with neither it answers 400 before looking anything up, with an id
    no club has it answers 404, and otherwise it passes the club on. */
module LoadClubMiddleware {
  import opened Js
  import opened Ledger
  import opened Responses
  import opened ClubController
  import opened ClubRoleMiddleware

  /** The route parameters the middleware looks at; a missing one is None. */
  datatype Params = Params(id: Option<string>, clubId: Option<string>)

  /** `params.id || params.clubId`, with a falsy result read as "no id". */
  function ClubIdParam(p: Params): (r: Option<ClubId>)
    ensures r.Some? ==> r.value != []
    ensures Truthy(p.id) ==> r == p.id
    ensures !Truthy(p.id) && Truthy(p.clubId) ==> r == p.clubId
    ensures r.None? <==> !Truthy(p.id) && !Truthy(p.clubId)
  {
    if Truthy(p.id) then p.id
    else if Truthy(p.clubId) then p.clubId
    else None
  }

  function LoadClub(p: Params, clubs: map<ClubId, Club>): (g: Gate)
    ensures ClubIdParam(p).None? ==> g == Halt(MissingClubId)
    ensures ClubIdParam(p).Some? && ClubIdParam(p).value !in clubs ==> g == Halt(ClubNotFound)
    ensures g.Next? <==> ClubIdParam(p).Some? && ClubIdParam(p).value in clubs
    ensures g.Next? ==> g.club == clubs[ClubIdParam(p).value]
  {
    match ClubIdParam(p)
    case None => Halt(MissingClubId)
    case Some(id) =>
      var found := FindById(clubs, id);
      if found == null then Halt(ClubNotFound) else Next(found)
  }

  /** The missing-id reply comes before any lookup: with both parameters absent or
      empty, it does not depend on which clubs exist. */
  lemma MissingIdBeforeLookup(p: Params, clubs: map<ClubId, Club>, others: map<ClubId, Club>)
    requires ClubIdParam(p).None?
    ensures LoadClub(p, clubs) == LoadClub(p, others) == Halt(MissingClubId)
  {
  }

  /** When both parameters are given, `id` decides which club is loaded. */
  lemma IdParamWins(id: ClubId, clubId: ClubId, clubs: map<ClubId, Club>)
    requires id != [] && id in clubs
    ensures LoadClub(Params(Some(id), Some(clubId)), clubs) == Next(clubs[id])
  {
  }
}
