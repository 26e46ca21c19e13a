# ClubSphere club membership ledger, modelled in Dafny

ClubSphere is a club-management backend. This project models its club membership core:

- Creating a club, whose creator becomes its owner.
- Editing a club's profile.
- Inviting a user.
- Removing a member.
- Answering an invitation.
- The route table that puts authentication and the `requireClubRole` guard in front of those handlers.
- Posting and listing announcements.
- The `loadClub` middleware.
- The upload middleware's file filter, size limit and stored-file naming.

How each part is modelled:

- A club is a `class Club` (`ClubController`). Its fields are the fields of the club document that the handlers read or write:
  - `name` and `description`, which editClub overwrites, and `createdBy`, which is set once at creation;
  - `members`, a list of `{user, role}` entries;
  - `pending`, the list of invited user ids.
- `Club.Valid()` is the membership invariant. Every handler requires it and keeps it. So the invariant holds across any sequence of create, edit, invite, respond and remove, for ids written in one canonical form (see "## Left out"). It says:
  - nobody is listed twice as a member;
  - nobody is listed twice as an invitee;
  - nobody is both a member and an invitee;
  - exactly one entry has role `owner`, and that entry belongs to the creator;
  - the name is not empty.
- Each handler's reply is decided by a pure decision function, for example `InviteResult` or `RemoveResult`. The method's postcondition ties its reply to that function, and the function's own contract says when each reply is chosen.
- The ledger itself is a set of value-level functions with their lemmas (`Ledger`). These cover `find`, `some` and `filter` over the two lists, and the invariant under each change.
- The guard and the `loadClub` middleware are pure functions that return a `Gate`. A `Gate` is either pass the club on, or answer with a reply.
- The routes (`ClubRoutes`) compose authentication, the guard and the handler.
- Announcements are a sequence of records. Posting returns the extended sequence. Listing returns one club's records, newest first.
- JavaScript semantics that decide behaviour are written out in `Js`: truthiness of strings, `x || ''`, and `String.prototype.trim` with the full ECMAScript whitespace set.
- Node's POSIX `path.extname` is written out in `UploadMiddleware`.
- The route scenario methods walk a club through the routes. Each step's postcondition is the next step's precondition, and `ClubRoutes.ClubLifeScenario` chains all four:
  - `ClubRoutes.CreateScenario`: U1 creates a club.
  - `ClubRoutes.InviteTwiceScenario`: U1 invites U2, and a second invite is refused.
  - `ClubRoutes.AcceptScenario`: U2 accepts, and U1 cannot remove the owner.
  - `ClubRoutes.PlainMemberInviteScenario`: U2, now a plain member, cannot invite.

Inputs that come from outside the model:

- The caller is the `id` field of the verified token's payload (`req.user.id`). It is an input, `auth: Option<UserId>`. None stands for a missing token or one that does not verify, and it is answered with 401. The model assumes a verified payload always carries `id`; see "## Left out".
- A `Club.findById` lookup is an input, `found: Club?`, which is null when no club has the id. `ClubController.FindById` models that lookup over a map of clubs.
- The names already in use are an input set, `taken`.
- The set of registered users is an input set, `users`.
- The clock and the random number are inputs.

Mongoose's `required` validation is modelled: an empty club name, or an empty announcement title or body, makes saving throw. The handler then answers 500 and nothing is stored.

## Model

| member | source | states |
|---|---|---|
| Js.OrEmpty | backend/controllers/clubController.js:17 | `description \|\| ''` is the description when it is a non-empty string and `''` otherwise |
| Js.Trim | backend/controllers/clubController.js:10 | the trimmed string is no longer than the input and starts and ends with a non-whitespace character, if it has any |
| Js.TrimStripsOnlyWhitespace | backend/controllers/clubController.js:16 | `trim` removes a whitespace prefix and a whitespace suffix and keeps everything between them |
| Js.TrimKeepsTrimmed | backend/controllers/clubController.js:16 | a name without surrounding whitespace is stored exactly as given |
| Js.TrimIdempotent | backend/controllers/clubController.js:38 | trimming an already trimmed name changes nothing |
| Js.TrimEmptyIffAllWhitespace | backend/controllers/clubController.js:38 | the trimmed name is empty exactly when the given name is all whitespace |
| Responses.StatusCode | backend/controllers/clubController.js:12-119 | the success replies are exactly the 2xx codes and only creation is 201; 400 is exactly a missing id or a state conflict (taken name, already a member, already invited, no invitation); 401 is exactly a failed authentication; 403 is exactly an authorization refusal (not a member, insufficient role, removing the owner, not allowed to post); 404 is exactly a missing club, user or member; 500 is exactly a server error |
| Ledger.RoleOf | backend/controllers/clubController.js:88 | `find` by user gives a role exactly when the user has an entry, and that role is the one of the user's first entry |
| Ledger.WithoutUser | backend/controllers/clubController.js:96 | the filtered list holds exactly the entries of other users |
| Ledger.WithoutUserAppend | backend/controllers/clubController.js:96 | filtering distributes over concatenation, so the remaining members keep their order |
| Ledger.WithoutAbsentUser | backend/controllers/clubController.js:96 | filtering out a user who has no entry leaves the list as it was |
| Ledger.WithoutId | backend/controllers/clubController.js:128 | the filtered pending list holds exactly the other ids |
| Ledger.WithoutIdAppend | backend/controllers/clubController.js:128 | filtering the pending list distributes over concatenation, so the other invitations keep their order |
| Ledger.WithoutAbsentId | backend/controllers/clubController.js:128 | filtering out an id that is not pending leaves the list as it was |
| Ledger.OwnerCountWithout | backend/controllers/clubController.js:92-96 | removing a user with no owner entry keeps the number of owner entries |
| Ledger.UniqueUsersWithout | backend/controllers/clubController.js:96 | the member filter never introduces a repeated user |
| Ledger.UniqueIdsWithout | backend/controllers/clubController.js:128 | the pending filter never introduces a repeated id |
| Ledger.OnlyEntry | backend/controllers/clubController.js:88 | with no repeated users, `find` reports the role of the user's one entry |
| Ledger.RoleOfWithout | backend/controllers/clubController.js:96 | removing one user leaves every other user's role as it was |
| Ledger.RoleOfAppend | backend/controllers/clubController.js:124 | appending an entry does not change the role of anyone who already had an entry |
| Ledger.CreateEstablishes | backend/controllers/clubController.js:15-21 | a new club's ledger, with the creator as the only member, role owner, and no one pending, satisfies the invariant |
| Ledger.InvitePreserves | backend/controllers/clubController.js:61-70 | appending an id that is neither a member nor pending keeps members and pending disjoint and free of repeats, with one owner |
| Ledger.RemovePreserves | backend/controllers/clubController.js:88-96 | removing a member who is not the owner keeps the invariant, leaves the target with no entry, and keeps every other member's role |
| Ledger.RespondPreserves | backend/controllers/clubController.js:118-128 | accepting or declining a pending invitation keeps the invariant and keeps every existing member's role |
| Ledger.InviteRespondRoundTrip | backend/controllers/clubController.js:70 | invite then respond puts the pending list back as it was, so declining restores the whole ledger; accepting makes the invitee a member with role `member` |
| ClubController.Club.constructor | backend/controllers/clubController.js:15-21 | a new club holds the given name and description, the creator as its one member with role owner, no one pending, and satisfies the invariant |
| ClubController.Club.Edit | backend/controllers/clubController.js:33-48 | a truthy name is trimmed and stored and a truthy description is stored; a name that trims to nothing stores nothing (500); members and pending are untouched |
| ClubController.Club.Invite | backend/controllers/clubController.js:51-79 | the reply follows the ordered checks; success appends exactly the target to pending; members are untouched; the invariant is kept |
| ClubController.Club.RemoveMember | backend/controllers/clubController.js:82-105 | a non-member is 404 and the owner is 403, both with no change; otherwise the target's entries go and the other members keep their roles; pending is untouched |
| ClubController.Club.Respond | backend/controllers/clubController.js:117-132 | without an invitation the reply is 400 and nothing changes; otherwise the caller leaves pending and is appended with role `member` exactly when accepting |
| ClubController.CreateResult | backend/controllers/clubController.js:5-30 | creation succeeds exactly when a name is given whose trimmed form is non-empty and not taken; a taken trimmed name is 400; anything else is 500 |
| ClubController.EditResult | backend/controllers/clubController.js:38-41 | editing fails, with 500, exactly when the given name is non-empty but all whitespace |
| ClubController.InviteResult | backend/controllers/clubController.js:56-70 | the checks run in order: an unknown user is 404 whatever the lists hold; a known member is "already a member"; a known non-member who is pending is "already invited"; everyone else is invited |
| ClubController.RemoveResult | backend/controllers/clubController.js:88-96 | 404 exactly for a non-member, 403 exactly for the owner, success exactly for any other member |
| ClubController.RespondResult | backend/controllers/clubController.js:118-132 | 400 exactly when the caller is not pending; otherwise joined exactly when accepting, declined exactly when not |
| ClubController.FindById | backend/controllers/clubController.js:114 | the lookup gives a club exactly when the id is stored, and then the stored club |
| ClubController.CreateClub | backend/controllers/clubController.js:5-30 | a duplicate trimmed name is 400 and creates nothing; on success the new club has the trimmed name, the description or `''`, and the caller as its only member, owner |
| ClubController.RespondToInvitation | backend/controllers/clubController.js:108-137 | a club id that does not resolve is 404, checked before the invitation; otherwise the reply and the new ledger follow `Club.Respond` |
| ClubRoleMiddleware.RequireClubRole | backend/middleware/clubRoleMiddleware.js:4-26 | a missing club is 404 and a non-member is 403; a member passes exactly when their first entry's role is allowed, otherwise 403; on success the same club is passed on |
| ClubRoleMiddleware.DefaultRolesDenyEveryone | backend/middleware/clubRoleMiddleware.js:4 | with the default empty role list every caller, the owner included, is turned away |
| ClubRoleMiddleware.FirstEntryDecides | backend/middleware/clubRoleMiddleware.js:14-21 | the caller's first membership entry alone decides admission |
| ClubRoutes.AdminGate | backend/routes/club.js:10-18 | the owner/officer routes let a request through exactly when the caller is authenticated, the club exists and the caller's role is owner or officer; without a token the reply is 401 |
| ClubRoutes.PostClub | backend/routes/club.js:10-13 | any authenticated caller may create a club, with the create handler's reply and result; an unauthenticated one gets 401 and nothing |
| ClubRoutes.PutClub | backend/routes/club.js:15-20 | a request the guard stops gets the guard's reply and leaves the club unchanged; otherwise the edit handler runs |
| ClubRoutes.PostInvite | backend/routes/club.js:22-27 | the invite handler runs only behind the guard; a caller whose role is `member` gets 403 and the club is unchanged |
| ClubRoutes.DeleteMember | backend/routes/club.js:29-34 | the remove handler runs only behind the guard; removing the owner never succeeds and changes nothing; an officer removing another officer succeeds |
| ClubRoutes.PostRespond | backend/routes/club.js:36-37 | responding needs authentication but no club role; the reply and ledger change follow the respond handler, and the club's name, description and creator stay as they were |
| ClubRoutes.CreateScenario | backend/routes/club.js:13 | a club created through the route has the caller as its only member, owner, and no invitations |
| AnnouncementController.CreateAnnouncement | backend/controllers/announcementController.js:4-34 | a missing club is 404; a caller who is not owner or officer is 403; both come before anything is stored; an owner or officer with a missing or empty title or body gets 500 and nothing is stored; success appends exactly one record with the club id, title, body and the caller as poster |
| AnnouncementController.MayPostIsOwnerOfficerGuard | backend/controllers/announcementController.js:15-18 | the posting check admits exactly those the owner/officer club-role guard admits |
| AnnouncementController.OfClub | backend/controllers/announcementController.js:45 | the query keeps exactly the records of that club |
| AnnouncementController.OfClubAppend | backend/controllers/announcementController.js:45 | the club query distributes over an append to the collection |
| AnnouncementController.InsertByDate | backend/controllers/announcementController.js:46 | inserting a record into a newest-first list keeps it newest-first and adds exactly that record |
| AnnouncementController.SortNewestFirst | backend/controllers/announcementController.js:46 | the sort result is ordered by descending `createdAt` and is a permutation of its input |
| AnnouncementController.GetAnnouncements | backend/controllers/announcementController.js:36-54 | a missing club is 404 with no membership check; otherwise the listing is exactly that club's records, newest first |
| AnnouncementController.NewPostListedFirst | backend/controllers/announcementController.js:20-46 | an announcement posted after every other one of its club heads the club's listing |
| LoadClubMiddleware.ClubIdParam | backend/middleware/loadClub.js:5 | the id is `params.id` when that is truthy, else `params.clubId` when that is truthy, else none |
| LoadClubMiddleware.LoadClub | backend/middleware/loadClub.js:3-14 | no id is 400; an id that resolves to no club is 404; otherwise the stored club is passed on |
| LoadClubMiddleware.MissingIdBeforeLookup | backend/middleware/loadClub.js:5-8 | with both parameters absent or empty, the missing-id reply does not depend on which clubs exist |
| LoadClubMiddleware.IdParamWins | backend/middleware/loadClub.js:5 | with both parameters given, `id` decides which club is loaded |
| UploadMiddleware.FileFilter | backend/middleware/uploadMiddleware.js:23-37 | a file is accepted exactly when its MIME type is one of the six listed; otherwise it is rejected with "Unsupported file type" |
| UploadMiddleware.AdmitFile | backend/middleware/uploadMiddleware.js:23-44 | a file is admitted exactly when its type is listed and it is at most 5242880 bytes |
| UploadMiddleware.LastIndexOf | backend/middleware/uploadMiddleware.js:18 | the index found holds the character and none follows it; none is found exactly when the character does not occur |
| UploadMiddleware.StripTrailingSlashes | backend/middleware/uploadMiddleware.js:18 | the result is the path with its trailing run of `/` removed: a prefix that does not end in `/`, followed in the path only by `/` |
| UploadMiddleware.LastSegment | backend/middleware/uploadMiddleware.js:18 | the last segment is the suffix of the path that follows its last `/` (the whole path when it has none) |
| UploadMiddleware.ExtName | backend/middleware/uploadMiddleware.js:18 | an extension is empty or starts with its only dot and contains no `/` |
| UploadMiddleware.FromLastDot | backend/middleware/uploadMiddleware.js:18 | in a segment without slashes, what runs from the last dot is a dot followed by neither dots nor slashes |
| UploadMiddleware.LastIndexOfIs | backend/middleware/uploadMiddleware.js:18 | an occurrence with none after it is the last occurrence |
| UploadMiddleware.ExtNameOfPlainName | backend/middleware/uploadMiddleware.js:18 | in a name without slashes, the extension runs from the last dot, when that dot is not the first character |
| UploadMiddleware.ExtNameTakesLastExtension | backend/middleware/uploadMiddleware.js:18 | of several extensions only the last is kept: `archive.tar.gz` gives `.gz` |
| UploadMiddleware.ExtNameOfDotfile | backend/middleware/uploadMiddleware.js:18 | every name without slashes whose only dot is its first character, such as `.profile`, has no extension |
| UploadMiddleware.ExtNameOfDotless | backend/middleware/uploadMiddleware.js:18 | a name without dots or slashes has no extension |
| UploadMiddleware.Decimal | backend/middleware/uploadMiddleware.js:17 | a number is written as a non-empty string of decimal digits |
| UploadMiddleware.DecimalValue | backend/middleware/uploadMiddleware.js:17 | the digits written for `n` denote `n` |
| UploadMiddleware.DecimalInjective | backend/middleware/uploadMiddleware.js:16-17 | different numbers are written differently, so a clock or random reading can be read back from the name it went into |
| UploadMiddleware.SuffixPlain | backend/middleware/uploadMiddleware.js:17 | the `<timestamp>-<random>` part of a stored name contains no dot and no slash |
| UploadMiddleware.ExtNameAfterPlainPrefix | backend/middleware/uploadMiddleware.js:18 | putting a prefix with neither dots nor slashes in front of an extension leaves `path.extname` giving that extension |
| UploadMiddleware.StoredFilename | backend/middleware/uploadMiddleware.js:15-19 | the stored name is `<timestamp>-<random>` in decimal followed by the uploaded name's extension, contains no `/`, and has the same extension as the uploaded name |

## Left out

- Authentication: verifying the JWT is a library call. The caller id is an input, so the token, login and password checks are not modelled.
- The model assumes a verified token's payload carries `id`. The handlers read `req.user.id` (backend/controllers/clubController.js:18, backend/middleware/clubRoleMiddleware.js:7, backend/controllers/announcementController.js:8). But the login in backend/controllers/authController.js:24 signs `{ userId }`, which backend/middleware/authMiddleware.js:9 stores as `req.user`. With such a token the caller is `undefined`: createClub would store an owner entry with no user, the role guard and announcement posting would throw (500), and answering an invitation would always be 400. None of this is modelled.
- Request-body fields are modelled as strings or absent. Other JSON values are not represented. Examples are a missing `userId` in inviteMember (backend/controllers/clubController.js:54, 57) and a non-string `name`, on which `.trim` throws and the reply is 500 (backend/controllers/clubController.js:10).
- Ids are assumed to have one spelling. Every invariant of `Club.Valid()` holds only for canonical ids. `User.findById` at backend/controllers/clubController.js:57 accepts an id in upper-case hex, but the string comparisons at lines 61 and 66 then miss the stored lower-case form. Such an id could be invited while already a member or already pending, and accepting it would add a second member entry. The model compares ids as plain strings and does not capture this.
- Persistence and concurrency: each handler is one atomic step over an in-memory club. The lost updates possible when two requests load and save the same club concurrently are not modelled.
- The unique index on the club name is not modelled. So `Club.Edit` can rename a club to a name another club has, where the database would refuse the save (500).
- Database ids are plain strings. ObjectId casts and the 500 a malformed id causes in `findById` are not modelled.
- Only the reply kind and status are modelled. Response bodies, `populate` of the poster and the `timestamps` fields are not. The `createdAt` value is an input.
- AnnouncementController.SortNewestFirst: the database does not fix the order of records with equal `createdAt`; the model fixes one.
- UploadMiddleware.Decimal: `String(n)` writes numbers of 1e21 and above in exponent form; timestamps and the random part stay far below that.
- ClubController.Club.Respond: `accept` is a boolean. The truthiness of non-boolean request values (for example the string `"false"`) is not modelled.
- Upload destination: creating the upload directory and writing to disk are left out.
- UploadMiddleware.AdmitFile: the size limit is enforced inside the upload library. The model keeps only its outcome: a file over the limit is refused, after the type filter.
- The other routes and controllers are not part of this model:
  - `backend/routes/clubRoutes.js` routes to handlers the club controller does not define;
  - the user controller only reads user-side caches that nothing writes;
  - the poll, meeting, resource and activity schemas are used by no modelled handler.
