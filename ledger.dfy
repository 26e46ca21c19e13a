/** The membership ledger of one club, as values: the `members` list of
    `{user, role}` entries and the `pendingInvitations` list of user ids, the
    `some` / `find` / `filter` helpers the handlers apply to them, and the
    invariant the handlers keep together. */
module Ledger {
  import opened Js

  type UserId = string

  type ClubId = string

  /** The schema declares `role` as a free string. */
  type Role = string

  const Owner: Role := "owner"
  const Officer: Role := "officer"
  const PlainMember: Role := "member"

  datatype Membership = Membership(user: UserId, role: Role)

  /** `members.some(m => m.user === u)` */
  predicate HasMember(members: seq<Membership>, u: UserId) {
    exists i :: 0 <= i < |members| && members[i].user == u
  }

  /** Entry `i` is the first entry that belongs to `u`. */
  predicate FirstEntry(members: seq<Membership>, u: UserId, i: int) {
    0 <= i < |members| && members[i].user == u && forall j :: 0 <= j < i ==> members[j].user != u
  }

  /** `members.find(m => m.user === u)?.role`: the role of the first entry of `u`, if any. */
  function RoleOf(members: seq<Membership>, u: UserId): (r: Option<Role>)
    ensures r.Some? <==> HasMember(members, u)
    ensures forall i :: FirstEntry(members, u, i) ==> r == Some(members[i].role)
  {
    if members == [] then None
    else if members[0].user == u then Some(members[0].role)
    else
      var r := RoleOf(members[1..], u);
      assert forall i :: FirstEntry(members, u, i) ==> FirstEntry(members[1..], u, i - 1);
      assert HasMember(members[1..], u) ==> HasMember(members, u) by {
        if HasMember(members[1..], u) {
          var k :| 0 <= k < |members[1..]| && members[1..][k].user == u;
          assert members[k + 1].user == u;
        }
      }
      r
  }

  /** `members.filter(m => m.user !== u)` */
  function WithoutUser(members: seq<Membership>, u: UserId): (r: seq<Membership>)
    ensures forall m :: m in r <==> m in members && m.user != u
    ensures |r| <= |members|
  {
    if members == [] then []
    else (if members[0].user == u then [] else [members[0]]) + WithoutUser(members[1..], u)
  }

  /** `pending.filter(id => id !== u)` */
  function WithoutId(pending: seq<UserId>, u: UserId): (r: seq<UserId>)
    ensures forall v :: v in r <==> v in pending && v != u
    ensures |r| <= |pending|
  {
    if pending == [] then []
    else (if pending[0] == u then [] else [pending[0]]) + WithoutId(pending[1..], u)
  }

  /** The number of entries whose role is `owner`. */
  function OwnerCount(members: seq<Membership>): nat {
    if members == [] then 0
    else (if members[0].role == Owner then 1 else 0) + OwnerCount(members[1..])
  }

  predicate UniqueUsers(members: seq<Membership>) {
    forall i, j :: 0 <= i < j < |members| ==> members[i].user != members[j].user
  }

  predicate UniqueIds(pending: seq<UserId>) {
    forall i, j :: 0 <= i < j < |pending| ==> pending[i] != pending[j]
  }

  predicate Disjoint(members: seq<Membership>, pending: seq<UserId>) {
    forall i :: 0 <= i < |members| ==> members[i].user !in pending
  }

  /** What the handlers keep together: nobody is listed twice as a member or as an
      invitee, nobody is both, and there is exactly one owner entry. */
  predicate LedgerInvariant(members: seq<Membership>, pending: seq<UserId>) {
    && UniqueUsers(members)
    && UniqueIds(pending)
    && Disjoint(members, pending)
    && OwnerCount(members) == 1
  }

  // ---------------------------------------------------------------------------
  // Properties of the helpers

  /** Filtering distributes over concatenation: together with the singleton cases it
      says that `WithoutUser` keeps the other entries in their original order. */
  lemma {:induction false} WithoutUserAppend(a: seq<Membership>, b: seq<Membership>, u: UserId)
    ensures WithoutUser(a + b, u) == WithoutUser(a, u) + WithoutUser(b, u)
  {
    if a != [] {
      assert (a + b)[1..] == a[1..] + b;
      WithoutUserAppend(a[1..], b, u);
    } else {
      assert a + b == b;
    }
  }

  /** Removing a user who has no entry changes nothing. */
  lemma {:induction false} WithoutAbsentUser(members: seq<Membership>, u: UserId)
    requires !HasMember(members, u)
    ensures WithoutUser(members, u) == members
  {
    if members != [] {
      WithoutAbsentUser(members[1..], u);
    }
  }

  lemma {:induction false} WithoutIdAppend(a: seq<UserId>, b: seq<UserId>, u: UserId)
    ensures WithoutId(a + b, u) == WithoutId(a, u) + WithoutId(b, u)
  {
    if a != [] {
      assert (a + b)[1..] == a[1..] + b;
      WithoutIdAppend(a[1..], b, u);
    } else {
      assert a + b == b;
    }
  }

  lemma {:induction false} WithoutAbsentId(pending: seq<UserId>, u: UserId)
    requires u !in pending
    ensures WithoutId(pending, u) == pending
  {
    if pending != [] {
      WithoutAbsentId(pending[1..], u);
    }
  }

  lemma {:induction false} OwnerCountAppend(a: seq<Membership>, b: seq<Membership>)
    ensures OwnerCount(a + b) == OwnerCount(a) + OwnerCount(b)
  {
    if a != [] {
      assert (a + b)[1..] == a[1..] + b;
      OwnerCountAppend(a[1..], b);
    } else {
      assert a + b == b;
    }
  }

  /** Filtering out a user none of whose entries is an owner entry keeps the owner count. */
  lemma {:induction false} OwnerCountWithout(members: seq<Membership>, u: UserId)
    requires forall i :: 0 <= i < |members| && members[i].user == u ==> members[i].role != Owner
    ensures OwnerCount(WithoutUser(members, u)) == OwnerCount(members)
  {
    if members != [] {
      OwnerCountWithout(members[1..], u);
      OwnerCountAppend(if members[0].user == u then [] else [members[0]], WithoutUser(members[1..], u));
    }
  }

  /** A filtered list has no repeated users when the original had none. */
  lemma {:induction false} UniqueUsersWithout(members: seq<Membership>, u: UserId)
    requires UniqueUsers(members)
    ensures UniqueUsers(WithoutUser(members, u))
  {
    if members != [] {
      UniqueUsersWithout(members[1..], u);
      var rest := WithoutUser(members[1..], u);
      forall k | 0 <= k < |rest| ensures rest[k].user != members[0].user {
        assert rest[k] in members[1..];
        var j :| 0 <= j < |members[1..]| && members[1..][j] == rest[k];
        assert members[j + 1] == rest[k];
      }
    }
  }

  lemma {:induction false} UniqueIdsWithout(pending: seq<UserId>, u: UserId)
    requires UniqueIds(pending)
    ensures UniqueIds(WithoutId(pending, u))
  {
    if pending != [] {
      UniqueIdsWithout(pending[1..], u);
      var rest := WithoutId(pending[1..], u);
      forall k | 0 <= k < |rest| ensures rest[k] != pending[0] {
        assert rest[k] in pending[1..];
        var j :| 0 <= j < |pending[1..]| && pending[1..][j] == rest[k];
        assert pending[j + 1] == rest[k];
      }
    }
  }

  /** With no repeated users, the role `find` reports is the role of that user's only entry. */
  lemma OnlyEntry(members: seq<Membership>, u: UserId, i: int)
    requires UniqueUsers(members)
    requires 0 <= i < |members| && members[i].user == u
    ensures RoleOf(members, u) == Some(members[i].role)
  {
    assert FirstEntry(members, u, i);
  }

  /** Another user's role is the same before and after a filter. */
  lemma RoleOfWithout(members: seq<Membership>, u: UserId, v: UserId)
    requires UniqueUsers(members) && v != u
    ensures RoleOf(WithoutUser(members, u), v) == RoleOf(members, v)
  {
    UniqueUsersWithout(members, u);
    var r := WithoutUser(members, u);
    if HasMember(members, v) {
      var i :| 0 <= i < |members| && members[i].user == v;
      assert members[i] in r;
      var k :| 0 <= k < |r| && r[k] == members[i];
      OnlyEntry(members, v, i);
      OnlyEntry(r, v, k);
    }
  }

  /** Appending an entry for someone else does not change a member's role. */
  lemma {:induction false} RoleOfAppend(members: seq<Membership>, e: Membership, v: UserId)
    requires HasMember(members, v)
    ensures RoleOf(members + [e], v) == RoleOf(members, v)
  {
    if members[0].user != v {
      assert (members + [e])[1..] == members[1..] + [e];
      var k :| 0 <= k < |members| && members[k].user == v;
      assert members[1..][k - 1].user == v;
      RoleOfAppend(members[1..], e, v);
    }
  }

  // ---------------------------------------------------------------------------
  // The invariant under each ledger change

  /** A new club's ledger: the creator as the one owner, nobody pending. */
  lemma CreateEstablishes(creator: UserId)
    ensures LedgerInvariant([Membership(creator, Owner)], [])
    ensures RoleOf([Membership(creator, Owner)], creator) == Some(Owner)
  {
    assert OwnerCount([Membership(creator, Owner)]) == 1 + OwnerCount([]);
  }

  /** Inviting someone who is neither a member nor already pending keeps the invariant. */
  lemma InvitePreserves(members: seq<Membership>, pending: seq<UserId>, target: UserId)
    requires LedgerInvariant(members, pending)
    requires !HasMember(members, target) && target !in pending
    ensures LedgerInvariant(members, pending + [target])
  {
    assert forall i :: 0 <= i < |members| ==> members[i].user != target;
  }

  /** Removing every entry of a member whose role is not `owner` keeps the invariant
      and every other member's role. */
  lemma RemovePreserves(members: seq<Membership>, pending: seq<UserId>, target: UserId)
    requires LedgerInvariant(members, pending)
    requires RoleOf(members, target).Some? && RoleOf(members, target).value != Owner
    ensures LedgerInvariant(WithoutUser(members, target), pending)
    ensures !HasMember(WithoutUser(members, target), target)
    ensures forall v :: v != target ==> RoleOf(WithoutUser(members, target), v) == RoleOf(members, v)
  {
    forall i | 0 <= i < |members| && members[i].user == target
      ensures members[i].role != Owner
    {
      OnlyEntry(members, target, i);
    }
    OwnerCountWithout(members, target);
    UniqueUsersWithout(members, target);
    var r := WithoutUser(members, target);
    forall i | 0 <= i < |r| ensures r[i].user !in pending {
      assert r[i] in members;
    }
    forall v | v != target ensures RoleOf(r, v) == RoleOf(members, v) {
      RoleOfWithout(members, target, v);
    }
  }

  /** Answering a pending invitation keeps the invariant whether it is accepted or
      declined, and no existing member's role changes. */
  lemma RespondPreserves(members: seq<Membership>, pending: seq<UserId>, u: UserId, accept: bool)
    requires LedgerInvariant(members, pending)
    requires u in pending
    ensures var members' := if accept then members + [Membership(u, PlainMember)] else members;
            && LedgerInvariant(members', WithoutId(pending, u))
            && forall v :: HasMember(members, v) ==> RoleOf(members', v) == RoleOf(members, v)
  {
    var p := WithoutId(pending, u);
    UniqueIdsWithout(pending, u);
    if accept {
      var m := members + [Membership(u, PlainMember)];
      OwnerCountAppend(members, [Membership(u, PlainMember)]);
      assert OwnerCount([Membership(u, PlainMember)]) == 0 + OwnerCount([]);
      assert forall i :: 0 <= i < |members| ==> members[i].user != u;
      assert UniqueUsers(m);
      assert Disjoint(m, p) by {
        forall i | 0 <= i < |m| ensures m[i].user !in p {
          if i < |members| { assert m[i] == members[i]; }
        }
      }
      forall v | HasMember(members, v) ensures RoleOf(m, v) == RoleOf(members, v) {
        RoleOfAppend(members, Membership(u, PlainMember), v);
      }
    }
  }

  // ---------------------------------------------------------------------------
  // Invitation round trips

  /** Invite then respond: the pending list is back to what it was, so declining
      restores the whole ledger; accepting also makes the invitee a member with
      role `member`. */
  lemma InviteRespondRoundTrip(members: seq<Membership>, pending: seq<UserId>, u: UserId, accept: bool)
    requires LedgerInvariant(members, pending)
    requires !HasMember(members, u) && u !in pending
    ensures WithoutId(pending + [u], u) == pending
    ensures accept ==> RoleOf(members + [Membership(u, PlainMember)], u) == Some(PlainMember)
  {
    WithoutIdAppend(pending, [u], u);
    WithoutAbsentId(pending, u);
    assert WithoutId([u], u) == [] + WithoutId([], u);
    if accept {
      var m := members + [Membership(u, PlainMember)];
      assert FirstEntry(m, u, |members|);
    }
  }
}
