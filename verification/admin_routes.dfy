/**
 * The server's admin endpoints: the users listing joined with membership
 * and earnings, approval and rejection, the membership-status override and
 * the platform statistics. Every one answers `Forbidden` to a session that
 * is not an admin session.
 */
module AdminRoutes {
  import opened Wrappers
  import opened Folds
  import opened Schema
  import opened Storage
  import opened Auth

  /** One row of `GET /api/admin/users`. */
  datatype AdminUserRow = AdminUserRow(
    id: Id,
    username: string,
    email: Option<string>,
    phone: Option<string>,
    fullName: Option<string>,
    isApproved: bool,
    joinDate: Time,
    status: string,
    earnings: int,
    referrals: nat)

  const NoMembership: string := "no-membership"

  /** The status column of the listing: the membership's status text, or
      "no-membership" when there is no membership or its text is empty. */
  function StatusLabel(s: Store, uid: Id): (r: string)
    ensures r != ""
    ensures r == NoMembership <==>
      GetMembership(s, uid).None? || StatusName(GetMembership(s, uid).value.status) in {"", NoMembership}
    ensures r != NoMembership ==> GetMembership(s, uid).Some? && r == StatusName(GetMembership(s, uid).value.status)
  {
    var m := GetMembership(s, uid);
    if m.Some? && StatusName(m.value.status) != "" then StatusName(m.value.status) else NoMembership
  }

  /** The listing row of user `u`. */
  function UserRow(s: Store, u: User): (r: AdminUserRow)
    ensures r.id == u.id && r.username == u.username && r.joinDate == u.createdAt
    ensures r.email == u.email && r.phone == u.phone && r.fullName == u.fullName && r.isApproved == u.isApproved
    ensures r.referrals == CountWhere(s.earnings, OwnedBy(u.id))
    ensures r.earnings == SumWhere(s.earnings, OwnedBy(u.id), AmountOf)
  {
    AdminUserRow(u.id, u.username, u.email, u.phone, u.fullName, u.isApproved, u.createdAt,
                 StatusLabel(s, u.id), TotalEarnings(s.earnings, u.id), |GetUserEarnings(s.earnings, u.id)|)
  }

  function JoinDate(row: AdminUserRow): int { row.joinDate }

  /** `GET /api/admin/users`: one row per user, newest registration first. */
  function AdminUsers(s: Store, sess: Session): (r: Result<seq<AdminUserRow>, ApiError>)
    ensures r.Err? <==> !IsAdmin(sess)
    ensures r.Err? ==> r.error == Forbidden
    ensures r.Ok? ==> |r.value| == |s.users|
    ensures r.Ok? ==> SortedDesc(r.value, JoinDate)
    ensures r.Ok? ==> forall i :: 0 <= i < |s.users| ==> UserRow(s, s.users[i]) in r.value
    ensures r.Ok? ==> forall i :: 0 <= i < |r.value| ==> exists u :: u in s.users && r.value[i] == UserRow(s, u)
  {
    if !IsAdmin(sess) then Err(Forbidden)
    else
      var us := GetAllUsers(s);
      RowsCoverUsers(s, us);
      RowsSorted(s, us);
      Ok(Rows(s, us))
  }

  /** The rows of `us`, in order. */
  function Rows(s: Store, us: seq<User>): (rows: seq<AdminUserRow>)
    ensures |rows| == |us|
    ensures forall i :: 0 <= i < |us| ==> rows[i] == UserRow(s, us[i])
  {
    seq(|us|, i requires 0 <= i < |us| => UserRow(s, us[i]))
  }

  lemma RowsCoverUsers(s: Store, us: seq<User>)
    requires multiset(us) == multiset(s.users)
    ensures |Rows(s, us)| == |s.users|
    ensures forall i :: 0 <= i < |s.users| ==> UserRow(s, s.users[i]) in Rows(s, us)
    ensures forall i :: 0 <= i < |us| ==> exists u :: u in s.users && Rows(s, us)[i] == UserRow(s, u)
  {
    assert |us| == |multiset(us)| == |s.users|;
    forall i | 0 <= i < |s.users| ensures UserRow(s, s.users[i]) in Rows(s, us) {
      RowOfMember(s, us, s.users[i]);
    }
    forall i | 0 <= i < |us| ensures exists u :: u in s.users && Rows(s, us)[i] == UserRow(s, u) {
      assert us[i] in multiset(s.users);
    }
  }

  lemma RowOfMember(s: Store, us: seq<User>, u: User)
    requires u in multiset(us)
    ensures UserRow(s, u) in Rows(s, us)
  {
    var k :| 0 <= k < |us| && us[k] == u;
    assert Rows(s, us)[k] == UserRow(s, u);
  }

  lemma RowsSorted(s: Store, us: seq<User>)
    requires SortedDesc(us, CreatedAt)
    ensures SortedDesc(Rows(s, us), JoinDate)
  {
    var rows := Rows(s, us);
    forall i, j | 0 <= i < j < |rows| ensures JoinDate(rows[i]) >= JoinDate(rows[j]) {
      assert CreatedAt(us[i]) >= CreatedAt(us[j]);
    }
  }

  /** Two user lists with the same id at every position name the same users. */
  lemma SameIdsSameUsers(a: seq<User>, b: seq<User>)
    requires |a| == |b|
    requires forall i :: 0 <= i < |a| ==> a[i].id == b[i].id
    ensures forall id :: IsUser(a, id) <==> IsUser(b, id)
  {
    forall id ensures IsUser(a, id) <==> IsUser(b, id) {
      if IsUser(a, id) {
        var k :| 0 <= k < |a| && a[k].id == id;
        assert b[k].id == id;
      }
      if IsUser(b, id) {
        var k :| 0 <= k < |b| && b[k].id == id;
        assert a[k].id == id;
      }
    }
  }

  /** `PUT /api/admin/users/:id/approve` (`approved` true) and
      `PUT /api/admin/users/:id/reject` (`approved` false): sets the approval
      flag of user `id` and answers the updated user, or nothing for an
      unknown id. */
  function SetApproval(s: Store, sess: Session, id: Id, approved: bool): (r: Result<(Store, Option<User>), ApiError>)
    ensures r.Err? <==> !IsAdmin(sess)
    ensures r.Err? ==> r.error == Forbidden
    ensures r.Ok? ==>
      var (s', u) := r.value;
      && s' == s.(users := s'.users)
      && |s'.users| == |s.users|
      && (forall i :: 0 <= i < |s.users| ==>
            s'.users[i] == if s.users[i].id == id then s.users[i].(isApproved := approved) else s.users[i])
      && (u.None? <==> !IsUser(s.users, id))
      && (u.Some? ==> u.value in s'.users && u.value.id == id && u.value.isApproved == approved)
  {
    if !IsAdmin(sess) then Err(Forbidden) else Ok(UpdateUserApproval(s, id, approved))
  }

  /** The last approval decision wins; in particular approving (or rejecting)
      twice is approving (or rejecting) once. */
  lemma SetApprovalLastWins(s: Store, sess: Session, id: Id, first: bool, second: bool)
    requires IsAdmin(sess)
    ensures SetApproval(SetApproval(s, sess, id, first).value.0, sess, id, second).value.0 ==
            SetApproval(s, sess, id, second).value.0
  {
    var a := SetApproval(SetApproval(s, sess, id, first).value.0, sess, id, second).value.0;
    var b := SetApproval(s, sess, id, second).value.0;
    assert a.users == b.users;
  }

  /** Approval keeps every schema constraint. */
  lemma SetApprovalKeepsValid(s: Store, sess: Session, id: Id, approved: bool)
    requires Valid(s)
    ensures SetApproval(s, sess, id, approved).Ok? ==> Valid(SetApproval(s, sess, id, approved).value.0)
  {
    if IsAdmin(sess) {
      var s' := SetApproval(s, sess, id, approved).value.0;
      var us := s'.users;
      assert forall i :: 0 <= i < |us| ==>
        us[i].id == s.users[i].id && us[i].username == s.users[i].username
        && us[i].referralCode == s.users[i].referralCode && us[i].referredBy == s.users[i].referredBy;
      SameIdsSameUsers(s.users, us);
      assert DistinctBy(us, UserId) by {
        forall i, j | 0 <= i < j < |us| ensures UserId(us[i]) != UserId(us[j]) {
          assert UserId(s.users[i]) != UserId(s.users[j]);
        }
      }
      assert DistinctBy(us, Username) by {
        forall i, j | 0 <= i < j < |us| ensures Username(us[i]) != Username(us[j]) {
          assert Username(s.users[i]) != Username(s.users[j]);
        }
      }
    }
  }

  /** `PUT /api/admin/membership/:id/status`: stores the given text as the
      status of membership `id`. A missing status is refused by the database
      (the update has nothing to set, or sets a `NOT NULL` column to null); a
      text longer than the `varchar(20)` column is refused when some row is
      updated. An unknown id answers nothing. */
  function OverrideMembershipStatus(s: Store, sess: Session, id: Id, status: Option<string>): (r: Result<(Store, Option<Membership>), ApiError>)
    ensures !IsAdmin(sess) ==> r == Err(Forbidden)
    ensures IsAdmin(sess) && status.None? ==> r == Err(StorageFailure)
    ensures IsAdmin(sess) && status.Some? ==>
      (r.Err? <==> |status.value| > StatusLength && exists i :: 0 <= i < |s.memberships| && s.memberships[i].id == id)
    ensures r.Err? ==> r.error in {Forbidden, StorageFailure}
    ensures r.Ok? ==>
      var (s', m) := r.value;
      && s' == s.(memberships := s'.memberships)
      && |s'.memberships| == |s.memberships|
      && (forall i :: 0 <= i < |s.memberships| && s.memberships[i].id != id ==> s'.memberships[i] == s.memberships[i])
      && (forall i :: 0 <= i < |s.memberships| && s.memberships[i].id == id ==>
            s'.memberships[i] == s.memberships[i].(status := s'.memberships[i].status)
            && StatusName(s'.memberships[i].status) == status.value)
      && (m.None? <==> forall i :: 0 <= i < |s.memberships| ==> s.memberships[i].id != id)
  {
    if !IsAdmin(sess) then Err(Forbidden)
    else if status.None? then Err(StorageFailure)
    else
      var updated := UpdateMembershipStatus(s, id, ParseStatus(status.value));
      if |status.value| > StatusLength && updated.1.Some? then Err(StorageFailure)
      else Ok(updated)
  }

  /** The override keeps every schema constraint: the stored status is
      canonical and fits its column. */
  lemma OverrideKeepsValid(s: Store, sess: Session, id: Id, status: Option<string>)
    requires Valid(s)
    ensures OverrideMembershipStatus(s, sess, id, status).Ok? ==> Valid(OverrideMembershipStatus(s, sess, id, status).value.0)
  {
    if OverrideMembershipStatus(s, sess, id, status).Ok? {
      var st := ParseStatus(status.value);
      if |status.value| > StatusLength {
        var s' := OverrideMembershipStatus(s, sess, id, status).value.0;
        assert s' == s.(memberships := SetStatusWhere(s.memberships, id, st));
        assert SetStatusWhere(s.memberships, id, st) == s.memberships;
      } else {
        UpdateMembershipStatusKeepsValid(s, id, st);
      }
    }
  }

  /** The body of `GET /api/admin/stats`. */
  datatype PlatformStats = PlatformStats(totalUsers: nat, activeMembers: nat, platformEarnings: int)

  /** Memberships whose stored text is `name`. */
  function HasStatusText(name: string): Membership -> bool {
    (m: Membership) => StatusName(m.status) == name
  }

  /** The sum of every listed user's lifetime earnings. */
  function SumOfTotals(users: seq<User>, es: seq<Earning>): int
    decreases |users|
  {
    if |users| == 0 then 0 else TotalEarnings(es, users[0].id) + SumOfTotals(users[1..], es)
  }

  /** `GET /api/admin/stats`. */
  function AdminStats(s: Store, sess: Session): (r: Result<PlatformStats, ApiError>)
    ensures r.Err? <==> !IsAdmin(sess)
    ensures r.Err? ==> r.error == Forbidden
    ensures r.Ok? ==> r.value.totalUsers == |s.users|
    ensures r.Ok? ==> r.value.activeMembers == CountWhere(s.memberships, HasStatusText("active"))
  {
    if !IsAdmin(sess) then Err(Forbidden)
    else
      var users := GetAllUsers(s);
      var memberships := GetAllMemberships(s);
      assert |users| == |multiset(users)| == |s.users|;
      CountWherePermutation(memberships, s.memberships, HasStatusText("active"));
      Ok(PlatformStats(|users|, CountWhere(memberships, HasStatusText("active")), SumOfTotals(users, s.earnings)))
  }

  /** Earnings paid to any of `users`. */
  function OwnedByAnyOf(users: seq<User>): Earning -> bool {
    (e: Earning) => IsUser(users, e.userId)
  }

  function AnyEarning(): Earning -> bool {
    (e: Earning) => true
  }

  lemma IsUserCons(users: seq<User>, id: Id)
    requires |users| > 0 && DistinctBy(users, UserId)
    ensures IsUser(users[1..], id) <==> IsUser(users, id) && users[0].id != id
  {
    if IsUser(users[1..], id) {
      var k :| 0 <= k < |users[1..]| && users[1..][k].id == id;
      assert users[k + 1].id == id;
      assert UserId(users[0]) != UserId(users[k + 1]);
    }
    if IsUser(users, id) && users[0].id != id {
      var k :| 0 <= k < |users| && users[k].id == id;
      assert users[1..][k - 1].id == id;
    }
  }

  /** Summing every user's total over users with distinct ids sums the
      earnings owned by any of them, each once. */
  lemma {:induction false} SumOfTotalsSelects(users: seq<User>, es: seq<Earning>)
    requires DistinctBy(users, UserId)
    ensures SumOfTotals(users, es) == SumWhere(es, OwnedByAnyOf(users), AmountOf)
    decreases |users|
  {
    if |users| == 0 {
      SumWhereNone(es, OwnedByAnyOf(users), AmountOf);
    } else {
      var u := users[0];
      var rest := users[1..];
      DistinctTail(users, UserId);
      SumOfTotalsSelects(rest, es);
      forall x: Earning ensures OwnedBy(u.id)(x) <==> OwnedByAnyOf(users)(x) && OwnedBy(u.id)(x) {
        assert users[0].id == u.id;
      }
      forall x: Earning ensures OwnedByAnyOf(rest)(x) <==> OwnedByAnyOf(users)(x) && !OwnedBy(u.id)(x) {
        IsUserCons(users, x.userId);
      }
      SumWhereSplit(es, OwnedByAnyOf(users), OwnedBy(u.id), OwnedBy(u.id), OwnedByAnyOf(rest), AmountOf);
    }
  }

  /** A permutation of the users names the same users. */
  lemma PermutedUsers(a: seq<User>, b: seq<User>, id: Id)
    requires multiset(a) == multiset(b)
    ensures IsUser(a, id) <==> IsUser(b, id)
  {
    SameElements(a, b);
    if IsUser(a, id) {
      var k :| 0 <= k < |a| && a[k].id == id;
      assert a[k] in b;
      var j :| 0 <= j < |b| && b[j] == a[k];
    }
    if IsUser(b, id) {
      var k :| 0 <= k < |b| && b[k].id == id;
      assert b[k] in a;
      var j :| 0 <= j < |a| && a[j] == b[k];
    }
  }

  /** On a store meeting the schema, the platform earnings are the sum of
      every earning in the ledger: each earning belongs to exactly one
      existing user, so summing per user counts it once. */
  lemma PlatformEarningsIsLedgerTotal(s: Store, sess: Session)
    requires Valid(s) && IsAdmin(sess)
    ensures AdminStats(s, sess).value.platformEarnings == SumWhere(s.earnings, AnyEarning(), AmountOf)
  {
    var us := GetAllUsers(s);
    PermutationKeepsDistinct(s.users, us, UserId);
    SumOfTotalsSelects(us, s.earnings);
    forall i | 0 <= i < |s.earnings| ensures OwnedByAnyOf(us)(s.earnings[i]) <==> AnyEarning()(s.earnings[i]) {
      PermutedUsers(s.users, us, s.earnings[i].userId);
    }
    SumWhereCongruent(s.earnings, OwnedByAnyOf(us), AnyEarning(), AmountOf);
  }

  /** On a store meeting the schema, the stored text "active" is exactly the
      status `Active`, so the count is the number of active memberships. */
  lemma ActiveTextIsActive(s: Store, i: nat)
    requires MembershipsValid(s) && i < |s.memberships|
    ensures HasStatusText("active")(s.memberships[i]) <==> s.memberships[i].status == Active
  {
  }
}
