/**
 * The theme's read side: a member's paid and pending earnings, referral
 * count, earnings history and latest membership; the active payment QR code;
 * the status badges; and the admin listings and platform totals.
 * The joined display columns (`display_name`, `user_email`) are not part of
 * the model: a listing is the list of table rows it is built from.
 */
module WpQueries {
  import opened Wrappers
  import opened Text
  import opened Folds
  import opened Schema
  import opened WpSchema

  const WpPaid: string := "paid"
  const WpPending: string := "pending"
  const WpActive: string := "active"
  const WpInactive: string := "inactive"
  const WpRejected: string := "rejected"

  function WpAmount(e: WpEarning): int { e.amount }
  function WpEarnedAt(e: WpEarning): int { e.createdAt }
  function PaidFee(m: WpMembership): int { m.amount }
  function RequestedAt(m: WpMembership): int { m.createdAt }
  function UploadedAt(q: WpQRCode): int { q.createdAt }
  function Registered(u: WpUser): int { u.registered }

  function EarningOf(uid: Id): WpEarning -> bool {
    (e: WpEarning) => e.userId == uid
  }

  function EarningOfWithStatus(uid: Id, status: string): WpEarning -> bool {
    (e: WpEarning) => e.userId == uid && e.status == status
  }

  function EarningWithStatus(status: string): WpEarning -> bool {
    (e: WpEarning) => e.status == status
  }

  function MembershipOf(uid: Id): WpMembership -> bool {
    (m: WpMembership) => m.userId == uid
  }

  function MembershipWithStatus(status: string): WpMembership -> bool {
    (m: WpMembership) => m.status == status
  }

  function IsActiveQR(): WpQRCode -> bool {
    (q: WpQRCode) => q.isActive
  }

  /** `ns_get_user_total_earnings`: the member's paid earnings. */
  function PaidTotal(es: seq<WpEarning>, uid: Id): (r: int)
    ensures (forall i :: 0 <= i < |es| ==> es[i].userId != uid || es[i].status != WpPaid) ==> r == 0
  {
    SumWhereEmptySelection(es, EarningOfWithStatus(uid, WpPaid), WpAmount);
    SumWhere(es, EarningOfWithStatus(uid, WpPaid), WpAmount)
  }

  /** `ns_get_user_pending_earnings`: the member's earnings not yet paid. */
  function PendingTotal(es: seq<WpEarning>, uid: Id): (r: int)
    ensures (forall i :: 0 <= i < |es| ==> es[i].userId != uid || es[i].status != WpPending) ==> r == 0
  {
    SumWhereEmptySelection(es, EarningOfWithStatus(uid, WpPending), WpAmount);
    SumWhere(es, EarningOfWithStatus(uid, WpPending), WpAmount)
  }

  /** `ns_get_referral_count`: the member's earnings rows, whatever their status. */
  function ReferralCount(es: seq<WpEarning>, uid: Id): (r: nat)
    ensures r <= |es|
    ensures r == 0 <==> forall i :: 0 <= i < |es| ==> es[i].userId != uid
  {
    CountWhereZeroIff(es, EarningOf(uid));
    FilterLength(es, EarningOf(uid));
    CountWhere(es, EarningOf(uid))
  }

  /** While a member's earnings are all pending or paid, the two totals the
      dashboard shows add up to everything the member has earned. */
  lemma EarningsSplitByStatus(es: seq<WpEarning>, uid: Id)
    requires forall i :: 0 <= i < |es| && es[i].userId == uid ==> es[i].status == WpPaid || es[i].status == WpPending
    ensures PaidTotal(es, uid) + PendingTotal(es, uid) == SumWhere(es, EarningOf(uid), WpAmount)
  {
    var unpaid := (e: WpEarning) => e.userId == uid && e.status != WpPaid;
    SumWhereSplit(es, EarningOf(uid), EarningWithStatus(WpPaid), EarningOfWithStatus(uid, WpPaid), unpaid, WpAmount);
    SumWhereCongruent(es, unpaid, EarningOfWithStatus(uid, WpPending), WpAmount);
  }

  /** `ns_get_earnings_history`: the member's `limit` newest earnings. */
  function EarningsHistory(es: seq<WpEarning>, uid: Id, limit: nat): (r: seq<WpEarning>)
    ensures |r| == if ReferralCount(es, uid) < limit then ReferralCount(es, uid) else limit
    ensures forall i :: 0 <= i < |r| ==> r[i] in es && r[i].userId == uid
    ensures SortedDesc(r, WpEarnedAt)
    ensures ReferralCount(es, uid) <= limit ==>
      forall i :: 0 <= i < |es| && es[i].userId == uid ==> es[i] in r
    ensures multiset(r) <= multiset(Filter(es, EarningOf(uid)))
    ensures forall i, j :: 0 <= i < |es| && es[i].userId == uid && es[i] !in r && 0 <= j < |r| ==>
      es[i].createdAt <= r[j].createdAt
  {
    var mine := SelectDesc(es, EarningOf(uid), WpEarnedAt);
    var r := Page(mine, 0, limit);
    assert |mine| <= limit ==> r == mine;
    NewestPrefix(mine, limit);
    assert forall i :: 0 <= i < |es| && es[i].userId == uid ==> es[i] in mine by {
      forall i | 0 <= i < |es| && es[i].userId == uid ensures es[i] in mine {
        assert EarningOf(uid)(es[i]);
      }
    }
    r
  }

  /** The first `limit` rows of a newest-first sequence are some of its rows,
      and every row left out is no newer than any row kept. */
  lemma NewestPrefix(s: seq<WpEarning>, limit: nat)
    requires SortedDesc(s, WpEarnedAt)
    ensures multiset(Page(s, 0, limit)) <= multiset(s)
    ensures forall x, j :: x in s && x !in Page(s, 0, limit) && 0 <= j < |Page(s, 0, limit)| ==>
      x.createdAt <= Page(s, 0, limit)[j].createdAt
  {
    var r := Page(s, 0, limit);
    assert r == s[..|r|];
    assert s == r + s[|r|..];
    forall x, j | x in s && x !in r && 0 <= j < |r|
      ensures x.createdAt <= r[j].createdAt
    {
      var k :| 0 <= k < |s| && s[k] == x;
      assert WpEarnedAt(s[j]) >= WpEarnedAt(s[k]);
    }
  }

  /** `ns_get_user_membership`: the member's most recent membership request. */
  function LatestMembership(ms: seq<WpMembership>, uid: Id): (r: Option<WpMembership>)
    ensures r.None? <==> forall i :: 0 <= i < |ms| ==> ms[i].userId != uid
    ensures r.Some? ==> r.value in ms && r.value.userId == uid
    ensures r.Some? ==> forall i :: 0 <= i < |ms| && ms[i].userId == uid ==> ms[i].createdAt <= r.value.createdAt
  {
    Newest(ms, MembershipOf(uid), RequestedAt)
  }

  /** `ns_get_active_qr_code`: the most recently uploaded active QR code. */
  function ActiveQR(qrs: seq<WpQRCode>): (r: Option<WpQRCode>)
    ensures r.None? <==> forall i :: 0 <= i < |qrs| ==> !qrs[i].isActive
    ensures r.Some? ==> r.value in qrs && r.value.isActive
    ensures r.Some? ==> forall i :: 0 <= i < |qrs| && qrs[i].isActive ==> qrs[i].createdAt <= r.value.createdAt
  {
    Newest(qrs, IsActiveQR(), UploadedAt)
  }

  /** A status badge: its CSS tone and its caption. */
  datatype Badge = Badge(tone: string, caption: string)

  const WarningPending: Badge := Badge("badge-warning", "Pending")
  const SuccessActive: Badge := Badge("badge-success", "Active")
  const DangerInactive: Badge := Badge("badge-danger", "Inactive")
  const DangerRejected: Badge := Badge("badge-danger", "Rejected")
  const SuccessPaid: Badge := Badge("badge-success", "Paid")

  /** `ns_get_membership_badge`: an unknown status shows as "Inactive". */
  function MembershipBadge(status: string): (r: Badge)
    ensures r == DangerInactive <==> status != WpPending && status != WpActive && status != WpRejected
    ensures r in {WarningPending, SuccessActive, DangerInactive, DangerRejected}
    ensures r.tone == "badge-success" <==> status == WpActive
  {
    if status == WpPending then WarningPending
    else if status == WpActive then SuccessActive
    else if status == WpRejected then DangerRejected
    else DangerInactive
  }

  /** `ns_get_earnings_badge`: anything but "paid" shows as "Pending". */
  function EarningsBadge(status: string): (r: Badge)
    ensures r == WarningPending <==> status != WpPaid
    ensures r == SuccessPaid <==> status == WpPaid
  {
    if status == WpPaid then SuccessPaid else WarningPending
  }

  /** The four membership states the theme writes are told apart by their badges. */
  lemma MembershipBadgeInjective(a: string, b: string)
    requires a in {WpPending, WpActive, WpInactive, WpRejected} && b in {WpPending, WpActive, WpInactive, WpRejected}
    requires MembershipBadge(a) == MembershipBadge(b)
    ensures a == b
  {
  }

  /** `ns_can_purchase_membership`. */
  predicate CanPurchase(s: WpStore, uid: Id) {
    !HasActiveMembership(s, uid)
  }

  /** `ns_get_all_users($page, $per_page)`: one page of users, most recently
      registered first. Pages are numbered from 1; a page number or page size
      below 1 is outside what the theme asks for, and the result is `None`. */
  function UserPage(users: seq<WpUser>, page: int, perPage: int): (r: Option<seq<WpUser>>)
    ensures r.None? <==> page < 1 || perPage < 1
    ensures r.Some? ==> |r.value| <= perPage
    ensures r.Some? ==> SortedDesc(r.value, Registered)
    ensures r.Some? ==> forall i :: 0 <= i < |r.value| ==> r.value[i] in users
  {
    if page < 1 || perPage < 1 then None
    else
      var sorted := SortDesc(users, Registered);
      SameElements(sorted, users);
      var r := Page(sorted, (page - 1) * perPage, perPage);
      assert forall i :: 0 <= i < |r| ==> r[i] in sorted;
      Some(r)
  }

  /** The user of rank `j` in registration order (newest first) is listed on
      page `j / perPage + 1`, at position `j % perPage`. */
  lemma UserOnItsPage(users: seq<WpUser>, perPage: int, j: nat)
    requires perPage >= 1 && j < |users|
    ensures UserPage(users, j / perPage + 1, perPage).Some?
    ensures j % perPage < |UserPage(users, j / perPage + 1, perPage).value|
    ensures UserPage(users, j / perPage + 1, perPage).value[j % perPage] == SortDesc(users, Registered)[j]
  {
    var sorted := SortDesc(users, Registered);
    var offset := PageOffset(j, perPage);
    var r := Page(sorted, offset, perPage);
    assert UserPage(users, j / perPage + 1, perPage) == Some(r);
    assert |r| == if |sorted| - offset < perPage then |sorted| - offset else perPage;
  }

  /** The first rank on the page holding rank `j`. */
  lemma PageOffset(j: nat, perPage: int) returns (offset: nat)
    requires perPage >= 1
    ensures offset == (j / perPage + 1 - 1) * perPage
    ensures offset + j % perPage == j
    ensures 0 <= j % perPage < perPage
  {
    offset := (j / perPage) * perPage;
  }

  /** Paging through the user list reaches every user. */
  lemma EveryUserListed(users: seq<WpUser>, perPage: int, u: WpUser)
    requires perPage >= 1 && u in users
    ensures exists page :: page >= 1 && UserPage(users, page, perPage).Some? && u in UserPage(users, page, perPage).value
  {
    var sorted := SortDesc(users, Registered);
    SameElements(sorted, users);
    var j :| 0 <= j < |sorted| && sorted[j] == u;
    UserOnItsPage(users, perPage, j);
    var page := j / perPage + 1;
    assert UserPage(users, page, perPage).value[j % perPage] == u;
  }

  /** `ns_get_pending_memberships`: the pending requests, newest first. */
  function PendingMemberships(ms: seq<WpMembership>): (r: seq<WpMembership>)
    ensures forall i :: 0 <= i < |r| ==> r[i] in ms && r[i].status == WpPending
    ensures forall i :: 0 <= i < |ms| && ms[i].status == WpPending ==> ms[i] in r
    ensures SortedDesc(r, RequestedAt)
    ensures |r| == CountWhere(ms, MembershipWithStatus(WpPending))
  {
    SelectDesc(ms, MembershipWithStatus(WpPending), RequestedAt)
  }

  /** `ns_get_all_memberships($status)`: every request, or only those with the
      given status when one is given (PHP truthiness: "" and "0" mean none). */
  function AllMemberships(ms: seq<WpMembership>, status: Option<string>): (r: seq<WpMembership>)
    ensures forall i :: 0 <= i < |r| ==> r[i] in ms
    ensures status.Some? && !PhpEmpty(status.value) ==>
      && (forall i :: 0 <= i < |r| ==> r[i].status == status.value)
      && (forall i :: 0 <= i < |ms| && ms[i].status == status.value ==> ms[i] in r)
    ensures status.None? || PhpEmpty(status.value) ==> multiset(r) == multiset(ms)
    ensures SortedDesc(r, RequestedAt)
  {
    if status.Some? && !PhpEmpty(status.value) then
      SelectDesc(ms, MembershipWithStatus(status.value), RequestedAt)
    else
      var r := SortDesc(ms, RequestedAt);
      SameElements(r, ms);
      r
  }

  /** `ns_get_pending_earnings`: the unpaid referral earnings, newest first. */
  function PendingEarnings(es: seq<WpEarning>): (r: seq<WpEarning>)
    ensures forall i :: 0 <= i < |r| ==> r[i] in es && r[i].status == WpPending
    ensures forall i :: 0 <= i < |es| && es[i].status == WpPending ==> es[i] in r
    ensures SortedDesc(r, WpEarnedAt)
    ensures |r| == CountWhere(es, EarningWithStatus(WpPending))
  {
    SelectDesc(es, EarningWithStatus(WpPending), WpEarnedAt)
  }

  /** `ns_get_all_earnings`: every earning, newest first. */
  function AllEarnings(es: seq<WpEarning>): (r: seq<WpEarning>)
    ensures multiset(r) == multiset(es)
    ensures SortedDesc(r, WpEarnedAt)
  {
    SortDesc(es, WpEarnedAt)
  }

  /** The figures of `ns_get_platform_stats`. */
  datatype WpStats = WpStats(
    totalUsers: nat,
    activeMemberships: nat,
    pendingMemberships: nat,
    totalRevenue: int,
    pendingEarnings: int,
    totalPaidEarnings: int)

  /** `ns_get_platform_stats`: revenue counts the fees of active memberships
      only; an empty sum is 0. */
  function WpPlatformStats(s: WpStore): (r: WpStats)
    ensures r.totalUsers == |s.users|
    ensures r.activeMemberships + r.pendingMemberships <= |s.memberships|
    ensures r.pendingMemberships == |PendingMemberships(s.memberships)|
    ensures r.activeMemberships == |AllMemberships(s.memberships, Some(WpActive))|
    ensures r.activeMemberships == 0 ==> r.totalRevenue == 0
    ensures (forall i :: 0 <= i < |s.earnings| ==> s.earnings[i].status != WpPending) ==> r.pendingEarnings == 0
    ensures (forall i :: 0 <= i < |s.earnings| ==> s.earnings[i].status != WpPaid) ==> r.totalPaidEarnings == 0
  {
    var active := MembershipWithStatus(WpActive);
    var pending := MembershipWithStatus(WpPending);
    CountWhereZeroIff(s.memberships, active);
    SumWhereEmptySelection(s.memberships, active, PaidFee);
    SumWhereEmptySelection(s.earnings, EarningWithStatus(WpPending), WpAmount);
    SumWhereEmptySelection(s.earnings, EarningWithStatus(WpPaid), WpAmount);
    StatusCountsDisjoint(s.memberships, WpActive, WpPending);
    WpStats(
      |s.users|,
      CountWhere(s.memberships, active),
      CountWhere(s.memberships, pending),
      SumWhere(s.memberships, active, PaidFee),
      SumWhere(s.earnings, EarningWithStatus(WpPending), WpAmount),
      SumWhere(s.earnings, EarningWithStatus(WpPaid), WpAmount))
  }

  /** Two different statuses select disjoint sets of rows. */
  lemma {:induction false} StatusCountsDisjoint(ms: seq<WpMembership>, a: string, b: string)
    requires a != b
    ensures CountWhere(ms, MembershipWithStatus(a)) + CountWhere(ms, MembershipWithStatus(b)) <= |ms|
    decreases |ms|
  {
    if |ms| > 0 {
      StatusCountsDisjoint(ms[1..], a, b);
    }
  }
}
