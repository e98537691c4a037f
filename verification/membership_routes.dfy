/**
 * The server's membership handlers: purchase, confirmation (which pays the
 * referrer) and the member's own membership, each a transition of the store
 * that answers `Ok` with the new store or `Err` with the store unchanged.
 */
module MembershipRoutes {
  import opened Wrappers
  import opened Text
  import opened Folds
  import opened Schema
  import opened Storage
  import opened Pricing
  import opened Auth

  /** Whether the purchase request's coupon earns the discount: present, and
      lower-casing to "save3k". */
  predicate CouponApplies(couponCode: Option<string>) {
    couponCode.Some? && Lower(couponCode.value) == "save3k"
  }

  /** `POST /api/membership/purchase`. */
  function Purchase(s: Store, sess: Session, couponCode: Option<string>, now: Time): (r: Result<(Store, Membership), ApiError>)
    ensures !IsAuthenticated(sess) ==> r == Err(Unauthorized)
    ensures IsAuthenticated(sess) && GetMembership(s, sess.userId.value).Some? ==> r == Err(MembershipExists)
    ensures IsAuthenticated(sess) && GetMembership(s, sess.userId.value).None? ==>
      (r.Err? <==> !IsUser(s.users, sess.userId.value))
    ensures r.Err? ==> r.error in {Unauthorized, MembershipExists, StorageFailure}
    ensures r.Ok? ==>
      var (s', m) := r.value;
      && s' == s.(memberships := s.memberships + [m], nextId := s.nextId + 1)
      && m.id == s.nextId && m.userId == sess.userId.value && m.purchaseDate == now
      && m.status == Pending && m.originalPrice == BasePrice
      && m.paidPrice == (if CouponApplies(couponCode) then DiscountPrice else BasePrice)
      && m.couponUsed == (if CouponApplies(couponCode) then couponCode else None)
  {
    if !IsAuthenticated(sess) then Err(Unauthorized)
    else if GetMembership(s, sess.userId.value).Some? then Err(MembershipExists)
    else
      assert Lower("") == "";
      var q := ServerQuote(couponCode);
      CreateMembership(s, sess.userId.value, Pending, BasePrice, q.paidPrice, q.couponUsed, now)
  }

  /** A purchase keeps every schema constraint. */
  lemma PurchaseKeepsValid(s: Store, sess: Session, couponCode: Option<string>, now: Time)
    requires Valid(s)
    ensures Purchase(s, sess, couponCode, now).Ok? ==> Valid(Purchase(s, sess, couponCode, now).value.0)
  {
    if Purchase(s, sess, couponCode, now).Ok? {
      var q := ServerQuote(couponCode);
      CreateMembershipKeepsValid(s, sess.userId.value, Pending, BasePrice, q.paidPrice, q.couponUsed, now);
    }
  }

  /** After a purchase the member's lookup finds the new row, and a second
      purchase is refused whatever its coupon. */
  lemma PurchaseThenLookup(s: Store, sess: Session, couponCode: Option<string>, again: Option<string>, now: Time, later: Time)
    requires Purchase(s, sess, couponCode, now).Ok?
    ensures GetMembership(Purchase(s, sess, couponCode, now).value.0, sess.userId.value) ==
            Some(Purchase(s, sess, couponCode, now).value.1)
    ensures Purchase(Purchase(s, sess, couponCode, now).value.0, sess, again, later) == Err(MembershipExists)
  {
    var (s', m) := Purchase(s, sess, couponCode, now).value;
    var uid := sess.userId.value;
    var n := |s.memberships|;
    assert s'.memberships[n] == m;
    var found := GetMembership(s', uid);
    assert found.Some?;
    var k :| 0 <= k < |s'.memberships| && s'.memberships[k] == found.value && OwnsMembership(uid)(s'.memberships[k]);
  }

  /** The user a confirmation pays: the one whose referral code is the
      confirming user's `referredBy`, when that is set and non-empty. */
  function ReferrerOf(s: Store, uid: Id): (r: Option<User>)
    ensures r.Some? ==> r.value in s.users && IsUser(s.users, r.value.id) && IsUser(s.users, uid)
    ensures r.Some? ==>
      exists i :: 0 <= i < |s.users| && s.users[i].id == uid && Truthy(s.users[i].referredBy)
                  && s.users[i].referredBy == r.value.referralCode
  {
    match GetUser(s, uid)
    case None => None
    case Some(u) =>
      if !Truthy(u.referredBy) then None
      else
        var r := GetUserByReferralCode(s.users, u.referredBy.value);
        if r.None? then None
        else
          var k :| 0 <= k < |s.users| && s.users[k] == r.value;
          assert IsUser(s.users, s.users[k].id);
          r
  }

  /** With unique user ids and referral codes, the referrer is found exactly
      when the user's `referredBy` is non-empty and some user holds that code,
      and it is that user. */
  lemma ReferrerResolvesIff(s: Store, i: nat, j: nat)
    requires UsersValid(s)
    requires i < |s.users| && j < |s.users|
    ensures ReferrerOf(s, s.users[i].id).Some? <==>
      Truthy(s.users[i].referredBy) && GetUserByReferralCode(s.users, s.users[i].referredBy.value).Some?
    ensures Truthy(s.users[i].referredBy) && s.users[j].referralCode == s.users[i].referredBy ==>
      ReferrerOf(s, s.users[i].id) == Some(s.users[j])
  {
    GetUserExact(s, i);
    if Truthy(s.users[i].referredBy) && s.users[j].referralCode == s.users[i].referredBy {
      ReferralCodeLookupExact(s.users, j, s.users[i].referredBy.value);
    }
  }

  /** `POST /api/membership/confirm`: marks the user's membership "active",
      whatever its status, and pays the referrer 2000 when the user's
      `referredBy` resolves. Nothing checks for an earlier payment. */
  function Confirm(s: Store, sess: Session, now: Time): (r: Result<Store, ApiError>)
    ensures !IsAuthenticated(sess) ==> r == Err(Unauthorized)
    ensures IsAuthenticated(sess) ==> (r == Err(MembershipNotFound) <==> GetMembership(s, sess.userId.value).None?)
    ensures IsAuthenticated(sess) && GetMembership(s, sess.userId.value).Some? ==> r.Ok?
    ensures r.Ok? ==>
      var uid := sess.userId.value;
      var m := GetMembership(s, uid).value;
      var s' := r.value;
      && s'.users == s.users && s'.settings == s.settings
      && |s'.memberships| == |s.memberships|
      && (forall i :: 0 <= i < |s.memberships| ==>
            s'.memberships[i] == if s.memberships[i].id == m.id then s.memberships[i].(status := Active) else s.memberships[i])
      && (ReferrerOf(s, uid).None? ==> s'.earnings == s.earnings && s'.nextId == s.nextId)
      && (ReferrerOf(s, uid).Some? ==>
            && s'.earnings == s.earnings + [Earning(s.nextId, ReferrerOf(s, uid).value.id, uid, ReferralAmount, now)]
            && s'.nextId == s.nextId + 1)
  {
    if !IsAuthenticated(sess) then Err(Unauthorized)
    else
      var uid := sess.userId.value;
      var found := GetMembership(s, uid);
      if found.None? then Err(MembershipNotFound)
      else
        var s1 := UpdateMembershipStatus(s, found.value.id, Active).0;
        var referrer := ReferrerOf(s, uid);
        if referrer.None? then Ok(s1)
        else
          var paid := CreateEarning(s1, referrer.value.id, uid, ReferralAmount, now);
          if paid.Err? then Err(StorageFailure) else Ok(paid.value.0)
  }

  /** A confirmation keeps every schema constraint. */
  lemma ConfirmKeepsValid(s: Store, sess: Session, now: Time)
    requires Valid(s)
    ensures Confirm(s, sess, now).Ok? ==> Valid(Confirm(s, sess, now).value)
  {
    if Confirm(s, sess, now).Ok? {
      var uid := sess.userId.value;
      var m := GetMembership(s, uid).value;
      UpdateMembershipStatusKeepsValid(s, m.id, Active);
      var s1 := UpdateMembershipStatus(s, m.id, Active).0;
      if ReferrerOf(s, uid).Some? {
        CreateEarningKeepsValid(s1, ReferrerOf(s, uid).value.id, uid, ReferralAmount, now);
      }
    }
  }

  /** A confirmation that pays credits the referrer's lifetime total and their
      daily and weekly totals at the same instant by exactly 2000. */
  lemma ConfirmCreditsReferrer(s: Store, sess: Session, now: Time)
    requires Confirm(s, sess, now).Ok?
    requires ReferrerOf(s, sess.userId.value).Some?
    ensures var rid := ReferrerOf(s, sess.userId.value).value.id;
      var es := Confirm(s, sess, now).value.earnings;
      && TotalEarnings(es, rid) == TotalEarnings(s.earnings, rid) + ReferralAmount
      && DailyEarnings(es, rid, now) == DailyEarnings(s.earnings, rid, now) + ReferralAmount
      && WeeklyEarnings(es, rid, now) == WeeklyEarnings(s.earnings, rid, now) + ReferralAmount
  {
    var uid := sess.userId.value;
    var rid := ReferrerOf(s, uid).value.id;
    var e := Earning(s.nextId, rid, uid, ReferralAmount, now);
    TotalEarningsAppend(s.earnings, e, rid);
    EarningsSinceAppend(s.earnings, e, rid, now - DayMs);
    EarningsSinceAppend(s.earnings, e, rid, now - 7 * DayMs);
  }

  /** `GET /api/membership`: the member's membership, or none. */
  function MyMembership(s: Store, sess: Session): (r: Result<Option<Membership>, ApiError>)
    ensures !IsAuthenticated(sess) ==> r == Err(Unauthorized)
    ensures IsAuthenticated(sess) ==> r.Ok?
    ensures r.Ok? && r.value.Some? ==> r.value.value in s.memberships && r.value.value.userId == sess.userId.value
    ensures r.Ok? ==> (r.value.None? <==> forall i :: 0 <= i < |s.memberships| ==> s.memberships[i].userId != sess.userId.value)
  {
    if !IsAuthenticated(sess) then Err(Unauthorized) else Ok(GetMembership(s, sess.userId.value))
  }

  /** After a confirmation the member's own membership reads "active". */
  lemma ConfirmThenActive(s: Store, sess: Session, now: Time)
    requires Confirm(s, sess, now).Ok?
    ensures MyMembership(Confirm(s, sess, now).value, sess).Ok?
    ensures MyMembership(Confirm(s, sess, now).value, sess).value.Some?
    ensures MyMembership(Confirm(s, sess, now).value, sess).value.value.status == Active
  {
    var uid := sess.userId.value;
    var m := GetMembership(s, uid).value;
    GetMembershipAfterStatusUpdate(s, m.id, Active, uid);
    var s1 := UpdateMembershipStatus(s, m.id, Active).0;
    assert GetMembership(Confirm(s, sess, now).value, uid) == GetMembership(s1, uid);
  }

  // ---------------------------------------------------------------------------
  // Repeated confirmation.

  function ReferredUserId(e: Earning): Id { e.referredUserId }

  /** No referred user has been paid for twice. */
  predicate OnePayoutPerReferral(es: seq<Earning>) {
    DistinctBy(es, ReferredUserId)
  }

  /** As written, a second confirmation by the same referred member pays the
      referrer again: two earnings for one referral. */
  lemma ConfirmTwicePaysTwice(s: Store, sess: Session, now: Time, later: Time)
    requires IsAuthenticated(sess)
    requires GetMembership(s, sess.userId.value).Some?
    requires ReferrerOf(s, sess.userId.value).Some?
    ensures Confirm(s, sess, now).Ok?
    ensures Confirm(Confirm(s, sess, now).value, sess, later).Ok?
    ensures var es := Confirm(Confirm(s, sess, now).value, sess, later).value.earnings;
      && |es| == |s.earnings| + 2
      && es[|s.earnings|].referredUserId == es[|s.earnings| + 1].referredUserId == sess.userId.value
      && !OnePayoutPerReferral(es)
  {
    var uid := sess.userId.value;
    var s1 := Confirm(s, sess, now).value;
    var m := GetMembership(s, uid).value;
    GetMembershipAfterStatusUpdate(s, m.id, Active, uid);
    assert GetMembership(s1, uid).Some?;
    assert ReferrerOf(s1, uid) == ReferrerOf(s, uid);
    var es := Confirm(s1, sess, later).value.earnings;
    var n := |s.earnings|;
    assert ReferredUserId(es[n]) == ReferredUserId(es[n + 1]);
  }

  /** Whether the referred user has already been paid for. */
  predicate PaidFor(es: seq<Earning>, uid: Id) {
    exists i :: 0 <= i < |es| && es[i].referredUserId == uid
  }

  /** Confirmation as evidently intended: only a "pending" membership can be
      confirmed, and the referrer is paid only when nobody has been paid for
      this user yet and the user did not refer themself. */
  function ConfirmOnce(s: Store, sess: Session, now: Time): (r: Result<Store, ApiError>)
    ensures !IsAuthenticated(sess) ==> r == Err(Unauthorized)
    ensures IsAuthenticated(sess) ==> (r == Err(MembershipNotFound) <==> GetMembership(s, sess.userId.value).None?)
    ensures IsAuthenticated(sess) && GetMembership(s, sess.userId.value).Some? ==>
      (r == Err(InvalidTransition) <==> GetMembership(s, sess.userId.value).value.status != Pending)
    ensures r.Ok? ==>
      var uid := sess.userId.value;
      var pays := ReferrerOf(s, uid).Some? && ReferrerOf(s, uid).value.id != uid && !PaidFor(s.earnings, uid);
      var m := GetMembership(s, uid).value;
      var s' := r.value;
      && m.status == Pending
      && s'.users == s.users && s'.settings == s.settings
      && |s'.memberships| == |s.memberships|
      && (forall i :: 0 <= i < |s.memberships| ==>
            s'.memberships[i] == if s.memberships[i].id == m.id then s.memberships[i].(status := Active) else s.memberships[i])
      && (!pays ==> s'.earnings == s.earnings && s'.nextId == s.nextId)
      && (pays ==>
            && s'.earnings == s.earnings + [Earning(s.nextId, ReferrerOf(s, uid).value.id, uid, ReferralAmount, now)]
            && s'.nextId == s.nextId + 1)
  {
    if !IsAuthenticated(sess) then Err(Unauthorized)
    else
      var uid := sess.userId.value;
      var found := GetMembership(s, uid);
      if found.None? then Err(MembershipNotFound)
      else if found.value.status != Pending then Err(InvalidTransition)
      else
        var s1 := UpdateMembershipStatus(s, found.value.id, Active).0;
        var referrer := ReferrerOf(s, uid);
        if referrer.None? || referrer.value.id == uid || PaidFor(s.earnings, uid) then Ok(s1)
        else
          var paid := CreateEarning(s1, referrer.value.id, uid, ReferralAmount, now);
          if paid.Err? then Err(StorageFailure) else Ok(paid.value.0)
  }

  /** The guarded confirmation keeps "at most one payout per referred user". */
  lemma ConfirmOnceKeepsOnePayout(s: Store, sess: Session, now: Time)
    requires OnePayoutPerReferral(s.earnings)
    ensures ConfirmOnce(s, sess, now).Ok? ==> OnePayoutPerReferral(ConfirmOnce(s, sess, now).value.earnings)
  {
    if ConfirmOnce(s, sess, now).Ok? {
      var uid := sess.userId.value;
      if ConfirmOnce(s, sess, now).value.earnings != s.earnings {
        FreshPayoutKeepsOne(s.earnings, Earning(s.nextId, ReferrerOf(s, uid).value.id, uid, ReferralAmount, now));
      }
    }
  }

  lemma FreshPayoutKeepsOne(es: seq<Earning>, e: Earning)
    requires OnePayoutPerReferral(es)
    requires !PaidFor(es, e.referredUserId)
    ensures OnePayoutPerReferral(es + [e])
  {
    var es' := es + [e];
    forall i, j | 0 <= i < j < |es'| ensures ReferredUserId(es'[i]) != ReferredUserId(es'[j]) {
      if j < |es| {
        assert ReferredUserId(es[i]) != ReferredUserId(es[j]);
      } else {
        assert es'[i] == es[i];
      }
    }
  }

  /** Once confirmed, the guarded confirmation refuses to run again. */
  lemma ConfirmOnceRefusesRepeat(s: Store, sess: Session, now: Time, later: Time)
    requires ConfirmOnce(s, sess, now).Ok?
    ensures ConfirmOnce(ConfirmOnce(s, sess, now).value, sess, later) == Err(InvalidTransition)
  {
    var uid := sess.userId.value;
    var m := GetMembership(s, uid).value;
    GetMembershipAfterStatusUpdate(s, m.id, Active, uid);
    var s1 := UpdateMembershipStatus(s, m.id, Active).0;
    assert GetMembership(ConfirmOnce(s, sess, now).value, uid) == GetMembership(s1, uid);
  }

  /** On a first confirmation of a pending membership, for a user not yet
      paid for and not their own referrer, the guarded and the written
      confirmation agree. */
  lemma ConfirmOnceAgreesOnFirst(s: Store, sess: Session, now: Time)
    requires IsAuthenticated(sess)
    requires GetMembership(s, sess.userId.value).Some?
    requires GetMembership(s, sess.userId.value).value.status == Pending
    requires !PaidFor(s.earnings, sess.userId.value)
    requires ReferrerOf(s, sess.userId.value).Some? ==> ReferrerOf(s, sess.userId.value).value.id != sess.userId.value
    ensures ConfirmOnce(s, sess, now) == Confirm(s, sess, now)
  {
  }
}
