/**
 * The member's earnings endpoints: the list of their earnings and the
 * daily, weekly and lifetime totals.
 */
module EarningsRoutes {
  import opened Wrappers
  import opened Folds
  import opened Schema
  import opened Storage
  import opened Auth

  /** `GET /api/earnings`: the member's earnings, newest first. */
  function MyEarnings(s: Store, sess: Session): (r: Result<seq<Earning>, ApiError>)
    ensures r.Err? <==> !IsAuthenticated(sess)
    ensures r.Err? ==> r.error == Unauthorized
    ensures r.Ok? ==> forall e :: e in r.value <==> e in s.earnings && e.userId == sess.userId.value
    ensures r.Ok? ==> SortedDesc(r.value, EarnedAt)
  {
    if !IsAuthenticated(sess) then Err(Unauthorized) else Ok(GetUserEarnings(s.earnings, sess.userId.value))
  }

  datatype EarningsStats = EarningsStats(daily: int, weekly: int, total: int)

  /** `GET /api/earnings/stats` at instant `now`. */
  function MyEarningsStats(s: Store, sess: Session, now: Time): (r: Result<EarningsStats, ApiError>)
    ensures r.Err? <==> !IsAuthenticated(sess)
    ensures r.Err? ==> r.error == Unauthorized
    ensures r.Ok? ==> r.value.total == SumWhere(s.earnings, OwnedBy(sess.userId.value), AmountOf)
    ensures r.Ok? && NonNegativeEarnings(s.earnings, sess.userId.value) ==>
      r.value.daily <= r.value.weekly <= r.value.total
    ensures r.Ok? && (forall i :: 0 <= i < |s.earnings| ==> s.earnings[i].userId != sess.userId.value) ==>
      r.value == EarningsStats(0, 0, 0)
  {
    if !IsAuthenticated(sess) then Err(Unauthorized)
    else
      var uid := sess.userId.value;
      StatsShape(s.earnings, uid, now);
      Ok(EarningsStats(DailyEarnings(s.earnings, uid, now), WeeklyEarnings(s.earnings, uid, now), TotalEarnings(s.earnings, uid)))
  }

  lemma StatsShape(es: seq<Earning>, uid: Id, now: Time)
    ensures NonNegativeEarnings(es, uid) ==>
      DailyEarnings(es, uid, now) <= WeeklyEarnings(es, uid, now) <= TotalEarnings(es, uid)
    ensures (forall i :: 0 <= i < |es| ==> es[i].userId != uid) ==>
      DailyEarnings(es, uid, now) == WeeklyEarnings(es, uid, now) == TotalEarnings(es, uid) == 0
  {
    if NonNegativeEarnings(es, uid) {
      WindowsNested(es, uid, now);
    }
    if forall i :: 0 <= i < |es| ==> es[i].userId != uid {
      SumWhereNone(es, OwnedSince(uid, now - DayMs), AmountOf);
      SumWhereNone(es, OwnedSince(uid, now - 7 * DayMs), AmountOf);
    }
  }

  /** The listing and the totals describe the same rows: as many listed
      earnings as the `COUNT` of the member's earnings. */
  lemma ListingMatchesCount(s: Store, sess: Session)
    requires IsAuthenticated(sess)
    ensures |MyEarnings(s, sess).value| == CountWhere(s.earnings, OwnedBy(sess.userId.value))
  {
  }
}
