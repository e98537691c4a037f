/**
 * The server's storage layer (`DbStorage`): lookups, inserts that the
 * database's constraints can refuse, in-place updates, the earnings queries
 * and their sums, and the admin-settings upsert. The wall clock becomes the
 * explicit parameter `now`.
 */
module Storage {
  import opened Wrappers
  import opened Folds
  import opened Schema

  function HasUserId(id: Id): User -> bool { (u: User) => u.id == id }
  function HasUsername(name: string): User -> bool { (u: User) => u.username == name }
  function HasReferralCode(code: string): User -> bool { (u: User) => u.referralCode == Some(code) }
  function OwnsMembership(uid: Id): Membership -> bool { (m: Membership) => m.userId == uid }
  function HasSettingKey(key: string): AdminSetting -> bool { (a: AdminSetting) => a.key == key }

  function AmountOf(e: Earning): int { e.amount }
  function EarnedAt(e: Earning): int { e.earnedAt }
  function CreatedAt(u: User): int { u.createdAt }
  function PurchaseDate(m: Membership): int { m.purchaseDate }

  /** Earnings paid to `uid`. */
  function OwnedBy(uid: Id): Earning -> bool { (e: Earning) => e.userId == uid }

  /** Earnings paid to `uid` at or after `since`. */
  function OwnedSince(uid: Id, since: Time): Earning -> bool { (e: Earning) => e.userId == uid && e.earnedAt >= since }

  function GetUser(s: Store, id: Id): (r: Option<User>)
    ensures r.Some? ==> r.value in s.users && r.value.id == id
    ensures r.None? <==> !IsUser(s.users, id)
  {
    FindFirst(s.users, HasUserId(id))
  }

  /** With unique ids, looking up a user's id finds that user. */
  lemma GetUserExact(s: Store, i: nat)
    requires DistinctBy(s.users, UserId)
    requires i < |s.users|
    ensures GetUser(s, s.users[i].id) == Some(s.users[i])
  {
    var r := GetUser(s, s.users[i].id);
    var k :| 0 <= k < |s.users| && s.users[k] == r.value && HasUserId(s.users[i].id)(s.users[k]);
  }

  function GetUserByUsername(s: Store, username: string): (r: Option<User>)
    ensures r.Some? ==> r.value in s.users && r.value.username == username
    ensures r.None? <==> forall i :: 0 <= i < |s.users| ==> s.users[i].username != username
  {
    FindFirst(s.users, HasUsername(username))
  }

  /** The user whose referral code is `code`, or none. */
  function GetUserByReferralCode(users: seq<User>, code: string): (r: Option<User>)
    ensures r.Some? ==> r.value in users && r.value.referralCode == Some(code)
    ensures r.None? <==> forall i :: 0 <= i < |users| ==> users[i].referralCode != Some(code)
  {
    FindFirst(users, HasReferralCode(code))
  }

  /** Under the `UNIQUE` constraint the lookup finds the one user holding the code. */
  lemma ReferralCodeLookupExact(users: seq<User>, i: nat, code: string)
    requires UniqueReferralCodes(users)
    requires i < |users| && users[i].referralCode == Some(code)
    ensures GetUserByReferralCode(users, code) == Some(users[i])
  {
    var r := GetUserByReferralCode(users, code);
    var k :| 0 <= k < |users| && users[k] == r.value && HasReferralCode(code)(users[k]);
  }

  /** The user's membership: the first row owned by `userId`, or none. */
  function GetMembership(s: Store, userId: Id): (r: Option<Membership>)
    ensures r.Some? ==> r.value in s.memberships && r.value.userId == userId
    ensures r.None? <==> forall i :: 0 <= i < |s.memberships| ==> s.memberships[i].userId != userId
  {
    FindFirst(s.memberships, OwnsMembership(userId))
  }

  /** Every user row, newest registration first. */
  function GetAllUsers(s: Store): (r: seq<User>)
    ensures multiset(r) == multiset(s.users)
    ensures SortedDesc(r, CreatedAt)
  {
    SortDesc(s.users, CreatedAt)
  }

  /** Every membership row, newest purchase first. */
  function GetAllMemberships(s: Store): (r: seq<Membership>)
    ensures multiset(r) == multiset(s.memberships)
    ensures SortedDesc(r, PurchaseDate)
  {
    SortDesc(s.memberships, PurchaseDate)
  }

  /** `INSERT INTO users`: refused when the username or the referral code is
      already taken, or a code does not fit its `varchar(12)` column. */
  function CreateUser(s: Store, username: string, email: Option<string>, phone: Option<string>,
                      fullName: Option<string>, isAdmin: bool, isApproved: bool,
                      referralCode: Option<string>, referredBy: Option<string>, now: Time): (r: Result<(Store, User), ApiError>)
    ensures r.Err? <==>
      || GetUserByUsername(s, username).Some?
      || (referralCode.Some? && GetUserByReferralCode(s.users, referralCode.value).Some?)
      || !FitsCode(referralCode) || !FitsCode(referredBy)
    ensures r.Err? ==> r.error == StorageFailure
    ensures r.Ok? ==>
      var (s', u) := r.value;
      && s' == s.(users := s.users + [u], nextId := s.nextId + 1)
      && u == User(s.nextId, username, email, phone, fullName, isAdmin, isApproved, referralCode, referredBy, now)
  {
    if GetUserByUsername(s, username).Some?
       || (referralCode.Some? && GetUserByReferralCode(s.users, referralCode.value).Some?)
       || !FitsCode(referralCode) || !FitsCode(referredBy)
    then Err(StorageFailure)
    else
      var u := User(s.nextId, username, email, phone, fullName, isAdmin, isApproved, referralCode, referredBy, now);
      Ok((s.(users := s.users + [u], nextId := s.nextId + 1), u))
  }

  /** A reference to an existing user stays valid when users are appended. */
  lemma IsUserAppend(users: seq<User>, extra: seq<User>, id: Id)
    requires IsUser(users, id)
    ensures IsUser(users + extra, id)
  {
    var k :| 0 <= k < |users| && users[k].id == id;
    assert (users + extra)[k] == users[k];
  }

  /** Inserting a user through `CreateUser` keeps every schema constraint. */
  lemma CreateUserKeepsValid(s: Store, username: string, email: Option<string>, phone: Option<string>,
                             fullName: Option<string>, isAdmin: bool, isApproved: bool,
                             referralCode: Option<string>, referredBy: Option<string>, now: Time)
    requires Valid(s)
    requires CreateUser(s, username, email, phone, fullName, isAdmin, isApproved, referralCode, referredBy, now).Ok?
    ensures Valid(CreateUser(s, username, email, phone, fullName, isAdmin, isApproved, referralCode, referredBy, now).value.0)
  {
    var (s', u) := CreateUser(s, username, email, phone, fullName, isAdmin, isApproved, referralCode, referredBy, now).value;
    assert s'.users == s.users + [u];
    NewUserKeepsUsersValid(s, u);
    forall i | 0 <= i < |s.memberships|
      ensures IsUser(s'.users, s'.memberships[i].userId)
    {
      IsUserAppend(s.users, [u], s.memberships[i].userId);
    }
    forall i | 0 <= i < |s.earnings|
      ensures IsUser(s'.users, s'.earnings[i].userId) && IsUser(s'.users, s'.earnings[i].referredUserId)
    {
      IsUserAppend(s.users, [u], s.earnings[i].userId);
      IsUserAppend(s.users, [u], s.earnings[i].referredUserId);
    }
  }

  lemma NewUserKeepsUsersValid(s: Store, u: User)
    requires UsersValid(s)
    requires u.id == s.nextId
    requires forall i :: 0 <= i < |s.users| ==> s.users[i].username != u.username
    requires u.referralCode.Some? ==> forall i :: 0 <= i < |s.users| ==> s.users[i].referralCode != u.referralCode
    requires FitsCode(u.referralCode) && FitsCode(u.referredBy)
    ensures UsersValid(s.(users := s.users + [u], nextId := s.nextId + 1))
  {
    var us := s.users + [u];
    assert forall i :: 0 <= i < |s.users| ==> us[i] == s.users[i];
    assert DistinctBy(us, UserId) by {
      forall i, j | 0 <= i < j < |us| ensures UserId(us[i]) != UserId(us[j]) {
        if j < |s.users| { assert UserId(s.users[i]) != UserId(s.users[j]); }
      }
    }
    assert DistinctBy(us, Username) by {
      forall i, j | 0 <= i < j < |us| ensures Username(us[i]) != Username(us[j]) {
        if j < |s.users| { assert Username(s.users[i]) != Username(s.users[j]); }
      }
    }
  }

  /** `INSERT INTO memberships`: refused when `userId` names no user
      (the `REFERENCES users` constraint) or when the status text is longer
      than the `varchar(20)` column holds. */
  function CreateMembership(s: Store, userId: Id, status: Status, originalPrice: int, paidPrice: int,
                            couponUsed: Option<string>, now: Time): (r: Result<(Store, Membership), ApiError>)
    ensures r.Err? <==> !IsUser(s.users, userId) || |StatusName(status)| > StatusLength
    ensures r.Ok? ==>
      var (s', m) := r.value;
      && s' == s.(memberships := s.memberships + [m], nextId := s.nextId + 1)
      && m == Membership(s.nextId, userId, status, originalPrice, paidPrice, couponUsed, now)
  {
    if GetUser(s, userId).None? || |StatusName(status)| > StatusLength then Err(StorageFailure)
    else
      var m := Membership(s.nextId, userId, status, originalPrice, paidPrice, couponUsed, now);
      Ok((s.(memberships := s.memberships + [m], nextId := s.nextId + 1), m))
  }

  /** Inserting a membership through `CreateMembership` keeps every schema
      constraint, given a status the column can hold. */
  lemma CreateMembershipKeepsValid(s: Store, userId: Id, status: Status, originalPrice: int, paidPrice: int,
                                   couponUsed: Option<string>, now: Time)
    requires Valid(s)
    requires Canonical(status) && |StatusName(status)| <= StatusLength
    requires CreateMembership(s, userId, status, originalPrice, paidPrice, couponUsed, now).Ok?
    ensures Valid(CreateMembership(s, userId, status, originalPrice, paidPrice, couponUsed, now).value.0)
  {
    var (s', m) := CreateMembership(s, userId, status, originalPrice, paidPrice, couponUsed, now).value;
    var ms := s'.memberships;
    assert forall i :: 0 <= i < |s.memberships| ==> ms[i] == s.memberships[i];
    assert ms[|s.memberships|] == m;
    assert DistinctBy(ms, MembershipId) by {
      forall i, j | 0 <= i < j < |ms| ensures MembershipId(ms[i]) != MembershipId(ms[j]) {
        if j < |s.memberships| { assert MembershipId(s.memberships[i]) != MembershipId(s.memberships[j]); }
      }
    }
  }

  /** `INSERT INTO earnings`: refused when either user reference is dangling. */
  function CreateEarning(s: Store, userId: Id, referredUserId: Id, amount: int, now: Time): (r: Result<(Store, Earning), ApiError>)
    ensures r.Err? <==> !IsUser(s.users, userId) || !IsUser(s.users, referredUserId)
    ensures r.Ok? ==>
      var (s', e) := r.value;
      && s' == s.(earnings := s.earnings + [e], nextId := s.nextId + 1)
      && e == Earning(s.nextId, userId, referredUserId, amount, now)
  {
    if GetUser(s, userId).None? || GetUser(s, referredUserId).None? then Err(StorageFailure)
    else
      var e := Earning(s.nextId, userId, referredUserId, amount, now);
      Ok((s.(earnings := s.earnings + [e], nextId := s.nextId + 1), e))
  }

  /** Inserting an earning through `CreateEarning` keeps every schema constraint. */
  lemma CreateEarningKeepsValid(s: Store, userId: Id, referredUserId: Id, amount: int, now: Time)
    requires Valid(s)
    requires CreateEarning(s, userId, referredUserId, amount, now).Ok?
    ensures Valid(CreateEarning(s, userId, referredUserId, amount, now).value.0)
  {
    var (s', e) := CreateEarning(s, userId, referredUserId, amount, now).value;
    assert s'.users == s.users && s'.memberships == s.memberships && s'.settings == s.settings;
    assert UsersValid(s') && MembershipsValid(s') && SettingsValid(s');
    AppendedEarningKeepsEarningsValid(s, s', e);
  }

  /** Appending an earning with the next id whose users exist keeps the
      earnings constraints. */
  lemma AppendedEarningKeepsEarningsValid(s: Store, s': Store, e: Earning)
    requires EarningsValid(s)
    requires s'.users == s.users && s'.earnings == s.earnings + [e] && s'.nextId == s.nextId + 1
    requires e.id == s.nextId && IsUser(s.users, e.userId) && IsUser(s.users, e.referredUserId)
    ensures EarningsValid(s')
  {
    var es := s'.earnings;
    assert forall i :: 0 <= i < |s.earnings| ==> es[i] == s.earnings[i];
    assert es[|s.earnings|] == e;
    assert DistinctBy(es, EarningId) by {
      forall i, j | 0 <= i < j < |es| ensures EarningId(es[i]) != EarningId(es[j]) {
        if j < |s.earnings| { assert EarningId(s.earnings[i]) != EarningId(s.earnings[j]); }
      }
    }
  }

  /** The rows of `ms` with the status of every row numbered `id` replaced. */
  function SetStatusWhere(ms: seq<Membership>, id: Id, status: Status): (r: seq<Membership>)
    ensures |r| == |ms|
    ensures forall i :: 0 <= i < |ms| ==> r[i] == if ms[i].id == id then ms[i].(status := status) else ms[i]
  {
    MapWhere(ms, HasMembershipKey(id), WithStatus(status))
  }

  function HasMembershipKey(id: Id): Membership -> bool { (m: Membership) => m.id == id }
  function WithStatus(status: Status): Membership -> Membership { (m: Membership) => m.(status := status) }

  /** `UPDATE memberships SET status WHERE id`: changes only the status of the
      rows numbered `id` and returns the updated row, or none when no row has
      that id. */
  function UpdateMembershipStatus(s: Store, id: Id, status: Status): (r: (Store, Option<Membership>))
    ensures r.0 == s.(memberships := r.0.memberships)
    ensures |r.0.memberships| == |s.memberships|
    ensures forall i :: 0 <= i < |s.memberships| && s.memberships[i].id != id ==> r.0.memberships[i] == s.memberships[i]
    ensures forall i :: 0 <= i < |s.memberships| && s.memberships[i].id == id ==>
      r.0.memberships[i] == s.memberships[i].(status := status)
    ensures r.1.None? <==> forall i :: 0 <= i < |s.memberships| ==> s.memberships[i].id != id
    ensures r.1.Some? ==> r.1.value in r.0.memberships && r.1.value.id == id && r.1.value.status == status
  {
    var ms := SetStatusWhere(s.memberships, id, status);
    var found := FindFirst(ms, (m: Membership) => m.id == id);
    (s.(memberships := ms), found)
  }

  /** A status update the column can hold keeps every schema constraint. */
  lemma UpdateMembershipStatusKeepsValid(s: Store, id: Id, status: Status)
    requires Valid(s)
    requires Canonical(status) && |StatusName(status)| <= StatusLength
    ensures Valid(UpdateMembershipStatus(s, id, status).0)
  {
    var s' := UpdateMembershipStatus(s, id, status).0;
    var ms := s'.memberships;
    assert forall i :: 0 <= i < |ms| ==> ms[i].id == s.memberships[i].id && ms[i].userId == s.memberships[i].userId;
    assert DistinctBy(ms, MembershipId) by {
      forall i, j | 0 <= i < j < |ms| ensures MembershipId(ms[i]) != MembershipId(ms[j]) {
        assert MembershipId(s.memberships[i]) != MembershipId(s.memberships[j]);
      }
    }
  }

  /** The membership a user's lookup finds keeps its position across a status
      update: the same row, with the new status when its id was the one updated. */
  lemma GetMembershipAfterStatusUpdate(s: Store, id: Id, status: Status, userId: Id)
    ensures GetMembership(UpdateMembershipStatus(s, id, status).0, userId).None? <==> GetMembership(s, userId).None?
    ensures GetMembership(s, userId).Some? ==>
      GetMembership(UpdateMembershipStatus(s, id, status).0, userId).value ==
        if GetMembership(s, userId).value.id == id then GetMembership(s, userId).value.(status := status)
        else GetMembership(s, userId).value
  {
    assert forall i :: 0 <= i < |s.memberships| ==>
      OwnsMembership(userId)(WithStatus(status)(s.memberships[i])) == OwnsMembership(userId)(s.memberships[i]);
    FindFirstMapped(s.memberships, HasMembershipKey(id), WithStatus(status), OwnsMembership(userId));
  }

  /** `UPDATE users SET is_approved WHERE id`. */
  function UpdateUserApproval(s: Store, id: Id, approved: bool): (r: (Store, Option<User>))
    ensures r.0 == s.(users := r.0.users)
    ensures |r.0.users| == |s.users|
    ensures forall i :: 0 <= i < |s.users| ==>
      r.0.users[i] == if s.users[i].id == id then s.users[i].(isApproved := approved) else s.users[i]
    ensures r.1.None? <==> !IsUser(s.users, id)
    ensures r.1.Some? ==> r.1.value in r.0.users && r.1.value.id == id && r.1.value.isApproved == approved
  {
    var us := seq(|s.users|, i requires 0 <= i < |s.users| =>
      if s.users[i].id == id then s.users[i].(isApproved := approved) else s.users[i]);
    var found := FindFirst(us, HasUserId(id));
    (s.(users := us), found)
  }

  /** The earnings paid to `uid`, newest first. */
  function GetUserEarnings(es: seq<Earning>, uid: Id): (r: seq<Earning>)
    ensures forall e :: e in r <==> e in es && e.userId == uid
    ensures multiset(r) == multiset(Filter(es, OwnedBy(uid)))
    ensures SortedDesc(r, EarnedAt)
    ensures |r| == CountWhere(es, OwnedBy(uid))
  {
    var owned := Filter(es, OwnedBy(uid));
    var r := SortDesc(owned, EarnedAt);
    SameElements(r, owned);
    FilterLength(es, OwnedBy(uid));
    r
  }

  /** Lifetime earnings of `uid`: the sum of the amounts of their earnings, 0 when there are none. */
  function TotalEarnings(es: seq<Earning>, uid: Id): (r: int)
    ensures (forall i :: 0 <= i < |es| ==> es[i].userId != uid) ==> r == 0
  {
    if forall i :: 0 <= i < |es| ==> es[i].userId != uid then
      SumWhereNone(es, OwnedBy(uid), AmountOf);
      SumWhere(es, OwnedBy(uid), AmountOf)
    else
      SumWhere(es, OwnedBy(uid), AmountOf)
  }

  /** The sum of the earnings of `uid` dated at or after `since`. */
  function EarningsSince(es: seq<Earning>, uid: Id, since: Time): (r: int)
    ensures (forall i :: 0 <= i < |es| ==> es[i].userId != uid || es[i].earnedAt < since) ==> r == 0
  {
    SumWhereEmptySelection(es, OwnedSince(uid, since), AmountOf);
    SumWhere(es, OwnedSince(uid, since), AmountOf)
  }

  /** Earnings of the last day: `earnedAt >= now - 1 day`, with no upper bound. */
  function DailyEarnings(es: seq<Earning>, uid: Id, now: Time): (r: int)
    ensures (forall i :: 0 <= i < |es| ==> es[i].userId != uid || es[i].earnedAt < now - DayMs) ==> r == 0
  {
    EarningsSince(es, uid, now - DayMs)
  }

  /** Earnings of the last week: `earnedAt >= now - 7 days`, with no upper bound. */
  function WeeklyEarnings(es: seq<Earning>, uid: Id, now: Time): (r: int)
    ensures (forall i :: 0 <= i < |es| ==> es[i].userId != uid || es[i].earnedAt < now - 7 * DayMs) ==> r == 0
  {
    EarningsSince(es, uid, now - 7 * DayMs)
  }

  /** Appending one earning moves each window sum by its amount exactly when
      the earning belongs to the user and is not older than the window's lower
      bound; the bound itself is inside the window. */
  lemma EarningsSinceAppend(es: seq<Earning>, e: Earning, uid: Id, since: Time)
    ensures EarningsSince(es + [e], uid, since) ==
      EarningsSince(es, uid, since) + (if e.userId == uid && e.earnedAt >= since then e.amount else 0)
  {
    SumWhereAppend(es, [e], OwnedSince(uid, since), AmountOf);
  }

  lemma TotalEarningsAppend(es: seq<Earning>, e: Earning, uid: Id)
    ensures TotalEarnings(es + [e], uid) == TotalEarnings(es, uid) + (if e.userId == uid then e.amount else 0)
  {
    SumWhereAppend(es, [e], OwnedBy(uid), AmountOf);
  }

  /** The user's earnings carry non-negative amounts. */
  predicate NonNegativeEarnings(es: seq<Earning>, uid: Id) {
    forall i :: 0 <= i < |es| && es[i].userId == uid ==> es[i].amount >= 0
  }

  /** For a fixed `now` and non-negative amounts: daily <= weekly <= lifetime. */
  lemma WindowsNested(es: seq<Earning>, uid: Id, now: Time)
    requires NonNegativeEarnings(es, uid)
    ensures DailyEarnings(es, uid, now) <= WeeklyEarnings(es, uid, now) <= TotalEarnings(es, uid)
  {
    SumWhereMonotone(es, OwnedSince(uid, now - DayMs), OwnedSince(uid, now - 7 * DayMs), AmountOf);
    SumWhereMonotone(es, OwnedSince(uid, now - 7 * DayMs), OwnedBy(uid), AmountOf);
  }

  function GetAdminSetting(settings: seq<AdminSetting>, key: string): (r: Option<AdminSetting>)
    ensures r.Some? ==> r.value in settings && r.value.key == key
    ensures r.None? <==> forall i :: 0 <= i < |settings| ==> settings[i].key != key
  {
    FindFirst(settings, HasSettingKey(key))
  }

  /** The rows of `settings` with the row keyed `key` given `value`. */
  function SetValueWhere(settings: seq<AdminSetting>, key: string, value: string, now: Time): (r: seq<AdminSetting>)
    ensures |r| == |settings|
    ensures forall i :: 0 <= i < |settings| ==>
      r[i] == if settings[i].key == key then settings[i].(value := value, updatedAt := now) else settings[i]
  {
    seq(|settings|, i requires 0 <= i < |settings| =>
      if settings[i].key == key then settings[i].(value := value, updatedAt := now) else settings[i])
  }

  lemma UpdatedSettingFound(settings: seq<AdminSetting>, key: string, value: string, now: Time)
    requires DistinctBy(settings, SettingKey)
    requires GetAdminSetting(settings, key).Some?
    ensures DistinctBy(SetValueWhere(settings, key, value, now), SettingKey)
    ensures GetAdminSetting(SetValueWhere(settings, key, value, now), key).Some?
    ensures GetAdminSetting(SetValueWhere(settings, key, value, now), key).value.value == value
  {
    var rows := SetValueWhere(settings, key, value, now);
    forall i, j | 0 <= i < j < |rows| ensures SettingKey(rows[i]) != SettingKey(rows[j]) {
      assert SettingKey(rows[i]) == SettingKey(settings[i]);
      assert SettingKey(rows[j]) == SettingKey(settings[j]);
    }
    var g := GetAdminSetting(settings, key).value;
    var o :| 0 <= o < |settings| && settings[o] == g;
    assert rows[o].key == key;
    var found := GetAdminSetting(rows, key);
    assert found.Some?;
    assert found.value.key == key;
    var k :| 0 <= k < |rows| && rows[k] == found.value;
    assert settings[k].key == key;
  }

  lemma InsertedSettingFound(settings: seq<AdminSetting>, a: AdminSetting)
    requires DistinctBy(settings, SettingKey)
    requires GetAdminSetting(settings, a.key).None?
    ensures DistinctBy(settings + [a], SettingKey)
    ensures GetAdminSetting(settings + [a], a.key) == Some(a)
  {
    var rows := settings + [a];
    assert forall i :: 0 <= i < |settings| ==> rows[i] == settings[i];
    assert rows[|settings|] == a;
    var f := GetAdminSetting(rows, a.key);
    var k :| 0 <= k < |rows| && rows[k] == f.value && HasSettingKey(a.key)(rows[k]);
    assert k == |settings|;
    forall i, j | 0 <= i < j < |rows| ensures SettingKey(rows[i]) != SettingKey(rows[j]) {
      if j < |settings| { assert SettingKey(settings[i]) != SettingKey(settings[j]); }
    }
  }

  /** `setAdminSetting`: updates the row with `key` when one exists, inserts
      one otherwise. Afterwards exactly one row has the key, holding `value`,
      and every other row is as it was. */
  function SetAdminSetting(s: Store, key: string, value: string, now: Time): (r: (Store, AdminSetting))
    requires SettingsValid(s)
    ensures SettingsValid(r.0)
    ensures r.0 == s.(settings := r.0.settings, nextId := r.0.nextId)
    ensures r.1.key == key && r.1.value == value
    ensures GetAdminSetting(r.0.settings, key) == Some(r.1)
    ensures forall a :: a in s.settings && a.key != key ==> a in r.0.settings
    ensures forall a :: a in r.0.settings && a.key != key ==> a in s.settings
  {
    if GetAdminSetting(s.settings, key).Some? then
      var rows := SetValueWhere(s.settings, key, value, now);
      UpdatedSettingFound(s.settings, key, value, now);
      assert forall a :: a in rows && a.key != key ==> a in s.settings;
      assert forall a :: a in s.settings && a.key != key ==> a in rows;
      (s.(settings := rows), GetAdminSetting(rows, key).value)
    else
      var a := AdminSetting(s.nextId, key, value, now);
      InsertedSettingFound(s.settings, a);
      (s.(settings := s.settings + [a], nextId := s.nextId + 1), a)
  }
}
