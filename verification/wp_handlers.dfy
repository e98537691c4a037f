/**
 * The theme's state-changing entry points: the AJAX handlers for
 * registration, membership purchase, approval, rejection and marking an
 * earning paid, and the admin account created when the theme is activated.
 * A handler's `wp_send_json_error` ends the request, so an error leaves the
 * store as it was; the nonce check, the upload itself and the clock are
 * parameters or outside the model.
 */
module WpHandlers {
  import opened Wrappers
  import opened Text
  import opened Folds
  import opened Schema
  import opened Pricing
  import opened WpSchema
  import opened WpQueries

  /** The messages a handler can end with through `wp_send_json_error`. */
  datatype WpError =
    | AllFieldsRequired
    | UsernameTaken
    | EmailTaken
    | PleaseLogin
    | AlreadyActive
    | ScreenshotMissing
    | UploadFailed(message: string)
    | NotAuthorized
    | MembershipMissing
    | NotPending

  /** The role `wp_create_user` gives a new account (the site's default role). */
  const DefaultRole: string := "subscriber"

  /** The posted registration form, after sanitising. */
  datatype WpRegistration = WpRegistration(
    fullName: string,
    username: string,
    email: string,
    phone: string,
    password: string,
    referralCode: string)

  /** `username_exists`. */
  predicate LoginExists(s: WpStore, login: string) {
    exists i :: 0 <= i < |s.users| && s.users[i].login == login
  }

  /** `email_exists`. */
  predicate EmailExists(s: WpStore, email: string) {
    exists i :: 0 <= i < |s.users| && s.users[i].email == email
  }

  /** `ns_ajax_register_user`; `md5Hex` is the digest the `user_register`
      hook draws the referral code from. */
  function WpRegister(s: WpStore, req: WpRegistration, md5Hex: string, now: Time): (r: Result<(WpStore, WpUser), WpError>)
    ensures r == Err(AllFieldsRequired) <==> PhpEmpty(req.username) || PhpEmpty(req.email) || PhpEmpty(req.password)
    ensures r == Err(UsernameTaken) <==>
      !(PhpEmpty(req.username) || PhpEmpty(req.email) || PhpEmpty(req.password)) && LoginExists(s, req.username)
    ensures r == Err(EmailTaken) <==>
      && !(PhpEmpty(req.username) || PhpEmpty(req.email) || PhpEmpty(req.password))
      && !LoginExists(s, req.username) && EmailExists(s, req.email)
    ensures r.Err? ==> r.error in {AllFieldsRequired, UsernameTaken, EmailTaken}
    ensures r.Ok? ==>
      var (s', u) := r.value;
      && s' == s.(users := s.users + [u], nextId := s.nextId + 1)
      && u.id == s.nextId && u.login == req.username && u.email == req.email
      && u.roles == [DefaultRole] && u.registered == now
      && MetaValue(u, MetaFirstName) == req.fullName
      && MetaValue(u, MetaPhone) == req.phone
      && MetaValue(u, MetaReferredBy) == req.referralCode
      && MetaValue(u, MetaReferralCode) == RegistrationCode(md5Hex)
      && MetaValue(u, MetaStatus) == WpPending
      && MetaValue(u, MetaMembershipStatus) == WpInactive
      && MetaIsAdmin !in u.meta
  {
    if PhpEmpty(req.username) || PhpEmpty(req.email) || PhpEmpty(req.password) then Err(AllFieldsRequired)
    else if LoginExists(s, req.username) then Err(UsernameTaken)
    else if EmailExists(s, req.email) then Err(EmailTaken)
    else
      var meta := RegistrationMeta(map[], md5Hex)[MetaFirstName := req.fullName][MetaPhone := req.phone][MetaReferredBy := req.referralCode];
      var u := WpUser(s.nextId, req.username, req.email, [DefaultRole], now, meta);
      Ok((s.(users := s.users + [u], nextId := s.nextId + 1), u))
  }

  /** A registration keeps the keys unique. */
  lemma WpRegisterKeepsValid(s: WpStore, req: WpRegistration, md5Hex: string, now: Time)
    requires WpValid(s)
    ensures WpRegister(s, req, md5Hex, now).Ok? ==> WpValid(WpRegister(s, req, md5Hex, now).value.0)
  {
  }

  /** A new member is not approved, may buy a membership, carries the
      referrer code they typed (checked against nobody), and is sent to the
      member dashboard on login. */
  lemma NewMemberState(s: WpStore, req: WpRegistration, md5Hex: string, now: Time, redirectTo: string)
    requires WpValid(s)
    requires WpRegister(s, req, md5Hex, now).Ok?
    ensures var (s', u) := WpRegister(s, req, md5Hex, now).value;
      && !IsUserApproved(s', u.id)
      && CanPurchase(s', u.id)
      && UserMeta(s', u.id, MetaReferredBy) == req.referralCode
      && LoginRedirect(redirectTo, Some(u.roles), UserMeta(s', u.id, MetaIsAdmin)) == UserDashboardPath
  {
    var (s', u) := WpRegister(s, req, md5Hex, now).value;
    WpRegisterKeepsValid(s, req, md5Hex, now);
    assert s'.users[|s.users|] == u;
    UserMetaExact(s', |s.users|, MetaStatus);
    UserMetaExact(s', |s.users|, MetaMembershipStatus);
    UserMetaExact(s', |s.users|, MetaReferredBy);
    UserMetaExact(s', |s.users|, MetaIsAdmin);
  }

  /** What `wp_handle_upload` made of the posted screenshot. */
  datatype Upload = NoFile | UploadError(message: string) | Uploaded(url: string)

  /** `ns_ajax_purchase_membership`: `current` is the logged-in user, if any. */
  function WpPurchase(s: WpStore, current: Option<Id>, couponCode: string, upload: Upload, now: Time): (r: Result<(WpStore, WpMembership), WpError>)
    ensures r == Err(PleaseLogin) <==> current.None?
    ensures current.Some? ==> (r == Err(AlreadyActive) <==> HasActiveMembership(s, current.value))
    ensures current.Some? && !HasActiveMembership(s, current.value) ==>
      && (r.Ok? <==> upload.Uploaded?)
      && (upload.NoFile? ==> r == Err(ScreenshotMissing))
      && (upload.UploadError? ==> r == Err(UploadFailed(upload.message)))
    ensures r.Ok? ==>
      var (s', m) := r.value;
      && s' == s.(memberships := s.memberships + [m], nextId := s.nextId + 1)
      && m.id == s.nextId && m.userId == current.value
      && m.amount == PhpPrice(couponCode) && m.couponCode == couponCode
      && m.paymentImage == upload.url && m.status == WpPending
      && m.createdAt == now && m.approvedAt.None?
  {
    if current.None? then Err(PleaseLogin)
    else
      var uid := current.value;
      if HasActiveMembership(s, uid) then Err(AlreadyActive)
      else
        var amount := PhpPrice(couponCode);
        match upload
        case NoFile => Err(ScreenshotMissing)
        case UploadError(message) => Err(UploadFailed(message))
        case Uploaded(url) =>
          var m := WpMembership(s.nextId, uid, amount, couponCode, url, WpPending, now, None);
          Ok((s.(memberships := s.memberships + [m], nextId := s.nextId + 1), m))
  }

  /** The purchase page's `ns_can_purchase_membership` and the handler's
      guard agree: with a screenshot uploaded, a request is accepted exactly
      when the page offers the purchase. */
  lemma PurchaseGuardMatchesPage(s: WpStore, uid: Id, couponCode: string, url: string, now: Time)
    ensures WpPurchase(s, Some(uid), couponCode, Uploaded(url), now).Ok? <==> CanPurchase(s, uid)
  {
  }

  /** A purchase keeps the keys unique. */
  lemma WpPurchaseKeepsValid(s: WpStore, current: Option<Id>, couponCode: string, upload: Upload, now: Time)
    requires WpValid(s)
    ensures WpPurchase(s, current, couponCode, upload, now).Ok? ==> WpValid(WpPurchase(s, current, couponCode, upload, now).value.0)
  {
  }

  function MembershipOfWithStatus(uid: Id, status: string): WpMembership -> bool {
    (m: WpMembership) => m.userId == uid && m.status == status
  }

  /** Only an active membership blocks a purchase: while the first request
      waits for approval, a second one is accepted too, and the member then
      has two more pending requests. */
  lemma RepeatPurchaseAccepted(s: WpStore, uid: Id, c1: string, url1: string, c2: string, url2: string, now: Time, later: Time)
    requires CanPurchase(s, uid)
    ensures WpPurchase(s, Some(uid), c1, Uploaded(url1), now).Ok?
    ensures var s1 := WpPurchase(s, Some(uid), c1, Uploaded(url1), now).value.0;
      && WpPurchase(s1, Some(uid), c2, Uploaded(url2), later).Ok?
      && var s2 := WpPurchase(s1, Some(uid), c2, Uploaded(url2), later).value.0;
         CountWhere(s2.memberships, MembershipOfWithStatus(uid, WpPending)) ==
           CountWhere(s.memberships, MembershipOfWithStatus(uid, WpPending)) + 2
  {
    var (s1, m1) := WpPurchase(s, Some(uid), c1, Uploaded(url1), now).value;
    assert s1.users == s.users;
    assert UserMeta(s1, uid, MetaMembershipStatus) == UserMeta(s, uid, MetaMembershipStatus);
    var (s2, m2) := WpPurchase(s1, Some(uid), c2, Uploaded(url2), later).value;
    CountWhereAppend(s.memberships, [m1], MembershipOfWithStatus(uid, WpPending));
    CountWhereAppend(s1.memberships, [m2], MembershipOfWithStatus(uid, WpPending));
  }

  const AdminLogin: string := "admin"
  const AdminEmail: string := "admin@narayanesena.com"
  const AdministratorRole: string := "administrator"

  /** The admin account `narayane_sena_create_tables` creates when no user
      has the login "admin": an administrator flagged `ns_is_admin`, who also
      passes through the `user_register` hook. `md5Hex` is that hook's digest.
      When another user already holds the admin e-mail, `wp_create_user`
      refuses and the following `set_role` on no user aborts the activation,
      so nothing is created. */
  function WpCreateAdmin(s: WpStore, md5Hex: string, now: Time): (r: WpStore)
    ensures LoginExists(s, AdminLogin) || EmailExists(s, AdminEmail) ==> r == s
    ensures LoginExists(r, AdminLogin) <==> LoginExists(s, AdminLogin) || !EmailExists(s, AdminEmail)
    ensures !LoginExists(s, AdminLogin) && !EmailExists(s, AdminEmail) ==>
      && |r.users| == |s.users| + 1 && r.users[..|s.users|] == s.users
      && r.memberships == s.memberships && r.earnings == s.earnings && r.nextId == s.nextId + 1
      && var a := r.users[|s.users|];
         && a.id == s.nextId && a.login == AdminLogin && a.email == AdminEmail
         && a.roles == [AdministratorRole]
         && !PhpEmpty(MetaValue(a, MetaIsAdmin))
         && MetaValue(a, MetaReferralCode) == RegistrationCode(md5Hex)
  {
    if LoginExists(s, AdminLogin) || EmailExists(s, AdminEmail) then s
    else
      var meta := RegistrationMeta(map[], md5Hex)[MetaIsAdmin := "1"][MetaFirstName := "Admin"];
      var a := WpUser(s.nextId, AdminLogin, AdminEmail, [AdministratorRole], now, meta);
      var r := s.(users := s.users + [a], nextId := s.nextId + 1);
      assert r.users[|s.users|] == a;
      assert r.users[..|s.users|] == s.users;
      r
  }

  /** Activating the theme again creates no second admin, and the admin's
      login lands on the admin dashboard. */
  lemma WpCreateAdminOnce(s: WpStore, md5Hex: string, md5Later: string, now: Time, later: Time, redirectTo: string)
    requires WpValid(s)
    ensures WpCreateAdmin(WpCreateAdmin(s, md5Hex, now), md5Later, later) == WpCreateAdmin(s, md5Hex, now)
    ensures WpValid(WpCreateAdmin(s, md5Hex, now))
    ensures !LoginExists(s, AdminLogin) && !EmailExists(s, AdminEmail) ==>
      var r := WpCreateAdmin(s, md5Hex, now);
      var a := r.users[|s.users|];
      LoginRedirect(redirectTo, Some(a.roles), UserMeta(r, a.id, MetaIsAdmin)) == AdminDashboardPath
  {
  }

  function HasMembershipId(id: int): WpMembership -> bool {
    (m: WpMembership) => m.id == id
  }

  function HasEarningId(id: int): WpEarning -> bool {
    (e: WpEarning) => e.id == id
  }

  /** `SELECT * FROM ns_memberships WHERE id = %d`. */
  function MembershipById(s: WpStore, id: int): (r: Option<WpMembership>)
    ensures r.None? <==> forall i :: 0 <= i < |s.memberships| ==> s.memberships[i].id != id
    ensures r.Some? ==> r.value in s.memberships && r.value.id == id
  {
    FindFirst(s.memberships, HasMembershipId(id))
  }

  /** With unique ids, the lookup finds the row carrying the id. */
  lemma MembershipByIdExact(s: WpStore, i: nat)
    requires DistinctBy(s.memberships, WpMembershipId) && i < |s.memberships|
    ensures MembershipById(s, s.memberships[i].id) == Some(s.memberships[i])
  {
    var f := FindFirst(s.memberships, HasMembershipId(s.memberships[i].id));
    var k :| 0 <= k < |s.memberships| && s.memberships[k] == f.value && HasMembershipId(s.memberships[i].id)(s.memberships[k]);
  }

  /** The user whose `ns_referral_code` is the text `uid` registered with,
      when that text is not empty; the first such user in table order. */
  function WpReferrerOf(s: WpStore, uid: Id): (r: Option<WpUser>)
    ensures r.None? <==>
      PhpEmpty(UserMeta(s, uid, MetaReferredBy)) ||
      forall i :: 0 <= i < |s.users| ==> MetaValue(s.users[i], MetaReferralCode) != UserMeta(s, uid, MetaReferredBy)
    ensures r.Some? ==>
      && r.value in s.users
      && !PhpEmpty(UserMeta(s, uid, MetaReferredBy))
      && MetaValue(r.value, MetaReferralCode) == UserMeta(s, uid, MetaReferredBy)
  {
    var code := UserMeta(s, uid, MetaReferredBy);
    if PhpEmpty(code) then None
    else FindFirst(s.users, HasReferralCodeMeta(code))
  }

  function HasReferralCodeMeta(code: string): WpUser -> bool {
    (u: WpUser) => MetaValue(u, MetaReferralCode) == code
  }

  /** Whether an approval of a membership owned by `uid` pays a referrer:
      one is found and its id is truthy. */
  predicate PaysReferrer(s: WpStore, uid: Id) {
    WpReferrerOf(s, uid).Some? && WpReferrerOf(s, uid).value.id != 0
  }

  /** The earning an approval records for the referrer of `uid`. */
  function ReferralEarning(s: WpStore, uid: Id, now: Time): WpEarning
    requires PaysReferrer(s, uid)
  {
    WpEarning(s.nextId, WpReferrerOf(s, uid).value.id, uid, PhpReferralAmount(), WpPending, now, None)
  }

  function Activate(now: Time): WpMembership -> WpMembership {
    (m: WpMembership) => m.(status := WpActive, approvedAt := Some(now))
  }

  function ApproveMeta(): WpUser -> WpUser {
    (u: WpUser) => u.(meta := u.meta[MetaMembershipStatus := WpActive][MetaStatus := "approved"])
  }

  /** The membership and user-meta writes of an approval of membership `id`
      owned by `owner`. */
  predicate ApprovalWrites(s: WpStore, s': WpStore, id: int, owner: Id, now: Time) {
    && |s'.memberships| == |s.memberships|
    && (forall i :: 0 <= i < |s.memberships| && s.memberships[i].id == id ==>
          s'.memberships[i] == s.memberships[i].(status := WpActive, approvedAt := Some(now)))
    && (forall i :: 0 <= i < |s.memberships| && s.memberships[i].id != id ==>
          s'.memberships[i] == s.memberships[i])
    && |s'.users| == |s.users|
    && (forall i :: 0 <= i < |s.users| && s.users[i].id == owner ==>
          s'.users[i] == s.users[i].(meta := s.users[i].meta[MetaMembershipStatus := WpActive][MetaStatus := "approved"]))
    && (forall i :: 0 <= i < |s.users| && s.users[i].id != owner ==> s'.users[i] == s.users[i])
    && s'.qrCodes == s.qrCodes
  }

  /** The user-meta and membership updates of an approval. */
  function ApprovedRows(s: WpStore, id: int, owner: Id, now: Time): (r: WpStore)
    ensures r.earnings == s.earnings && r.nextId == s.nextId
    ensures ApprovalWrites(s, r, id, owner, now)
  {
    s.(memberships := MapWhere(s.memberships, HasMembershipId(id), Activate(now)),
       users := MapWhere(s.users, HasWpUserId(owner), ApproveMeta()))
  }

  /** `ns_ajax_approve_membership`: `isAdmin` is `current_user_can('administrator')`
      and `id` the posted id after `intval`. The referrer is looked up before
      the owner's meta is rewritten; the rewrite touches neither key involved. */
  function WpApprove(s: WpStore, isAdmin: bool, id: int, now: Time): (r: Result<WpStore, WpError>)
    ensures r == Err(NotAuthorized) <==> !isAdmin
    ensures r == Err(MembershipMissing) <==> isAdmin && MembershipById(s, id).None?
    ensures r.Ok? <==> isAdmin && MembershipById(s, id).Some?
    ensures r.Ok? ==>
      var owner := MembershipById(s, id).value.userId;
      && ApprovalWrites(s, r.value, id, owner, now)
      && (!PaysReferrer(s, owner) ==> r.value.earnings == s.earnings && r.value.nextId == s.nextId)
      && (PaysReferrer(s, owner) ==>
            && r.value.earnings == s.earnings + [ReferralEarning(s, owner, now)]
            && r.value.nextId == s.nextId + 1)
  {
    if !isAdmin then Err(NotAuthorized)
    else match MembershipById(s, id)
      case None => Err(MembershipMissing)
      case Some(m) =>
        var s1 := ApprovedRows(s, id, m.userId, now);
        if PaysReferrer(s, m.userId) then
          Ok(s1.(earnings := s.earnings + [ReferralEarning(s, m.userId, now)], nextId := s.nextId + 1))
        else
          Ok(s1)
  }

  /** An approval keeps the keys unique. */
  lemma WpApproveKeepsValid(s: WpStore, isAdmin: bool, id: int, now: Time)
    requires WpValid(s)
    ensures WpApprove(s, isAdmin, id, now).Ok? ==> WpValid(WpApprove(s, isAdmin, id, now).value)
  {
    var r := WpApprove(s, isAdmin, id, now);
    if r.Ok? {
      var owner := MembershipById(s, id).value.userId;
      ApprovalKeepsKeys(s, r.value, id, owner, now);
      KeysKept(s, r.value);
    }
  }

  /** A store whose rows keep their keys, and whose earnings at most gain one
      row keyed by the counter, stays valid. */
  lemma KeysKept(s: WpStore, s': WpStore)
    requires WpValid(s)
    requires |s'.users| == |s.users| && forall i :: 0 <= i < |s.users| ==> s'.users[i].id == s.users[i].id
    requires |s'.memberships| == |s.memberships| &&
      forall i :: 0 <= i < |s.memberships| ==> s'.memberships[i].id == s.memberships[i].id
    requires || (s'.earnings == s.earnings && s'.nextId == s.nextId)
             || (&& |s'.earnings| == |s.earnings| + 1 && s'.earnings[..|s.earnings|] == s.earnings
                 && s'.earnings[|s.earnings|].id == s.nextId && s'.nextId == s.nextId + 1)
    ensures WpValid(s')
  {
    if s'.earnings != s.earnings {
      assert forall i :: 0 <= i < |s.earnings| ==> s'.earnings[i] == s.earnings[i];
    }
  }

  /** The approval writes change no key. */
  lemma ApprovalKeepsKeys(s: WpStore, s': WpStore, id: int, owner: Id, now: Time)
    requires ApprovalWrites(s, s', id, owner, now)
    ensures forall i :: 0 <= i < |s.users| ==> s'.users[i].id == s.users[i].id
    ensures forall i :: 0 <= i < |s.memberships| ==> s'.memberships[i].id == s.memberships[i].id
  {
    forall i | 0 <= i < |s.users| ensures s'.users[i].id == s.users[i].id {
      if s.users[i].id == owner {
        assert s'.users[i] == s.users[i].(meta := s.users[i].meta[MetaMembershipStatus := WpActive][MetaStatus := "approved"]);
      }
    }
  }

  /** After an approval the owner, when still a user, is approved, holds an
      active membership, and is no longer offered a purchase. */
  lemma WpApproveActivates(s: WpStore, id: int, now: Time, k: nat)
    requires WpValid(s)
    requires WpApprove(s, true, id, now).Ok?
    requires k < |s.users| && s.users[k].id == MembershipById(s, id).value.userId
    ensures var s' := WpApprove(s, true, id, now).value;
      && IsUserApproved(s', s.users[k].id)
      && HasActiveMembership(s', s.users[k].id)
      && !CanPurchase(s', s.users[k].id)
  {
    var s' := WpApprove(s, true, id, now).value;
    WpApproveKeepsValid(s, true, id, now);
    UserMetaExact(s', k, MetaStatus);
    UserMetaExact(s', k, MetaMembershipStatus);
  }

  /** Approving a pending request moves it from the pending to the active
      count of the platform statistics and adds its fee to the revenue. */
  lemma WpApproveMovesPendingToActive(s: WpStore, i: nat, now: Time)
    requires WpValid(s)
    requires i < |s.memberships| && s.memberships[i].status == WpPending
    ensures var stats := WpPlatformStats(s);
      var stats' := WpPlatformStats(WpApprove(s, true, s.memberships[i].id, now).value);
      && stats'.activeMemberships == stats.activeMemberships + 1
      && stats'.pendingMemberships == stats.pendingMemberships - 1
      && stats'.totalRevenue == stats.totalRevenue + s.memberships[i].amount
  {
    var id := s.memberships[i].id;
    MembershipByIdExact(s, i);
    var ms' := WpApprove(s, true, id, now).value.memberships;
    var x := Activate(now)(s.memberships[i]);
    MapWhereSingle(s.memberships, HasMembershipId(id), Activate(now), i);
    assert ms' == s.memberships[i := x];
    CountWhereUpdate(s.memberships, i, x, MembershipWithStatus(WpActive));
    CountWhereUpdate(s.memberships, i, x, MembershipWithStatus(WpPending));
    SumWhereUpdate(s.memberships, i, x, MembershipWithStatus(WpActive), PaidFee);
  }

  /** An approval that pays credits the referrer 2000 more pending rupees and
      one more referral; one that does not pay changes no member's totals. */
  lemma WpApproveCreditsReferrer(s: WpStore, id: int, now: Time, uid: Id)
    requires WpApprove(s, true, id, now).Ok?
    ensures var owner := MembershipById(s, id).value.userId;
      var es' := WpApprove(s, true, id, now).value.earnings;
      && (PaysReferrer(s, owner) && uid == WpReferrerOf(s, owner).value.id ==>
            && PendingTotal(es', uid) == PendingTotal(s.earnings, uid) + ReferralAmount
            && ReferralCount(es', uid) == ReferralCount(s.earnings, uid) + 1
            && PaidTotal(es', uid) == PaidTotal(s.earnings, uid))
      && (!PaysReferrer(s, owner) ==>
            && PendingTotal(es', uid) == PendingTotal(s.earnings, uid)
            && ReferralCount(es', uid) == ReferralCount(s.earnings, uid))
  {
    var owner := MembershipById(s, id).value.userId;
    if PaysReferrer(s, owner) {
      var e := ReferralEarning(s, owner, now);
      SumWhereAppend(s.earnings, [e], EarningOfWithStatus(uid, WpPending), WpAmount);
      SumWhereAppend(s.earnings, [e], EarningOfWithStatus(uid, WpPaid), WpAmount);
      CountWhereAppend(s.earnings, [e], EarningOf(uid));
    }
  }

  /** `ns_ajax_reject_membership`: the rows with the id become "rejected";
      an id that matches no row still reports success. */
  function WpReject(s: WpStore, isAdmin: bool, id: int): (r: Result<WpStore, WpError>)
    ensures r.Err? <==> !isAdmin
    ensures r.Err? ==> r.error == NotAuthorized
    ensures r.Ok? ==>
      && r.value.users == s.users && r.value.earnings == s.earnings
      && r.value.qrCodes == s.qrCodes && r.value.nextId == s.nextId
      && |r.value.memberships| == |s.memberships|
      && (forall i :: 0 <= i < |s.memberships| && s.memberships[i].id == id ==>
            r.value.memberships[i] == s.memberships[i].(status := WpRejected))
      && (forall i :: 0 <= i < |s.memberships| && s.memberships[i].id != id ==>
            r.value.memberships[i] == s.memberships[i])
  {
    if !isAdmin then Err(NotAuthorized)
    else Ok(s.(memberships := MapWhere(s.memberships, HasMembershipId(id), (m: WpMembership) => m.(status := WpRejected))))
  }

  /** Rejecting twice is rejecting once. */
  lemma WpRejectIdempotent(s: WpStore, id: int)
    ensures WpReject(WpReject(s, true, id).value, true, id) == WpReject(s, true, id)
  {
    var s1 := WpReject(s, true, id).value;
    var s2 := WpReject(s1, true, id).value;
    assert forall i :: 0 <= i < |s1.memberships| ==> s2.memberships[i] == s1.memberships[i];
    assert s2.memberships == s1.memberships;
  }

  /** Rejecting a membership after approving it marks the row "rejected" but
      leaves the owner's meta as the approval wrote it: the member still
      counts as holding an active membership and cannot buy another one. */
  lemma RejectAfterApproveKeepsAccess(s: WpStore, i: nat, now: Time, k: nat)
    requires WpValid(s)
    requires i < |s.memberships|
    requires k < |s.users| && s.users[k].id == s.memberships[i].userId
    ensures WpApprove(s, true, s.memberships[i].id, now).Ok?
    ensures var s1 := WpApprove(s, true, s.memberships[i].id, now).value;
      var s2 := WpReject(s1, true, s.memberships[i].id).value;
      && s2.memberships[i].status == WpRejected
      && HasActiveMembership(s2, s.users[k].id)
      && !CanPurchase(s2, s.users[k].id)
  {
    var id := s.memberships[i].id;
    MembershipByIdExact(s, i);
    WpApproveActivates(s, id, now, k);
  }

  /** `ns_ajax_mark_earning_paid`: the rows with the id become "paid" at `now`;
      an id that matches no row still reports success. */
  function WpMarkPaid(s: WpStore, isAdmin: bool, id: int, now: Time): (r: Result<WpStore, WpError>)
    ensures r.Err? <==> !isAdmin
    ensures r.Err? ==> r.error == NotAuthorized
    ensures r.Ok? ==>
      && r.value.users == s.users && r.value.memberships == s.memberships
      && r.value.qrCodes == s.qrCodes && r.value.nextId == s.nextId
      && |r.value.earnings| == |s.earnings|
      && (forall i :: 0 <= i < |s.earnings| && s.earnings[i].id == id ==>
            r.value.earnings[i] == s.earnings[i].(status := WpPaid, paidAt := Some(now)))
      && (forall i :: 0 <= i < |s.earnings| && s.earnings[i].id != id ==>
            r.value.earnings[i] == s.earnings[i])
  {
    if !isAdmin then Err(NotAuthorized)
    else Ok(s.(earnings := MapWhere(s.earnings, HasEarningId(id), (e: WpEarning) => e.(status := WpPaid, paidAt := Some(now)))))
  }

  /** Paying a pending earning moves its amount from the member's pending
      total to their paid total, and from the platform's pending figure to
      its paid figure; the member's referral count and every other member's
      totals stay as they were. */
  lemma WpMarkPaidMovesAmount(s: WpStore, i: nat, now: Time, uid: Id)
    requires WpValid(s)
    requires i < |s.earnings| && s.earnings[i].status == WpPending
    ensures var es := s.earnings;
      var s' := WpMarkPaid(s, true, es[i].id, now).value;
      && (uid == es[i].userId ==>
            && PaidTotal(s'.earnings, uid) == PaidTotal(es, uid) + es[i].amount
            && PendingTotal(s'.earnings, uid) == PendingTotal(es, uid) - es[i].amount)
      && (uid != es[i].userId ==>
            && PaidTotal(s'.earnings, uid) == PaidTotal(es, uid)
            && PendingTotal(s'.earnings, uid) == PendingTotal(es, uid))
      && ReferralCount(s'.earnings, uid) == ReferralCount(es, uid)
      && WpPlatformStats(s').pendingEarnings == WpPlatformStats(s).pendingEarnings - es[i].amount
      && WpPlatformStats(s').totalPaidEarnings == WpPlatformStats(s).totalPaidEarnings + es[i].amount
  {
    var es := s.earnings;
    var id := es[i].id;
    var pay := (e: WpEarning) => e.(status := WpPaid, paidAt := Some(now));
    var x := pay(es[i]);
    MapWhereSingle(es, HasEarningId(id), pay, i);
    assert WpMarkPaid(s, true, id, now).value.earnings == es[i := x];
    SumWhereUpdate(es, i, x, EarningOfWithStatus(uid, WpPaid), WpAmount);
    SumWhereUpdate(es, i, x, EarningOfWithStatus(uid, WpPending), WpAmount);
    CountWhereUpdate(es, i, x, EarningOf(uid));
    SumWhereUpdate(es, i, x, EarningWithStatus(WpPending), WpAmount);
    SumWhereUpdate(es, i, x, EarningWithStatus(WpPaid), WpAmount);
  }

  /** The approval's meta rewrite changes neither the code a member
      registered with nor which user a referral code resolves to. */
  lemma ApprovalKeepsReferrer(s: WpStore, id: int, owner: Id, now: Time, uid: Id)
    ensures PaysReferrer(ApprovedRows(s, id, owner, now), uid) == PaysReferrer(s, uid)
    ensures PaysReferrer(s, uid) ==>
      WpReferrerOf(ApprovedRows(s, id, owner, now), uid).value.id == WpReferrerOf(s, uid).value.id
  {
    var s1 := ApprovedRows(s, id, owner, now);
    ApprovalKeepsReferredBy(s, id, owner, now, uid);
    var code := UserMeta(s, uid, MetaReferredBy);
    ApprovalKeepsCodeOwner(s, id, owner, now, code);
  }

  lemma ApprovalKeepsReferredBy(s: WpStore, id: int, owner: Id, now: Time, uid: Id)
    ensures UserMeta(ApprovedRows(s, id, owner, now), uid, MetaReferredBy) == UserMeta(s, uid, MetaReferredBy)
  {
    FindFirstMapped(s.users, HasWpUserId(owner), ApproveMeta(), HasWpUserId(uid));
  }

  lemma ApprovalKeepsCodeOwner(s: WpStore, id: int, owner: Id, now: Time, code: string)
    ensures var users' := ApprovedRows(s, id, owner, now).users;
      && (FindFirst(users', HasReferralCodeMeta(code)).None? <==> FindFirst(s.users, HasReferralCodeMeta(code)).None?)
      && (FindFirst(s.users, HasReferralCodeMeta(code)).Some? ==>
            FindFirst(users', HasReferralCodeMeta(code)).value.id == FindFirst(s.users, HasReferralCodeMeta(code)).value.id)
  {
    FindFirstMapped(s.users, HasWpUserId(owner), ApproveMeta(), HasReferralCodeMeta(code));
  }

  function ReferredUserOf(e: WpEarning): Id { e.referredUserId }

  function ReferredIs(uid: Id): WpEarning -> bool {
    (e: WpEarning) => e.referredUserId == uid
  }

  /** As written, approving the same request twice pays its referrer twice:
      the handler checks neither the row's status nor the earnings already
      recorded for the referred member. */
  lemma WpApproveTwicePaysTwice(s: WpStore, i: nat, now: Time, later: Time)
    requires WpValid(s)
    requires i < |s.memberships| && PaysReferrer(s, s.memberships[i].userId)
    ensures WpApprove(s, true, s.memberships[i].id, now).Ok?
    ensures var s1 := WpApprove(s, true, s.memberships[i].id, now).value;
      && WpApprove(s1, true, s.memberships[i].id, later).Ok?
      && var s2 := WpApprove(s1, true, s.memberships[i].id, later).value;
         && CountWhere(s2.earnings, ReferredIs(s.memberships[i].userId)) ==
              CountWhere(s.earnings, ReferredIs(s.memberships[i].userId)) + 2
         && !DistinctBy(s2.earnings, ReferredUserOf)
  {
    var id := s.memberships[i].id;
    var owner := s.memberships[i].userId;
    MembershipByIdExact(s, i);
    var s1 := WpApprove(s, true, id, now).value;
    WpApproveKeepsValid(s, true, id, now);
    MembershipByIdExact(s1, i);
    ApprovalKeepsReferrer(s, id, owner, now, owner);
    var s2 := WpApprove(s1, true, id, later).value;
    var e1 := ReferralEarning(s, owner, now);
    var e2 := ReferralEarning(s1, owner, later);
    assert s2.earnings == s.earnings + [e1] + [e2];
    CountWhereAppend(s.earnings, [e1], ReferredIs(owner));
    CountWhereAppend(s.earnings + [e1], [e2], ReferredIs(owner));
    assert ReferredUserOf(s2.earnings[|s.earnings|]) == ReferredUserOf(s2.earnings[|s.earnings| + 1]);
  }

  /** Whether the referred member `uid` has already earned their referrer a payout. */
  predicate WpPaidFor(es: seq<WpEarning>, uid: Id) {
    exists i :: 0 <= i < |es| && es[i].referredUserId == uid
  }

  /** The approval as evidently intended: only a pending request can be
      approved, and a referred member earns their referrer one payout. */
  function WpApproveOnce(s: WpStore, isAdmin: bool, id: int, now: Time): (r: Result<WpStore, WpError>)
    ensures r == Err(NotAuthorized) <==> !isAdmin
    ensures r == Err(MembershipMissing) <==> isAdmin && MembershipById(s, id).None?
    ensures r == Err(NotPending) <==>
      isAdmin && MembershipById(s, id).Some? && MembershipById(s, id).value.status != WpPending
    ensures r.Ok? ==>
      var owner := MembershipById(s, id).value.userId;
      var pays := PaysReferrer(s, owner) && !WpPaidFor(s.earnings, owner);
      && ApprovalWrites(s, r.value, id, owner, now)
      && (!pays ==> r.value.earnings == s.earnings && r.value.nextId == s.nextId)
      && (pays ==>
            && r.value.earnings == s.earnings + [ReferralEarning(s, owner, now)]
            && r.value.nextId == s.nextId + 1)
  {
    if !isAdmin then Err(NotAuthorized)
    else match MembershipById(s, id)
      case None => Err(MembershipMissing)
      case Some(m) =>
        if m.status != WpPending then Err(NotPending)
        else
          var s1 := ApprovedRows(s, id, m.userId, now);
          if PaysReferrer(s, m.userId) && !WpPaidFor(s.earnings, m.userId) then
            Ok(s1.(earnings := s.earnings + [ReferralEarning(s, m.userId, now)], nextId := s.nextId + 1))
          else
            Ok(s1)
  }

  /** The corrected approval keeps at most one earning per referred member. */
  lemma WpApproveOnceKeepsOnePayout(s: WpStore, isAdmin: bool, id: int, now: Time)
    requires DistinctBy(s.earnings, ReferredUserOf)
    ensures WpApproveOnce(s, isAdmin, id, now).Ok? ==> DistinctBy(WpApproveOnce(s, isAdmin, id, now).value.earnings, ReferredUserOf)
  {
    var r := WpApproveOnce(s, isAdmin, id, now);
    if r.Ok? && r.value.earnings != s.earnings {
      var owner := MembershipById(s, id).value.userId;
      var es := r.value.earnings;
      assert es == s.earnings + [ReferralEarning(s, owner, now)];
      forall i, j | 0 <= i < j < |es| ensures ReferredUserOf(es[i]) != ReferredUserOf(es[j]) {
        if j == |s.earnings| {
          assert es[i] == s.earnings[i];
          assert s.earnings[i].referredUserId != owner;
        }
      }
    }
  }

  /** A second approval of the same request is refused. */
  lemma WpApproveOnceRefusesRepeat(s: WpStore, i: nat, now: Time, later: Time)
    requires WpValid(s)
    requires i < |s.memberships| && s.memberships[i].status == WpPending
    ensures WpApproveOnce(s, true, s.memberships[i].id, now).Ok?
    ensures WpApproveOnce(WpApproveOnce(s, true, s.memberships[i].id, now).value, true, s.memberships[i].id, later) == Err(NotPending)
  {
    var id := s.memberships[i].id;
    MembershipByIdExact(s, i);
    var s1 := WpApproveOnce(s, true, id, now).value;
    var owner := s.memberships[i].userId;
    ApprovalKeepsKeys(s, s1, id, owner, now);
    assert DistinctBy(s1.memberships, WpMembershipId);
    MembershipByIdExact(s1, i);
  }

  /** On a first approval of a pending request the corrected handler does
      exactly what the handler as written does. */
  lemma WpApproveOnceAgreesOnFirst(s: WpStore, isAdmin: bool, id: int, now: Time)
    requires MembershipById(s, id).Some? && MembershipById(s, id).value.status == WpPending
    requires !WpPaidFor(s.earnings, MembershipById(s, id).value.userId)
    ensures WpApproveOnce(s, isAdmin, id, now) == WpApprove(s, isAdmin, id, now)
  {
  }
}
