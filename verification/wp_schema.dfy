/**
 * The WordPress theme's data: users with their meta values, the
 * `ns_memberships`, `ns_earnings` and `ns_payment_qr_codes` tables, and the
 * helpers of the theme's `functions.php` that read or write user meta
 * (registration meta, approval and membership flags, the login redirect).
 */
module WpSchema {
  import opened Wrappers
  import opened Text
  import opened Folds
  import opened Schema

  const MetaReferralCode: string := "ns_referral_code"
  const MetaStatus: string := "ns_status"
  const MetaMembershipStatus: string := "ns_membership_status"
  const MetaReferredBy: string := "ns_referred_by"
  const MetaIsAdmin: string := "ns_is_admin"
  const MetaFirstName: string := "first_name"
  const MetaPhone: string := "ns_phone"

  /** A WordPress user: login, e-mail, roles, registration time, and the
      single-valued user meta the theme reads and writes. */
  datatype WpUser = WpUser(
    id: Id,
    login: string,
    email: string,
    roles: seq<string>,
    registered: Time,
    meta: map<string, string>)

  /** A row of `ns_memberships`; `amount` is in whole rupees. */
  datatype WpMembership = WpMembership(
    id: Id,
    userId: Id,
    amount: int,
    couponCode: string,
    paymentImage: string,
    status: string,
    createdAt: Time,
    approvedAt: Option<Time>)

  /** A row of `ns_earnings`. */
  datatype WpEarning = WpEarning(
    id: Id,
    userId: Id,
    referredUserId: Id,
    amount: int,
    status: string,
    createdAt: Time,
    paidAt: Option<Time>)

  /** A row of `ns_payment_qr_codes`. */
  datatype WpQRCode = WpQRCode(id: Id, image: string, upiId: Option<string>, isActive: bool, createdAt: Time)

  /** The site's database: users in registration order, the theme's tables
      in insertion order, and the `AUTO_INCREMENT` counter. */
  datatype WpStore = WpStore(
    users: seq<WpUser>,
    memberships: seq<WpMembership>,
    earnings: seq<WpEarning>,
    qrCodes: seq<WpQRCode>,
    nextId: Id)

  function WpUserId(u: WpUser): Id { u.id }
  function WpMembershipId(m: WpMembership): Id { m.id }
  function WpEarningId(e: WpEarning): Id { e.id }

  /** Primary keys are unique and below the counter; user ids start at 1, as
      WordPress's do. */
  predicate WpValid(s: WpStore) {
    && 0 < s.nextId
    && DistinctBy(s.users, WpUserId)
    && (forall i :: 0 <= i < |s.users| ==> 0 < s.users[i].id < s.nextId)
    && DistinctBy(s.memberships, WpMembershipId)
    && DistinctBy(s.earnings, WpEarningId)
    && (forall i :: 0 <= i < |s.memberships| ==> s.memberships[i].id < s.nextId)
    && (forall i :: 0 <= i < |s.earnings| ==> s.earnings[i].id < s.nextId)
  }

  /** `get_user_meta($id, $key, true)` on a user: the stored value, or the
      empty string when the key was never set. */
  function MetaValue(u: WpUser, key: string): (r: string)
    ensures key !in u.meta ==> r == ""
  {
    if key in u.meta then u.meta[key] else ""
  }

  function HasWpUserId(id: Id): WpUser -> bool { (u: WpUser) => u.id == id }

  /** `get_user_meta($user_id, $key, true)`: empty for an unknown user. */
  function UserMeta(s: WpStore, uid: Id, key: string): (r: string)
    ensures (forall i :: 0 <= i < |s.users| ==> s.users[i].id != uid) ==> r == ""
    ensures r != "" ==> exists i :: 0 <= i < |s.users| && s.users[i].id == uid && MetaValue(s.users[i], key) == r
  {
    match FindFirst(s.users, HasWpUserId(uid))
    case None => ""
    case Some(u) => MetaValue(u, key)
  }

  /** With unique ids, a user's meta is read from that user. */
  lemma UserMetaExact(s: WpStore, i: nat, key: string)
    requires DistinctBy(s.users, WpUserId) && i < |s.users|
    ensures UserMeta(s, s.users[i].id, key) == MetaValue(s.users[i], key)
  {
    var f := FindFirst(s.users, HasWpUserId(s.users[i].id));
    var k :| 0 <= k < |s.users| && s.users[k] == f.value && HasWpUserId(s.users[i].id)(s.users[k]);
  }

  /** `ns_is_user_approved`. */
  predicate IsUserApproved(s: WpStore, uid: Id) {
    UserMeta(s, uid, MetaStatus) == "approved"
  }

  /** `ns_has_active_membership`. */
  predicate HasActiveMembership(s: WpStore, uid: Id) {
    UserMeta(s, uid, MetaMembershipStatus) == "active"
  }

  predicate IsHexDigit(c: char) {
    ('0' <= c <= '9') || ('a' <= c <= 'f') || ('A' <= c <= 'F')
  }

  predicate IsUpperHexDigit(c: char) {
    ('0' <= c <= '9') || ('A' <= c <= 'F')
  }

  /** The referral code drawn at registration:
      `strtoupper(substr(md5($user_id . time()), 0, 8))`, where `md5Hex` is
      the digest text. */
  function RegistrationCode(md5Hex: string): (r: string)
    ensures |r| <= 8
    ensures NoLowerCase(r)
    ensures |md5Hex| >= 8 ==> |r| == 8
    ensures (forall i :: 0 <= i < |md5Hex| ==> IsHexDigit(md5Hex[i])) ==>
      forall i :: 0 <= i < |r| ==> IsUpperHexDigit(r[i])
  {
    Upper(Prefix(md5Hex, 8))
  }

  /** `narayane_sena_user_registration`: the meta a new user receives. */
  function RegistrationMeta(meta: map<string, string>, md5Hex: string): (r: map<string, string>)
    ensures MetaReferralCode in r && r[MetaReferralCode] == RegistrationCode(md5Hex)
    ensures MetaStatus in r && r[MetaStatus] == "pending"
    ensures MetaMembershipStatus in r && r[MetaMembershipStatus] == "inactive"
    ensures forall k :: k !in {MetaReferralCode, MetaStatus, MetaMembershipStatus} ==>
      (k in r <==> k in meta) && (k in meta ==> r[k] == meta[k])
  {
    meta[MetaReferralCode := RegistrationCode(md5Hex)][MetaStatus := "pending"][MetaMembershipStatus := "inactive"]
  }

  const AdminDashboardPath: string := "/admin-dashboard/"
  const UserDashboardPath: string := "/user-dashboard/"

  /** `narayane_sena_login_redirect`: `roles` is absent when the login did
      not produce a user (a failed login). */
  function LoginRedirect(redirectTo: string, roles: Option<seq<string>>, isAdminMeta: string): (r: string)
    ensures roles.None? ==> r == redirectTo
    ensures roles.Some? ==> r == AdminDashboardPath || r == UserDashboardPath
    ensures roles.Some? ==> (r == AdminDashboardPath <==> "administrator" in roles.value || !PhpEmpty(isAdminMeta))
  {
    if roles.None? then redirectTo
    else if "administrator" in roles.value || !PhpEmpty(isAdminMeta) then AdminDashboardPath
    else UserDashboardPath
  }
}
