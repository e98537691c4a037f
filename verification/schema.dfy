/**
 * The records of the Express server's database (users, memberships,
 * earnings, admin settings, payment QR codes), their column defaults, and
 * the constraints the database enforces on them (primary keys, `UNIQUE`,
 * `REFERENCES`, `varchar` lengths), gathered in the store invariant `Valid`.
 */
module Schema {
  import opened Wrappers
  import opened Folds

  /** Row identifier. The database draws uuids; the model draws them from a
      counter that only grows, which gives the same "never reused" guarantee. */
  type Id = nat

  /** A timestamp in milliseconds. */
  type Time = int

  const BasePrice: int := 5000
  const DiscountPrice: int := 2000
  const ReferralAmount: int := 2000

  /** `varchar(12)` on `referral_code` and `referred_by`. */
  const CodeLength: nat := 12
  /** `varchar(20)` on `memberships.status`. */
  const StatusLength: nat := 20

  const DayMs: int := 86400000

  /** A membership status. The column is free text: the handlers write
      "pending" and "active", the admin override writes any string. */
  datatype Status = Pending | Active | Expired | Rejected | Other(name: string)

  predicate IsKnownName(s: string) {
    s == "pending" || s == "active" || s == "expired" || s == "rejected"
  }

  /** A status value with one representation: `Other` never spells a known name. */
  predicate Canonical(st: Status) {
    st.Other? ==> !IsKnownName(st.name)
  }

  /** The text stored in the column. */
  function StatusName(st: Status): string {
    match st
    case Pending => "pending"
    case Active => "active"
    case Expired => "expired"
    case Rejected => "rejected"
    case Other(n) => n
  }

  /** Reads a stored status text back. */
  function ParseStatus(s: string): (r: Status)
    ensures StatusName(r) == s
    ensures Canonical(r)
  {
    if s == "pending" then Pending
    else if s == "active" then Active
    else if s == "expired" then Expired
    else if s == "rejected" then Rejected
    else Other(s)
  }

  /** Storing a canonical status and reading it back gives the same status;
      so comparing canonical statuses is comparing their texts. */
  lemma ParseStatusName(st: Status)
    requires Canonical(st)
    ensures ParseStatus(StatusName(st)) == st
  {
  }

  lemma StatusNameInjective(a: Status, b: Status)
    requires Canonical(a) && Canonical(b)
    ensures StatusName(a) == StatusName(b) <==> a == b
  {
    ParseStatusName(a);
    ParseStatusName(b);
  }

  datatype User = User(
    id: Id,
    username: string,
    email: Option<string>,
    phone: Option<string>,
    fullName: Option<string>,
    isAdmin: bool,
    isApproved: bool,
    referralCode: Option<string>,
    referredBy: Option<string>,
    createdAt: Time)

  datatype Membership = Membership(
    id: Id,
    userId: Id,
    status: Status,
    originalPrice: int,
    paidPrice: int,
    couponUsed: Option<string>,
    purchaseDate: Time)

  datatype Earning = Earning(
    id: Id,
    userId: Id,
    referredUserId: Id,
    amount: int,
    earnedAt: Time)

  datatype AdminSetting = AdminSetting(id: Id, key: string, value: string, updatedAt: Time)

  datatype PaymentQRCode = PaymentQRCode(
    id: Id,
    name: string,
    image: string,
    upiId: Option<string>,
    isActive: bool,
    createdAt: Time)

  /** Why a request is refused. `StorageFailure` is a database error
      (a violated constraint) that the handler answers with status 500. */
  datatype ApiError =
    | Unauthorized
    | Forbidden
    | MissingFields
    | UsernameExists
    | MembershipExists
    | MembershipNotFound
    | InvalidTransition
    | StorageFailure

  /** The database: one sequence per table in insertion order, and the id source. */
  datatype Store = Store(
    users: seq<User>,
    memberships: seq<Membership>,
    earnings: seq<Earning>,
    settings: seq<AdminSetting>,
    nextId: Id)

  /** A user row with the column defaults the schema declares:
      not an admin and not approved. */
  function NewUser(id: Id, username: string, email: Option<string>, phone: Option<string>,
                   fullName: Option<string>, referralCode: Option<string>,
                   referredBy: Option<string>, now: Time): User
  {
    User(id, username, email, phone, fullName, false, false, referralCode, referredBy, now)
  }

  /** A membership row with the column defaults: "pending" at the base price. */
  function NewMembership(id: Id, userId: Id, paidPrice: int, couponUsed: Option<string>, now: Time): Membership
  {
    Membership(id, userId, Pending, BasePrice, paidPrice, couponUsed, now)
  }

  /** An earning row with the column default amount. */
  function NewEarning(id: Id, userId: Id, referredUserId: Id, now: Time): Earning
  {
    Earning(id, userId, referredUserId, ReferralAmount, now)
  }

  /** A QR-code row with the column default: active. */
  function NewPaymentQRCode(id: Id, name: string, image: string, upiId: Option<string>, now: Time): PaymentQRCode
  {
    PaymentQRCode(id, name, image, upiId, true, now)
  }

  // Key functions used by the constraints and the queries.
  function UserId(u: User): Id { u.id }
  function Username(u: User): string { u.username }
  function MembershipId(m: Membership): Id { m.id }
  function EarningId(e: Earning): Id { e.id }
  function SettingKey(a: AdminSetting): string { a.key }

  predicate IsUser(users: seq<User>, id: Id) {
    exists i :: 0 <= i < |users| && users[i].id == id
  }

  /** `referral_code` is `UNIQUE`: no two users share a present code. */
  predicate UniqueReferralCodes(users: seq<User>) {
    forall i, j :: 0 <= i < j < |users| && users[i].referralCode.Some? ==>
      users[i].referralCode != users[j].referralCode
  }

  predicate FitsCode(c: Option<string>) {
    c.Some? ==> |c.value| <= CodeLength
  }

  predicate UsersValid(s: Store) {
    && (forall i :: 0 <= i < |s.users| ==> s.users[i].id < s.nextId)
    && DistinctBy(s.users, UserId)
    && DistinctBy(s.users, Username)
    && UniqueReferralCodes(s.users)
    && (forall i :: 0 <= i < |s.users| ==> FitsCode(s.users[i].referralCode) && FitsCode(s.users[i].referredBy))
  }

  predicate MembershipsValid(s: Store) {
    && (forall i :: 0 <= i < |s.memberships| ==> s.memberships[i].id < s.nextId)
    && DistinctBy(s.memberships, MembershipId)
    && (forall i :: 0 <= i < |s.memberships| ==> IsUser(s.users, s.memberships[i].userId))
    && (forall i :: 0 <= i < |s.memberships| ==>
          Canonical(s.memberships[i].status) && |StatusName(s.memberships[i].status)| <= StatusLength)
  }

  predicate EarningsValid(s: Store) {
    && (forall i :: 0 <= i < |s.earnings| ==> s.earnings[i].id < s.nextId)
    && DistinctBy(s.earnings, EarningId)
    && (forall i :: 0 <= i < |s.earnings| ==>
          IsUser(s.users, s.earnings[i].userId) && IsUser(s.users, s.earnings[i].referredUserId))
  }

  predicate SettingsValid(s: Store) {
    && (forall i :: 0 <= i < |s.settings| ==> s.settings[i].id < s.nextId)
    && DistinctBy(s.settings, SettingKey)
  }

  /** Every constraint the schema declares holds of the store. */
  predicate Valid(s: Store) {
    UsersValid(s) && MembershipsValid(s) && EarningsValid(s) && SettingsValid(s)
  }
}
