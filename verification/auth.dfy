/**
 * The server's identity rules: the two request guards over a session,
 * registration (validation, the duplicate-username check, the generated
 * referral code, the stored referrer code) and the admin bootstrap.
 * Password hashing and the session store itself are not modelled: a session
 * is the pair of values the login stores in it.
 */
module Auth {
  import opened Wrappers
  import opened Text
  import opened Folds
  import opened Schema
  import opened Storage

  /** What a request's session carries. */
  datatype Session = Session(userId: Option<Id>, isAdmin: bool)

  /** `isAuthenticated`: the session has a user id. */
  predicate IsAuthenticated(s: Session) {
    s.userId.Some?
  }

  /** `isAdmin`: the session has a user id and the admin flag. */
  predicate IsAdmin(s: Session) {
    s.userId.Some? && s.isAdmin
  }

  /** Every request the admin guard lets through, the user guard lets through too. */
  lemma AdminGuardImpliesUserGuard(s: Session)
    ensures IsAdmin(s) ==> IsAuthenticated(s)
    ensures IsAuthenticated(s) && s.isAdmin ==> IsAdmin(s)
  {
  }

  /** A request-body field is JavaScript-truthy: present and not empty. */
  predicate Truthy(field: Option<string>) {
    field.Some? && field.value != ""
  }

  /** The referral code drawn at registration:
      `Math.random().toString(36).substring(2, 14).toUpperCase()`, where
      `randomText` is the `toString(36)` text, "0." followed by base-36 digits. */
  function GeneratedReferralCode(randomText: string): (r: string)
    ensures |r| <= CodeLength
    ensures NoLowerCase(r)
    ensures |randomText| >= 2 + CodeLength ==> |r| == CodeLength
  {
    var digits := if |randomText| <= 2 then "" else randomText[2..];
    Upper(Prefix(digits, CodeLength))
  }

  /** The body of a registration request; every field may be missing. */
  datatype RegisterRequest = RegisterRequest(
    username: Option<string>,
    password: Option<string>,
    email: Option<string>,
    phone: Option<string>,
    fullName: Option<string>,
    referralCode: Option<string>)

  /** The referrer code a registration stores: the code given, or none when it
      is missing or empty. It is not checked against existing codes. */
  function ReferredByOf(req: RegisterRequest): (r: Option<string>)
    ensures r.Some? <==> Truthy(req.referralCode)
    ensures r.Some? ==> r == req.referralCode
  {
    if Truthy(req.referralCode) then req.referralCode else None
  }

  /** `POST /api/auth/register`. */
  function Register(s: Store, req: RegisterRequest, randomText: string, now: Time): (r: Result<(Store, User), ApiError>)
    ensures r.Err? && r.error == MissingFields <==>
      !(Truthy(req.username) && Truthy(req.password) && Truthy(req.email) && Truthy(req.phone))
    ensures r.Err? && r.error == UsernameExists <==>
      && Truthy(req.username) && Truthy(req.password) && Truthy(req.email) && Truthy(req.phone)
      && GetUserByUsername(s, req.username.value).Some?
    ensures r.Err? ==> r.error in {MissingFields, UsernameExists, StorageFailure}
    ensures r == Err(StorageFailure) <==>
      && Truthy(req.username) && Truthy(req.password) && Truthy(req.email) && Truthy(req.phone)
      && GetUserByUsername(s, req.username.value).None?
      && (GetUserByReferralCode(s.users, GeneratedReferralCode(randomText)).Some? || !FitsCode(ReferredByOf(req)))
    ensures r.Ok? ==>
      var (s', u) := r.value;
      && s' == s.(users := s.users + [u], nextId := s.nextId + 1)
      && u.id == s.nextId && u.createdAt == now
      && Some(u.username) == req.username
      && u.email == req.email && u.phone == req.phone
      && u.fullName == (if Truthy(req.fullName) then req.fullName else None)
      && !u.isAdmin && !u.isApproved
      && u.referralCode == Some(GeneratedReferralCode(randomText))
      && u.referredBy == ReferredByOf(req)
  {
    if !(Truthy(req.username) && Truthy(req.password) && Truthy(req.email) && Truthy(req.phone)) then
      Err(MissingFields)
    else if GetUserByUsername(s, req.username.value).Some? then
      Err(UsernameExists)
    else
      CreateUser(s, req.username.value, req.email, req.phone,
                 if Truthy(req.fullName) then req.fullName else None,
                 false, false, Some(GeneratedReferralCode(randomText)), ReferredByOf(req), now)
  }

  /** A registration that succeeds keeps every schema constraint; one that
      fails because the stored referrer code is too long for its column is
      refused by the database. */
  lemma RegisterKeepsValid(s: Store, req: RegisterRequest, randomText: string, now: Time)
    requires Valid(s)
    ensures Register(s, req, randomText, now).Ok? ==> Valid(Register(s, req, randomText, now).value.0)
    ensures req.referralCode.Some? && |req.referralCode.value| > CodeLength ==>
              Register(s, req, randomText, now).Err?
  {
    if Register(s, req, randomText, now).Ok? {
      CreateUserKeepsValid(s, req.username.value, req.email, req.phone,
                           if Truthy(req.fullName) then req.fullName else None,
                           false, false, Some(GeneratedReferralCode(randomText)), ReferredByOf(req), now);
    }
  }

  const AdminUsername: string := "admin"
  const AdminReferralCode: string := "ADMIN"

  /** `initializeAdmin`: creates the "admin" user, an approved administrator
      with referral code "ADMIN", unless a user of that name exists. A
      database refusal is logged and leaves the store as it was. */
  function InitializeAdmin(s: Store, now: Time): (r: Store)
    ensures GetUserByUsername(s, AdminUsername).Some? ==> r == s
    ensures GetUserByUsername(r, AdminUsername).Some? || r == s
    ensures r != s ==>
      && GetUserByUsername(s, AdminUsername).None?
      && |r.users| == |s.users| + 1 && r.users[..|s.users|] == s.users
      && var a := r.users[|s.users|];
         a.username == AdminUsername && a.isAdmin && a.isApproved
         && a.referralCode == Some(AdminReferralCode) && a.referredBy.None?
    ensures r != s ==> r == s.(users := r.users, nextId := s.nextId + 1)
  {
    if GetUserByUsername(s, AdminUsername).Some? then s
    else
      match CreateUser(s, AdminUsername, Some("admin@narayanesena.com"), Some("+919999999999"),
                       Some("Administrator"), true, true, Some(AdminReferralCode), None, now)
      case Ok((s', a)) =>
        assert s'.users[|s.users|] == a;
        assert s'.users[..|s.users|] == s.users;
        assert GetUserByUsername(s', AdminUsername).Some?;
        s'
      case Err(_) => s
  }

  /** Running the bootstrap again changes nothing. */
  lemma InitializeAdminIdempotent(s: Store, now: Time, later: Time)
    ensures InitializeAdmin(InitializeAdmin(s, now), later) == InitializeAdmin(s, now)
  {
  }

  /** On a store meeting the schema, the bootstrap leaves exactly one user
      named "admin" unless the code "ADMIN" is already someone else's. */
  lemma InitializeAdminYieldsOneAdmin(s: Store, now: Time)
    requires Valid(s)
    requires GetUserByReferralCode(s.users, AdminReferralCode).None?
    ensures Valid(InitializeAdmin(s, now))
    ensures CountWhere(InitializeAdmin(s, now).users, HasUsername(AdminUsername)) == 1
  {
    var r := InitializeAdmin(s, now);
    if GetUserByUsername(s, AdminUsername).None? {
      CreateUserKeepsValid(s, AdminUsername, Some("admin@narayanesena.com"), Some("+919999999999"),
                           Some("Administrator"), true, true, Some(AdminReferralCode), None, now);
    }
    UniqueNameCountsOnce(r.users, AdminUsername);
  }

  /** With unique usernames, a present name is counted once. */
  lemma {:induction false} UniqueNameCountsOnce(users: seq<User>, name: string)
    requires DistinctBy(users, Username)
    requires exists i :: 0 <= i < |users| && users[i].username == name
    ensures CountWhere(users, HasUsername(name)) == 1
    decreases |users|
  {
    var rest := users[1..];
    assert DistinctBy(rest, Username) by {
      forall i, j | 0 <= i < j < |rest| ensures Username(rest[i]) != Username(rest[j]) {
        assert Username(users[i + 1]) != Username(users[j + 1]);
      }
    }
    if users[0].username == name {
      forall i | 0 <= i < |rest| ensures !HasUsername(name)(rest[i]) {
        assert Username(users[0]) != Username(users[i + 1]);
      }
      CountNoneIsZero(rest, HasUsername(name));
    } else {
      var k :| 0 <= k < |users| && users[k].username == name;
      assert rest[k - 1].username == name;
      UniqueNameCountsOnce(rest, name);
    }
  }

  lemma {:induction false} CountNoneIsZero<T>(s: seq<T>, p: T -> bool)
    requires forall i :: 0 <= i < |s| ==> !p(s[i])
    ensures CountWhere(s, p) == 0
    decreases |s|
  {
    if |s| > 0 {
      assert forall i :: 0 <= i < |s[1..]| ==> s[1..][i] == s[i + 1];
      CountNoneIsZero(s[1..], p);
    }
  }
}
