/**
 * `UserController` (and `AuthController`, whose `CreateUserAC` is the same
 * code): creating a user account, listing accounts with their profiles, and
 * fetching one.
 */
module UserController {
  import opened Wrappers
  import opened Text
  import opened Rows
  import opened Accounts

  const NameRequired := "Name is required."
  const EmailRequired := "Email is required."
  const PasswordRequired := "Password is required."
  const EmailExists := "A user with this email already exists."

  /** The dictionary `CreateUserAC` returns. */
  datatype CreateUserResult = CreateUserResult(ok: bool, errors: seq<string>, userId: Option<int>)

  /** `(email or "").strip().lower()`. */
  function NormalizeEmail(email: Option<string>): string
  {
    Lower(Strip(GetOr(email, "")))
  }

  /** `(name or "").strip()`. */
  function NormalizeName(name: Option<string>): string
  {
    Strip(GetOr(name, ""))
  }

  /** Normalising an already normalised address changes nothing, so `find_by_email` looks up the same key. */
  lemma NormalizeEmailIdempotent(email: Option<string>)
    ensures Lower(Strip(NormalizeEmail(email))) == NormalizeEmail(email)
  {
    var s := Strip(GetOr(email, ""));
    StripLower(s);
    StripIdempotent(GetOr(email, ""));
    LowerIdempotent(s);
  }

  /** The validation messages, in the order they are appended. */
  function RequiredErrors(name: string, email: string, password: Option<string>): (r: seq<string>)
    ensures r == [] <==> name != "" && email != "" && Truthy(password)
    ensures |r| <= 3
  {
    (if name == "" then [NameRequired] else []) +
    (if email == "" then [EmailRequired] else []) +
    (if !Truthy(password) then [PasswordRequired] else [])
  }

  /** Each message is reported exactly when its field is missing. */
  lemma RequiredErrorsReportMissing(name: string, email: string, password: Option<string>)
    ensures (NameRequired in RequiredErrors(name, email, password)) <==> name == ""
    ensures (EmailRequired in RequiredErrors(name, email, password)) <==> email == ""
    ensures (PasswordRequired in RequiredErrors(name, email, password)) <==> !Truthy(password)
  {
  }

  /** How a failed insert is reported: a unique-email violation reads as the duplicate message. */
  function InsertError(msg: string): (r: string)
    ensures IsSubstring("UNIQUE", msg) && IsSubstring("users.email", msg) ==> r == EmailExists
    ensures !(IsSubstring("UNIQUE", msg) && IsSubstring("users.email", msg)) ==> r == "Database error: " + msg
  {
    if IsSubstring("UNIQUE", msg) && IsSubstring("users.email", msg) then EmailExists
    else "Database error: " + msg
  }

  /** The row a successful `CreateUserAC` inserts. */
  function NewUser(users: seq<UserAccount>, name: string, email: string, password: string,
                   profileId: int, isSuspended: int, hash: string -> string): (u: UserAccount)
    ensures forall j :: 0 <= j < |users| ==> users[j].id < u.id
    ensures u.name == name && u.email == email && u.passwordHash == hash(password)
    ensures u.profileId == profileId && u.isSuspended == (isSuspended != 0)
  {
    UserAccount(NextId(users, UserId), name, email, hash(password), profileId, isSuspended != 0)
  }

  /**
   * The validation block of `CreateUserAC`: the normalised name and e-mail
   * and the messages for the missing fields, appended one by one.
   */
  method Validate(name: Option<string>, email: Option<string>, password: Option<string>)
    returns (n: string, e: string, errors: seq<string>)
    ensures n == NormalizeName(name) && e == NormalizeEmail(email)
    ensures errors == RequiredErrors(n, e, password)
  {
    e := NormalizeEmail(email);
    n := NormalizeName(name);
    errors := [];
    ghost var a := if n == "" then [NameRequired] else [];
    ghost var b := if e == "" then [EmailRequired] else [];
    if n == "" {
      errors := errors + [NameRequired];
    }
    assert errors == a;
    if e == "" {
      errors := errors + [EmailRequired];
    }
    assert errors == a + b;
    if !Truthy(password) {
      errors := errors + [PasswordRequired];
    }
  }

  /**
   * `CreateUserAC`: normalises the name and e-mail, collects the validation
   * messages, refuses an e-mail already in use, then inserts. `hash` stands
   * for `generate_password_hash`; `insertFailure` is the database's error
   * message when the insert fails, `None` when it succeeds.
   */
  method CreateUserAC(db: AccountTables, name: Option<string>, email: Option<string>, password: Option<string>,
                      profileId: int, isSuspended: int, hash: string -> string, insertFailure: Option<string>)
    returns (result: CreateUserResult)
    requires db.Valid()
    modifies db
    ensures db.Valid() && db.profiles == old(db.profiles)
    ensures RequiredErrors(NormalizeName(name), NormalizeEmail(email), password) != [] ==>
      result.errors == RequiredErrors(NormalizeName(name), NormalizeEmail(email), password)
    ensures (RequiredErrors(NormalizeName(name), NormalizeEmail(email), password) == [] &&
             old(EmailTaken(db.users, NormalizeEmail(email)))) ==>
      result.errors == [EmailExists]
    ensures (RequiredErrors(NormalizeName(name), NormalizeEmail(email), password) == [] &&
             !old(EmailTaken(db.users, NormalizeEmail(email))) && insertFailure.Some?) ==>
      result.errors == [InsertError(insertFailure.value)]
    ensures result.ok <==>
      RequiredErrors(NormalizeName(name), NormalizeEmail(email), password) == [] &&
      !old(EmailTaken(db.users, NormalizeEmail(email))) && insertFailure.None?
    ensures !result.ok ==> db.users == old(db.users) && result.userId == None && result.errors != []
    ensures result.ok ==>
      var u := NewUser(old(db.users), NormalizeName(name), NormalizeEmail(email), GetOr(password, ""), profileId, isSuspended, hash);
      db.users == old(db.users) + [u] && result.errors == [] && result.userId == Some(u.id)
  {
    var n, e, errors := Validate(name, email, password);
    if errors != [] {
      return CreateUserResult(false, errors, None);
    }
    // `find_by_email` normalises its argument again, which leaves `e` as it is
    // (`NormalizeEmailIdempotent`), so it looks `e` up.
    result := Register(db, n, e, GetOr(password, ""), profileId, isSuspended, hash, insertFailure);
  }

  /**
   * The part of `CreateUserAC` after validation, on the normalised name and
   * e-mail: the duplicate check, then the insert.
   */
  method Register(db: AccountTables, n: string, e: string, password: string,
                  profileId: int, isSuspended: int, hash: string -> string, insertFailure: Option<string>)
    returns (result: CreateUserResult)
    requires db.Valid()
    modifies db
    ensures db.Valid() && db.profiles == old(db.profiles)
    ensures old(EmailTaken(db.users, e)) ==> result == CreateUserResult(false, [EmailExists], None)
    ensures !old(EmailTaken(db.users, e)) && insertFailure.Some? ==>
      result == CreateUserResult(false, [InsertError(insertFailure.value)], None)
    ensures !result.ok ==> db.users == old(db.users)
    ensures !old(EmailTaken(db.users, e)) && insertFailure.None? ==>
      var u := NewUser(old(db.users), n, e, password, profileId, isSuspended, hash);
      db.users == old(db.users) + [u] && result == CreateUserResult(true, [], Some(u.id))
  {
    if EmailTaken(db.users, e) {
      return CreateUserResult(false, [EmailExists], None);
    }
    if insertFailure.Some? {
      return CreateUserResult(false, [InsertError(insertFailure.value)], None);
    }
    var u := NewUser(db.users, n, e, password, profileId, isSuspended, hash);
    AppendUserKeepsValid(db.users, u);
    db.users := db.users + [u];
    result := CreateUserResult(true, [], Some(u.id));
  }

  /**
   * Two addresses that differ only in the case of their ASCII letters and in
   * white space around them normalise to the same key.
   */
  lemma EmailVariantNormalizes(w1: string, v: string, w2: string, s: string)
    requires Blank(w1) && Blank(w2) && Lower(v) == Lower(s)
    ensures NormalizeEmail(Some(w1 + v + w2)) == NormalizeEmail(Some(s))
  {
    StripIgnoresPadding(w1, v, w2);
    StripLower(v);
    StripLower(s);
  }

  /**
   * `CreateUserAC` with an otherwise valid form whose address is a stored
   * address in another case or with white space around it: the call reports
   * the duplicate and changes no table.
   */
  method DuplicateEmailRefused(db: AccountTables, name: string, w1: string, v: string, w2: string, password: string,
                               k: nat, profileId: int, isSuspended: int, hash: string -> string, insertFailure: Option<string>)
    returns (result: CreateUserResult)
    requires db.Valid() && !Blank(name) && password != ""
    requires Blank(w1) && Blank(w2) && !Blank(v) && k < |db.users| && db.users[k].email == Lower(Strip(v))
    modifies db
    ensures result == CreateUserResult(false, [EmailExists], None)
    ensures db.users == old(db.users) && db.profiles == old(db.profiles)
  {
    EmailVariantNormalizes(w1, v, w2, v);
    StripLower(v);
    assert NormalizeEmail(Some(w1 + v + w2)) != "";
    result := CreateUserAC(db, Some(name), Some(w1 + v + w2), Some(password), profileId, isSuspended, hash, insertFailure);
  }

  /** The profile with id `id`, if any. */
  function FindProfile(profiles: seq<UserProfile>, id: int): (r: Option<UserProfile>)
    ensures r.Some? ==> r.value in profiles && r.value.id == id
    ensures r.None? <==> forall j :: 0 <= j < |profiles| ==> profiles[j].id != id
  {
    match IndexOf(profiles, ProfileId, id)
    case None => None
    case Some(i) => Some(profiles[i])
  }

  /** The users whose profile exists, in table order (the rows the inner join keeps). */
  function Joined(users: seq<UserAccount>, profiles: seq<UserProfile>): seq<UserAccount>
  {
    Filter(users, (u: UserAccount) => FindProfile(profiles, u.profileId).Some?)
  }

  /**
   * `list_all_users`: every user that has a profile, paired with it, in
   * ascending user id order (an inner join: a user whose profile is missing
   * is not listed).
   */
  function ListAllUsers(users: seq<UserAccount>, profiles: seq<UserProfile>): (r: seq<(UserAccount, UserProfile)>)
    ensures forall k :: 0 <= k < |r| ==> r[k].1 in profiles && r[k].1.id == r[k].0.profileId
  {
    if users == [] then []
    else
      var rest := ListAllUsers(users[1..], profiles);
      var p := FindProfile(profiles, users[0].profileId);
      if p.Some? then [(users[0], p.value)] + rest else rest
  }

  /** The users listed are exactly the rows the join keeps, in the same order. */
  lemma {:induction false} ListAllUsersIsJoin(users: seq<UserAccount>, profiles: seq<UserProfile>)
    ensures |ListAllUsers(users, profiles)| == |Joined(users, profiles)|
    ensures forall k :: 0 <= k < |ListAllUsers(users, profiles)| ==>
      ListAllUsers(users, profiles)[k].0 == Joined(users, profiles)[k]
  {
    if users != [] {
      ListAllUsersIsJoin(users[1..], profiles);
      var p := FindProfile(profiles, users[0].profileId);
      JoinedCons(users, profiles);
      if p.Some? {
        ListedCons(ListAllUsers(users[1..], profiles), Joined(users[1..], profiles), users[0], p.value);
      }
    }
  }

  /** One step of the join: the first user is kept exactly when its profile exists. */
  lemma JoinedCons(users: seq<UserAccount>, profiles: seq<UserProfile>)
    requires users != []
    ensures Joined(users, profiles) ==
      if FindProfile(profiles, users[0].profileId).Some? then [users[0]] + Joined(users[1..], profiles) else Joined(users[1..], profiles)
  {
  }

  /** Prepending a pair and its user keeps the listed users and the join in step. */
  lemma ListedCons(rest: seq<(UserAccount, UserProfile)>, j: seq<UserAccount>, u: UserAccount, p: UserProfile)
    requires |rest| == |j| && forall k :: 0 <= k < |rest| ==> rest[k].0 == j[k]
    ensures |[(u, p)] + rest| == |[u] + j|
    ensures forall k :: 0 <= k < |[(u, p)] + rest| ==> ([(u, p)] + rest)[k].0 == ([u] + j)[k]
  {
  }

  /** A user is listed exactly when its profile exists, and the list is in ascending user id order. */
  lemma ListAllUsersComplete(users: seq<UserAccount>, profiles: seq<UserProfile>, u: UserAccount)
    requires StrictlyAscending(users, UserId) && u in users
    ensures FindProfile(profiles, u.profileId).Some? <==>
      exists k :: 0 <= k < |ListAllUsers(users, profiles)| && ListAllUsers(users, profiles)[k].0 == u
    ensures forall a, b :: 0 <= a < b < |ListAllUsers(users, profiles)| ==>
      ListAllUsers(users, profiles)[a].0.id < ListAllUsers(users, profiles)[b].0.id
  {
    var r := ListAllUsers(users, profiles);
    var j := Joined(users, profiles);
    ListAllUsersIsJoin(users, profiles);
    assert multiset(users)[u] > 0;
    assert u in j <==> FindProfile(profiles, u.profileId).Some? by {
      assert u in j <==> multiset(j)[u] > 0;
    }
    if u in j {
      var k :| 0 <= k < |j| && j[k] == u;
      assert r[k].0 == u;
    }
    FilterKeepsAscending(users, (u: UserAccount) => FindProfile(profiles, u.profileId).Some?, UserId);
  }

  /** `get_user_by_id`: the user with that id together with its profile, when both exist. */
  function GetUserById(users: seq<UserAccount>, profiles: seq<UserProfile>, id: int): (r: Option<(UserAccount, UserProfile)>)
    requires StrictlyAscending(users, UserId)
    ensures r.Some? ==> r.value.0 in users && r.value.0.id == id && r.value.1 in profiles && r.value.1.id == r.value.0.profileId
    ensures r.None? <==> forall j :: 0 <= j < |users| && users[j].id == id ==> FindProfile(profiles, users[j].profileId).None?
  {
    match IndexOf(users, UserId, id)
    case None => None
    case Some(i) =>
      var p := FindProfile(profiles, users[i].profileId);
      if p.Some? then Some((users[i], p.value)) else None
  }
}
