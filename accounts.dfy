/**
 * The `users` and `user_profiles` tables. A user account belongs to one
 * profile (its role); e-mail addresses and profile names are unique.
 */
module Accounts {
  import opened Wrappers
  import opened Rows

  /** A row of `users`. The password is stored only as its hash. */
  datatype UserAccount = UserAccount(
    id: int,
    name: string,
    email: string,
    passwordHash: string,
    profileId: int,
    isSuspended: bool)

  /** A row of `user_profiles`. */
  datatype UserProfile = UserProfile(id: int, name: string, description: Option<string>, isSuspended: bool)

  function UserId(u: UserAccount): int { u.id }
  function ProfileId(p: UserProfile): int { p.id }

  /** Some user has exactly this e-mail address. */
  predicate EmailTaken(users: seq<UserAccount>, email: string)
  {
    exists j :: 0 <= j < |users| && users[j].email == email
  }

  /** Some profile has exactly this name. */
  predicate ProfileNameTaken(profiles: seq<UserProfile>, name: string)
  {
    exists j :: 0 <= j < |profiles| && profiles[j].name == name
  }

  /** `users`: ids ascending, e-mail addresses unique (the column is `unique=True`). */
  ghost predicate ValidUsers(users: seq<UserAccount>)
  {
    && StrictlyAscending(users, UserId)
    && forall a, b :: 0 <= a < b < |users| ==> users[a].email != users[b].email
  }

  /** `user_profiles`: ids ascending, names unique (the column is `unique=True`). */
  ghost predicate ValidProfiles(profiles: seq<UserProfile>)
  {
    && StrictlyAscending(profiles, ProfileId)
    && forall a, b :: 0 <= a < b < |profiles| ==> profiles[a].name != profiles[b].name
  }

  /** A user with the next id and an unused e-mail address keeps `users` valid. */
  lemma AppendUserKeepsValid(users: seq<UserAccount>, u: UserAccount)
    requires ValidUsers(users)
    requires u.id == NextId(users, UserId) && !EmailTaken(users, u.email)
    ensures ValidUsers(users + [u])
  {
    AppendNextAscending(users, UserId, u);
    var users' := users + [u];
    forall a, b | 0 <= a < b < |users'| ensures users'[a].email != users'[b].email {
      assert users'[a] == users[a];
      if b < |users| {
        assert users'[b] == users[b];
      }
    }
  }

  /** A profile with the next id and an unused name keeps `user_profiles` valid. */
  lemma AppendProfileKeepsValid(profiles: seq<UserProfile>, p: UserProfile)
    requires ValidProfiles(profiles)
    requires p.id == NextId(profiles, ProfileId) && !ProfileNameTaken(profiles, p.name)
    ensures ValidProfiles(profiles + [p])
  {
    AppendNextAscending(profiles, ProfileId, p);
    var profiles' := profiles + [p];
    forall a, b | 0 <= a < b < |profiles'| ensures profiles'[a].name != profiles'[b].name {
      assert profiles'[a] == profiles[a];
      if b < |profiles| {
        assert profiles'[b] == profiles[b];
      }
    }
  }

  /** The account tables, as the database session sees them. */
  class AccountTables {
    var users: seq<UserAccount>
    var profiles: seq<UserProfile>

    ghost predicate Valid()
      reads this
    {
      ValidUsers(users) && ValidProfiles(profiles)
    }

    constructor ()
      ensures users == [] && profiles == [] && Valid()
    {
      users, profiles := [], [];
    }
  }
}
