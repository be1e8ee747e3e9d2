/**
 * `ProfileController`: creating a user profile (a role) and listing the
 * profiles.
 */
module ProfileController {
  import opened Wrappers
  import opened Text
  import opened Rows
  import opened Accounts

  const NameRequired := "Name is required."
  const ProfileExists := "A profile with this name already exists."

  /** The dictionary `CreateUserProfile` returns. */
  datatype CreateProfileResult = CreateProfileResult(ok: bool, errors: seq<string>, profileId: Option<int>)

  /** How a failed insert is reported: any unique violation reads as the duplicate-name message. */
  function ProfileInsertError(msg: string): (r: string)
    ensures IsSubstring("UNIQUE", msg) ==> r == ProfileExists
    ensures !IsSubstring("UNIQUE", msg) ==> r == "Database error: " + msg
  {
    if IsSubstring("UNIQUE", msg) then ProfileExists else "Database error: " + msg
  }

  /** The row a successful `CreateUserProfile` inserts: stripped name, description as given, flag as a bool. */
  function NewProfile(profiles: seq<UserProfile>, name: string, description: Option<string>, isSuspended: int): (p: UserProfile)
    ensures forall j :: 0 <= j < |profiles| ==> profiles[j].id < p.id
    ensures p.name == Strip(name) && p.description == description && p.isSuspended == (isSuspended != 0)
  {
    UserProfile(NextId(profiles, ProfileId), Strip(name), description, isSuspended != 0)
  }

  /**
   * `CreateUserProfile`: a name that is blank once stripped is refused with
   * `"Name is required."`; otherwise the profile is inserted under the
   * stripped name. The insert fails on the unique `name` column when that
   * name is taken, and `dbFailure` is the message of any other failure of
   * the database (`None` when it accepts the row).
   */
  method CreateUserProfile(db: AccountTables, name: string, description: Option<string>, isSuspended: int,
                           dbFailure: Option<string>)
    returns (result: CreateProfileResult)
    requires db.Valid()
    modifies db
    ensures db.Valid() && db.users == old(db.users)
    ensures Blank(name) ==> result.errors == [NameRequired]
    ensures (!Blank(name) && old(ProfileNameTaken(db.profiles, Strip(name)))) ==>
      result.errors == [ProfileExists]
    ensures (!Blank(name) && !old(ProfileNameTaken(db.profiles, Strip(name))) && dbFailure.Some?) ==>
      result.errors == [ProfileInsertError(dbFailure.value)]
    ensures result.ok <==>
      !Blank(name) && !old(ProfileNameTaken(db.profiles, Strip(name))) && dbFailure.None?
    ensures !result.ok ==> db.profiles == old(db.profiles) && result.profileId == None
    ensures result.ok ==>
      var p := NewProfile(old(db.profiles), name, description, isSuspended);
      db.profiles == old(db.profiles) + [p] && result.errors == [] && result.profileId == Some(p.id)
  {
    result := CreateProfileResult(false, [], None);
    var n := Strip(name);
    if n == [] {
      result := result.(errors := result.errors + [NameRequired]);
      return;
    }
    if ProfileNameTaken(db.profiles, n) {
      // SQLite reports `UNIQUE constraint failed: user_profiles.name`.
      result := result.(errors := result.errors + [ProfileExists]);
      return;
    }
    if dbFailure.Some? {
      result := result.(errors := result.errors + [ProfileInsertError(dbFailure.value)]);
      return;
    }
    var p := NewProfile(db.profiles, name, description, isSuspended);
    AppendProfileKeepsValid(db.profiles, p);
    db.profiles := db.profiles + [p];
    result := result.(ok := true, profileId := Some(p.id));
  }

  /** A profile just created is the last one listed, and no other profile has its name. */
  lemma CreatedProfileIsUnique(profiles: seq<UserProfile>, name: string, description: Option<string>, isSuspended: int)
    requires ValidProfiles(profiles) && !ProfileNameTaken(profiles, Strip(name))
    ensures var p := NewProfile(profiles, name, description, isSuspended);
      ValidProfiles(profiles + [p]) &&
      forall j :: 0 <= j < |profiles| ==> profiles[j].name != p.name && profiles[j].id < p.id
  {
    var p := NewProfile(profiles, name, description, isSuspended);
    AppendProfileKeepsValid(profiles, p);
  }

  /** `list_profiles`: every profile, in ascending id order. */
  function ListProfiles(profiles: seq<UserProfile>): (r: seq<UserProfile>)
    requires StrictlyAscending(profiles, ProfileId)
    ensures StrictlyAscending(r, ProfileId)
    ensures multiset(r) == multiset(profiles)
  {
    profiles
  }

  /** Ascending id order leaves only one way to list a set of profiles, so `ListProfiles` is determined by its contract. */
  lemma ListingIsDetermined(profiles: seq<UserProfile>, other: seq<UserProfile>)
    requires StrictlyAscending(profiles, ProfileId) && StrictlyAscending(other, ProfileId)
    requires multiset(other) == multiset(profiles)
    ensures ListProfiles(profiles) == other
  {
    AscendingByMultiset(ListProfiles(profiles), other, ProfileId);
  }
}
