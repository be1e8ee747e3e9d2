/**
 * `seed_defaults`: makes sure the four default profiles exist, adding those
 * whose name is missing and leaving every existing profile alone.
 */
module Seed {
  import opened Wrappers
  import opened Rows
  import opened Accounts

  /** The default profile names, in the order they are added. */
  const DefaultNames: seq<string> := ["Admin", "CRS Rep", "PIN", "Platform Management"]

  /** The names of the stored profiles (`{p.name for p in UserProfile.query.all()}`). */
  function NamesOf(profiles: seq<UserProfile>): (r: set<string>)
    ensures forall j :: 0 <= j < |profiles| ==> profiles[j].name in r
    ensures forall n :: n in r ==> ProfileNameTaken(profiles, n)
  {
    set j | 0 <= j < |profiles| :: profiles[j].name
  }

  /** The row added for a missing default name. */
  function DefaultProfile(profiles: seq<UserProfile>, name: string): (p: UserProfile)
    ensures forall j :: 0 <= j < |profiles| ==> profiles[j].id < p.id
    ensures p.name == name && p.description == Some("Default role: " + name) && !p.isSuspended
  {
    UserProfile(NextId(profiles, ProfileId), name, Some("Default role: " + name), false)
  }

  /**
   * The table after the names in `names` have been visited in order; a name
   * is added when it is not in `existing`, the set taken before the loop.
   */
  function Seeded(profiles: seq<UserProfile>, names: seq<string>, existing: set<string>): seq<UserProfile>
    decreases |names|
  {
    if names == [] then profiles
    else if names[0] in existing then Seeded(profiles, names[1..], existing)
    else Seeded(profiles + [DefaultProfile(profiles, names[0])], names[1..], existing)
  }

  /** No name occurs twice in `names`. */
  predicate Distinct(names: seq<string>)
  {
    forall a, b :: 0 <= a < b < |names| ==> names[a] != names[b]
  }

  /** The four default names differ from one another. */
  lemma DefaultNamesDistinct()
    ensures Distinct(DefaultNames)
  {
  }

  /** In a list without repeats, a name is not among those before it. */
  lemma NotYetVisited(names: seq<string>, i: int)
    requires Distinct(names) && 0 <= i < |names|
    ensures names[i] !in names[..i]
  {
  }

  /**
   * `seed_defaults`: the existing names are read once, then each default
   * name that was not among them is added; the final commit stores them.
   */
  method SeedDefaults(db: AccountTables)
    requires db.Valid()
    modifies db
    ensures db.Valid() && db.users == old(db.users)
    ensures db.profiles == Seeded(old(db.profiles), DefaultNames, NamesOf(old(db.profiles)))
  {
    DefaultNamesDistinct();
    var existing := NamesOf(db.profiles);
    ghost var start := db.profiles;
    for i := 0 to |DefaultNames|
      invariant db.Valid() && db.users == old(db.users)
      invariant Seeded(db.profiles, DefaultNames[i..], existing) == Seeded(start, DefaultNames, existing)
      invariant forall j :: 0 <= j < |db.profiles| ==> db.profiles[j].name in existing || db.profiles[j].name in DefaultNames[..i]
    {
      var n := DefaultNames[i];
      assert DefaultNames[i..][1..] == DefaultNames[i + 1..];
      assert DefaultNames[..i + 1] == DefaultNames[..i] + [n];
      if n !in existing {
        NotYetVisited(DefaultNames, i);
        var p := DefaultProfile(db.profiles, n);
        AppendProfileKeepsValid(db.profiles, p);
        db.profiles := db.profiles + [p];
      }
    }
  }

  /** The profiles present before seeding are kept, unchanged and in place, at the front. */
  lemma {:induction false} SeedKeepsExisting(profiles: seq<UserProfile>, names: seq<string>, existing: set<string>)
    ensures |profiles| <= |Seeded(profiles, names, existing)|
    ensures Seeded(profiles, names, existing)[..|profiles|] == profiles
    decreases |names|
  {
    if names != [] {
      if names[0] in existing {
        SeedKeepsExisting(profiles, names[1..], existing);
      } else {
        var p := DefaultProfile(profiles, names[0]);
        SeedKeepsExisting(profiles + [p], names[1..], existing);
        assert (profiles + [p])[..|profiles|] == profiles;
      }
    }
  }

  /**
   * Every row seeding adds carries a name from `names` that was not in
   * `existing`, the default description and the flag off.
   */
  lemma {:induction false} SeedAddsOnlyMissing(profiles: seq<UserProfile>, names: seq<string>, existing: set<string>, k: int)
    requires |profiles| <= k < |Seeded(profiles, names, existing)|
    ensures var p := Seeded(profiles, names, existing)[k];
      p.name in names && p.name !in existing &&
      p.description == Some("Default role: " + p.name) && !p.isSuspended
    decreases |names|
  {
    if names == [] {
      assert false;
    } else if names[0] in existing {
      SeedAddsOnlyMissing(profiles, names[1..], existing, k);
    } else {
      var p := DefaultProfile(profiles, names[0]);
      if k == |profiles| {
        SeedKeepsExisting(profiles + [p], names[1..], existing);
        assert Seeded(profiles, names, existing)[..|profiles| + 1][k] == p;
      } else {
        SeedAddsOnlyMissing(profiles + [p], names[1..], existing, k);
      }
    }
  }

  /** After seeding, every name of `names` and every name already present is taken. */
  lemma {:induction false} SeedCoversNames(profiles: seq<UserProfile>, names: seq<string>, existing: set<string>)
    requires existing <= NamesOf(profiles)
    ensures NamesOf(profiles) <= NamesOf(Seeded(profiles, names, existing))
    ensures forall n :: n in names ==> n in NamesOf(Seeded(profiles, names, existing))
    decreases |names|
  {
    if names != [] {
      var next := if names[0] in existing then profiles else profiles + [DefaultProfile(profiles, names[0])];
      assert NamesOf(next) == if names[0] in existing then NamesOf(profiles) else NamesOf(profiles) + {names[0]} by {
        if names[0] !in existing {
          var p := DefaultProfile(profiles, names[0]);
          assert next[|profiles|] == p;
          forall n | n in NamesOf(next) ensures n in NamesOf(profiles) + {names[0]} {
            var j :| 0 <= j < |next| && next[j].name == n;
            if j < |profiles| {
              assert next[j] == profiles[j];
            }
          }
          forall n | n in NamesOf(profiles) ensures n in NamesOf(next) {
            var j :| 0 <= j < |profiles| && profiles[j].name == n;
            assert next[j] == profiles[j];
          }
        }
      }
      SeedCoversNames(next, names[1..], existing);
      forall n | n in names ensures n in NamesOf(Seeded(profiles, names, existing)) {
        if n != names[0] {
          var j :| 0 <= j < |names| && names[j] == n;
          assert names[1..][j - 1] == n;
        }
      }
    }
  }

  /** Seeding with every name already present changes nothing. */
  lemma {:induction false} SeedAllPresent(profiles: seq<UserProfile>, names: seq<string>, existing: set<string>)
    requires forall n :: n in names ==> n in existing
    ensures Seeded(profiles, names, existing) == profiles
    decreases |names|
  {
    if names != [] {
      assert forall n :: n in names[1..] ==> n in names;
      SeedAllPresent(profiles, names[1..], existing);
    }
  }

  /** After `seed_defaults`, each default name is present. */
  lemma DefaultsPresent(profiles: seq<UserProfile>)
    ensures forall n :: n in DefaultNames ==> ProfileNameTaken(Seeded(profiles, DefaultNames, NamesOf(profiles)), n)
  {
    SeedCoversNames(profiles, DefaultNames, NamesOf(profiles));
  }

  /** Running `seed_defaults` a second time adds nothing. */
  lemma SeedIdempotent(profiles: seq<UserProfile>)
    ensures var once := Seeded(profiles, DefaultNames, NamesOf(profiles));
      Seeded(once, DefaultNames, NamesOf(once)) == once
  {
    var once := Seeded(profiles, DefaultNames, NamesOf(profiles));
    SeedCoversNames(profiles, DefaultNames, NamesOf(profiles));
    SeedAllPresent(once, DefaultNames, NamesOf(once));
  }
}
