/**
 * The `service_categories` table: create, update and suspend a category,
 * each with its fixed result codes, and the lookup and search the
 * platform manager uses.
 */
module ServiceCategories {
  import opened Wrappers
  import opened Text
  import opened Rows

  /** A row of `service_categories`. */
  datatype Category = Category(id: int, name: string, description: string, isSuspended: bool)

  function CategoryId(c: Category): int { c.id }

  datatype CategoryResult = Success | Duplicate | Invalid | NotFound | Noop
  {
    function Code(): string
    {
      match this
      case Success => "success"
      case Duplicate => "duplicate"
      case Invalid => "invalid"
      case NotFound => "not_found"
      case Noop => "noop"
    }
  }

  /** Some row is named exactly `name` (`filter_by(name=name).first()`). */
  predicate NameTaken(rows: seq<Category>, name: string)
  {
    exists j :: 0 <= j < |rows| && rows[j].name == name
  }

  /** Some row other than `id` is named exactly `name`. */
  predicate NameTakenByOther(rows: seq<Category>, name: string, id: int)
  {
    exists j :: 0 <= j < |rows| && rows[j].name == name && rows[j].id != id
  }

  /** `bool(is_suspended)` of an integer flag. */
  function Flag(isSuspended: int): bool
  {
    isSuspended != 0
  }

  /** `cls.query.get(id)`. */
  function FindCategory(rows: seq<Category>, id: int): (r: Option<Category>)
    ensures r.Some? ==> r.value in rows && r.value.id == id
    ensures r.None? <==> forall j :: 0 <= j < |rows| ==> rows[j].id != id
  {
    match IndexOf(rows, CategoryId, id)
    case None => None
    case Some(i) => Some(rows[i])
  }

  /** The row with id `id`, if any, replaced by `f` of itself. */
  function MapCategory(rows: seq<Category>, id: int, f: Category -> Category): (r: seq<Category>)
    ensures |r| == |rows|
    ensures forall j :: 0 <= j < |rows| ==> r[j] == if rows[j].id == id then f(rows[j]) else rows[j]
  {
    if rows == [] then []
    else [if rows[0].id == id then f(rows[0]) else rows[0]] + MapCategory(rows[1..], id, f)
  }

  /** The table invariant: ids are a primary key in ascending order, and names are unique. */
  ghost predicate ValidRows(rows: seq<Category>)
  {
    && StrictlyAscending(rows, CategoryId)
    && forall a, b :: 0 <= a < b < |rows| ==> rows[a].name != rows[b].name
  }

  /** The row `CreateServiceCategory` stores. */
  function NewCategory(rows: seq<Category>, name: string, description: Option<string>, isSuspended: int): (c: Category)
    ensures forall j :: 0 <= j < |rows| ==> rows[j].id < c.id
    ensures c.name == name && c.isSuspended == Flag(isSuspended)
    ensures c.description == Strip(GetOr(description, ""))
  {
    Category(NextId(rows, CategoryId), name, Strip(GetOr(description, "")), Flag(isSuspended))
  }

  /** A row with the next id and an unused name keeps the table valid. */
  lemma AppendKeepsValid(rows: seq<Category>, c: Category)
    requires ValidRows(rows)
    requires c.id == NextId(rows, CategoryId) && !NameTaken(rows, c.name)
    ensures ValidRows(rows + [c])
  {
    AppendNextAscending(rows, CategoryId, c);
    var rows' := rows + [c];
    forall a, b | 0 <= a < b < |rows'| ensures rows'[a].name != rows'[b].name {
      assert rows'[a] == rows[a];
      if b < |rows| {
        assert rows'[b] == rows[b];
      }
    }
  }

  /** Replacing row `i` by `f` of itself, keeping its id, is `MapCategory` on that id and keeps ids ascending. */
  lemma ReplaceAt(rows: seq<Category>, i: int, f: Category -> Category)
    requires StrictlyAscending(rows, CategoryId) && 0 <= i < |rows|
    requires f(rows[i]).id == rows[i].id
    ensures rows[i := f(rows[i])] == MapCategory(rows, rows[i].id, f)
    ensures StrictlyAscending(rows[i := f(rows[i])], CategoryId)
  {
    var rows' := rows[i := f(rows[i])];
    var m := MapCategory(rows, rows[i].id, f);
    forall j | 0 <= j < |rows| ensures rows'[j] == m[j] {
      if j != i {
        assert rows[j].id != rows[i].id;
      }
    }
  }

  /** The row a successful `UpdateServiceCategory` leaves: the description is not stripped. */
  function Renamed(c: Category, name: string, description: Option<string>, isSuspended: int): Category
  {
    c.(name := name, description := GetOr(description, ""), isSuspended := Flag(isSuspended))
  }

  /** The row after its suspension flag is set. */
  function Flagged(c: Category, isSuspended: int): Category
  {
    c.(isSuspended := Flag(isSuspended))
  }

  /** Renaming row `i` to a name no other row has keeps the table valid. */
  lemma RenameKeepsValid(rows: seq<Category>, i: int, name: string, description: Option<string>, isSuspended: int)
    requires ValidRows(rows) && 0 <= i < |rows|
    requires !NameTakenByOther(rows, name, rows[i].id)
    ensures var rows' := rows[i := Renamed(rows[i], name, description, isSuspended)];
      ValidRows(rows') && rows' == MapCategory(rows, rows[i].id, c => Renamed(c, name, description, isSuspended))
  {
    ReplaceAt(rows, i, c => Renamed(c, name, description, isSuspended));
    var rows' := rows[i := Renamed(rows[i], name, description, isSuspended)];
    forall a, b | 0 <= a < b < |rows'| ensures rows'[a].name != rows'[b].name {
      if a == i {
        assert rows[b].id != rows[i].id;
      } else if b == i {
        assert rows[a].id != rows[i].id;
      }
    }
  }

  /** The `service_categories` table. */
  class CategoryTable {
    var rows: seq<Category>

    ghost predicate Valid()
      reads this
    {
      ValidRows(rows)
    }

    constructor ()
      ensures rows == [] && Valid()
    {
      rows := [];
    }

    /**
     * `CreateServiceCategory`: a falsy name is `"invalid"`, an exact name
     * already present is `"duplicate"`; neither inserts. Otherwise one row is
     * added with the stripped description and the flag as a bool.
     */
    method CreateServiceCategory(name: Option<string>, description: Option<string>, isSuspended: int) returns (r: CategoryResult)
      requires Valid()
      modifies this
      ensures Valid()
      ensures r == Success || r == Duplicate || r == Invalid
      ensures r == Invalid <==> !Truthy(name)
      ensures r == Duplicate <==> Truthy(name) && old(NameTaken(rows, name.value))
      ensures r != Success ==> rows == old(rows)
      ensures r == Success ==> rows == old(rows) + [NewCategory(old(rows), name.value, description, isSuspended)]
    {
      if !Truthy(name) {
        return Invalid;
      }
      if NameTaken(rows, name.value) {
        return Duplicate;
      }
      var c := NewCategory(rows, name.value, description, isSuspended);
      AppendKeepsValid(rows, c);
      rows := rows + [c];
      r := Success;
    }

    /**
     * `UpdateServiceCategory`: checks `"not_found"`, then `"invalid"`, then
     * `"duplicate"` against the other rows only; on success the row takes
     * the new name, description and flag, and no other row changes.
     */
    method UpdateServiceCategory(id: int, name: Option<string>, description: Option<string>, isSuspended: int) returns (r: CategoryResult)
      requires Valid()
      modifies this
      ensures Valid()
      ensures r == Success || r == NotFound || r == Invalid || r == Duplicate
      ensures r == NotFound <==> old(FindCategory(rows, id)).None?
      ensures r == Invalid <==> old(FindCategory(rows, id)).Some? && !Truthy(name)
      ensures r == Duplicate <==> old(FindCategory(rows, id)).Some? && Truthy(name) && old(NameTakenByOther(rows, name.value, id))
      ensures r != Success ==> rows == old(rows)
      ensures r == Success ==> rows == MapCategory(old(rows), id, c => Renamed(c, name.value, description, isSuspended))
    {
      var found := IndexOf(rows, CategoryId, id);
      if found.None? {
        return NotFound;
      }
      if !Truthy(name) {
        return Invalid;
      }
      if NameTakenByOther(rows, name.value, id) {
        return Duplicate;
      }
      var i := found.value;
      RenameKeepsValid(rows, i, name.value, description, isSuspended);
      rows := rows[i := Renamed(rows[i], name.value, description, isSuspended)];
      r := Success;
    }

    /**
     * `SuspendedServiceCategory`: `"not_found"` for a missing id, `"noop"`
     * when the flag already has the requested value, otherwise the flag is
     * set.
     */
    method SuspendedServiceCategory(id: int, isSuspended: int) returns (r: CategoryResult)
      requires Valid()
      modifies this
      ensures Valid()
      ensures r == Success || r == NotFound || r == Noop
      ensures r == NotFound <==> old(FindCategory(rows, id)).None?
      ensures r == Noop <==> old(FindCategory(rows, id)).Some? && old(FindCategory(rows, id)).value.isSuspended == Flag(isSuspended)
      ensures r != Success ==> rows == old(rows)
      ensures r == Success ==> rows == MapCategory(old(rows), id, c => Flagged(c, isSuspended))
    {
      var found := IndexOf(rows, CategoryId, id);
      if found.None? {
        return NotFound;
      }
      var i := found.value;
      if rows[i].isSuspended == Flag(isSuspended) {
        return Noop;
      }
      ReplaceAt(rows, i, c => Flagged(c, isSuspended));
      rows := rows[i := Flagged(rows[i], isSuspended)];
      r := Success;
    }
  }

  /** The dictionary `get_by_id` returns. */
  datatype Lookup = Lookup(ok: bool, data: Option<Category>, errors: seq<string>)

  /** `get_by_id`. */
  function GetById(rows: seq<Category>, id: int): (r: Lookup)
    ensures r.ok <==> exists j :: 0 <= j < |rows| && rows[j].id == id
    ensures r.ok ==> r.data.Some? && r.data.value in rows && r.data.value.id == id && r.errors == []
    ensures !r.ok ==> r.data == None && r.errors == ["Category not found."]
  {
    var f := FindCategory(rows, id);
    Lookup(f.Some?, f, if f.Some? then [] else ["Category not found."])
  }

  /** A category just created can be fetched under the id it was given. */
  lemma CreatedIsFetchable(rows: seq<Category>, name: string, description: Option<string>, isSuspended: int)
    requires ValidRows(rows)
    ensures var c := NewCategory(rows, name, description, isSuspended);
      GetById(rows + [c], c.id) == Lookup(true, Some(c), [])
  {
    AppendedIsFetchable(rows, NewCategory(rows, name, description, isSuspended));
  }

  /** A row appended with the next id is what `get_by_id` finds under that id. */
  lemma AppendedIsFetchable(rows: seq<Category>, c: Category)
    requires StrictlyAscending(rows, CategoryId) && c.id == NextId(rows, CategoryId)
    ensures GetById(rows + [c], c.id) == Lookup(true, Some(c), [])
  {
    AppendNextAscending(rows, CategoryId, c);
    IndexOfUnique(rows + [c], CategoryId, c.id, |rows|);
    assert (rows + [c])[|rows|] == c;
  }

  /** `name ILIKE '%t%' OR description ILIKE '%t%'`. */
  predicate CategoryMatch(c: Category, t: string)
  {
    ContainsFold(c.name, t) || ContainsFold(c.description, t)
  }

  /** `SearchServiceCategory` with `page=None`: the term is stripped, results come in id order. */
  function SearchServiceCategory(rows: seq<Category>, term: Option<string>): (r: seq<Category>)
    requires StrictlyAscending(rows, CategoryId)
    ensures StrictlyAscending(r, CategoryId)
    ensures Selects(r, rows, c => CategoryMatch(c, Strip(GetOr(term, ""))))
  {
    FilterKeepsAscending(rows, c => CategoryMatch(c, Strip(GetOr(term, ""))), CategoryId);
    Filter(rows, c => CategoryMatch(c, Strip(GetOr(term, ""))))
  }

  /** A missing or blank term matches every row. */
  lemma BlankTermListsAll(rows: seq<Category>, term: Option<string>)
    requires StrictlyAscending(rows, CategoryId)
    requires term.None? || Blank(term.value)
    ensures SearchServiceCategory(rows, term) == rows
  {
    var t := Strip(GetOr(term, ""));
    assert t == [];
    FilterAll(rows, c => CategoryMatch(c, t));
  }

  /** The search does not depend on the case of the term. */
  lemma SearchIgnoresCase(rows: seq<Category>, term: string)
    requires StrictlyAscending(rows, CategoryId)
    ensures SearchServiceCategory(rows, Some(Lower(term))) == SearchServiceCategory(rows, Some(term))
  {
    StripLower(term);
    var t := Strip(term);
    var lt := Strip(Lower(term));
    assert lt == Lower(t);
    forall c ensures CategoryMatch(c, lt) == CategoryMatch(c, t) {
      ContainsFoldIgnoresCase(c.name, t);
      ContainsFoldIgnoresCase(c.description, t);
    }
    FilterCongruent(rows, c => CategoryMatch(c, lt), c => CategoryMatch(c, t));
  }
}
