/** `GenreEnum`: a fixed, ordered catalogue of (name, id) pairs, with
    projections, a name-to-id dictionary and first-match lookups by name and
    by id. A member is identified by its position in the enumeration, and
    `name_str` / `id` are the two fields of its value. */
module Genres {
  import opened Wrappers

  /** The value tuple `(name_str, id)` of one enum member. */
  datatype Genre = Genre(nameStr: string, id: int)

  /** The members of the enum, in definition order. */
  type Catalogue = seq<Genre>

  /** `names()`: one name per member, in enumeration order. */
  function Names(cat: Catalogue): (names: seq<string>)
    ensures |names| == |cat|
    ensures forall i | 0 <= i < |cat| :: names[i] == cat[i].nameStr
  {
    if cat == [] then [] else [cat[0].nameStr] + Names(cat[1..])
  }

  /** `ids()`: one id per member, in enumeration order. */
  function Ids(cat: Catalogue): (ids: seq<int>)
    ensures |ids| == |cat|
    ensures forall i | 0 <= i < |cat| :: ids[i] == cat[i].id
  {
    if cat == [] then [] else [cat[0].id] + Ids(cat[1..])
  }

  /** No member after `i` has the name of member `i`. */
  predicate LastWithName(cat: Catalogue, i: nat)
    requires i < |cat|
  {
    forall j | i < j < |cat| :: cat[j].nameStr != cat[i].nameStr
  }

  /** The names of the members. */
  ghost function NameSet(cat: Catalogue): set<string> {
    set i | 0 <= i < |cat| :: cat[i].nameStr
  }

  lemma NameSetSnoc(cat: Catalogue)
    requires cat != []
    ensures NameSet(cat) == NameSet(cat[..|cat| - 1]) + {cat[|cat| - 1].nameStr}
  {
    var init := cat[..|cat| - 1];
    forall n | n in NameSet(cat)
      ensures n in NameSet(init) + {cat[|cat| - 1].nameStr}
    {
      var i :| 0 <= i < |cat| && cat[i].nameStr == n;
      if i < |init| {
        assert init[i] == cat[i];
      }
    }
    forall n | n in NameSet(init)
      ensures n in NameSet(cat)
    {
      var i :| 0 <= i < |init| && init[i].nameStr == n;
      assert cat[i] == init[i];
    }
  }

  /** A member last with its name stays last when the final member is dropped. */
  lemma LastWithNameInit(cat: Catalogue, i: nat)
    requires i < |cat| - 1 && LastWithName(cat, i)
    ensures LastWithName(cat[..|cat| - 1], i)
  {
  }

  /** Adding the final member to the dict of the others gives the dict of
      all members. */
  lemma AsDictStep(cat: Catalogue, d: map<string, int>)
    requires cat != []
    requires d.Keys == NameSet(cat[..|cat| - 1])
    requires forall i | 0 <= i < |cat| - 1 && LastWithName(cat[..|cat| - 1], i) ::
      cat[i].nameStr in d && d[cat[i].nameStr] == cat[i].id
    ensures var d' := d[cat[|cat| - 1].nameStr := cat[|cat| - 1].id];
      && d'.Keys == NameSet(cat)
      && forall i | 0 <= i < |cat| && LastWithName(cat, i) :: cat[i].nameStr in d' && d'[cat[i].nameStr] == cat[i].id
  {
    NameSetSnoc(cat);
    forall i | 0 <= i < |cat| - 1 && LastWithName(cat, i)
      ensures LastWithName(cat[..|cat| - 1], i)
    {
      LastWithNameInit(cat, i);
    }
  }

  /** `as_dict()`: the dict comprehension inserts members in order, so a
      later member overwrites an earlier one with the same name. */
  function AsDict(cat: Catalogue): (d: map<string, int>)
    ensures d.Keys == NameSet(cat)
    ensures forall i | 0 <= i < |cat| && LastWithName(cat, i) :: cat[i].nameStr in d && d[cat[i].nameStr] == cat[i].id
  {
    if cat == [] then map[]
    else
      var init := cat[..|cat| - 1];
      var d := AsDict(init);
      assert forall i | 0 <= i < |init| :: init[i] == cat[i];
      AsDictStep(cat, d);
      d[cat[|cat| - 1].nameStr := cat[|cat| - 1].id]
  }

  datatype GenreError = NoSuchName(name: string) | NoSuchId(id: int)

  /** `from_name`: the first member named `name`; `ValueError` when there is none. */
  function FromName(cat: Catalogue, name: string): (r: Result<nat, GenreError>)
    ensures r.Success? ==> r.value < |cat| && cat[r.value].nameStr == name
    ensures r.Success? ==> forall i | 0 <= i < r.value :: cat[i].nameStr != name
    ensures r.Failure? <==> forall i | 0 <= i < |cat| :: cat[i].nameStr != name
    ensures r.Failure? ==> r.error == NoSuchName(name)
  {
    if cat == [] then Failure(NoSuchName(name))
    else if cat[0].nameStr == name then Success(0)
    else
      match FromName(cat[1..], name)
      case Success(k) => Success(k + 1)
      case Failure(e) => Failure(e)
  }

  /** `from_id`: the first member with id `id`; `ValueError` when there is none. */
  function FromId(cat: Catalogue, id: int): (r: Result<nat, GenreError>)
    ensures r.Success? ==> r.value < |cat| && cat[r.value].id == id
    ensures r.Success? ==> forall i | 0 <= i < r.value :: cat[i].id != id
    ensures r.Failure? <==> forall i | 0 <= i < |cat| :: cat[i].id != id
    ensures r.Failure? ==> r.error == NoSuchId(id)
  {
    if cat == [] then Failure(NoSuchId(id))
    else if cat[0].id == id then Success(0)
    else
      match FromId(cat[1..], id)
      case Success(k) => Success(k + 1)
      case Failure(e) => Failure(e)
  }

  /** Looking a member up by its own id or name succeeds and finds a member
      carrying that id or name, no later than the member itself. */
  lemma LookupRoundTrip(cat: Catalogue, i: nat)
    requires i < |cat|
    ensures FromId(cat, cat[i].id).Success?
    ensures FromId(cat, cat[i].id).value <= i && cat[FromId(cat, cat[i].id).value].id == cat[i].id
    ensures FromName(cat, cat[i].nameStr).Success?
    ensures FromName(cat, cat[i].nameStr).value <= i
    ensures cat[FromName(cat, cat[i].nameStr).value].nameStr == cat[i].nameStr
  {
  }

  /** With pairwise distinct ids the lookup by id finds the member itself. */
  lemma FromIdExact(cat: Catalogue, i: nat)
    requires i < |cat|
    requires forall a, b | 0 <= a < b < |cat| :: cat[a].id != cat[b].id
    ensures FromId(cat, cat[i].id) == Success(i)
  {
    LookupRoundTrip(cat, i);
  }

  /** With pairwise distinct names `as_dict` and `from_name` agree: the
      dictionary maps each name to the id of the member found by name. */
  lemma AsDictAgreesWithFromName(cat: Catalogue, name: string)
    requires forall a, b | 0 <= a < b < |cat| :: cat[a].nameStr != cat[b].nameStr
    ensures name in AsDict(cat) <==> FromName(cat, name).Success?
    ensures name in AsDict(cat) ==> AsDict(cat)[name] == cat[FromName(cat, name).value].id
  {
    var r := FromName(cat, name);
    if r.Success? {
      assert LastWithName(cat, r.value);
    }
  }

  /** Whatever the names, `as_dict` holds the id of the last member of each name. */
  lemma AsDictLastWins(cat: Catalogue, i: nat, j: nat)
    requires i < j < |cat| && cat[i].nameStr == cat[j].nameStr && LastWithName(cat, j)
    ensures AsDict(cat)[cat[i].nameStr] == cat[j].id
  {
  }
}
