/** The fixed table of cook types (`cookTypes`) and the presenter's lookups
    into it by id (`_getCookTypeNameById`, `_getCookTypeTimeById`). */
module Catalog {
  import opened Wrappers
  import Decimal

  /** One preset: its id, the name shown to the user, and its duration in
      seconds; a duration of 0 marks the entry that asks the user. */
  datatype CookType = CookType(id: int, name: string, seconds: int)

  /** The exception the lookups raise for an id the table does not hold. */
  datatype Error = ValueError(message: string)

  /** The id of the "Custom" entry, for which the user is asked for a time. */
  const CustomId := 0

  const CookTypes: seq<CookType> := [
    CookType(4, "Black tea", 180),
    CookType(3, "Fruit tea", 480),
    CookType(2, "Pizza", 780),
    CookType(1, "Cake", 1800),
    CookType(0, "Custom", 0)
  ]

  predicate HasId(table: seq<CookType>, id: int) {
    exists i :: 0 <= i < |table| && table[i].id == id
  }

  predicate IdsUnique(table: seq<CookType>) {
    forall i, j :: 0 <= i < j < |table| ==> table[i].id != table[j].id
  }

  /** Position of the first entry with the given id, scanning in table
      order as the lookups' `for` loops do. */
  function FindId(table: seq<CookType>, id: int): (r: Option<nat>)
    ensures r.Some? ==> r.value < |table| && table[r.value].id == id
    ensures r.Some? ==> forall j :: 0 <= j < r.value ==> table[j].id != id
    ensures r.None? <==> !HasId(table, id)
  {
    if table == [] then None
    else if table[0].id == id then Some(0)
    else
      match FindId(table[1..], id)
      case None => None
      case Some(k) => Some(k + 1)
  }

  function UnknownId(id: int): Error {
    ValueError("Unknown id: " + Decimal.IntToString(id))
  }

  /** `_getCookTypeNameById`. */
  function GetCookTypeNameById(id: int): (r: Result<string, Error>)
    ensures r.Success? <==> HasId(CookTypes, id)
    ensures r.Success? ==> exists i :: 0 <= i < |CookTypes| && CookTypes[i].id == id && CookTypes[i].name == r.value
    ensures r.Failure? ==> r.error == UnknownId(id)
  {
    match FindId(CookTypes, id)
    case Some(i) => Success(CookTypes[i].name)
    case None => Failure(UnknownId(id))
  }

  /** `_getCookTypeTimeById`. */
  function GetCookTypeTimeById(id: int): (r: Result<int, Error>)
    ensures r.Success? <==> HasId(CookTypes, id)
    ensures r.Success? ==> exists i :: 0 <= i < |CookTypes| && CookTypes[i].id == id && CookTypes[i].seconds == r.value
    ensures r.Failure? ==> r.error == UnknownId(id)
  {
    match FindId(CookTypes, id)
    case Some(i) => Success(CookTypes[i].seconds)
    case None => Failure(UnknownId(id))
  }

  lemma CookTypeIdsUnique()
    ensures IdsUnique(CookTypes)
  {
  }

  /** In a table with unique ids, the scan finds the one entry with the id. */
  lemma {:induction false} FindIdOfEntry(table: seq<CookType>, i: int)
    requires IdsUnique(table) && 0 <= i < |table|
    ensures FindId(table, table[i].id) == Some(i)
  {
    assert HasId(table, table[i].id);
  }

  lemma CustomIdPresent()
    ensures HasId(CookTypes, CustomId)
  {
    assert CookTypes[4].id == CustomId;
  }

  /** Every entry of the table is found again by its own id. */
  lemma LookupOfEntry(i: int)
    requires 0 <= i < |CookTypes|
    ensures GetCookTypeNameById(CookTypes[i].id) == Success(CookTypes[i].name)
    ensures GetCookTypeTimeById(CookTypes[i].id) == Success(CookTypes[i].seconds)
  {
    CookTypeIdsUnique();
    FindIdOfEntry(CookTypes, i);
  }

  /** The only entry whose duration is 0 is the "Custom" one, so deciding on
      the id (as the presenter does) and on the duration agree. */
  lemma CustomIsTheOnlyZeroDuration(i: int)
    requires 0 <= i < |CookTypes|
    ensures CookTypes[i].seconds == 0 <==> CookTypes[i].id == CustomId
    ensures CookTypes[i].id == CustomId ==> CookTypes[i].name == "Custom"
  {
  }
}
