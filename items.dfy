/**
 * The item list behind `/items` (backend/app.py, `manage_items`): the record
 * type, the store whose list POST appends to, and DELETE's filter by id.
 * The JSON file is the list before and after a request; loading and saving
 * it, and the GET branch that returns it unchanged, are outside the model.
 */
module Items {
  import opened Wrappers
  import PyInt

  /** One stored record. `dateAdded` is the formatted clock reading, passed in. */
  datatype Item = Item(id: int, name: string, dateAdded: string)

  /** Response of the POST branch: 201 "Item added", or the fall-through to
      the end of the view, which returns None and makes Flask answer 500. */
  datatype PostStatus = Created | NoResponse

  /** Response of the DELETE branch: 200 "Item removed", or an exception
      from `int(item_id)` (TypeError or ValueError), answered with 500. */
  datatype DeleteStatus = Removed | ServerError

  /** Python truthiness of the JSON `item` value: absent/null and "" are
      falsy, every other string (whitespace only included) is truthy. */
  function Truthy(item: Option<string>): (b: bool)
    ensures item.None? ==> !b
    ensures item == Some("") ==> !b
    ensures item.Some? && |item.value| > 0 ==> b
  {
    item.Some? && item.value != ""
  }

  /** The list comprehension of DELETE: the records whose id differs from `id`. */
  function Without(items: seq<Item>, id: int): (r: seq<Item>)
    ensures forall it :: it in r <==> it in items && it.id != id
    ensures forall it :: multiset(r)[it] == if it.id != id then multiset(items)[it] else 0
    ensures IsSubsequence(r, items)
    ensures |r| <= |items|
    ensures (forall it :: it in items ==> it.id != id) ==> r == items
  {
    if items == [] then []
    else
      assert items == [items[0]] + items[1..];
      if items[0].id != id then [items[0]] + Without(items[1..], id)
      else Without(items[1..], id)
  }

  /** Deleting the same id twice is the same as deleting it once. */
  lemma WithoutIdempotent(items: seq<Item>, id: int)
    ensures Without(Without(items, id), id) == Without(items, id)
  {
  }

  /** Deleting two ids in either order gives the same list. */
  lemma {:induction false} WithoutCommutes(items: seq<Item>, a: int, b: int)
    ensures Without(Without(items, a), b) == Without(Without(items, b), a)
  {
    if items != [] {
      WithoutCommutes(items[1..], a, b);
    }
  }

  /** Outcome of the DELETE branch on a list. `int(item_id)` is evaluated in
      the comprehension's condition, once per record, so on an empty list a
      missing or malformed id raises nothing and the request succeeds. */
  function DeleteOutcome(items: seq<Item>, idArg: Option<string>): (r: (DeleteStatus, seq<Item>))
    ensures r.0 == ServerError <==> items != [] && PyInt.ParseInt(idArg).None?
    ensures r.0 == ServerError ==> r.1 == items
    ensures r.0 == Removed && items != [] ==>
              forall it :: it in r.1 <==> it in items && it.id != PyInt.ParseInt(idArg).value
    ensures r.0 == Removed && items != [] ==>
              forall it :: multiset(r.1)[it] ==
                if it.id != PyInt.ParseInt(idArg).value then multiset(items)[it] else 0
    ensures r.0 == Removed && items != [] ==> r.1 == Without(items, PyInt.ParseInt(idArg).value)
    ensures IsSubsequence(r.1, items)
  {
    if items == [] then (Removed, [])
    else match PyInt.ParseInt(idArg)
      case None => SubsequenceRefl(items); (ServerError, items)
      case Some(id) => (Removed, Without(items, id))
  }

  /** `id: len(items) + 1` does not give unique ids: after deleting record 1
      of [1, 2], the next POST receives id 2 again. */
  lemma IdsCanCollide(d: string)
    ensures var before := [Item(1, "a", d), Item(2, "b", d)];
            var after := Without(before, 1);
            var next := after + [Item(|after| + 1, "c", d)];
            next[0].id == next[1].id
  {
    var before := [Item(1, "a", d), Item(2, "b", d)];
    assert Without(before, 1) == [Item(2, "b", d)];
  }

  /** The in-memory `data['items']` list of one request. */
  class ItemStore {
    var items: seq<Item>

    /** The snapshot `load_data()` produced. */
    constructor (snapshot: seq<Item>)
      ensures items == snapshot
    {
      items := snapshot;
    }

    /** POST /items with JSON field `item`; `now` is the formatted timestamp. */
    method Post(item: Option<string>, now: string) returns (status: PostStatus)
      modifies this
      ensures Truthy(item) ==> status == Created
      ensures Truthy(item) ==> items == old(items) + [Item(|old(items)| + 1, item.value, now)]
      ensures !Truthy(item) ==> status == NoResponse && items == old(items)
    {
      if Truthy(item) {
        items := items + [Item(|items| + 1, item.value, now)];
        status := Created;
      } else {
        status := NoResponse;
      }
    }

    /** DELETE /items?id=...; `idArg` is `request.args.get('id')`. */
    method Delete(idArg: Option<string>) returns (status: DeleteStatus)
      modifies this
      ensures (status, items) == DeleteOutcome(old(items), idArg)
      ensures status == Removed ==> forall it :: it in items ==> it in old(items)
    {
      var outcome := DeleteOutcome(items, idArg);
      status := outcome.0;
      items := outcome.1;
    }
  }
}
