/**
 * An in-memory stand-in for a MongoDB collection as the application uses it: `insert_one`
 * appends a document and gives it a fresh `_id`, `find_one` returns the first document that
 * matches a filter, and `update_one` changes the first matching document only.
 */
module DocumentStore {
  import opened Wrappers

  /** A document's `_id`. */
  type Oid = nat

  datatype Doc<T> = Doc(id: Oid, body: T)

  /** Index of the first element satisfying `p`, as a scan from the front finds it. */
  function FindFirst<X>(s: seq<X>, p: X -> bool): (r: Option<nat>)
    ensures r.Some? ==> r.value < |s| && p(s[r.value])
    ensures r.Some? ==> forall j :: 0 <= j < r.value ==> !p(s[j])
    ensures r.None? <==> forall j :: 0 <= j < |s| ==> !p(s[j])
  {
    if s == [] then None
    else if p(s[0]) then Some(0)
    else match FindFirst(s[1..], p)
      case None => None
      case Some(i) => Some(i + 1)
  }

  /** `find_one(filter)`: the first matching element, if any. */
  function FindOne<X>(s: seq<X>, p: X -> bool): (r: Option<X>)
    ensures r.Some? <==> exists j :: 0 <= j < |s| && p(s[j])
    ensures r.Some? ==> r.value in s && p(r.value)
    ensures r.Some? ==> FindFirst(s, p).Some? && r.value == s[FindFirst(s, p).value]
  {
    match FindFirst(s, p)
    case None => None
    case Some(i) => Some(s[i])
  }

  /** `update_one(filter, change)`: rewrite the first matching element and keep the rest. */
  function UpdateFirst<X>(s: seq<X>, p: X -> bool, f: X -> X): (r: seq<X>)
    ensures |r| == |s|
    ensures forall i :: 0 <= i < |s| && r[i] != s[i] ==>
      p(s[i]) && forall j :: 0 <= j < i ==> !p(s[j])
    ensures forall i :: 0 <= i < |s| && p(s[i]) && (forall j :: 0 <= j < i ==> !p(s[j])) ==>
      r[i] == f(s[i])
  {
    if s == [] then []
    else if p(s[0]) then [f(s[0])] + s[1..]
    else [s[0]] + UpdateFirst(s[1..], p, f)
  }

  /**
   * `UpdateFirst` changes exactly the element `FindFirst` points at, and nothing when no
   * element matches.
   */
  lemma UpdateFirstSpec<X>(s: seq<X>, p: X -> bool, f: X -> X)
    ensures FindFirst(s, p).None? ==> UpdateFirst(s, p, f) == s
    ensures FindFirst(s, p).Some? ==>
      var i := FindFirst(s, p).value; UpdateFirst(s, p, f) == s[i := f(s[i])]
  {
    var r := UpdateFirst(s, p, f);
    match FindFirst(s, p)
    case None =>
      assert forall k :: 0 <= k < |s| ==> r[k] == s[k];
    case Some(i) =>
      assert forall k :: 0 <= k < |s| ==> r[k] == s[i := f(s[i])][k];
  }

  /** Ids strictly increase along the collection and stay below the next id to hand out. */
  ghost predicate IdsBelow<T>(docs: seq<Doc<T>>, nextId: Oid) {
    && (forall i, j :: 0 <= i < j < |docs| ==> docs[i].id < docs[j].id)
    && (forall i :: 0 <= i < |docs| ==> docs[i].id < nextId)
  }

  /** Increasing ids are unique ids. */
  lemma IdsUnique<T>(docs: seq<Doc<T>>, nextId: Oid, i: int, j: int)
    requires IdsBelow(docs, nextId)
    requires 0 <= i < |docs| && 0 <= j < |docs| && docs[i].id == docs[j].id
    ensures i == j
  {
  }

  /** Replaces a document's body and keeps its `_id`. */
  function SetBody<T>(change: T -> T): Doc<T> -> Doc<T> {
    (d: Doc<T>) => Doc(d.id, change(d.body))
  }

  /** A filter on documents that looks at the body only. */
  function OnBody<T>(matches: T -> bool): Doc<T> -> bool {
    (d: Doc<T>) => matches(d.body)
  }

  /**
   * `update_one` whose filter and `$set` both speak about the body: the first matching
   * document gets the changed body, every other document and every `_id` stays as it was.
   */
  function UpdateBody<T>(docs: seq<Doc<T>>, matches: T -> bool, change: T -> T): (r: seq<Doc<T>>)
    ensures |r| == |docs|
    ensures forall i :: 0 <= i < |r| ==>
      r[i] == if FindFirst(docs, OnBody(matches)) == Some(i) then Doc(docs[i].id, change(docs[i].body)) else docs[i]
  {
    UpdateFirstSpec(docs, OnBody(matches), SetBody(change));
    UpdateFirst(docs, OnBody(matches), SetBody(change))
  }

  class Collection<T> {
    var docs: seq<Doc<T>>
    var nextId: Oid

    ghost predicate Valid()
      reads this
    {
      IdsBelow(docs, nextId)
    }

    constructor ()
      ensures Valid() && docs == []
    {
      docs := [];
      nextId := 0;
    }

    /** `insert_one`: append the document under a fresh `_id` and return that id. */
    method InsertOne(body: T) returns (id: Oid)
      requires Valid()
      modifies this
      ensures Valid()
      ensures id == old(nextId) && docs == old(docs) + [Doc(id, body)] && nextId == old(nextId) + 1
      ensures forall d :: d in old(docs) ==> d.id != id
    {
      id := nextId;
      docs := docs + [Doc(id, body)];
      nextId := nextId + 1;
    }

    /** `update_one`: apply `change` to the body of the first document whose body matches. */
    method UpdateOne(matches: T -> bool, change: T -> T)
      requires Valid()
      modifies this
      ensures Valid() && nextId == old(nextId)
      ensures docs == UpdateBody(old(docs), matches, change)
    {
      docs := UpdateBody(docs, matches, change);
    }
  }
}
