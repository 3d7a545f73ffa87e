/**
 * The generic in-memory keyed store: one sequence of records, appended to by
 * `insert`, scanned by the lookups and overwritten at one index by
 * `updateByField`.
 */
module MemoryDataLayers {
  import opened Wrappers
  import opened Records

  /** `Array.prototype.findIndex`: the least index whose element satisfies `p`, or -1. */
  function IndexWhere<T>(s: seq<T>, p: T -> bool): (i: int)
    ensures -1 <= i < |s|
    ensures i == -1 <==> forall j :: 0 <= j < |s| ==> !p(s[j])
    ensures 0 <= i ==> p(s[i]) && forall j :: 0 <= j < i ==> !p(s[j])
  {
    if |s| == 0 then -1
    else if p(s[0]) then 0
    else
      var k := IndexWhere(s[1..], p);
      if k == -1 then -1 else k + 1
  }

  /** `r` keeps some of the elements of `s`, in the order `s` has them. */
  ghost predicate IsSubsequence<T>(r: seq<T>, s: seq<T>)
  {
    r == [] ||
    (s != [] && ((r[0] == s[0] && IsSubsequence(r[1..], s[1..])) || IsSubsequence(r, s[1..])))
  }

  lemma {:induction false} SubsequenceElements<T>(r: seq<T>, s: seq<T>)
    requires IsSubsequence(r, s)
    ensures forall x :: x in r ==> x in s
  {
    if r != [] {
      if r[0] == s[0] && IsSubsequence(r[1..], s[1..]) {
        SubsequenceElements(r[1..], s[1..]);
        assert r == [r[0]] + r[1..];
      } else {
        SubsequenceElements(r, s[1..]);
      }
    }
  }

  /**
   * `Array.prototype.filter`: exactly the elements of `s` that satisfy `p`,
   * each as often as `s` holds it, in the order of `s`.
   */
  function FilterWhere<T(!new)>(s: seq<T>, p: T -> bool): (r: seq<T>)
    ensures forall x :: x in r ==> p(x)
    ensures forall x :: p(x) ==> multiset(r)[x] == multiset(s)[x]
    ensures IsSubsequence(r, s)
  {
    if |s| == 0 then []
    else
      var rest := FilterWhere(s[1..], p);
      assert s == [s[0]] + s[1..];
      if p(s[0]) then
        var r := [s[0]] + rest;
        assert r[1..] == rest;
        r
      else
        assert rest == [] || rest[0] in rest;
        rest
  }

  class InMemoryDataLayer {
    var data: seq<Record>

    constructor ()
      ensures data == []
    {
      data := [];
    }

    /** `insert`: the new records go after the old ones, which stay where they were. */
    method Insert(items: seq<Record>)
      modifies this
      ensures data == old(data) + items
    {
      data := data + items;
    }

    /** `getItems`: the stored records in their current order. */
    function GetItems(): seq<Record>
      reads this
    {
      data
    }

    /** `getItemIndexByField`: the least index whose `f` is `v`, or -1 when none is. */
    function GetItemIndexByField(f: FieldName, v: Value): (i: int)
      reads this
      ensures -1 <= i < |data|
      ensures i == -1 <==> forall j :: 0 <= j < |data| ==> Get(data[j], f) != v
      ensures 0 <= i ==> Get(data[i], f) == v && forall j :: 0 <= j < i ==> Get(data[j], f) != v
    {
      IndexWhere(data, FieldEquals(f, v))
    }

    /** `getItemByField`: the first record whose `f` is `v`, or null when none is. */
    function GetItemByField(f: FieldName, v: Value): (r: Option<Record>)
      reads this
      ensures r.None? <==> forall j :: 0 <= j < |data| ==> Get(data[j], f) != v
      ensures r.Some? ==>
        exists i :: 0 <= i < |data| && data[i] == r.value && Get(data[i], f) == v &&
          forall j :: 0 <= j < i ==> Get(data[j], f) != v
    {
      var i := GetItemIndexByField(f, v);
      if i == -1 then None else Some(data[i])
    }

    /** `getItemListByField`: every record whose `f` is `v`, in stored order. */
    function GetItemListByField(f: FieldName, v: Value): (r: seq<Record>)
      reads this
      ensures forall x :: x in r ==> Get(x, f) == v
      ensures forall x :: Get(x, f) == v ==> multiset(r)[x] == multiset(data)[x]
      ensures IsSubsequence(r, data)
      ensures r == [] <==> forall j :: 0 <= j < |data| ==> Get(data[j], f) != v
    {
      var r := FilterWhere(data, FieldEquals(f, v));
      SubsequenceElements(r, data);
      assert forall j :: 0 <= j < |data| && Get(data[j], f) == v ==> data[j] in multiset(r);
      r
    }

    /**
     * `getItemByRegex`: the first record whose `f` holds a string the pattern
     * matches, or null; a field that is not a string never matches.
     */
    function GetItemByRegex(f: FieldName, pattern: Pattern): (r: Option<Record>)
      reads this
      ensures r.None? <==>
        forall j :: 0 <= j < |data| ==> !(Get(data[j], f).Str? && pattern(Get(data[j], f).s))
      ensures r.Some? ==>
        Get(r.value, f).Str? && pattern(Get(r.value, f).s) &&
        exists i :: 0 <= i < |data| && data[i] == r.value &&
          forall j :: 0 <= j < i ==> !(Get(data[j], f).Str? && pattern(Get(data[j], f).s))
    {
      var i := IndexWhere(data, FieldMatches(f, pattern));
      if i == -1 then None else Some(data[i])
    }

    /**
     * `updateByField`: when no record has `v` in `f`, nothing changes and the
     * result is null; otherwise the first such record, and only it, is
     * replaced by its merge with `patch`, and the merged record is returned.
     */
    method UpdateByField(f: FieldName, v: Value, patch: Record) returns (r: Option<Record>)
      modifies this
      ensures r.None? <==> forall j :: 0 <= j < |old(data)| ==> Get(old(data)[j], f) != v
      ensures r.None? ==> data == old(data)
      ensures r.Some? ==>
        var i := old(GetItemIndexByField(f, v));
        0 <= i < |data| == |old(data)| &&
        data[i] == r.value == Merge(old(data)[i], patch) &&
        forall j :: 0 <= j < |data| && j != i ==> data[j] == old(data)[j]
    {
      var i := GetItemIndexByField(f, v);
      if i == -1 {
        return None;
      }
      data := data[i := Merge(data[i], patch)];
      return Some(data[i]);
    }
  }

  /**
   * After an update whose patch leaves the looked-up field as it was, the
   * lookup by that field finds the merged record at the same index.
   */
  lemma {:induction false} LookupAfterUpdate(s: seq<Record>, f: FieldName, v: Value, patch: Record)
    requires IndexWhere(s, FieldEquals(f, v)) != -1
    requires f !in patch || patch[f] == v
    ensures var i := IndexWhere(s, FieldEquals(f, v));
      IndexWhere(s[i := Merge(s[i], patch)], FieldEquals(f, v)) == i
  {
    var i := IndexWhere(s, FieldEquals(f, v));
    var t := s[i := Merge(s[i], patch)];
    assert FieldEquals(f, v)(t[i]);
  }

  /** `insert` then `getItems`: every inserted record is listed, after the old ones. */
  method InsertedItemsAreListed(store: InMemoryDataLayer, items: seq<Record>)
    modifies store
    ensures old(store.GetItems()) <= store.GetItems()
    ensures forall x :: x in items ==> x in store.GetItems()
  {
    store.Insert(items);
    assert forall x :: x in items ==> x in store.data[|old(store.data)|..];
  }

  /**
   * `updateByField` then `getItemByField` on the same unpatched key: the
   * update's result is what the lookup returns, and it carries the patch.
   */
  method UpdateThenGetByField(store: InMemoryDataLayer, f: FieldName, v: Value, patch: Record)
    returns (updated: Option<Record>, found: Option<Record>)
    requires f !in patch
    modifies store
    ensures updated == found
    ensures updated.Some? ==> forall k :: k in patch ==> Get(updated.value, k) == patch[k]
  {
    ghost var before := store.data;
    ghost var i := store.GetItemIndexByField(f, v);
    updated := store.UpdateByField(f, v, patch);
    if updated.Some? {
      LookupAfterUpdate(before, f, v, patch);
      assert store.data == before[i := Merge(before[i], patch)];
      assert store.GetItemIndexByField(f, v) == i;
    }
    found := store.GetItemByField(f, v);
  }
}
