/**
 * `indexArray`: a reduce of an array into a dictionary, keyed by what an
 * indexer gives each element and holding the element itself or what a
 * reducer makes of it.
 *
 * The indexer is `indexer(current, arr, index)`; the `path` option the source
 * also passes it is the same on every call and is part of the indexer here.
 * The default indexer is not modelled: the caller supplies the indexer.
 */
module UtilFns {

  type Indexer<-T> = (T, seq<T>, nat) -> string

  type Reducer<-T, R> = (T, seq<T>, nat) -> R

  /** The key the indexer gives element `i`. */
  function KeyAt<T>(arr: seq<T>, indexer: Indexer<T>, i: nat): string
    requires i < |arr|
  {
    indexer(arr[i], arr, i)
  }

  /** The accumulator after the callback has run on the first `n` elements. */
  function Indexed<T, R>(arr: seq<T>, indexer: Indexer<T>, reducer: Reducer<T, R>, n: nat): map<string, R>
    requires n <= |arr|
  {
    if n == 0 then map[]
    else Indexed(arr, indexer, reducer, n - 1)[KeyAt(arr, indexer, n - 1) := reducer(arr[n - 1], arr, n - 1)]
  }

  /** The keys are exactly the keys of the elements seen. */
  lemma {:induction false} IndexedKeys<T, R>(arr: seq<T>, indexer: Indexer<T>, reducer: Reducer<T, R>, n: nat)
    requires n <= |arr|
    ensures Indexed(arr, indexer, reducer, n).Keys == set i | 0 <= i < n :: KeyAt(arr, indexer, i)
  {
    if n > 0 {
      IndexedKeys(arr, indexer, reducer, n - 1);
      assert (set i | 0 <= i < n :: KeyAt(arr, indexer, i))
        == (set i | 0 <= i < n - 1 :: KeyAt(arr, indexer, i)) + {KeyAt(arr, indexer, n - 1)};
    }
  }

  /** There are never more keys than elements seen. */
  lemma {:induction false} IndexedSize<T, R>(arr: seq<T>, indexer: Indexer<T>, reducer: Reducer<T, R>, n: nat)
    requires n <= |arr|
    ensures |Indexed(arr, indexer, reducer, n)| <= n
  {
    if n > 0 {
      var m := Indexed(arr, indexer, reducer, n - 1);
      IndexedSize(arr, indexer, reducer, n - 1);
      if KeyAt(arr, indexer, n - 1) in m {
        assert |Indexed(arr, indexer, reducer, n)| == |m|;
      }
    }
  }

  /** The last element with a key wins: its value is the one stored under that key. */
  lemma {:induction false} IndexedLastWins<T, R>(arr: seq<T>, indexer: Indexer<T>, reducer: Reducer<T, R>, n: nat, i: nat)
    requires i < n <= |arr|
    requires forall j :: i < j < n ==> KeyAt(arr, indexer, j) != KeyAt(arr, indexer, i)
    ensures KeyAt(arr, indexer, i) in Indexed(arr, indexer, reducer, n)
    ensures Indexed(arr, indexer, reducer, n)[KeyAt(arr, indexer, i)] == reducer(arr[i], arr, i)
  {
    if i < n - 1 {
      IndexedLastWins(arr, indexer, reducer, n - 1, i);
    }
  }

  /** When no two elements share a key, there are as many keys as elements. */
  lemma {:induction false} IndexedDistinctKeys<T, R>(arr: seq<T>, indexer: Indexer<T>, reducer: Reducer<T, R>, n: nat)
    requires n <= |arr|
    requires forall i, j :: 0 <= i < j < n ==> KeyAt(arr, indexer, i) != KeyAt(arr, indexer, j)
    ensures |Indexed(arr, indexer, reducer, n)| == n
  {
    if n > 0 {
      var m := Indexed(arr, indexer, reducer, n - 1);
      IndexedDistinctKeys(arr, indexer, reducer, n - 1);
      IndexedKeys(arr, indexer, reducer, n - 1);
      assert KeyAt(arr, indexer, n - 1) !in m.Keys;
    }
  }

  /**
   * Without a reducer, when only equal elements share a key (the helpers'
   * "a unique string for each unique item"), each element's key leads back
   * to that element.
   */
  lemma {:induction false} IndexedFindsElement<T>(arr: seq<T>, indexer: Indexer<T>, n: nat, i: nat)
    requires i < n <= |arr|
    requires forall j, k :: 0 <= j < n && 0 <= k < n && KeyAt(arr, indexer, j) == KeyAt(arr, indexer, k) ==> arr[j] == arr[k]
    ensures KeyAt(arr, indexer, i) in Indexed(arr, indexer, (x: T, a: seq<T>, k: nat) => x, n)
    ensures Indexed(arr, indexer, (x: T, a: seq<T>, k: nat) => x, n)[KeyAt(arr, indexer, i)] == arr[i]
  {
    if KeyAt(arr, indexer, n - 1) != KeyAt(arr, indexer, i) {
      IndexedFindsElement(arr, indexer, n - 1, i);
    }
  }

  /**
   * `indexArray` with a reducer: one key per element's key, and under each key
   * the reducer's value for the last element that has it.
   */
  method IndexArrayWith<T, R>(arr: seq<T>, indexer: Indexer<T>, reducer: Reducer<T, R>) returns (result: map<string, R>)
    ensures result == Indexed(arr, indexer, reducer, |arr|)
    ensures result.Keys == set i | 0 <= i < |arr| :: KeyAt(arr, indexer, i)
    ensures |result| <= |arr|
    ensures forall i ::
      (0 <= i < |arr| && forall j :: i < j < |arr| ==> KeyAt(arr, indexer, j) != KeyAt(arr, indexer, i))
      ==> result[KeyAt(arr, indexer, i)] == reducer(arr[i], arr, i)
  {
    result := map[];
    for n := 0 to |arr|
      invariant result == Indexed(arr, indexer, reducer, n)
    {
      var key := indexer(arr[n], arr, n);
      result := result[key := reducer(arr[n], arr, n)];
    }
    IndexedKeys(arr, indexer, reducer, |arr|);
    IndexedSize(arr, indexer, reducer, |arr|);
    forall i | 0 <= i < |arr| && (forall j :: i < j < |arr| ==> KeyAt(arr, indexer, j) != KeyAt(arr, indexer, i))
      ensures result[KeyAt(arr, indexer, i)] == reducer(arr[i], arr, i)
    {
      IndexedLastWins(arr, indexer, reducer, |arr|, i);
    }
  }

  /**
   * `indexArray` without a reducer: the keys are the elements' keys, under
   * each key lies the last element that has it, and when only equal elements
   * share a key, each element's key holds that element.
   */
  method IndexArray<T>(arr: seq<T>, indexer: Indexer<T>) returns (result: map<string, T>)
    ensures result == Indexed(arr, indexer, (x: T, a: seq<T>, k: nat) => x, |arr|)
    ensures result.Keys == set i | 0 <= i < |arr| :: KeyAt(arr, indexer, i)
    ensures |result| <= |arr|
    ensures forall i ::
      (0 <= i < |arr| && forall j :: i < j < |arr| ==> KeyAt(arr, indexer, j) != KeyAt(arr, indexer, i))
      ==> result[KeyAt(arr, indexer, i)] == arr[i]
    ensures (forall j, k :: 0 <= j < |arr| && 0 <= k < |arr| && KeyAt(arr, indexer, j) == KeyAt(arr, indexer, k) ==> arr[j] == arr[k])
      ==> forall i :: 0 <= i < |arr| ==> result[KeyAt(arr, indexer, i)] == arr[i]
    ensures (forall j, k :: 0 <= j < k < |arr| ==> KeyAt(arr, indexer, j) != KeyAt(arr, indexer, k))
      ==> |result| == |arr|
  {
    var itself := (x: T, a: seq<T>, k: nat) => x;
    result := IndexArrayWith(arr, indexer, itself);
    if forall j, k :: 0 <= j < |arr| && 0 <= k < |arr| && KeyAt(arr, indexer, j) == KeyAt(arr, indexer, k) ==> arr[j] == arr[k] {
      forall i | 0 <= i < |arr|
        ensures result[KeyAt(arr, indexer, i)] == arr[i]
      {
        IndexedFindsElement(arr, indexer, |arr|, i);
      }
    }
    if forall j, k :: 0 <= j < k < |arr| ==> KeyAt(arr, indexer, j) != KeyAt(arr, indexer, k) {
      IndexedDistinctKeys(arr, indexer, itself, |arr|);
    }
  }
}
