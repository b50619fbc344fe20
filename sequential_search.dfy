/**
 * The linear search over the records read from a data file: the records
 * are visited in order, one comparison of the first field per record,
 * until one carries the key.
 */
module SequentialSearch {
  import opened Wrappers

  /** A record whose first field is its key. */
  type Record<K, V> = (K, V)

  /**
   * The first record whose key is `key`, with the number of records
   * compared: its 1-based position when found, the length of the list
   * when not.
   */
  method Search<K(==), V>(items: seq<Record<K, V>>, key: K) returns (found: Option<Record<K, V>>, comp: nat)
    ensures found.Some? ==> 1 <= comp <= |items| && found.value == items[comp - 1] && found.value.0 == key
    ensures found.Some? ==> forall j :: 0 <= j < comp - 1 ==> items[j].0 != key
    ensures found.None? ==> comp == |items|
    ensures found.None? <==> forall j :: 0 <= j < |items| ==> items[j].0 != key
  {
    comp := 0;
    while comp < |items|
      invariant 0 <= comp <= |items|
      invariant forall j :: 0 <= j < comp ==> items[j].0 != key
    {
      var item := items[comp];
      comp := comp + 1;
      if item.0 == key {
        return Some(item), comp;
      }
    }
    found := None;
  }
}
