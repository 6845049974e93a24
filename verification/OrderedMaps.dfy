/** Range queries on the keys of an ordered map with integer keys. */
module OrderedMaps {
  import opened Wrappers

  method Pick<T>(keys: set<T>) returns (k: T)
    requires keys != {}
    ensures k in keys
  {
    k :| k in keys;
  }

  /** The greatest key at or before `bound`. */
  method LastAtMost(keys: set<int>, bound: int) returns (r: Option<int>)
    ensures r.Some? ==> r.value in keys && r.value <= bound
    ensures r.Some? ==> forall k :: k in keys && k <= bound ==> k <= r.value
    ensures r.None? ==> forall k :: k in keys ==> k > bound
  {
    r := None;
    var rest := keys;
    while rest != {}
      invariant rest <= keys
      invariant r.Some? ==> r.value in keys && r.value <= bound
      invariant r.Some? ==> forall k :: k in keys && k !in rest && k <= bound ==> k <= r.value
      invariant r.None? ==> forall k :: k in keys && k !in rest ==> k > bound
      decreases rest
    {
      var k := Pick(rest);
      rest := rest - {k};
      if k <= bound && (r.None? || r.value < k) {
        r := Some(k);
      }
    }
  }

  /** The least key at or after `bound`. */
  method FirstAtLeast(keys: set<int>, bound: int) returns (r: Option<int>)
    ensures r.Some? ==> r.value in keys && bound <= r.value
    ensures r.Some? ==> forall k :: k in keys && bound <= k ==> r.value <= k
    ensures r.None? ==> forall k :: k in keys ==> k < bound
  {
    r := None;
    var rest := keys;
    while rest != {}
      invariant rest <= keys
      invariant r.Some? ==> r.value in keys && bound <= r.value
      invariant r.Some? ==> forall k :: k in keys && k !in rest && bound <= k ==> r.value <= k
      invariant r.None? ==> forall k :: k in keys && k !in rest ==> k < bound
      decreases rest
    {
      var k := Pick(rest);
      rest := rest - {k};
      if bound <= k && (r.None? || k < r.value) {
        r := Some(k);
      }
    }
  }
}
