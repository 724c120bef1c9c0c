/** The nested results structure of the regression tests:
    `{ccid: (title, {gid: (url, {probe: outcome})})}`, where the inner map
    of a collection may instead be `{"error": message}`. A Python dict is
    modelled as its (key, value) pairs in insertion order. */
module Results {

  /** The value stored under a granule id. */
  datatype GranuleValue =
    | ErrorText(message: string)                          // under the key "error"
    | Tested(url: string, outcomes: seq<(string, string)>) // (url, {probe: outcome})

  /** The value stored under a collection concept id. */
  datatype CollectionResult = CollectionResult(title: string, granules: seq<(string, GranuleValue)>)

  /** A Python dict has each key once. */
  predicate DistinctKeys<V>(d: seq<(string, V)>)
  {
    forall i, j :: 0 <= i < j < |d| ==> d[i].0 != d[j].0
  }

  predicate HasKey<V>(d: seq<(string, V)>, k: string)
  {
    exists i :: 0 <= i < |d| && d[i].0 == k
  }

  /** The format the report writer expects: the key "error" holds a message,
      every other key a (url, outcomes) pair. */
  predicate WellFormedGranules(gs: seq<(string, GranuleValue)>)
  {
    forall i :: 0 <= i < |gs| ==> (gs[i].0 == "error" <==> gs[i].1.ErrorText?)
  }

  predicate WellFormed(results: seq<(string, CollectionResult)>)
  {
    forall i :: 0 <= i < |results| ==> WellFormedGranules(results[i].1.granules)
  }

  lemma HasKeySnoc<V>(d: seq<(string, V)>, k: string)
    requires d != []
    ensures HasKey(d, k) <==> HasKey(d[..|d| - 1], k) || d[|d| - 1].0 == k
  {
    var init := d[..|d| - 1];
    if HasKey(d, k) {
      var i :| 0 <= i < |d| && d[i].0 == k;
      if i < |init| {
        assert init[i] == d[i];
      }
    }
    if HasKey(init, k) {
      var i :| 0 <= i < |init| && init[i].0 == k;
      assert d[i] == init[i];
    }
  }

  lemma DistinctInit<V>(d: seq<(string, V)>)
    requires d != [] && DistinctKeys(d)
    ensures DistinctKeys(d[..|d| - 1])
    ensures !HasKey(d[..|d| - 1], d[|d| - 1].0)
  {
    var init := d[..|d| - 1];
    forall i, j | 0 <= i < j < |init| ensures init[i].0 != init[j].0 {
      assert init[i] == d[i] && init[j] == d[j];
    }
  }

  lemma WellFormedInit(gs: seq<(string, GranuleValue)>)
    requires gs != [] && WellFormedGranules(gs)
    ensures WellFormedGranules(gs[..|gs| - 1])
    ensures gs[|gs| - 1].0 == "error" <==> gs[|gs| - 1].1.ErrorText?
  {
    var init := gs[..|gs| - 1];
    forall i | 0 <= i < |init| ensures init[i].0 == "error" <==> init[i].1.ErrorText? {
      assert init[i] == gs[i];
    }
  }
}
