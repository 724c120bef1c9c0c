/** test_one_collection: look up the first and last granule of a collection
    in the catalogue and run the OPeNDAP probes on each, one granule after
    the other. The catalogue lookup and the probe runner are inputs. */
module OneCollection {
  import opened Results

  /** The catalogue lookup: the CMRException it raised, any other exception
      it raised, or the dict `{gid: (granule title, OPeNDAP url)}` it
      returned. */
  datatype Lookup =
    | CmrException(message: string)
    | OtherException
    | FirstLast(granules: seq<(string, (string, string))>)

  /** How test_one_collection ends: it returns the results dict, or an
      exception it does not catch passes through it to the caller. */
  datatype Completion =
    | Returned(value: seq<(string, CollectionResult)>)
    | Propagated

  /** The probe runner on one url: it raised, or returned `{probe: outcome}`. */
  datatype Probe = Raised | Outcomes(results: seq<(string, string)>)

  /** The granules the loop stores, in the order it visits them: those whose
      probe run did not raise, each with its url and outcomes. */
  function Collect(gs: seq<(string, (string, string))>, runner: string -> Probe): seq<(string, GranuleValue)>
    decreases |gs|
  {
    if gs == [] then []
    else
      var last := gs[|gs| - 1];
      Collect(gs[..|gs| - 1], runner) +
      match runner(last.1.1)
      case Raised => []
      case Outcomes(o) => [(last.0, Tested(last.1.1, o))]
  }

  method TestOneCollection(ccid: string, title: string, lookup: Lookup, runner: string -> Probe)
    returns (r: Completion)
    requires lookup.FirstLast? ==> DistinctKeys(lookup.granules)
    ensures r.Propagated? <==> lookup.OtherException?
    ensures r.Returned? ==>
      |r.value| == 1 && r.value[0].0 == ccid && r.value[0].1.title == title && DistinctKeys(r.value[0].1.granules)
    ensures lookup.CmrException? ==> r == Returned([(ccid, CollectionResult(title, [("error", ErrorText(lookup.message))]))])
    ensures lookup.FirstLast? ==> r == Returned([(ccid, CollectionResult(title, Collect(lookup.granules, runner)))])
  {
    match lookup
    case CmrException(message) =>
      r := Returned([(ccid, CollectionResult(title, [("error", ErrorText(message))]))]);
    case OtherException =>
      r := Propagated;
    case FirstLast(gs) =>
      var collected: seq<(string, GranuleValue)> := [];
      var i := 0;
      while i < |gs|
        invariant 0 <= i <= |gs|
        invariant collected == Collect(gs[..i], runner)
      {
        var gid := gs[i].0;
        var url := gs[i].1.1;
        var outcome := runner(url);
        if outcome.Outcomes? {
          collected := collected + [(gid, Tested(url, outcome.results))];
        }
        assert gs[..i + 1][..i] == gs[..i];
        i := i + 1;
      }
      assert gs[..i] == gs;
      CollectDistinct(gs, runner);
      r := Returned([(ccid, CollectionResult(title, collected))]);
  }

  /** Every stored granule is one the catalogue returned, stored with that
      granule's url and the outcomes its probe run returned. */
  lemma {:induction false} CollectFromLookup(gs: seq<(string, (string, string))>, runner: string -> Probe)
    ensures forall p <- Collect(gs, runner) ::
      exists q <- gs :: q.0 == p.0 && runner(q.1.1).Outcomes? && p.1 == Tested(q.1.1, runner(q.1.1).results)
    decreases |gs|
  {
    if gs != [] {
      var init := gs[..|gs| - 1];
      CollectFromLookup(init, runner);
      forall q <- init ensures q in gs {
        var k :| 0 <= k < |init| && init[k] == q;
        assert gs[k] == q;
      }
      assert gs[|gs| - 1] in gs;
    }
  }

  /** The stored keys are the granules whose probe run did not raise. */
  lemma {:induction false} CollectKeys(gs: seq<(string, (string, string))>, runner: string -> Probe)
    requires DistinctKeys(gs)
    ensures forall i :: 0 <= i < |gs| ==> (HasKey(Collect(gs, runner), gs[i].0) <==> runner(gs[i].1.1).Outcomes?)
    decreases |gs|
  {
    if gs != [] {
      var init := gs[..|gs| - 1];
      var c := Collect(gs, runner);
      CollectKeys(init, runner);
      CollectFromLookup(init, runner);
      forall i | 0 <= i < |gs| ensures HasKey(c, gs[i].0) <==> runner(gs[i].1.1).Outcomes? {
        var ci := Collect(init, runner);
        if i < |gs| - 1 {
          assert gs[i] == init[i];
          if HasKey(ci, gs[i].0) {
            var k :| 0 <= k < |ci| && ci[k].0 == gs[i].0;
            assert c[k] == ci[k];
          }
        } else {
          if runner(gs[i].1.1).Outcomes? {
            assert c[|ci|].0 == gs[i].0;
          }
        }
      }
    }
  }

  /** The stored dict has each granule id once. */
  lemma {:induction false} CollectDistinct(gs: seq<(string, (string, string))>, runner: string -> Probe)
    requires DistinctKeys(gs)
    ensures DistinctKeys(Collect(gs, runner))
    decreases |gs|
  {
    if gs != [] {
      var init := gs[..|gs| - 1];
      var ci := Collect(init, runner);
      var c := Collect(gs, runner);
      CollectDistinct(init, runner);
      CollectFromLookup(init, runner);
      if runner(gs[|gs| - 1].1.1).Outcomes? {
        forall i, j | 0 <= i < j < |c| ensures c[i].0 != c[j].0 {
          if j == |ci| {
            assert c[i] == ci[i] && ci[i] in ci;
            var q :| q in init && q.0 == ci[i].0;
            var m :| 0 <= m < |init| && init[m] == q;
            assert gs[m].0 == q.0;
          } else {
            assert c[i] == ci[i] && c[j] == ci[j];
          }
        }
      }
    }
  }

  /** Unless a granule id is "error" itself, the result has the format the
      report writer expects. */
  lemma {:induction false} CollectWellFormed(gs: seq<(string, (string, string))>, runner: string -> Probe)
    requires forall q <- gs :: q.0 != "error"
    ensures WellFormedGranules(Collect(gs, runner))
  {
    CollectFromLookup(gs, runner);
    var c := Collect(gs, runner);
    forall i | 0 <= i < |c| ensures c[i].0 != "error" && c[i].1.Tested? {
      assert c[i] in c;
    }
  }
}
