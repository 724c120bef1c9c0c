/** What the regression report promises about the results it is built from. */
module ReportLaws {
  import opened Results
  import opened Report

  // ---------------------------------------------------------------------
  // Reference counts, by recursion from the front

  /** The number of outcomes that are not "NA". */
  function NotNA(outcomes: seq<(string, string)>): nat
    decreases |outcomes|
  {
    if outcomes == [] then 0 else (if outcomes[0].1 != "NA" then 1 else 0) + NotNA(outcomes[1..])
  }

  /** The number of non-NA outcomes over every granule of a collection. */
  function NotNAOverGranules(gs: seq<(string, GranuleValue)>): nat
    decreases |gs|
  {
    if gs == [] then 0
    else (if gs[0].0 != "error" && gs[0].1.Tested? then NotNA(gs[0].1.outcomes) else 0) + NotNAOverGranules(gs[1..])
  }

  function CountTests(cs: seq<ReportChild>): nat
    decreases |cs|
  {
    if cs == [] then 0 else (if cs[0].TestElement? then 1 else 0) + CountTests(cs[1..])
  }

  function CountErrors(cs: seq<ReportChild>): nat
    decreases |cs|
  {
    if cs == [] then 0 else (if cs[0].ErrorElement? then 1 else 0) + CountErrors(cs[1..])
  }

  lemma {:induction false} CountsConcat(a: seq<ReportChild>, b: seq<ReportChild>)
    ensures CountTests(a + b) == CountTests(a) + CountTests(b)
    ensures CountErrors(a + b) == CountErrors(a) + CountErrors(b)
    decreases |a|
  {
    if a != [] {
      CountsConcat(a[1..], b);
      assert (a + b)[0] == a[0] && (a + b)[1..] == a[1..] + b;
    } else {
      assert a + b == b;
    }
  }

  lemma {:induction false} NotNASnoc(outcomes: seq<(string, string)>)
    requires outcomes != []
    ensures NotNA(outcomes) == NotNA(outcomes[..|outcomes| - 1]) + (if outcomes[|outcomes| - 1].1 != "NA" then 1 else 0)
    decreases |outcomes|
  {
    if |outcomes| > 1 {
      NotNASnoc(outcomes[1..]);
      assert outcomes[1..][..|outcomes[1..]| - 1] == outcomes[..|outcomes| - 1][1..];
    }
  }

  lemma {:induction false} NotNAOverGranulesSnoc(gs: seq<(string, GranuleValue)>)
    requires gs != []
    ensures NotNAOverGranules(gs) == NotNAOverGranules(gs[..|gs| - 1]) +
      (if gs[|gs| - 1].0 != "error" && gs[|gs| - 1].1.Tested? then NotNA(gs[|gs| - 1].1.outcomes) else 0)
    decreases |gs|
  {
    if |gs| > 1 {
      NotNAOverGranulesSnoc(gs[1..]);
      assert gs[1..][..|gs[1..]| - 1] == gs[..|gs| - 1][1..];
    }
  }

  // ---------------------------------------------------------------------
  // Collections

  /** One Collection element per ccid, in the order of `results`, carrying the
      ccid and the title. */
  lemma {:induction false} CollectionPerCcid(results: seq<(string, CollectionResult)>)
    requires WellFormed(results)
    ensures |Collections(results)| == |results|
    ensures forall i :: 0 <= i < |results| ==>
      Collections(results)[i].ccid == results[i].0 &&
      Collections(results)[i].longName == results[i].1.title &&
      Collections(results)[i].children == CollectionChildren(results[i].1.granules)
    decreases |results|
  {
    if results != [] {
      var init := results[..|results| - 1];
      var last := results[|results| - 1];
      assert WellFormed(init) by {
        forall i | 0 <= i < |init| ensures WellFormedGranules(init[i].1.granules) {
          assert init[i] == results[i];
        }
      }
      CollectionPerCcid(init);
      assert WellFormedGranules(last.1.granules);
      var cs := Collections(results);
      assert cs == Collections(init) + [CollectionElement(last.0, last.1.title, CollectionChildren(last.1.granules))];
      forall i | 0 <= i < |results|
        ensures cs[i].ccid == results[i].0 && cs[i].longName == results[i].1.title
             && cs[i].children == CollectionChildren(results[i].1.granules)
      {
        if i < |init| {
          assert cs[i] == Collections(init)[i] && results[i] == init[i];
        }
      }
    }
  }

  /** The root element names the provider. */
  lemma DocumentNamesProvider(provider: string, stamp: string, results: seq<(string, CollectionResult)>)
    requires WellFormed(results)
    ensures Document(provider, stamp, results).name == provider
    ensures Document(provider, stamp, results).date == stamp
    ensures |Document(provider, stamp, results).collections| == |results|
  {
    CollectionPerCcid(results);
  }

  // ---------------------------------------------------------------------
  // Test elements

  /** A granule's Test elements are its non-NA outcomes, with its url. */
  lemma {:induction false} TestElementsAre(url: string, outcomes: seq<(string, string)>)
    ensures CountTests(TestElements(url, outcomes)) == |TestElements(url, outcomes)| == NotNA(outcomes)
    ensures forall c <- TestElements(url, outcomes) :: c.TestElement? && c.url == url && c.result != "NA"
    ensures forall n, u, r :: TestElement(n, u, r) in TestElements(url, outcomes) <==>
      u == url && r != "NA" && (n, r) in outcomes
    decreases |outcomes|
  {
    if outcomes != [] {
      var init := outcomes[..|outcomes| - 1];
      var last := outcomes[|outcomes| - 1];
      var tail: seq<ReportChild> := if last.1 != "NA" then [TestElement(last.0, url, last.1)] else [];
      TestElementsAre(url, init);
      NotNASnoc(outcomes);
      CountsConcat(TestElements(url, init), tail);
      assert outcomes == init + [last];
      forall n, u, r ensures TestElement(n, u, r) in TestElements(url, outcomes) <==>
        u == url && r != "NA" && (n, r) in outcomes
      {
        assert (n, r) in outcomes <==> (n, r) in init || (n, r) == last;
      }
    }
  }

  /** The Test elements of a collection: as many as its non-NA outcomes. */
  lemma {:induction false} TestCount(gs: seq<(string, GranuleValue)>)
    requires WellFormedGranules(gs)
    ensures CountTests(CollectionChildren(gs)) == NotNAOverGranules(gs)
    decreases |gs|
  {
    if gs != [] {
      var init := gs[..|gs| - 1];
      var last := gs[|gs| - 1];
      WellFormedInit(gs);
      TestCount(init);
      NotNAOverGranulesSnoc(gs);
      CountsConcat(CollectionChildren(init), GranuleElements(last.0, last.1));
      if last.0 != "error" {
        TestElementsAre(last.1.url, last.1.outcomes);
      }
    }
  }

  /** Granule entry `g` has outcome `r` for probe `n`, at url `u`. */
  predicate HasOutcome(g: (string, GranuleValue), n: string, u: string, r: string)
  {
    g.0 != "error" && g.1.Tested? && g.1.url == u && (n, r) in g.1.outcomes
  }

  lemma TestInGranule(g: (string, GranuleValue), n: string, u: string, r: string)
    requires g.0 == "error" <==> g.1.ErrorText?
    ensures TestElement(n, u, r) in GranuleElements(g.0, g.1) <==> r != "NA" && HasOutcome(g, n, u, r)
  {
    if g.0 != "error" {
      TestElementsAre(g.1.url, g.1.outcomes);
    }
  }

  predicate SomeOutcome(gs: seq<(string, GranuleValue)>, n: string, u: string, r: string)
  {
    exists i :: 0 <= i < |gs| && HasOutcome(gs[i], n, u, r)
  }

  lemma SomeOutcomeSnoc(gs: seq<(string, GranuleValue)>, n: string, u: string, r: string)
    requires gs != []
    ensures SomeOutcome(gs, n, u, r) <==> SomeOutcome(gs[..|gs| - 1], n, u, r) || HasOutcome(gs[|gs| - 1], n, u, r)
  {
    var init := gs[..|gs| - 1];
    if SomeOutcome(gs, n, u, r) {
      var i :| 0 <= i < |gs| && HasOutcome(gs[i], n, u, r);
      if i < |gs| - 1 {
        assert init[i] == gs[i];
      }
    }
    if SomeOutcome(init, n, u, r) {
      var i :| 0 <= i < |init| && HasOutcome(init[i], n, u, r);
      assert gs[i] == init[i];
    }
  }

  /** A Test element stands for a granule (not the "error" entry), its url,
      and one of its probes whose outcome is not NA, and every such triple
      has its Test element. */
  lemma {:induction false} TestIff(gs: seq<(string, GranuleValue)>, n: string, u: string, r: string)
    requires WellFormedGranules(gs)
    ensures TestElement(n, u, r) in CollectionChildren(gs) <==>
      r != "NA" && exists i :: 0 <= i < |gs| && HasOutcome(gs[i], n, u, r)
    decreases |gs|
  {
    if gs != [] {
      var init := gs[..|gs| - 1];
      var last := gs[|gs| - 1];
      WellFormedInit(gs);
      TestIff(init, n, u, r);
      TestInGranule(last, n, u, r);
      SomeOutcomeSnoc(gs, n, u, r);
      assert CollectionChildren(gs) == CollectionChildren(init) + GranuleElements(last.0, last.1);
    }
  }

  // ---------------------------------------------------------------------
  // Error elements

  /** An Error element carries the message stored under "error", and every
      such message has its Error element. */
  lemma {:induction false} ErrorIff(gs: seq<(string, GranuleValue)>, m: string)
    requires WellFormedGranules(gs)
    ensures ErrorElement(m) in CollectionChildren(gs) <==> ("error", ErrorText(m)) in gs
    decreases |gs|
  {
    if gs != [] {
      var init := gs[..|gs| - 1];
      var last := gs[|gs| - 1];
      WellFormedInit(gs);
      ErrorIff(init, m);
      assert gs == init + [last];
      if last.0 != "error" {
        TestElementsAre(last.1.url, last.1.outcomes);
        assert ErrorElement(m) !in GranuleElements(last.0, last.1);
      }
    }
  }

  /** A collection has exactly one Error element when its dict has the key
      "error", and none otherwise. */
  lemma {:induction false} ErrorCount(gs: seq<(string, GranuleValue)>)
    requires WellFormedGranules(gs) && DistinctKeys(gs)
    ensures CountErrors(CollectionChildren(gs)) == if HasKey(gs, "error") then 1 else 0
    decreases |gs|
  {
    if gs != [] {
      var init := gs[..|gs| - 1];
      var last := gs[|gs| - 1];
      WellFormedInit(gs);
      DistinctInit(gs);
      HasKeySnoc(gs, "error");
      ErrorCount(init);
      ErrorsOfGranule(last.0, last.1);
      CountsConcat(CollectionChildren(init), GranuleElements(last.0, last.1));
    }
  }

  lemma ErrorsOfGranule(gid: string, tests: GranuleValue)
    requires gid == "error" <==> tests.ErrorText?
    ensures CountErrors(GranuleElements(gid, tests)) == if gid == "error" then 1 else 0
  {
    if gid != "error" {
      TestElementsAre(tests.url, tests.outcomes);
      ErrorsInTests(TestElements(tests.url, tests.outcomes));
    } else {
      assert GranuleElements(gid, tests)[1..] == [];
    }
  }

  lemma {:induction false} ErrorsInTests(cs: seq<ReportChild>)
    requires forall c <- cs :: c.TestElement?
    ensures CountErrors(cs) == 0
    decreases |cs|
  {
    if cs != [] {
      assert cs[0] in cs;
      ErrorsInTests(cs[1..]);
    }
  }

  // ---------------------------------------------------------------------
  // The file name

  function Pow10(w: nat): nat
  {
    if w == 0 then 1 else 10 * Pow10(w - 1)
  }

  lemma {:induction false} PaddedValue(n: nat, w: nat)
    requires n < Pow10(w)
    ensures Value(Padded(n, w)) == n
    decreases w
  {
    if w > 0 {
      PaddedValue(n / 10, w - 1);
      var s := Padded(n, w);
      assert s[..|s| - 1] == Padded(n / 10, w - 1);
    }
  }

  /** The date in the file name reads back as the date it was made from. */
  lemma DateRoundTrip(d: Date)
    requires ValidDate(d)
    ensures |DateText(d)| == 10
    ensures ParseDate(DateText(d)) == Some(d)
  {
    var s := DateText(d);
    assert s[..2] == Padded(d.month, 2);
    assert s[3..5] == Padded(d.day, 2);
    assert s[6..] == Padded(d.year, 4);
    assert Pow10(2) == 100 && Pow10(4) == 10000;
    PaddedValue(d.month, 2);
    PaddedValue(d.day, 2);
    PaddedValue(d.year, 4);
  }

  /** The file name is the provider, a dash, the date read back unchanged, a
      dash, the version and ".xml". */
  lemma FileNameLayout(provider: string, d: Date, version: string)
    requires ValidDate(d)
    ensures var f := FileName(provider, d, version);
      var p := |provider|;
      |f| == p + |version| + 16 &&
      f[..p] == provider && f[p] == '-' && f[p + 11] == '-' &&
      ParseDate(f[p + 1..p + 11]) == Some(d) &&
      f[p + 12..|f| - 4] == version && f[|f| - 4..] == ".xml"
  {
    DateRoundTrip(d);
    var f := FileName(provider, d, version);
    var p := |provider|;
    assert f[p + 1..p + 11] == DateText(d);
  }

  /** Different dates give different file names. */
  lemma FileNameInjective(provider: string, d1: Date, d2: Date, version: string)
    requires ValidDate(d1) && ValidDate(d2)
    requires FileName(provider, d1, version) == FileName(provider, d2, version)
    ensures d1 == d2
  {
    FileNameLayout(provider, d1, version);
    FileNameLayout(provider, d2, version);
  }
}
