/** write_xml_document: the XML report of a regression run, and the name of
    the file it goes to. The document is modelled as its element tree; the
    clock readings (the `date` attribute and the date in the file name) are
    inputs. */
module Report {
  import opened Results

  /** A child of a Collection element. */
  datatype ReportChild =
    | ErrorElement(message: string)
    | TestElement(name: string, url: string, result: string)

  datatype CollectionElement = CollectionElement(ccid: string, longName: string, children: seq<ReportChild>)

  /** The root element. */
  datatype ProviderElement = ProviderElement(name: string, date: string, collections: seq<CollectionElement>)

  // ---------------------------------------------------------------------
  // The document the loops build

  /** The Test elements for one granule's outcomes, the NA ones left out. */
  function TestElements(url: string, outcomes: seq<(string, string)>): seq<ReportChild>
    decreases |outcomes|
  {
    if outcomes == [] then []
    else
      var last := outcomes[|outcomes| - 1];
      TestElements(url, outcomes[..|outcomes| - 1]) +
      (if last.1 != "NA" then [TestElement(last.0, url, last.1)] else [])
  }

  /** The elements for one entry of a collection's inner dict. */
  function GranuleElements(gid: string, tests: GranuleValue): seq<ReportChild>
    requires gid == "error" <==> tests.ErrorText?
  {
    if gid == "error" then [ErrorElement(tests.message)] else TestElements(tests.url, tests.outcomes)
  }

  function CollectionChildren(gs: seq<(string, GranuleValue)>): seq<ReportChild>
    requires WellFormedGranules(gs)
    decreases |gs|
  {
    if gs == [] then []
    else
      var last := gs[|gs| - 1];
      assert last == gs[|gs| - 1];
      CollectionChildren(gs[..|gs| - 1]) + GranuleElements(last.0, last.1)
  }

  function Collections(results: seq<(string, CollectionResult)>): seq<CollectionElement>
    requires WellFormed(results)
    decreases |results|
  {
    if results == [] then []
    else
      var last := results[|results| - 1];
      assert WellFormedGranules(results[|results| - 1].1.granules);
      Collections(results[..|results| - 1]) +
      [CollectionElement(last.0, last.1.title, CollectionChildren(last.1.granules))]
  }

  function Document(provider: string, stamp: string, results: seq<(string, CollectionResult)>): ProviderElement
    requires WellFormed(results)
  {
    ProviderElement(provider, stamp, Collections(results))
  }

  // ---------------------------------------------------------------------
  // The file name

  /** A calendar date, as time.strftime reads it from the clock. */
  datatype Date = Date(year: nat, month: nat, day: nat)

  predicate ValidDate(d: Date)
  {
    1000 <= d.year <= 9999 && 1 <= d.month <= 12 && 1 <= d.day <= 31
  }

  function Digit(n: nat): char
    requires n < 10
  {
    ('0' as int + n) as char
  }

  /** `n` in decimal, as `width` digits with leading zeros. */
  function Padded(n: nat, width: nat): (s: string)
    ensures |s| == width
    ensures AllDigits(s)
  {
    if width == 0 then [] else Padded(n / 10, width - 1) + [Digit(n % 10)]
  }

  predicate AllDigits(s: string)
  {
    forall i :: 0 <= i < |s| ==> '0' <= s[i] <= '9'
  }

  /** The decimal value of a string of digits. */
  function Value(s: string): nat
    requires AllDigits(s)
  {
    if s == [] then 0 else 10 * Value(s[..|s| - 1]) + (s[|s| - 1] as int - '0' as int)
  }

  /** strftime("%m.%d.%Y"). */
  function DateText(d: Date): string
    requires ValidDate(d)
  {
    Padded(d.month, 2) + "." + Padded(d.day, 2) + "." + Padded(d.year, 4)
  }

  /** Reads a date back from the text strftime("%m.%d.%Y") gives. */
  function ParseDate(s: string): (d: Option<Date>)
  {
    if |s| == 10 && s[2] == '.' && s[5] == '.' && AllDigits(s[..2]) && AllDigits(s[3..5]) && AllDigits(s[6..])
    then Some(Date(Value(s[6..]), Value(s[..2]), Value(s[3..5])))
    else None
  }

  datatype Option<T> = None | Some(value: T)

  /** provider + strftime("-%m.%d.%Y-") + version + ".xml". */
  function FileName(provider: string, d: Date, version: string): string
    requires ValidDate(d)
  {
    provider + "-" + DateText(d) + "-" + version + ".xml"
  }

  // ---------------------------------------------------------------------
  // The writer

  method WriteXmlDocument(provider: string, version: string, stamp: string, today: Date,
                          results: seq<(string, CollectionResult)>)
    returns (doc: ProviderElement, path: string)
    requires WellFormed(results)
    requires ValidDate(today)
    ensures doc == Document(provider, stamp, results)
    ensures path == FileName(provider, today, version)
  {
    var collections: seq<CollectionElement> := [];
    var i := 0;
    while i < |results|
      invariant 0 <= i <= |results|
      invariant collections == Collections(results[..i])
    {
      assert WellFormedGranules(results[i].1.granules);
      var collection := CollectionXml(results[i].0, results[i].1.title, results[i].1.granules);
      collections := collections + [collection];
      assert results[..i + 1][..i] == results[..i];
      i := i + 1;
    }
    assert results[..i] == results;
    doc := ProviderElement(provider, stamp, collections);
    path := FileName(provider, today, version);
  }

  /** The body of the loop over `results`: one Collection element and its
      children. */
  method CollectionXml(ccid: string, title: string, granules: seq<(string, GranuleValue)>)
    returns (collection: CollectionElement)
    requires WellFormedGranules(granules)
    ensures collection == CollectionElement(ccid, title, CollectionChildren(granules))
  {
    var children: seq<ReportChild> := [];
    var j := 0;
    while j < |granules|
      invariant 0 <= j <= |granules|
      invariant WellFormedGranules(granules[..j])
      invariant children == CollectionChildren(granules[..j])
    {
      var gid := granules[j].0;
      var tests := granules[j].1;
      ghost var before := children;
      if gid == "error" {
        children := children + [ErrorElement(tests.message)];
      } else {
        children := AppendTests(children, tests.url, tests.outcomes);
      }
      assert children == before + GranuleElements(gid, tests);
      ChildrenStep(granules, j);
      j := j + 1;
    }
    assert granules[..j] == granules;
    collection := CollectionElement(ccid, title, children);
  }

  /** One more granule of the prefix adds that granule's elements. */
  lemma ChildrenStep(granules: seq<(string, GranuleValue)>, j: nat)
    requires WellFormedGranules(granules)
    requires j < |granules|
    ensures WellFormedGranules(granules[..j + 1])
    ensures CollectionChildren(granules[..j + 1]) ==
      CollectionChildren(granules[..j]) + GranuleElements(granules[j].0, granules[j].1)
  {
    assert granules[..j + 1][..j] == granules[..j];
    assert granules[..j + 1][j] == granules[j];
  }

  /** The loop over one granule's outcomes: a Test element for each one that
      is not NA, appended to the collection's children. */
  method AppendTests(children: seq<ReportChild>, url: string, outcomes: seq<(string, string)>)
    returns (result: seq<ReportChild>)
    ensures result == children + TestElements(url, outcomes)
  {
    result := children;
    var k := 0;
    while k < |outcomes|
      invariant 0 <= k <= |outcomes|
      invariant result == children + TestElements(url, outcomes[..k])
    {
      var name := outcomes[k].0;
      var outcome := outcomes[k].1;
      if outcome != "NA" {
        result := result + [TestElement(name, url, outcome)];
      }
      assert outcomes[..k + 1][..k] == outcomes[..k];
      k := k + 1;
    }
    assert outcomes[..k] == outcomes;
  }
}
