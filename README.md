# OPeNDAP regression tests and DMR++ invariant builder, modelled in Dafny

Two small tools from a NASA DAAC test suite:

- **The regression report** (`regression_tests.py`).
  - `test_one_collection` looks up the first and last granule of a
    collection in the CMR catalogue and runs the OPeNDAP probes on each
    granule. It returns `{ccid: (title, {gid: (url, {probe: outcome})})}`,
    or `{ccid: (title, {"error": message})}` when the lookup raised a
    CMRException.
  - `write_xml_document` turns such results into an XML document:
    - a root `Provider` element;
    - one `Collection` element per collection;
    - an `Error` element for the `"error"` entry;
    - one `Test` element for each probe outcome that is not `NA`;
    - a file named `provider-MM.DD.YYYY-version.xml`.
- **The DMR++ invariant builder** (`mk_invariant_dmrpp.py`). It edits a
  parsed DMR++ document in place:
  - it removes `Attribute` elements, all of them or those of a given name
    and type;
  - each element removed in the all-of-them case takes along the white-space
    text node that follows it; removing those of a given name and type leaves
    that node in place;
  - it strips `offset` and `nBytes` from every `dmrpp:chunk` element.

  It also reads the builder version from the
  `build_dmrpp_metadata`/`build_dmrpp` attributes, and its `--list` mode
  splits that version into numbers.

The files:

- `dom.dfy` (module `Dom`): the minidom document as a tree of `Node` values.
  - Each element carries an `id` that stands for the identity of its minidom
    object. The source's loops take element objects from a search made
    before the loop and hand them back to `removeChild`, so the model refers
    to elements by id.
  - `Elems` models `getElementsByTagName`: the elements in document order,
    as an eager list, with `*` matching every tag.
  - `IsBlank` is Python's `str.isspace`.
- `edits.dfy` (module `Edits`): what the loops do, in two forms.
  - `Edit`/`EditAll` act on one element object at a time, over the snapshot
    the loop iterates.
  - `Apply` is a declarative rewrite of the whole tree.
  - `EditAllIsApply` proves the two agree on every document whose element
    objects are distinct. An element that sits inside a subtree detached
    earlier in the loop is still visited, exactly as in minidom, and its
    removal no longer changes the document.
- `edit_laws.dfy` (module `EditLaws`): what the rewrites guarantee.
- `mk_invariant.dfy` (module `MkInvariant`): the script itself.
  - A `Document` class holds the document's top-level nodes.
  - Its methods are the script's functions, with the source's loops.
  - `GetBuilderVersion` and the `--list` mode are here too.
- `version_list.dfy` (module `VersionList`): `str.replace`, `str.split`
  and `str.join` for one-character arguments.
- `results.dfy` (module `Results`): the nested results structure. A Python
  dict is its (key, value) pairs in insertion order.
- `one_collection.dfy` (module `OneCollection`): `test_one_collection`.
  The catalogue lookup (`Lookup`) and the probe runner (`runner`) are
  inputs, and the granules are probed one after the other.
- `report.dfy` and `report_laws.dfy` (modules `Report`, `ReportLaws`):
  `write_xml_document`, and what the report says about its input.

Most exceptions the source raises or lets through are values in the
model:
- `BuilderVersion.Raised` stands for the exceptions get_builder_version raises.
- `Listing.ListFailed` stands for those of the `--list` mode.
- `Lookup.CmrException` and `Lookup.OtherException` stand for the catalogue
  lookup's exceptions. For the second, `TestOneCollection` ends in
  `Completion.Propagated`.
- `Probe.Raised` stands for a probe run that raised.

Two kinds are not modelled, as "## Left out" says: what the report writer
does with a malformed results dict, and minidom's NotFoundErr.

A granule whose probe run raises is dropped from the results
(`regression_tests.py:51-54`); it is not recorded as an error.
`OneCollection.CollectKeys` states exactly which granules are kept.

## Model

| member | source | states |
|---|---|---|
| Dom.Elems | mk_invariant_dmrpp.py:28 | getElementsByTagName yields only elements, each with a tag that matches the searched one (any tag for `*`) |
| Dom.ElemsFindsAll | mk_invariant_dmrpp.py:28 | a search for `*` finds every element of the document, each once, in document order |
| Dom.ElemsFiltered | mk_invariant_dmrpp.py:28 | a search for a tag finds exactly the elements of the `*` search whose tag matches, in the same order |
| Dom.GetAttribute | mk_invariant_dmrpp.py:29 | getAttribute: the attribute's value, or the empty string when the element has none of that name; also used at lines 42 and 44 |
| Dom.IsBlank | mk_invariant_dmrpp.py:15 | str.isspace(): true for a non-empty string of white-space characters only |
| Edits.DropBlankAfter | mk_invariant_dmrpp.py:15-16 | cleanup_extra_spaces on one element object; NoBlankNoChange and BlankDropped state what it does |
| Edits.Edit | mk_invariant_dmrpp.py:30 | one loop step on an element object: removeChild, cleanup_extra_spaces followed by removeChild, or clean_chunk_element; EditIsApply states what it does; the step also covers lines 60-61 and 72 |
| Edits.EditAll | mk_invariant_dmrpp.py:28-30 | the loop: one step per element object, in snapshot order; EditAllIsApply states what it does; the same loop appears at lines 59-61 and 82-83 |
| Edits.Apply | mk_invariant_dmrpp.py:28-30 | the declarative rewrite that the EditLaws lemmas describe; it also models lines 59-61 and 82-83 |
| Edits.EditIsApply | mk_invariant_dmrpp.py:30 | on a document with distinct element objects, one step on the element object x is the rewrite that selects x alone |
| Edits.EditAllIsApply | mk_invariant_dmrpp.py:28-30 | the loop over a getElementsByTagName snapshot, acting on each selected element object in turn, gives the same tree as the declarative rewrite, on any document with distinct element objects |
| Edits.CleanupThenDetach | mk_invariant_dmrpp.py:60-61 | calling cleanup_extra_spaces on an element and then removeChild drops the element together with the blank text node that follows it |
| EditLaws.NoBlankNoChange | mk_invariant_dmrpp.py:15-16 | when the next sibling is missing, is not a text node, or is not all white space, cleanup_extra_spaces leaves the tree unchanged |
| EditLaws.BlankDropped | mk_invariant_dmrpp.py:15-16 | when the next sibling is a blank text node, cleanup_extra_spaces removes exactly one node, a blank text node, and keeps every element |
| EditLaws.RemovedNoneLeft | mk_invariant_dmrpp.py:59-61 | after a removal no element that the search finds is selected; for remove_all_attributes, no Attribute element remains anywhere |
| EditLaws.NothingSelectedUnchanged | mk_invariant_dmrpp.py:28-30 | when no element matches, the document does not change |
| EditLaws.RemoveIdempotent | mk_invariant_dmrpp.py:28-30 | removing twice gives the same document as removing once |
| EditLaws.RemovedKeepsOthers | mk_invariant_dmrpp.py:28-30 | every element left after a removal was in the document, with the same id, tag and attributes |
| EditLaws.RemovesExactly | mk_invariant_dmrpp.py:28-30 | an element stays if and only if it was in the document and neither it nor an ancestor was selected |
| EditLaws.CleanupOnlyDropsBlanks | mk_invariant_dmrpp.py:59-61 | removing with the space clean-up differs from plain removal only in blank text nodes |
| EditLaws.CleanupThenRemove | mk_invariant_dmrpp.py:59-61 | removing with the space clean-up is the plain removal applied after dropping the blank text node that directly follows each selected element, and no other node |
| EditLaws.DropBlankAfterEachErases | mk_invariant_dmrpp.py:15-16 | dropping the blank node after each selected element takes out blank text nodes only |
| EditLaws.RemovedTexts | mk_invariant_dmrpp.py:28-30 | after a plain removal the text nodes are exactly those outside the removed subtrees, in document order |
| EditLaws.ObjectInRemoved | mk_invariant_dmrpp.py:30 | removing the element object x takes x out whenever it is in the document |
| EditLaws.DetachObject | mk_invariant_dmrpp.py:30 | after removeChild(x) the element objects stay distinct and x is gone; every element left was there before with the same tag and attributes; the texts outside x are kept in order; exactly x and the elements below it are gone |
| EditLaws.CleanObject | mk_invariant_dmrpp.py:71-72 | clean_chunk_element(x) keeps every node, the nesting and every text, and the same elements are found by a search; only x loses exactly offset and nBytes |
| EditLaws.ClearChunkPointwise | mk_invariant_dmrpp.py:82-83 | after clean_chunk_elements, every element a search finds is the same element, with the same id and tag, and selected chunks have exactly offset and nBytes removed from their attributes |
| EditLaws.ClearChunkKeepsShape | mk_invariant_dmrpp.py:82-83 | clean_chunk_elements keeps every node, the nesting and every text |
| EditLaws.ChunksHaveNoOffsets | mk_invariant_dmrpp.py:82-83 | after clean_chunk_elements no dmrpp:chunk element has an offset or nBytes attribute |
| EditLaws.ClearKeepsIds | mk_invariant_dmrpp.py:71-72 | clean_chunk_element keeps every element of the document |
| MkInvariant.Document.constructor | mk_invariant_dmrpp.py:99 | the parsed document holds the given nodes, with distinct element objects |
| MkInvariant.Document.CleanupExtraSpaces | mk_invariant_dmrpp.py:15-16 | removes the following blank text node when there is one and leaves the tree unchanged otherwise; every element is kept |
| MkInvariant.Document.RemoveChild | mk_invariant_dmrpp.py:30 | detaches the given element object from its parent: it is no longer in the document; the elements left were there before, unchanged; the texts outside it are kept in order; exactly it and its subtree are gone |
| MkInvariant.Document.RemoveAttribute | mk_invariant_dmrpp.py:28-30 | the new tree is the declarative removal of the Attribute elements with the given name and type; none is left; exactly those elements and their subtrees are gone; every text node outside them is kept, in order |
| MkInvariant.Document.RemoveAllAttributes | mk_invariant_dmrpp.py:59-61 | the new tree is the declarative removal of every Attribute element and the blank text node after it; equally, the plain removal after dropping exactly the blank nodes that follow an Attribute element; no Attribute element is left; every non-Attribute element outside their subtrees is kept |
| MkInvariant.Document.CleanChunkElement | mk_invariant_dmrpp.py:71-72 | drops exactly offset and nBytes from the attributes of the given element object; every other element, every node, the nesting and every text stay as they were |
| MkInvariant.Document.CleanChunkElements | mk_invariant_dmrpp.py:82-83 | the new tree is the declarative chunk cleaning: no dmrpp:chunk element has an offset or nBytes, and every node, text and nesting is unchanged |
| MkInvariant.Document.BuildInvariant | mk_invariant_dmrpp.py:107-108 | removing all attributes and then cleaning the chunks leaves no Attribute element and no chunk with offset or nBytes |
| MkInvariant.Document.GetBuilderVersion | mk_invariant_dmrpp.py:41-49 | returns None if and only if no build_dmrpp_metadata Attribute holds a build_dmrpp Attribute; otherwise, for the first such pair in search order, it returns what that attribute's first Value element gives |
| MkInvariant.ValueOutcome | mk_invariant_dmrpp.py:45-49 | the version comes back when a Value element exists and its first child is text, and it is that text node's data; an empty first Value raises AttributeError; no Value, or a first child that is not text, raises the Exception of line 49 |
| MkInvariant.ListMode | mk_invariant_dmrpp.py:103 | list mode yields numbers if and only if a version was found; joined with "." they give the version with "-" replaced by "."; no number holds "." or "-" |
| VersionList.ReplaceChar | mk_invariant_dmrpp.py:103 | str.replace with one-character arguments keeps the length and leaves no replaced character |
| VersionList.Split | mk_invariant_dmrpp.py:103 | str.split always gives at least one piece |
| VersionList.Join | mk_invariant_dmrpp.py:103 | the separator-join that JoinSplit and SplitJoin pair with Split |
| VersionList.VersionNumbers | mk_invariant_dmrpp.py:103 | the numbers the list mode prints; VersionNumbersRejoin states what they are |
| VersionList.JoinSplit | mk_invariant_dmrpp.py:103 | joining the pieces of a split with the separator gives back the string |
| VersionList.SplitPieces | mk_invariant_dmrpp.py:103 | no piece holds the separator, and there is one piece more than there are separators |
| VersionList.SplitJoin | mk_invariant_dmrpp.py:103 | splitting a join of separator-free pieces gives back the pieces |
| VersionList.VersionNumbersRejoin | mk_invariant_dmrpp.py:103 | the version numbers join back to the replaced version string and hold neither "." nor "-" |
| OneCollection.TestOneCollection | regression_tests.py:40-66 | an exception from the lookup other than CMRException passes through; otherwise the result has one key, the collection's ccid, with its title; it is the error shape when the lookup raised CMRException, and otherwise holds the granules collected in the loop, each gid at most once |
| OneCollection.Collect | regression_tests.py:47-58 | the granules the loop stores; CollectKeys, CollectFromLookup and CollectDistinct state which |
| OneCollection.CollectFromLookup | regression_tests.py:47-58 | every stored granule is one the lookup returned, stored with that granule's url and the outcomes its probe run returned |
| OneCollection.CollectKeys | regression_tests.py:49-58 | a granule is stored if and only if its probe run did not raise |
| OneCollection.CollectDistinct | regression_tests.py:45-58 | the collected dict has each gid once |
| OneCollection.CollectWellFormed | regression_tests.py:58 | unless a gid is "error" itself, the collected dict has the format the report writer expects |
| Report.TestElements | regression_tests.py:115-122 | the Test elements of one granule; TestElementsAre states what they are |
| Report.CollectionChildren | regression_tests.py:109-122 | the children of one Collection element; TestIff, ErrorIff and the counts state what they are |
| Report.Collections | regression_tests.py:98-122 | the Collection elements; CollectionPerCcid states what they are |
| Report.Document | regression_tests.py:92-122 | the Provider element; DocumentNamesProvider states what it is |
| Report.DateText | regression_tests.py:127 | strftime("%m.%d.%Y"); DateRoundTrip states that it reads back |
| Report.FileName | regression_tests.py:127 | the report's file name; FileNameLayout and FileNameInjective state what it is |
| Report.Padded | regression_tests.py:127 | a zero-padded number has the given width and only digits |
| Report.WriteXmlDocument | regression_tests.py:92-127 | the document built by the nested loops is the provider element that the report functions describe, and the file name is provider-MM.DD.YYYY-version.xml |
| Report.CollectionXml | regression_tests.py:101-122 | one collection's element and its children |
| Report.AppendTests | regression_tests.py:115-122 | the loop over a granule's outcomes appends one Test element per non-NA outcome |
| ReportLaws.CollectionPerCcid | regression_tests.py:98-104 | one Collection element per ccid, in the order of the results, with that ccid and its title as long_name |
| ReportLaws.DocumentNamesProvider | regression_tests.py:92-96 | the Provider element carries the provider's name and the timestamp, and has one child per collection |
| ReportLaws.TestElementsAre | regression_tests.py:115-122 | a granule's Test elements are exactly its non-NA outcomes, with the granule's url and the probe's name and result unchanged |
| ReportLaws.TestCount | regression_tests.py:109-122 | a collection has as many Test elements as non-NA outcomes over its granules |
| ReportLaws.TestIff | regression_tests.py:109-122 | a Test element with name n, url u and result r exists if and only if r is not NA and some non-"error" granule with url u has outcome r for probe n |
| ReportLaws.ErrorIff | regression_tests.py:110-113 | an Error element with message m exists if and only if the collection's dict holds "error" with message m |
| ReportLaws.ErrorCount | regression_tests.py:110-113 | a collection has exactly one Error element when its dict has the key "error", and none otherwise |
| ReportLaws.DateRoundTrip | regression_tests.py:127 | the MM.DD.YYYY text is ten characters long and reads back as the same date |
| ReportLaws.FileNameLayout | regression_tests.py:126-127 | the file name is the provider, "-", the date (which reads back unchanged), "-", the version and ".xml"; the %d.%m.%Y value has no part in it |
| ReportLaws.FileNameInjective | regression_tests.py:127 | different dates give different file names |

## Left out

- `main()` in both scripts is not modelled: argument parsing, opening and parsing the input file, printing, the output directory and the driver loop over collections. What the invariant builder's `main` computes is modelled: `--version` prints what `Document.GetBuilderVersion` returns, the list mode is `ListMode`, and the default mode is `BuildInvariant`.
- `string_search.py` is not part of this model. It does HTTP requests, regular-expression search, and shared counters updated from threads.
- The thread pool and `as_completed` in `test_one_collection` are not modelled. The granules are probed one after the other, in catalogue order, so the model's dict order is the catalogue's order, not the completion order.
- The `cmr` and `opendap_tests` modules, `cmr.merge_dict` included, are not part of this model. The lookup result and the probe runner are inputs. The runner is a function of the url, because the other arguments are constants.
- The probe runner is modelled as deterministic: two granules with the same url get the same outcome. `url_test_runner` makes network requests, and two calls with one url can differ; no proved property depends on this.
- The sequential branch of the regression driver's `main` is not modelled: it calls `test_one_collection` with two of its four arguments.
- The `verbose` printing in `test_one_collection` is not modelled, and neither is the message printed when a probe run raises.
- `time.asctime()` and `time.strftime` are inputs. They are the `stamp` string and the `today` date, with years from 1000 to 9999.
- `toprettyxml`/`toxml` rendering and the file write are not modelled. The report is its element tree, and the invariant document is its node tree.
- The report writer appends each Collection element to the Provider before filling it. The model builds a Collection's children first and then appends it. Nothing reads the Provider in between, so the resulting tree is the same.
- `Report.WriteXmlDocument` requires the documented results format: under the key "error" a message, under any other key a (url, outcomes) pair. In the source a mismatch raises, or stores a non-string attribute that fails at rendering.
- `OneCollection.TestOneCollection` requires the granules returned by the lookup to have distinct ids, because the lookup returns a Python dict.
- minidom's `removeAttribute` raises NotFoundErr when the attribute is absent. That library code is not shown, so `CleanChunkElement` drops the attributes from the map, and nothing is claimed about running `clean_chunk_elements` twice.
- Comments, CDATA sections and processing instructions are all one `Other` node kind without children. Only text nodes matter to the script.
