/** The DMR++ invariant builder: a parsed DMR++ document whose element
    tree its functions edit in place, and the builder version it reads. */
module MkInvariant {
  import opened Dom
  import opened Edits
  import opened EditLaws
  import VersionList

  /** Why get_builder_version gave up. */
  datatype VersionError =
    | NotSingleValue   // the Exception it raises: no Value element, or its first child is not text
    | ValueHasNoChild  // the AttributeError of `None.nodeType`: the first Value element is empty

  /** The three ways get_builder_version ends. */
  datatype BuilderVersion =
    | Version(text: string)
    | NoVersion                // the loops finish: the function returns None
    | Raised(error: VersionError)

  predicate IsMetadata(e: Node)
    requires e.Element?
  {
    GetAttribute(e, "name") == "build_dmrpp_metadata"
  }

  predicate IsBuild(e: Node)
    requires e.Element?
  {
    GetAttribute(e, "name") == "build_dmrpp"
  }

  /** Whether the Attribute elements below `m` name a builder version. */
  predicate HasBuild(m: Node)
    requires m.Element?
  {
    var attrs := Elems(m.children, "Attribute");
    exists j :: 0 <= j < |attrs| && IsBuild(attrs[j])
  }

  /** What get_builder_version does with the `build_dmrpp` attribute it finds:
      the first Value element below it must have a text node first. */
  function ValueOutcome(attr: Node): (r: BuilderVersion)
    requires attr.Element?
    ensures r != NoVersion
    ensures var vs := Elems(attr.children, "Value");
      r.Version? <==> |vs| > 0 && vs[0].children != [] && vs[0].children[0].Text?
    ensures var vs := Elems(attr.children, "Value");
      r.Version? ==> r.text == vs[0].children[0].data
    ensures var vs := Elems(attr.children, "Value");
      r == Raised(ValueHasNoChild) <==> |vs| > 0 && vs[0].children == []
    ensures var vs := Elems(attr.children, "Value");
      r == Raised(NotSingleValue) <==> |vs| == 0 || (vs[0].children != [] && !vs[0].children[0].Text?)
  {
    var vs := Elems(attr.children, "Value");
    if |vs| == 0 then Raised(NotSingleValue)
    else if vs[0].children == [] then Raised(ValueHasNoChild)
    else if vs[0].children[0].Text? then Version(vs[0].children[0].data)
    else Raised(NotSingleValue)
  }

  /** The `--list` mode: the version numbers, or the exception that
      `None.replace` (no version) or get_builder_version raises. */
  datatype Listing = Numbers(parts: seq<string>) | ListFailed

  function ListMode(r: BuilderVersion): (l: Listing)
    ensures l.Numbers? <==> r.Version?
    ensures l.Numbers? ==> |l.parts| >= 1
    ensures r.Version? ==> VersionList.Join(l.parts, '.') == VersionList.ReplaceChar(r.text, '-', '.')
    ensures r.Version? ==> forall p <- l.parts :: '.' !in p && '-' !in p
  {
    match r
    case Version(v) =>
      VersionList.VersionNumbersRejoin(v);
      Numbers(VersionList.VersionNumbers(v))
    case _ => ListFailed
  }

  /** What the default mode of the script leaves: a document with no
      Attribute element and no dmrpp:chunk element with an offset or nBytes. */
  predicate IsInvariant(cs: seq<Node>)
  {
    Elems(cs, "Attribute") == [] &&
    forall e <- Elems(cs, "dmrpp:chunk") :: "offset" !in e.attrs && "nBytes" !in e.attrs
  }

  /** The parsed DMR++ document (minidom.parse) and its top-level nodes. */
  class Document {
    var children: seq<Node>

    /** Every element object occurs once. */
    ghost predicate Valid()
      reads this
    {
      UniqueIds(children)
    }

    constructor (nodes: seq<Node>)
      requires UniqueIds(nodes)
      ensures Valid() && children == nodes
    {
      children := nodes;
    }

    /** cleanup_extra_spaces on the element object `x`. */
    method CleanupExtraSpaces(x: nat)
      requires Valid()
      modifies this
      ensures Valid()
      ensures children == DropBlankAfter(old(children), x)
      ensures AllIds(children) == AllIds(old(children))
      ensures EraseBlanks(children) == EraseBlanks(old(children))
      ensures !HasBlankAfter(old(children), x) ==> children == old(children)
      ensures HasBlankAfter(old(children), x) ==> NodeCount(children) == NodeCount(old(children)) - 1
    {
      if HasBlankAfter(children, x) {
        BlankDropped(children, x);
      } else {
        NoBlankNoChange(children, x);
      }
      children := DropBlankAfter(children, x);
    }

    /** element.parentNode.removeChild(element) on the element object `x`. */
    method RemoveChild(x: nat)
      requires Valid()
      modifies this
      ensures Valid()
      ensures children == Edit(old(children), x, Remove(false))
      ensures x !in AllIds(children)
      ensures KeptFrom(Elems(children, "*"), Elems(old(children), "*"))
      ensures Texts(children) == TextsOutside(old(children), "*", Object(x))
      ensures IdSet(children) == IdSet(old(children)) - RemovedIds(old(children), "*", Object(x))
    {
      DetachObject(children, x);
      children := Edit(children, x, Remove(false));
    }

    /** remove_attribute: detach every Attribute element whose name and type
        attributes are the given ones. */
    method RemoveAttribute(name: string, typ: string)
      requires Valid()
      modifies this
      ensures Valid()
      ensures children == Apply(old(children), "Attribute", NameAndType(name, typ), Remove(false))
      ensures NoneSelected(children, "Attribute", NameAndType(name, typ))
      ensures IdSet(children) == IdSet(old(children)) - RemovedIds(old(children), "Attribute", NameAndType(name, typ))
      ensures Texts(children) == TextsOutside(old(children), "Attribute", NameAndType(name, typ))
    {
      ghost var start := children;
      ghost var sel := NameAndType(name, typ);
      var elements := Elems(children, "Attribute");
      var i := 0;
      while i < |elements|
        invariant 0 <= i <= |elements|
        invariant Valid()
        invariant children == EditAll(start, Picked(elements[..i], sel), Remove(false))
      {
        var element := elements[i];
        assert element.Element? by { assert element in elements; }
        LoopStep(start, elements, i, sel, Remove(false));
        ghost var before := children;
        if GetAttribute(element, "name") == name && GetAttribute(element, "type") == typ {
          RemoveChild(element.id);
        }
        assert children == if Selected(sel, element) then Edit(before, element.id, Remove(false)) else before;
        i := i + 1;
      }
      assert elements[..i] == elements;
      RemovalDone(start, elements, sel, false);
      RemovedTexts(start, "Attribute", sel);
    }

    /** remove_all_attributes: detach every Attribute element, each with the
        blank text node that follows it. */
    method RemoveAllAttributes()
      requires Valid()
      modifies this
      ensures Valid()
      ensures children == Apply(old(children), "Attribute", Every, Remove(true))
      ensures Elems(children, "Attribute") == []
      ensures IdSet(children) == IdSet(old(children)) - RemovedIds(old(children), "Attribute", Every)
      ensures children == Apply(DropBlankAfterEach(old(children), "Attribute", Every), "Attribute", Every, Remove(false))
      ensures EraseBlanks(children) == EraseBlanks(Apply(old(children), "Attribute", Every, Remove(false)))
    {
      ghost var start := children;
      var elements := Elems(children, "Attribute");
      var i := 0;
      while i < |elements|
        invariant 0 <= i <= |elements|
        invariant Valid()
        invariant children == EditAll(start, Picked(elements[..i], Every), Remove(true))
      {
        var element := elements[i];
        assert element.Element? by { assert element in elements; }
        LoopStep(start, elements, i, Every, Remove(true));
        ghost var before := children;
        CleanupThenDetach(children, element.id);
        CleanupExtraSpaces(element.id);
        RemoveChild(element.id);
        assert children == Edit(before, element.id, Remove(true));
        i := i + 1;
      }
      assert elements[..i] == elements;
      RemovalDone(start, elements, Every, true);
      NoneLeftIsEmpty(children, "Attribute");
      CleanupOnlyDropsBlanks(start, "Attribute", Every);
      CleanupThenRemove(start, "Attribute", Every);
    }

    /** clean_chunk_element on the element object `x`. */
    method CleanChunkElement(x: nat)
      requires Valid()
      modifies this
      ensures Valid()
      ensures children == Edit(old(children), x, ClearChunk)
      ensures Shape(children) == Shape(old(children))
      ensures ChunksCleaned(Elems(children, "*"), Elems(old(children), "*"), "*", Object(x))
    {
      CleanObject(children, x);
      children := Edit(children, x, ClearChunk);
    }

    /** clean_chunk_elements: clean every dmrpp:chunk element. */
    method CleanChunkElements()
      requires Valid()
      modifies this
      ensures Valid()
      ensures children == Apply(old(children), "dmrpp:chunk", Every, ClearChunk)
      ensures forall e <- Elems(children, "dmrpp:chunk") :: "offset" !in e.attrs && "nBytes" !in e.attrs
      ensures Shape(children) == Shape(old(children))
    {
      ghost var start := children;
      var elements := Elems(children, "dmrpp:chunk");
      var i := 0;
      while i < |elements|
        invariant 0 <= i <= |elements|
        invariant Valid()
        invariant children == EditAll(start, Picked(elements[..i], Every), ClearChunk)
      {
        var element := elements[i];
        assert element.Element? by { assert element in elements; }
        LoopStep(start, elements, i, Every, ClearChunk);
        ghost var before := children;
        CleanChunkElement(element.id);
        assert children == Edit(before, element.id, ClearChunk);
        i := i + 1;
      }
      assert elements[..i] == elements;
      EditAllIsApply(start, "dmrpp:chunk", Every, ClearChunk);
      ChunksHaveNoOffsets(start, "dmrpp:chunk");
      ClearChunkKeepsShape(start, "dmrpp:chunk", Every);
    }

    /** The default mode: remove_all_attributes, then clean_chunk_elements. */
    method BuildInvariant()
      requires Valid()
      modifies this
      ensures Valid()
      ensures children == Apply(Apply(old(children), "Attribute", Every, Remove(true)), "dmrpp:chunk", Every, ClearChunk)
      ensures IsInvariant(children)
    {
      RemoveAllAttributes();
      ghost var mid := children;
      CleanChunkElements();
      ClearChunkPointwise(mid, "dmrpp:chunk", Every, "Attribute");
    }

    /** get_builder_version: the text of the first Value element of the first
        `build_dmrpp` Attribute inside the first `build_dmrpp_metadata`
        Attribute that has one. */
    method GetBuilderVersion() returns (r: BuilderVersion)
      ensures var metas := Elems(children, "Attribute");
        r == NoVersion <==> forall i :: 0 <= i < |metas| && IsMetadata(metas[i]) ==> !HasBuild(metas[i])
      ensures var metas := Elems(children, "Attribute");
        r != NoVersion ==>
          exists i, j :: 0 <= i < |metas| && IsMetadata(metas[i])
            && (forall k :: 0 <= k < i && IsMetadata(metas[k]) ==> !HasBuild(metas[k]))
            && 0 <= j < |Elems(metas[i].children, "Attribute")|
            && IsBuild(Elems(metas[i].children, "Attribute")[j])
            && (forall k :: 0 <= k < j ==> !IsBuild(Elems(metas[i].children, "Attribute")[k]))
            && r == ValueOutcome(Elems(metas[i].children, "Attribute")[j])
    {
      var metas := Elems(children, "Attribute");
      var i := 0;
      while i < |metas|
        invariant 0 <= i <= |metas|
        invariant forall k :: 0 <= k < i && IsMetadata(metas[k]) ==> !HasBuild(metas[k])
      {
        var element := metas[i];
        if GetAttribute(element, "name") == "build_dmrpp_metadata" {
          var attrs := Elems(element.children, "Attribute");
          var j := 0;
          while j < |attrs|
            invariant 0 <= j <= |attrs|
            invariant forall k :: 0 <= k < j ==> !IsBuild(attrs[k])
          {
            var attr := attrs[j];
            if GetAttribute(attr, "name") == "build_dmrpp" {
              var value := Elems(attr.children, "Value");
              if |value| > 0 && value[0].children == [] {
                r := Raised(ValueHasNoChild);
              } else if |value| > 0 && value[0].children[0].Text? {
                r := Version(value[0].children[0].data);
              } else {
                r := Raised(NotSingleValue);
              }
              assert r == ValueOutcome(attr);
              assert IsMetadata(metas[i]) && HasBuild(metas[i]);
              assert metas == Elems(children, "Attribute");
              assert var ms := Elems(children, "Attribute"); !(forall k :: 0 <= k < |ms| && IsMetadata(ms[k]) ==> !HasBuild(ms[k]));
              return;
            }
            j := j + 1;
          }
        }
        i := i + 1;
      }
      r := NoVersion;
    }
  }

  /** What the removal loops have done once they have gone through the
      whole snapshot. */
  lemma RemovalDone(start: seq<Node>, elements: seq<Node>, sel: Selector, spaces: bool)
    requires UniqueIds(start) && elements == Elems(start, "Attribute")
    ensures var r := EditAll(start, Picked(elements, sel), Remove(spaces));
      && r == Apply(start, "Attribute", sel, Remove(spaces))
      && UniqueIds(r)
      && NoneSelected(r, "Attribute", sel)
      && IdSet(r) == IdSet(start) - RemovedIds(start, "Attribute", sel)
  {
    EditAllIsApply(start, "Attribute", sel, Remove(spaces));
    ApplyUnique(start, "Attribute", sel, Remove(spaces));
    RemovedNoneLeft(start, "Attribute", sel, spaces);
    RemovesExactly(start, "Attribute", sel, spaces);
  }

  lemma NoneLeftIsEmpty(cs: seq<Node>, tag: string)
    requires NoneSelected(cs, tag, Every)
    ensures Elems(cs, tag) == []
  {
    if Elems(cs, tag) != [] {
      assert Elems(cs, tag)[0] in Elems(cs, tag);
    }
  }
}
