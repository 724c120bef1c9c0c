/** What the declarative rewrites of the DMR++ invariant builder guarantee. */
module EditLaws {
  import opened Dom
  import opened Edits

  /** The document with every blank text node taken out, at every level. */
  function EraseBlanks(cs: seq<Node>): seq<Node>
    decreases cs
  {
    if cs == [] then [] else EraseNode(cs[0]) + EraseBlanks(cs[1..])
  }

  /** One node with the blank text nodes taken out: nothing for a blank text
      node itself. */
  function EraseNode(c: Node): seq<Node>
    decreases c
  {
    match c
    case Element(id, t, attrs, kids) => [Element(id, t, attrs, EraseBlanks(kids))]
    case _ => if IsBlankText(c) then [] else [c]
  }

  /** The document with every attribute value taken out: its nodes, their
      nesting, ids, tags and text. */
  function Shape(cs: seq<Node>): seq<Node>
    decreases cs
  {
    if cs == [] then []
    else match cs[0]
      case Element(id, t, _, kids) => [Element(id, t, map[], Shape(kids))] + Shape(cs[1..])
      case _ => [cs[0]] + Shape(cs[1..])
  }

  /** The number of nodes below a list of children. */
  function NodeCount(cs: seq<Node>): nat
    decreases cs
  {
    if cs == [] then 0
    else match cs[0]
      case Element(_, _, _, kids) => 1 + NodeCount(kids) + NodeCount(cs[1..])
      case _ => 1 + NodeCount(cs[1..])
  }

  /** Whether the node right after the element object `x` is a blank text node. */
  predicate HasBlankAfter(cs: seq<Node>, x: nat)
    decreases cs
  {
    cs != [] &&
    match cs[0]
    case Element(id, _, _, kids) =>
      if id == x then |cs| > 1 && IsBlankText(cs[1])
      else HasBlankAfter(kids, x) || HasBlankAfter(cs[1..], x)
    case _ => HasBlankAfter(cs[1..], x)
  }

  /** No element a search for `tag` finds is selected. */
  predicate NoneSelected(cs: seq<Node>, tag: string, sel: Selector)
  {
    forall e <- Elems(cs, tag) :: !Selected(sel, e)
  }

  // ---------------------------------------------------------------------
  // Concatenation

  lemma {:induction false} ElemsConcat(a: seq<Node>, b: seq<Node>, tag: string)
    ensures Elems(a + b, tag) == Elems(a, tag) + Elems(b, tag)
    decreases |a|
  {
    if a == [] {
      assert a + b == b;
    } else {
      assert (a + b)[0] == a[0] && (a + b)[1..] == a[1..] + b;
      ElemsConcat(a[1..], b, tag);
    }
  }

  lemma {:induction false} EraseConcat(a: seq<Node>, b: seq<Node>)
    ensures EraseBlanks(a + b) == EraseBlanks(a) + EraseBlanks(b)
    decreases |a|
  {
    if a == [] {
      assert a + b == b;
    } else {
      assert (a + b)[0] == a[0] && (a + b)[1..] == a[1..] + b;
      EraseConcat(a[1..], b);
    }
  }

  lemma ElemsOfElement(c: Node, rest: seq<Node>, tag: string)
    requires c.Element?
    ensures Elems([c] + rest, tag)
         == (if TagMatches(c.tag, tag) then [c] else []) + Elems(c.children, tag) + Elems(rest, tag)
  {
    assert ([c] + rest)[0] == c && ([c] + rest)[1..] == rest;
  }

  // ---------------------------------------------------------------------
  // remove_attribute and remove_all_attributes

  /** After a removal no selected element is left anywhere in the document. */
  lemma {:induction false} RemovedNoneLeft(cs: seq<Node>, tag: string, sel: Selector, spaces: bool)
    ensures NoneSelected(Apply(cs, tag, sel, Remove(spaces)), tag, sel)
    decreases cs
  {
    var op := Remove(spaces);
    if cs != [] {
      match cs[0]
      case Element(id, t, attrs, kids) =>
        if TagMatches(t, tag) && Selected(sel, cs[0]) {
          if spaces && |cs| > 1 && IsBlankText(cs[1]) {
            RemovedNoneLeft(cs[2..], tag, sel, spaces);
          } else {
            RemovedNoneLeft(cs[1..], tag, sel, spaces);
          }
        } else {
          var c2 := Element(id, t, attrs, Apply(kids, tag, sel, op));
          RemovedNoneLeft(kids, tag, sel, spaces);
          RemovedNoneLeft(cs[1..], tag, sel, spaces);
          ElemsOfElement(c2, Apply(cs[1..], tag, sel, op), tag);
          assert Selected(sel, c2) == Selected(sel, cs[0]);
        }
      case _ =>
        RemovedNoneLeft(cs[1..], tag, sel, spaces);
        assert Apply(cs, tag, sel, op) == [cs[0]] + Apply(cs[1..], tag, sel, op);
        assert ([cs[0]] + Apply(cs[1..], tag, sel, op))[1..] == Apply(cs[1..], tag, sel, op);
    }
  }

  /** When nothing is selected, the rewrite leaves the document as it is. */
  lemma {:induction false} NothingSelectedUnchanged(cs: seq<Node>, tag: string, sel: Selector, op: Op)
    requires NoneSelected(cs, tag, sel)
    ensures Apply(cs, tag, sel, op) == cs
    decreases cs
  {
    if cs != [] {
      match cs[0]
      case Element(id, t, attrs, kids) =>
        ElemsOfElement(cs[0], cs[1..], tag);
        assert cs == [cs[0]] + cs[1..];
        if TagMatches(t, tag) {
          assert cs[0] in Elems(cs, tag);
        }
        forall e <- Elems(kids, tag) ensures !Selected(sel, e) {
          assert e in Elems(cs, tag);
        }
        forall e <- Elems(cs[1..], tag) ensures !Selected(sel, e) {
          assert e in Elems(cs, tag);
        }
        NothingSelectedUnchanged(kids, tag, sel, op);
        NothingSelectedUnchanged(cs[1..], tag, sel, op);
      case _ =>
        assert Elems(cs, tag) == Elems(cs[1..], tag);
        NothingSelectedUnchanged(cs[1..], tag, sel, op);
    }
  }

  /** Removing twice is removing once. */
  lemma RemoveIdempotent(cs: seq<Node>, tag: string, sel: Selector, spaces: bool)
    ensures Apply(Apply(cs, tag, sel, Remove(spaces)), tag, sel, Remove(spaces)) == Apply(cs, tag, sel, Remove(spaces))
  {
    RemovedNoneLeft(cs, tag, sel, spaces);
    NothingSelectedUnchanged(Apply(cs, tag, sel, Remove(spaces)), tag, sel, Remove(spaces));
  }

  /** `o` and `e` are elements with the same object, tag and attributes. */
  predicate SameElement(o: Node, e: Node)
  {
    o.Element? && e.Element? && o.id == e.id && o.tag == e.tag && o.attrs == e.attrs
  }

  /** Every node of `es` is an element found in `os`. */
  predicate KeptFrom(es: seq<Node>, os: seq<Node>)
  {
    forall e <- es :: exists o <- os :: SameElement(o, e)
  }

  lemma KeptFromConcat(a1: seq<Node>, o1: seq<Node>, a2: seq<Node>, o2: seq<Node>)
    requires KeptFrom(a1, o1) && KeptFrom(a2, o2)
    ensures KeptFrom(a1 + a2, o1 + o2)
  {
    forall e <- a1 + a2 ensures exists o <- o1 + o2 :: SameElement(o, e) {
      if e in a1 {
        var o :| o in o1 && SameElement(o, e);
        assert o in o1 + o2;
      } else {
        var o :| o in o2 && SameElement(o, e);
        assert o in o1 + o2;
      }
    }
  }

  lemma KeptFromMore(es: seq<Node>, os: seq<Node>, more: seq<Node>)
    requires KeptFrom(es, os) && forall o <- os :: o in more
    ensures KeptFrom(es, more)
  {
  }

  /** Every element a search finds after a removal was found by the same
      search before it, with the same object, tag and attributes. */
  lemma {:induction false} RemovedKeepsOthers(cs: seq<Node>, tag: string, sel: Selector, spaces: bool, t': string)
    ensures KeptFrom(Elems(Apply(cs, tag, sel, Remove(spaces)), t'), Elems(cs, t'))
    decreases cs
  {
    var op := Remove(spaces);
    if cs != [] {
      var rest := Elems(cs[1..], t');
      match cs[0]
      case Element(id, t, attrs, kids) =>
        var h := if TagMatches(t, t') then [cs[0]] else [];
        assert Elems(cs, t') == h + Elems(kids, t') + rest by {
          ElemsOfElement(cs[0], cs[1..], t');
          assert cs == [cs[0]] + cs[1..];
        }
        RemovedKeepsOthers(cs[1..], tag, sel, spaces, t');
        if TagMatches(t, tag) && Selected(sel, cs[0]) {
          if spaces && |cs| > 1 && IsBlankText(cs[1]) {
            RemovedKeepsOthers(cs[2..], tag, sel, spaces, t');
            assert Elems(cs[1..], t') == Elems(cs[2..], t') by {
              assert cs[1..] == [cs[1]] + cs[2..];
              ElemsConcat([cs[1]], cs[2..], t');
            }
          }
          KeptFromMore(Elems(Apply(cs, tag, sel, op), t'), rest, Elems(cs, t'));
        } else {
          var c2 := Element(id, t, attrs, Apply(kids, tag, sel, op));
          var h2 := if TagMatches(t, t') then [c2] else [];
          RemovedKeepsOthers(kids, tag, sel, spaces, t');
          assert Elems(Apply(cs, tag, sel, op), t') ==
                 h2 + Elems(Apply(kids, tag, sel, op), t') + Elems(Apply(cs[1..], tag, sel, op), t') by {
            ElemsOfElement(c2, Apply(cs[1..], tag, sel, op), t');
          }
          assert KeptFrom(h2, h) by {
            if TagMatches(t, t') { assert cs[0] in h && SameElement(cs[0], c2); }
          }
          KeptFromConcat(h2, h, Elems(Apply(kids, tag, sel, op), t'), Elems(kids, t'));
          KeptFromConcat(h2 + Elems(Apply(kids, tag, sel, op), t'), h + Elems(kids, t'),
                         Elems(Apply(cs[1..], tag, sel, op), t'), rest);
        }
      case _ =>
        RemovedKeepsOthers(cs[1..], tag, sel, spaces, t');
        assert Elems(Apply(cs, tag, sel, op), t') == Elems(Apply(cs[1..], tag, sel, op), t') by {
          assert Apply(cs, tag, sel, op) == [cs[0]] + Apply(cs[1..], tag, sel, op);
          ElemsConcat([cs[0]], Apply(cs[1..], tag, sel, op), t');
          assert Elems([cs[0]], t') == [];
        }
        assert Elems(cs, t') == rest;
    }
  }

  /** Dropping the blank text node after each removed element is the only
      difference between removing with and without the space clean-up. */
  lemma {:induction false} CleanupOnlyDropsBlanks(cs: seq<Node>, tag: string, sel: Selector)
    ensures EraseBlanks(Apply(cs, tag, sel, Remove(true))) == EraseBlanks(Apply(cs, tag, sel, Remove(false)))
    decreases cs
  {
    if cs != [] {
      match cs[0]
      case Element(id, t, attrs, kids) =>
        if TagMatches(t, tag) && Selected(sel, cs[0]) {
          if |cs| > 1 && IsBlankText(cs[1]) {
            CleanupOnlyDropsBlanks(cs[2..], tag, sel);
            var r := cs[1..];
            assert r[0] == cs[1] && r[1..] == cs[2..];
            assert Apply(r, tag, sel, Remove(false)) == [cs[1]] + Apply(cs[2..], tag, sel, Remove(false));
            EraseConcat([cs[1]], Apply(cs[2..], tag, sel, Remove(false)));
            assert EraseBlanks([cs[1]]) == [];
          } else {
            CleanupOnlyDropsBlanks(cs[1..], tag, sel);
          }
        } else {
          CleanupOnlyDropsBlanks(kids, tag, sel);
          CleanupOnlyDropsBlanks(cs[1..], tag, sel);
          var a := [Element(id, t, attrs, Apply(kids, tag, sel, Remove(true)))];
          var b := [Element(id, t, attrs, Apply(kids, tag, sel, Remove(false)))];
          EraseConcat(a, Apply(cs[1..], tag, sel, Remove(true)));
          EraseConcat(b, Apply(cs[1..], tag, sel, Remove(false)));
          assert EraseBlanks(a) == [Element(id, t, attrs, EraseBlanks(Apply(kids, tag, sel, Remove(true))))] by {
            assert a[0] == Element(id, t, attrs, Apply(kids, tag, sel, Remove(true))) && a[1..] == [];
          }
          assert EraseBlanks(b) == [Element(id, t, attrs, EraseBlanks(Apply(kids, tag, sel, Remove(false))))] by {
            assert b[0] == Element(id, t, attrs, Apply(kids, tag, sel, Remove(false))) && b[1..] == [];
          }
        }
      case _ =>
        CleanupOnlyDropsBlanks(cs[1..], tag, sel);
        EraseConcat([cs[0]], Apply(cs[1..], tag, sel, Remove(true)));
        EraseConcat([cs[0]], Apply(cs[1..], tag, sel, Remove(false)));
    }
  }

  /** The document with the blank text node right after each selected
      element taken out, at every level, and nothing else changed. */
  function DropBlankAfterEach(cs: seq<Node>, tag: string, sel: Selector): seq<Node>
    decreases cs
  {
    if cs == [] then []
    else match cs[0]
      case Element(id, t, attrs, kids) =>
        var c := Element(id, t, attrs, DropBlankAfterEach(kids, tag, sel));
        if TagMatches(t, tag) && Selected(sel, cs[0]) && |cs| > 1 && IsBlankText(cs[1])
        then [c] + DropBlankAfterEach(cs[2..], tag, sel)
        else [c] + DropBlankAfterEach(cs[1..], tag, sel)
      case _ => [cs[0]] + DropBlankAfterEach(cs[1..], tag, sel)
  }

  /** remove_all_attributes is cleanup_extra_spaces on every selected element
      followed by the plain removal: the blank text nodes it takes out on top
      of the removed subtrees are exactly those right after a removed element. */
  lemma {:induction false} CleanupThenRemove(cs: seq<Node>, tag: string, sel: Selector)
    ensures Apply(cs, tag, sel, Remove(true)) == Apply(DropBlankAfterEach(cs, tag, sel), tag, sel, Remove(false))
    decreases cs
  {
    if cs != [] {
      var d := DropBlankAfterEach(cs, tag, sel);
      match cs[0]
      case Element(id, t, attrs, kids) =>
        var c := Element(id, t, attrs, DropBlankAfterEach(kids, tag, sel));
        if TagMatches(t, tag) && Selected(sel, cs[0]) && |cs| > 1 && IsBlankText(cs[1]) {
          CleanupThenRemove(cs[2..], tag, sel);
          assert d[0] == c && d[1..] == DropBlankAfterEach(cs[2..], tag, sel);
        } else {
          CleanupThenRemove(kids, tag, sel);
          CleanupThenRemove(cs[1..], tag, sel);
          assert d[0] == c && d[1..] == DropBlankAfterEach(cs[1..], tag, sel);
        }
      case _ =>
        CleanupThenRemove(cs[1..], tag, sel);
        assert d[0] == cs[0] && d[1..] == DropBlankAfterEach(cs[1..], tag, sel);
    }
  }

  /** DropBlankAfterEach takes out blank text nodes only. */
  lemma {:induction false} DropBlankAfterEachErases(cs: seq<Node>, tag: string, sel: Selector)
    ensures EraseBlanks(DropBlankAfterEach(cs, tag, sel)) == EraseBlanks(cs)
    decreases cs
  {
    if cs != [] {
      var d := DropBlankAfterEach(cs, tag, sel);
      match cs[0]
      case Element(id, t, attrs, kids) =>
        var c := Element(id, t, attrs, DropBlankAfterEach(kids, tag, sel));
        DropBlankAfterEachErases(kids, tag, sel);
        assert EraseNode(c) == EraseNode(cs[0]);
        if TagMatches(t, tag) && Selected(sel, cs[0]) && |cs| > 1 && IsBlankText(cs[1]) {
          DropBlankAfterEachErases(cs[2..], tag, sel);
          assert d[0] == c && d[1..] == DropBlankAfterEach(cs[2..], tag, sel);
          var r := cs[1..];
          assert r[0] == cs[1] && r[1..] == cs[2..];
          assert EraseBlanks(r) == EraseBlanks(cs[2..]);
        } else {
          DropBlankAfterEachErases(cs[1..], tag, sel);
          assert d[0] == c && d[1..] == DropBlankAfterEach(cs[1..], tag, sel);
        }
      case _ =>
        DropBlankAfterEachErases(cs[1..], tag, sel);
        assert d[0] == cs[0] && d[1..] == DropBlankAfterEach(cs[1..], tag, sel);
    }
  }

  /** The data of the text nodes that are not inside a selected element, in
      document order. */
  function TextsOutside(cs: seq<Node>, tag: string, sel: Selector): seq<string>
    decreases cs
  {
    if cs == [] then []
    else match cs[0]
      case Element(_, t, _, kids) =>
        (if TagMatches(t, tag) && Selected(sel, cs[0]) then [] else TextsOutside(kids, tag, sel))
        + TextsOutside(cs[1..], tag, sel)
      case Text(data) => [data] + TextsOutside(cs[1..], tag, sel)
      case Other(_) => TextsOutside(cs[1..], tag, sel)
  }

  /** A plain removal keeps every text node outside the removed subtrees, in
      order, and no other. */
  lemma {:induction false} RemovedTexts(cs: seq<Node>, tag: string, sel: Selector)
    ensures Texts(Apply(cs, tag, sel, Remove(false))) == TextsOutside(cs, tag, sel)
    decreases cs
  {
    if cs != [] {
      var a := Apply(cs, tag, sel, Remove(false));
      match cs[0]
      case Element(id, t, attrs, kids) =>
        RemovedTexts(cs[1..], tag, sel);
        if !(TagMatches(t, tag) && Selected(sel, cs[0])) {
          RemovedTexts(kids, tag, sel);
          assert a[0] == Element(id, t, attrs, Apply(kids, tag, sel, Remove(false)));
          assert a[1..] == Apply(cs[1..], tag, sel, Remove(false));
        }
      case Text(data) =>
        RemovedTexts(cs[1..], tag, sel);
        assert a[0] == cs[0] && a[1..] == Apply(cs[1..], tag, sel, Remove(false));
      case Other(_) =>
        RemovedTexts(cs[1..], tag, sel);
        assert a[0] == cs[0] && a[1..] == Apply(cs[1..], tag, sel, Remove(false));
    }
  }

  /** A removal of the element object `x` takes `x` out when it is in the
      document. */
  lemma {:induction false} ObjectInRemoved(cs: seq<Node>, x: nat)
    requires x in IdSet(cs)
    ensures x in RemovedIds(cs, "*", Object(x))
    decreases cs
  {
    IdSetSplit(cs);
    if cs[0].Element? && cs[0].id != x {
      if x in IdSet(cs[0].children) {
        ObjectInRemoved(cs[0].children, x);
      } else {
        ObjectInRemoved(cs[1..], x);
      }
    } else if !cs[0].Element? {
      ObjectInRemoved(cs[1..], x);
    }
  }

  /** removeChild on the element object `x`: afterwards `x` is not in the
      document, the elements left were all there with the same tag and
      attributes, the text nodes outside `x` are kept in order, and exactly
      `x` and the elements below it are gone. */
  lemma DetachObject(cs: seq<Node>, x: nat)
    requires UniqueIds(cs)
    ensures var r := Edit(cs, x, Remove(false));
      && UniqueIds(r)
      && x !in AllIds(r)
      && KeptFrom(Elems(r, "*"), Elems(cs, "*"))
      && Texts(r) == TextsOutside(cs, "*", Object(x))
      && IdSet(r) == IdSet(cs) - RemovedIds(cs, "*", Object(x))
  {
    EditIsApply(cs, x, Remove(false));
    ApplyUnique(cs, "*", Object(x), Remove(false));
    RemovedKeepsOthers(cs, "*", Object(x), false, "*");
    RemovedTexts(cs, "*", Object(x));
    RemovesExactly(cs, "*", Object(x), false);
    if x in IdSet(cs) {
      ObjectInRemoved(cs, x);
    }
    assert x !in IdSet(Edit(cs, x, Remove(false)));
  }

  // ---------------------------------------------------------------------
  // clean_chunk_elements

  /** `rs` is `os` with the chunk attributes of the selected elements dropped. */
  predicate ChunksCleaned(rs: seq<Node>, os: seq<Node>, tag: string, sel: Selector)
  {
    |rs| == |os| &&
    forall i :: 0 <= i < |rs| ==>
      rs[i].Element? && os[i].Element? && rs[i].id == os[i].id && rs[i].tag == os[i].tag &&
      rs[i].attrs == (if TagMatches(os[i].tag, tag) && Selected(sel, os[i]) then ChunkAttrs(os[i].attrs) else os[i].attrs)
  }

  lemma ChunksCleanedConcat(r1: seq<Node>, o1: seq<Node>, r2: seq<Node>, o2: seq<Node>, tag: string, sel: Selector)
    requires ChunksCleaned(r1, o1, tag, sel) && ChunksCleaned(r2, o2, tag, sel)
    ensures ChunksCleaned(r1 + r2, o1 + o2, tag, sel)
  {
    forall i | 0 <= i < |r1 + r2|
      ensures (r1 + r2)[i].Element? && (o1 + o2)[i].Element?
           && (r1 + r2)[i].id == (o1 + o2)[i].id && (r1 + r2)[i].tag == (o1 + o2)[i].tag
           && (r1 + r2)[i].attrs == (if TagMatches((o1 + o2)[i].tag, tag) && Selected(sel, (o1 + o2)[i])
                                     then ChunkAttrs((o1 + o2)[i].attrs) else (o1 + o2)[i].attrs)
    {
      if i < |r1| {
        assert (r1 + r2)[i] == r1[i] && (o1 + o2)[i] == o1[i];
      } else {
        assert (r1 + r2)[i] == r2[i - |r1|] && (o1 + o2)[i] == o2[i - |o1|];
      }
    }
  }

  /** clean_chunk_elements changes the attributes of the selected elements
      only, and only by dropping `offset` and `nBytes`: a search for any tag
      finds the same elements, in the same order. */
  lemma {:induction false} ClearChunkPointwise(cs: seq<Node>, tag: string, sel: Selector, t': string)
    ensures ChunksCleaned(Elems(Apply(cs, tag, sel, ClearChunk), t'), Elems(cs, t'), tag, sel)
    decreases cs
  {
    var op := ClearChunk;
    if cs != [] {
      match cs[0]
      case Element(id, t, attrs, kids) =>
        var sel0 := TagMatches(t, tag) && Selected(sel, cs[0]);
        var c2 := Element(id, t, if sel0 then ChunkAttrs(attrs) else attrs, Apply(kids, tag, sel, op));
        var h2 := if TagMatches(t, t') then [c2] else [];
        var h := if TagMatches(t, t') then [cs[0]] else [];
        var rk, ok := Elems(Apply(kids, tag, sel, op), t'), Elems(kids, t');
        var rr, or := Elems(Apply(cs[1..], tag, sel, op), t'), Elems(cs[1..], t');
        assert Elems(Apply(cs, tag, sel, op), t') == h2 + rk + rr by {
          assert Apply(cs, tag, sel, op) == [c2] + Apply(cs[1..], tag, sel, op);
          ElemsOfElement(c2, Apply(cs[1..], tag, sel, op), t');
        }
        assert Elems(cs, t') == h + ok + or by {
          ElemsOfElement(cs[0], cs[1..], t');
          assert cs == [cs[0]] + cs[1..];
        }
        ClearChunkPointwise(kids, tag, sel, t');
        ClearChunkPointwise(cs[1..], tag, sel, t');
        assert ChunksCleaned(h2, h, tag, sel);
        ChunksCleanedConcat(h2, h, rk, ok, tag, sel);
        ChunksCleanedConcat(h2 + rk, h + ok, rr, or, tag, sel);
      case _ =>
        ClearChunkPointwise(cs[1..], tag, sel, t');
        assert Apply(cs, tag, sel, op) == [cs[0]] + Apply(cs[1..], tag, sel, op);
        ElemsConcat([cs[0]], Apply(cs[1..], tag, sel, op), t');
        assert Elems([cs[0]], t') == [];
        assert Elems(cs, t') == Elems(cs[1..], t');
    }
  }

  /** clean_chunk_elements leaves every node, the nesting and every text in
      place. */
  lemma {:induction false} ClearChunkKeepsShape(cs: seq<Node>, tag: string, sel: Selector)
    ensures Shape(Apply(cs, tag, sel, ClearChunk)) == Shape(cs)
    decreases cs
  {
    if cs != [] {
      ClearChunkKeepsShape(cs[1..], tag, sel);
      if cs[0].Element? {
        ClearChunkKeepsShape(cs[0].children, tag, sel);
      }
    }
  }

  /** After clean_chunk_elements no chunk element carries `offset` or `nBytes`. */
  lemma ChunksHaveNoOffsets(cs: seq<Node>, tag: string)
    ensures forall e <- Elems(Apply(cs, tag, Every, ClearChunk), tag) :: "offset" !in e.attrs && "nBytes" !in e.attrs
  {
    var r := Elems(Apply(cs, tag, Every, ClearChunk), tag);
    ClearChunkPointwise(cs, tag, Every, tag);
    forall e <- r ensures "offset" !in e.attrs && "nBytes" !in e.attrs {
      var i :| 0 <= i < |r| && r[i] == e;
      assert TagMatches(Elems(cs, tag)[i].tag, tag);
    }
  }

  /** clean_chunk_element on the element object `x`: every node, the nesting
      and every text stay; a search for any tag finds the same elements, and
      only `x` loses its `offset` and `nBytes`. */
  lemma CleanObject(cs: seq<Node>, x: nat)
    requires UniqueIds(cs)
    ensures var r := Edit(cs, x, ClearChunk);
      && UniqueIds(r)
      && Shape(r) == Shape(cs)
      && ChunksCleaned(Elems(r, "*"), Elems(cs, "*"), "*", Object(x))
  {
    EditIsApply(cs, x, ClearChunk);
    ApplyUnique(cs, "*", Object(x), ClearChunk);
    ClearChunkKeepsShape(cs, "*", Object(x));
    ClearChunkPointwise(cs, "*", Object(x), "*");
  }

  // ---------------------------------------------------------------------
  // cleanup_extra_spaces

  /** Without a blank text node after `x`, cleanup_extra_spaces changes nothing. */
  lemma {:induction false} NoBlankNoChange(cs: seq<Node>, x: nat)
    requires !HasBlankAfter(cs, x)
    ensures DropBlankAfter(cs, x) == cs
    decreases cs
  {
    if cs != [] && !(cs[0].Element? && cs[0].id == x) {
      NoBlankNoChange(cs[1..], x);
      if cs[0].Element? {
        NoBlankNoChange(cs[0].children, x);
      }
    }
  }

  lemma {:induction false} HasBlankAfterIsPresent(cs: seq<Node>, x: nat)
    requires HasBlankAfter(cs, x)
    ensures x in AllIds(cs)
    decreases cs
  {
    if cs[0].Element? && cs[0].id != x {
      if HasBlankAfter(cs[0].children, x) {
        HasBlankAfterIsPresent(cs[0].children, x);
      } else {
        HasBlankAfterIsPresent(cs[1..], x);
      }
    } else if !cs[0].Element? {
      HasBlankAfterIsPresent(cs[1..], x);
    }
  }

  /** With a blank text node after `x`, cleanup_extra_spaces takes out exactly
      one node, a blank text node, and keeps every element. */
  lemma {:induction false} BlankDropped(cs: seq<Node>, x: nat)
    requires UniqueIds(cs) && HasBlankAfter(cs, x)
    ensures NodeCount(DropBlankAfter(cs, x)) == NodeCount(cs) - 1
    ensures EraseBlanks(DropBlankAfter(cs, x)) == EraseBlanks(cs)
    ensures AllIds(DropBlankAfter(cs, x)) == AllIds(cs)
    decreases cs
  {
    UniqueSplit(cs);
    match cs[0]
    case Element(id, t, attrs, kids) =>
      if id == x {
        assert cs[1..] == [cs[1]] + cs[2..];
        assert NodeCount(cs[1..]) == 1 + NodeCount(cs[2..]);
        assert EraseBlanks(cs[1..]) == EraseBlanks(cs[2..]);
        assert AllIds(cs[1..]) == AllIds(cs[2..]);
        var d := [cs[0]] + cs[2..];
        assert d[0] == cs[0] && d[1..] == cs[2..];
      } else {
        IdsOfOne(cs[0]);
        if HasBlankAfter(kids, x) {
          HasBlankAfterIsPresent(kids, x);
          if HasBlankAfter(cs[1..], x) {
            HasBlankAfterIsPresent(cs[1..], x);
            assert false;
          }
          BlankDropped(kids, x);
          NoBlankNoChange(cs[1..], x);
        } else {
          NoBlankNoChange(kids, x);
          BlankDropped(cs[1..], x);
        }
      }
    case _ =>
      BlankDropped(cs[1..], x);
  }

  /** clean_chunk_element keeps every element of the document. */
  lemma {:induction false} ClearKeepsIds(cs: seq<Node>, x: nat)
    ensures AllIds(Edit(cs, x, ClearChunk)) == AllIds(cs)
    decreases cs
  {
    if cs != [] {
      ClearKeepsIds(cs[1..], x);
      if cs[0].Element? {
        ClearKeepsIds(cs[0].children, x);
      }
    }
  }

  // ---------------------------------------------------------------------
  // Exactly the selected elements go

  function IdSet(cs: seq<Node>): set<nat>
  {
    set x <- AllIds(cs)
  }

  /** The ids a removal takes out: each selected element and everything
      below it. */
  function RemovedIds(cs: seq<Node>, tag: string, sel: Selector): set<nat>
    decreases cs
  {
    if cs == [] then {}
    else match cs[0]
      case Element(id, t, _, kids) =>
        if TagMatches(t, tag) && Selected(sel, cs[0]) then {id} + IdSet(kids) + RemovedIds(cs[1..], tag, sel)
        else RemovedIds(kids, tag, sel) + RemovedIds(cs[1..], tag, sel)
      case _ => RemovedIds(cs[1..], tag, sel)
  }

  lemma {:induction false} IdSetSplit(cs: seq<Node>)
    requires cs != []
    ensures IdSet(cs) == (if cs[0].Element? then {cs[0].id} + IdSet(cs[0].children) else {}) + IdSet(cs[1..])
  {
    assert cs == [cs[0]] + cs[1..];
    AllIdsConcat([cs[0]], cs[1..]);
    IdsOfOne(cs[0]);
  }

  lemma {:induction false} RemovedWithin(cs: seq<Node>, tag: string, sel: Selector)
    ensures RemovedIds(cs, tag, sel) <= IdSet(cs)
    decreases cs
  {
    if cs != [] {
      IdSetSplit(cs);
      RemovedWithin(cs[1..], tag, sel);
      if cs[0].Element? {
        RemovedWithin(cs[0].children, tag, sel);
      }
    }
  }

  /** Edits.UniqueSplit read through IdSet: kept apart so that the proofs
      over id sets get the set facts without unfolding AllIds. */
  lemma UniqueSets(cs: seq<Node>)
    requires cs != [] && UniqueIds(cs)
    ensures UniqueIds(cs[1..])
    ensures cs[0].Element? ==> UniqueIds(cs[0].children) && cs[0].id !in IdSet(cs[0].children)
    ensures cs[0].Element? ==> cs[0].id !in IdSet(cs[1..]) && IdSet(cs[0].children) !! IdSet(cs[1..])
  {
    UniqueSplit(cs);
    IdsOfOne(cs[0]);
  }

  /** An element stays in the document after a removal exactly when it was in
      it and is neither selected nor below a selected element. */
  lemma {:induction false} RemovesExactly(cs: seq<Node>, tag: string, sel: Selector, spaces: bool)
    requires UniqueIds(cs)
    ensures IdSet(Apply(cs, tag, sel, Remove(spaces))) == IdSet(cs) - RemovedIds(cs, tag, sel)
    decreases cs
  {
    var op := Remove(spaces);
    if cs != [] {
      UniqueSets(cs);
      IdSetSplit(cs);
      RemovesExactly(cs[1..], tag, sel, spaces);
      RemovedWithin(cs[1..], tag, sel);
      match cs[0]
      case Element(id, t, attrs, kids) =>
        RemovedWithin(kids, tag, sel);
        if TagMatches(t, tag) && Selected(sel, cs[0]) {
          if spaces && |cs| > 1 && IsBlankText(cs[1]) {
            var r := cs[1..];
            assert r[1..] == cs[2..];
            IdSetSplit(r);
            assert RemovedIds(r, tag, sel) == RemovedIds(cs[2..], tag, sel);
          }
        } else {
          RemovesExactly(kids, tag, sel, spaces);
          var a := Apply(cs, tag, sel, op);
          assert a == [Element(id, t, attrs, Apply(kids, tag, sel, op))] + Apply(cs[1..], tag, sel, op);
          IdSetSplit(a);
          assert a[1..] == Apply(cs[1..], tag, sel, op);
        }
      case _ =>
        var a := Apply(cs, tag, sel, op);
        IdSetSplit(a);
        assert a[1..] == Apply(cs[1..], tag, sel, op);
    }
  }
}
