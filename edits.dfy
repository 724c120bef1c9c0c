/** The tree edits of the DMR++ invariant builder, in two forms:
    - `Edit`/`EditAll`: what the source's loops do, one element object at a
      time, over a snapshot taken by getElementsByTagName before the loop;
    - `Apply`: a declarative rewrite of the whole tree.
    `EditAllIsApply` proves that the two agree on every document whose
    element objects are distinct. */
module Edits {
  import opened Dom

  /** Which of the snapshot's elements a loop acts on; `Object(x)` is the one
      element object handed to a single removeChild or clean_chunk_element. */
  datatype Selector =
    | Every                                  // remove_all_attributes, clean_chunk_elements
    | NameAndType(name: string, typ: string) // remove_attribute(root, name, type)
    | Object(x: nat)                         // one step on the element object x

  predicate Selected(sel: Selector, e: Node)
    requires e.Element?
  {
    match sel
    case Every => true
    case NameAndType(n, t) => GetAttribute(e, "name") == n && GetAttribute(e, "type") == t
    case Object(x) => e.id == x
  }

  /** What a loop does to each selected element: detach it from its parent
      (after dropping the blank text node that follows it, when `spaces`), or
      drop its `offset` and `nBytes` attributes. */
  datatype Op = Remove(spaces: bool) | ClearChunk

  /** The attributes of a dmrpp:chunk element after clean_chunk_element. */
  function ChunkAttrs(attrs: map<string, string>): map<string, string>
  {
    attrs - {"offset", "nBytes"}
  }

  /** The id of `e` when the loop acts on it. */
  function Pick(e: Node, sel: Selector): seq<nat>
  {
    if e.Element? && Selected(sel, e) then [e.id] else []
  }

  /** The ids of the snapshot elements that a loop acts on, in snapshot order. */
  function Picked(es: seq<Node>, sel: Selector): seq<nat>
  {
    if es == [] then [] else Pick(es[0], sel) + Picked(es[1..], sel)
  }

  /** The elements the loop over getElementsByTagName(tag) acts on. */
  function Targets(cs: seq<Node>, tag: string, sel: Selector): seq<nat>
  {
    Picked(Elems(cs, tag), sel)
  }

  /** cleanup_extra_spaces on the element object `x`: when the node right
      after `x` among its siblings is a blank text node, detach that node. */
  function DropBlankAfter(cs: seq<Node>, x: nat): seq<Node>
    decreases cs
  {
    if cs == [] then []
    else match cs[0]
      case Element(id, t, attrs, kids) =>
        if id == x then
          (if |cs| > 1 && IsBlankText(cs[1]) then [cs[0]] + cs[2..] else cs)
        else [Element(id, t, attrs, DropBlankAfter(kids, x))] + DropBlankAfter(cs[1..], x)
      case _ => [cs[0]] + DropBlankAfter(cs[1..], x)
  }

  /** The siblings left after removing the first node, and with it, when
      `spaces`, the blank text node right after it. */
  function Following(cs: seq<Node>, spaces: bool): (r: seq<Node>)
    requires cs != []
    ensures |r| < |cs|
  {
    if spaces && |cs| > 1 && IsBlankText(cs[1]) then cs[2..] else cs[1..]
  }

  /** One loop step on the element object `x`: `Remove(false)` is
      parentNode.removeChild, `Remove(true)` is cleanup_extra_spaces followed
      by removeChild, `ClearChunk` is clean_chunk_element. When `x` is no
      longer in the document (it sits in a subtree detached earlier) the
      document does not change. */
  function Edit(cs: seq<Node>, x: nat, op: Op): seq<Node>
    decreases cs
  {
    if cs == [] then []
    else match cs[0]
      case Element(id, t, attrs, kids) =>
        if id == x then
          match op
          case Remove(spaces) => Following(cs, spaces)
          case ClearChunk => [Element(id, t, ChunkAttrs(attrs), kids)] + cs[1..]
        else [Element(id, t, attrs, Edit(kids, x, op))] + Edit(cs[1..], x, op)
      case _ => [cs[0]] + Edit(cs[1..], x, op)
  }

  /** The loop: one step per id, in order. */
  function EditAll(cs: seq<Node>, xs: seq<nat>, op: Op): seq<Node>
    decreases |xs|
  {
    if xs == [] then cs else EditAll(Edit(cs, xs[0], op), xs[1..], op)
  }

  /** The declarative rewrite: every selected element whose tag matches is
      removed together with its subtree (and, when `spaces`, with the blank
      text node right after it), or has its chunk attributes dropped; all
      other nodes stay, in order. */
  function Apply(cs: seq<Node>, tag: string, sel: Selector, op: Op): seq<Node>
    decreases cs
  {
    if cs == [] then []
    else match cs[0]
      case Element(id, t, attrs, kids) =>
        if TagMatches(t, tag) && Selected(sel, cs[0]) then
          match op
          case Remove(spaces) => Apply(Following(cs, spaces), tag, sel, op)
          case ClearChunk =>
            [Element(id, t, ChunkAttrs(attrs), Apply(kids, tag, sel, op))] + Apply(cs[1..], tag, sel, op)
        else [Element(id, t, attrs, Apply(kids, tag, sel, op))] + Apply(cs[1..], tag, sel, op)
      case _ => [cs[0]] + Apply(cs[1..], tag, sel, op)
  }

  // ---------------------------------------------------------------------
  // Facts about snapshots

  lemma {:induction false} PickedAppend(a: seq<Node>, b: seq<Node>, sel: Selector)
    ensures Picked(a + b, sel) == Picked(a, sel) + Picked(b, sel)
    decreases |a|
  {
    if a == [] {
      assert a + b == b;
    } else {
      assert (a + b)[0] == a[0] && (a + b)[1..] == a[1..] + b;
      PickedAppend(a[1..], b, sel);
    }
  }

  lemma {:induction false} PickedInElems(es: seq<Node>, sel: Selector)
    ensures forall x <- Picked(es, sel) :: exists e <- es :: e.Element? && e.id == x && Selected(sel, e)
    decreases |es|
  {
    if es != [] {
      PickedInElems(es[1..], sel);
      forall x <- Picked(es, sel)
        ensures exists e <- es :: e.Element? && e.id == x && Selected(sel, e)
      {
        if x in Picked(es[1..], sel) {
          var e :| e in es[1..] && e.Element? && e.id == x && Selected(sel, e);
          assert e in es;
        } else {
          assert es[0] in es;
        }
      }
    }
  }

  /** Every id a loop acts on is the id of an element of the document. */
  lemma TargetsInIds(cs: seq<Node>, tag: string, sel: Selector)
    ensures forall x <- Targets(cs, tag, sel) :: x in AllIds(cs)
  {
    PickedInElems(Elems(cs, tag), sel);
    ElemsInIds(cs, tag);
  }

  // ---------------------------------------------------------------------
  // Facts about one step and about the loop

  /** A step on an element object that is not in the document changes nothing. */
  lemma {:induction false} EditAbsent(cs: seq<Node>, x: nat, op: Op)
    requires x !in AllIds(cs)
    ensures Edit(cs, x, op) == cs
    decreases cs
  {
    if cs != [] {
      EditAbsent(cs[1..], x, op);
      if cs[0].Element? {
        EditAbsent(cs[0].children, x, op);
      }
    }
  }

  lemma {:induction false} EditAllAbsent(cs: seq<Node>, xs: seq<nat>, op: Op)
    requires forall x <- xs :: x !in AllIds(cs)
    ensures EditAll(cs, xs, op) == cs
    decreases |xs|
  {
    if xs != [] {
      EditAbsent(cs, xs[0], op);
      EditAllAbsent(cs, xs[1..], op);
    }
  }

  lemma {:induction false} EditAllAppend(cs: seq<Node>, xs: seq<nat>, ys: seq<nat>, op: Op)
    ensures EditAll(cs, xs + ys, op) == EditAll(EditAll(cs, xs, op), ys, op)
    decreases |xs|
  {
    if xs == [] {
      assert xs + ys == ys;
    } else {
      assert (xs + ys)[0] == xs[0] && (xs + ys)[1..] == xs[1..] + ys;
      EditAllAppend(Edit(cs, xs[0], op), xs[1..], ys, op);
    }
  }

  /** One more turn of a loop over the snapshot `es`: the step on `es[i]`,
      which changes nothing when the loop does not act on it. */
  lemma LoopStep(start: seq<Node>, es: seq<Node>, i: nat, sel: Selector, op: Op)
    requires i < |es|
    ensures EditAll(start, Picked(es[..i + 1], sel), op) ==
            var before := EditAll(start, Picked(es[..i], sel), op);
            if es[i].Element? && Selected(sel, es[i]) then Edit(before, es[i].id, op) else before
  {
    assert es[..i + 1] == es[..i] + [es[i]];
    PickedAppend(es[..i], [es[i]], sel);
    assert Picked([es[i]], sel) == Pick(es[i], sel);
    EditAllAppend(start, Picked(es[..i], sel), Pick(es[i], sel), op);
  }

  /** Steps on element objects below the first element `c` touch only `c`'s
      children. */
  lemma {:induction false} EditAllInside(id: nat, t: string, attrs: map<string, string>,
                                         kids: seq<Node>, rest: seq<Node>, xs: seq<nat>, op: Op)
    requires forall x <- xs :: x != id && x !in AllIds(rest)
    ensures EditAll([Element(id, t, attrs, kids)] + rest, xs, op)
         == [Element(id, t, attrs, EditAll(kids, xs, op))] + rest
    decreases |xs|
  {
    if xs != [] {
      var cs := [Element(id, t, attrs, kids)] + rest;
      assert cs[0] == Element(id, t, attrs, kids) && cs[1..] == rest;
      assert xs[0] in xs;
      EditAbsent(rest, xs[0], op);
      assert Edit(cs, xs[0], op) == [Element(id, t, attrs, Edit(kids, xs[0], op))] + rest;
      assert forall x <- xs[1..] :: x in xs;
      EditAllInside(id, t, attrs, Edit(kids, xs[0], op), rest, xs[1..], op);
    }
  }

  lemma IdsOfOne(c: Node)
    ensures AllIds([c]) == if c.Element? then [c.id] + AllIds(c.children) else []
  {
    assert [c][1..] == [];
  }

  /** Steps on element objects that are not in the first node `c` leave `c`
      alone. */
  lemma {:induction false} EditAllAfter(c: Node, rest: seq<Node>, xs: seq<nat>, op: Op)
    requires forall x <- xs :: x !in AllIds([c])
    ensures EditAll([c] + rest, xs, op) == [c] + EditAll(rest, xs, op)
    decreases |xs|
  {
    if xs != [] {
      var cs := [c] + rest;
      assert cs[0] == c && cs[1..] == rest;
      assert xs[0] in xs;
      IdsOfOne(c);
      if c.Element? {
        EditAbsent(c.children, xs[0], op);
      }
      assert Edit(cs, xs[0], op) == [c] + Edit(rest, xs[0], op);
      assert forall x <- xs[1..] :: x in xs;
      EditAllAfter(c, Edit(rest, xs[0], op), xs[1..], op);
    }
  }

  /** cleanup_extra_spaces followed by removeChild is the step `Remove(true)`. */
  lemma {:induction false} CleanupThenDetach(cs: seq<Node>, x: nat)
    ensures Edit(DropBlankAfter(cs, x), x, Remove(false)) == Edit(cs, x, Remove(true))
    decreases cs
  {
    if cs != [] {
      match cs[0]
      case Element(id, t, attrs, kids) =>
        if id == x {
          var d := DropBlankAfter(cs, x);
          assert d[0] == cs[0];
          if |cs| > 1 && IsBlankText(cs[1]) {
            assert d[1..] == cs[2..];
          } else {
            assert d == cs;
          }
        } else {
          CleanupThenDetach(kids, x);
          CleanupThenDetach(cs[1..], x);
          var d := DropBlankAfter(cs, x);
          assert d[0] == Element(id, t, attrs, DropBlankAfter(kids, x));
          assert d[1..] == DropBlankAfter(cs[1..], x);
        }
      case _ =>
        CleanupThenDetach(cs[1..], x);
        var d := DropBlankAfter(cs, x);
        assert d[0] == cs[0] && d[1..] == DropBlankAfter(cs[1..], x);
    }
  }

  // ---------------------------------------------------------------------
  // Identity is preserved

  lemma {:induction false} AllIdsConcat(a: seq<Node>, b: seq<Node>)
    ensures AllIds(a + b) == AllIds(a) + AllIds(b)
    decreases |a|
  {
    if a == [] {
      assert a + b == b;
    } else {
      assert (a + b)[0] == a[0] && (a + b)[1..] == a[1..] + b;
      AllIdsConcat(a[1..], b);
    }
  }

  /** The rewrite brings in no element objects. */
  lemma {:induction false} ApplyIdsWithin(cs: seq<Node>, tag: string, sel: Selector, op: Op)
    ensures forall x <- AllIds(Apply(cs, tag, sel, op)) :: x in AllIds(cs)
    decreases cs
  {
    if cs != [] {
      ApplyIdsWithin(cs[1..], tag, sel, op);
      if |cs| > 1 {
        ApplyIdsWithin(cs[2..], tag, sel, op);
        assert cs[1..] == [cs[1]] + cs[2..];
        AllIdsConcat([cs[1]], cs[2..]);
      }
      if cs[0].Element? {
        ApplyIdsWithin(cs[0].children, tag, sel, op);
      }
    }
  }

  /** The rewrite keeps element objects distinct. */
  lemma {:induction false} ApplyUnique(cs: seq<Node>, tag: string, sel: Selector, op: Op)
    requires UniqueIds(cs)
    ensures UniqueIds(Apply(cs, tag, sel, op))
    decreases cs
  {
    if cs != [] {
      var rest := cs[1..];
      assert cs == [cs[0]] + rest;
      AllIdsConcat([cs[0]], rest);
      DistinctConcat(AllIds([cs[0]]), AllIds(rest));
      ApplyUnique(rest, tag, sel, op);
      if |cs| > 1 {
        assert rest == [rest[0]] + rest[1..];
        AllIdsConcat([rest[0]], rest[1..]);
        DistinctConcat(AllIds([rest[0]]), AllIds(rest[1..]));
        ApplyUnique(rest[1..], tag, sel, op);
        assert cs[2..] == rest[1..];
      }
      match cs[0]
      case Element(id, t, attrs, kids) =>
        assert AllIds([cs[0]]) == [id] + AllIds(kids) + AllIds([cs[0]][1..]);
        assert AllIds([cs[0]]) == [id] + AllIds(kids);
        DistinctConcat([id], AllIds(kids));
        ApplyUnique(kids, tag, sel, op);
        ApplyIdsWithin(kids, tag, sel, op);
        ApplyIdsWithin(rest, tag, sel, op);
        var k := AllIds(Apply(kids, tag, sel, op));
        var r := AllIds(Apply(rest, tag, sel, op));
        if TagMatches(t, tag) && Selected(sel, cs[0]) && op.Remove? {
          assert Apply(cs, tag, sel, op) == Apply(Following(cs, op.spaces), tag, sel, op);
          assert Following(cs, op.spaces) == rest || Following(cs, op.spaces) == cs[2..];
        } else {
          var a := if TagMatches(t, tag) && Selected(sel, cs[0]) then ChunkAttrs(attrs) else attrs;
          var c' := Element(id, t, a, Apply(kids, tag, sel, op));
          assert Apply(cs, tag, sel, op) == [c'] + Apply(rest, tag, sel, op);
          AllIdsConcat([c'], Apply(rest, tag, sel, op));
          assert AllIds([c']) == [id] + k + AllIds([c'][1..]);
          assert AllIds([c']) == [id] + k;
          DistinctConcat([id], k);
          DistinctConcat([id] + k, r);
        }
      case _ =>
        assert AllIds([cs[0]]) == [];
        AllIdsConcat([cs[0]], Apply(rest, tag, sel, op));
        assert AllIds([cs[0]]) == AllIds([cs[0]][1..]);
    }
  }

  // ---------------------------------------------------------------------
  // The loops do what the rewrite says

  lemma TargetsOfElement(cs: seq<Node>, tag: string, sel: Selector)
    requires cs != [] && cs[0].Element?
    ensures Targets(cs, tag, sel)
         == (if TagMatches(cs[0].tag, tag) && Selected(sel, cs[0]) then [cs[0].id] else [])
            + Targets(cs[0].children, tag, sel) + Targets(cs[1..], tag, sel)
  {
    var head := if TagMatches(cs[0].tag, tag) then [cs[0]] else [];
    assert Elems(cs, tag) == head + Elems(cs[0].children, tag) + Elems(cs[1..], tag);
    PickedAppend(head + Elems(cs[0].children, tag), Elems(cs[1..], tag), sel);
    PickedAppend(head, Elems(cs[0].children, tag), sel);
    if head != [] { assert head[1..] == []; }
  }

  lemma TargetsOfFollowing(cs: seq<Node>, tag: string, sel: Selector, spaces: bool)
    requires cs != []
    ensures Targets(Following(cs, spaces), tag, sel) == Targets(cs[1..], tag, sel)
    ensures AllIds(Following(cs, spaces)) == AllIds(cs[1..])
  {
    if Following(cs, spaces) != cs[1..] {
      assert cs[1..] == [cs[1]] + cs[2..];
      assert Elems(cs[1..], tag) == Elems(cs[2..], tag);
      assert AllIds(cs[1..]) == AllIds(cs[2..]);
    }
  }

  /** What distinct element objects give each part of a list of children. */
  lemma UniqueSplit(cs: seq<Node>)
    requires cs != [] && UniqueIds(cs)
    ensures UniqueIds(cs[1..])
    ensures forall x <- AllIds([cs[0]]) :: x !in AllIds(cs[1..])
    ensures cs[0].Element? ==> UniqueIds(cs[0].children) && cs[0].id !in AllIds(cs[0].children)
  {
    assert cs == [cs[0]] + cs[1..];
    AllIdsConcat([cs[0]], cs[1..]);
    DistinctConcat(AllIds([cs[0]]), AllIds(cs[1..]));
    IdsOfOne(cs[0]);
    if cs[0].Element? {
      DistinctConcat([cs[0].id], AllIds(cs[0].children));
    }
  }

  lemma CaseRemoved(cs: seq<Node>, tag: string, sel: Selector, spaces: bool)
    requires cs != [] && cs[0].Element? && TagMatches(cs[0].tag, tag) && Selected(sel, cs[0])
    requires UniqueIds(cs)
    requires EditAll(Following(cs, spaces), Targets(Following(cs, spaces), tag, sel), Remove(spaces))
          == Apply(Following(cs, spaces), tag, sel, Remove(spaces))
    ensures EditAll(cs, Targets(cs, tag, sel), Remove(spaces)) == Apply(cs, tag, sel, Remove(spaces))
  {
    var op, id, rest' := Remove(spaces), cs[0].id, Following(cs, spaces);
    var inner, outer := Targets(cs[0].children, tag, sel), Targets(cs[1..], tag, sel);
    TargetsOfElement(cs, tag, sel);
    EditAllAppend(cs, [id] + inner, outer, op);
    EditAllAppend(cs, [id], inner, op);
    assert EditAll(cs, [id], op) == rest' by {
      assert Edit(cs, id, op) == rest';
      assert [id][1..] == [];
    }
    UniqueSplit(cs);
    IdsOfOne(cs[0]);
    TargetsInIds(cs[0].children, tag, sel);
    TargetsOfFollowing(cs, tag, sel, spaces);
    EditAllAbsent(rest', inner, op);
  }

  lemma CaseCleared(cs: seq<Node>, tag: string, sel: Selector)
    requires cs != [] && cs[0].Element? && TagMatches(cs[0].tag, tag) && Selected(sel, cs[0])
    requires UniqueIds(cs)
    requires EditAll(cs[0].children, Targets(cs[0].children, tag, sel), ClearChunk)
          == Apply(cs[0].children, tag, sel, ClearChunk)
    requires EditAll(cs[1..], Targets(cs[1..], tag, sel), ClearChunk) == Apply(cs[1..], tag, sel, ClearChunk)
    ensures EditAll(cs, Targets(cs, tag, sel), ClearChunk) == Apply(cs, tag, sel, ClearChunk)
  {
    var op := ClearChunk;
    var Element(id, t, attrs, kids) := cs[0];
    var rest := cs[1..];
    var inner, outer := Targets(kids, tag, sel), Targets(rest, tag, sel);
    TargetsOfElement(cs, tag, sel);
    EditAllAppend(cs, [id] + inner, outer, op);
    EditAllAppend(cs, [id], inner, op);
    var c1 := Element(id, t, ChunkAttrs(attrs), kids);
    assert EditAll(cs, [id], op) == [c1] + rest by {
      assert Edit(cs, id, op) == [c1] + rest;
      assert [id][1..] == [];
    }
    UniqueSplit(cs);
    IdsOfOne(cs[0]);
    TargetsInIds(kids, tag, sel);
    EditAllInside(id, t, ChunkAttrs(attrs), kids, rest, inner, op);
    var c2 := Element(id, t, ChunkAttrs(attrs), Apply(kids, tag, sel, op));
    ApplyIdsWithin(kids, tag, sel, op);
    IdsOfOne(c2);
    TargetsInIds(rest, tag, sel);
    EditAllAfter(c2, rest, outer, op);
  }

  lemma ApplyKept(cs: seq<Node>, tag: string, sel: Selector, op: Op)
    requires cs != [] && cs[0].Element? && !(TagMatches(cs[0].tag, tag) && Selected(sel, cs[0]))
    ensures Apply(cs, tag, sel, op)
         == [cs[0].(children := Apply(cs[0].children, tag, sel, op))] + Apply(cs[1..], tag, sel, op)
  {
  }

  /** The loop's steps below a kept element, then its steps after it. */
  lemma KeptSteps(cs: seq<Node>, tag: string, sel: Selector, op: Op)
    requires cs != [] && cs[0].Element?
    requires UniqueIds(cs)
    ensures EditAll(cs, Targets(cs[0].children, tag, sel), op)
         == [cs[0].(children := EditAll(cs[0].children, Targets(cs[0].children, tag, sel), op))] + cs[1..]
  {
    var id, t, attrs, kids := cs[0].id, cs[0].tag, cs[0].attrs, cs[0].children;
    UniqueSplit(cs);
    IdsOfOne(cs[0]);
    TargetsInIds(kids, tag, sel);
    assert cs == [Element(id, t, attrs, kids)] + cs[1..];
    EditAllInside(id, t, attrs, kids, cs[1..], Targets(kids, tag, sel), op);
  }

  lemma StepsAfter(c: Node, cs: seq<Node>, tag: string, sel: Selector, op: Op)
    requires cs != [] && c.Element? && cs[0].Element? && c.id == cs[0].id
    requires UniqueIds(cs)
    requires forall x <- AllIds(c.children) :: x in AllIds(cs[0].children)
    ensures EditAll([c] + cs[1..], Targets(cs[1..], tag, sel), op) == [c] + EditAll(cs[1..], Targets(cs[1..], tag, sel), op)
  {
    UniqueSplit(cs);
    IdsOfOne(cs[0]);
    IdsOfOne(c);
    TargetsInIds(cs[1..], tag, sel);
    EditAllAfter(c, cs[1..], Targets(cs[1..], tag, sel), op);
  }

  lemma KeptLoop(cs: seq<Node>, tag: string, sel: Selector, op: Op)
    requires cs != [] && cs[0].Element? && !(TagMatches(cs[0].tag, tag) && Selected(sel, cs[0]))
    requires UniqueIds(cs)
    requires EditAll(cs[0].children, Targets(cs[0].children, tag, sel), op) == Apply(cs[0].children, tag, sel, op)
    ensures EditAll(cs, Targets(cs, tag, sel), op)
         == [cs[0].(children := Apply(cs[0].children, tag, sel, op))] + EditAll(cs[1..], Targets(cs[1..], tag, sel), op)
  {
    var inner, outer := Targets(cs[0].children, tag, sel), Targets(cs[1..], tag, sel);
    var c2 := cs[0].(children := Apply(cs[0].children, tag, sel, op));
    var rest := cs[1..];
    assert EditAll(cs, Targets(cs, tag, sel), op) == EditAll(EditAll(cs, inner, op), outer, op) by {
      TargetsOfElement(cs, tag, sel);
      assert [] + inner == inner;
      assert Targets(cs, tag, sel) == inner + outer;
      EditAllAppend(cs, inner, outer, op);
    }
    assert EditAll(cs, inner, op) == [c2] + rest by {
      KeptSteps(cs, tag, sel, op);
    }
    assert EditAll([c2] + rest, outer, op) == [c2] + EditAll(rest, outer, op) by {
      ApplyIdsWithin(cs[0].children, tag, sel, op);
      StepsAfter(c2, cs, tag, sel, op);
    }
  }

  lemma CaseKept(cs: seq<Node>, tag: string, sel: Selector, op: Op)
    requires cs != [] && cs[0].Element? && !(TagMatches(cs[0].tag, tag) && Selected(sel, cs[0]))
    requires UniqueIds(cs)
    requires EditAll(cs[0].children, Targets(cs[0].children, tag, sel), op) == Apply(cs[0].children, tag, sel, op)
    requires EditAll(cs[1..], Targets(cs[1..], tag, sel), op) == Apply(cs[1..], tag, sel, op)
    ensures EditAll(cs, Targets(cs, tag, sel), op) == Apply(cs, tag, sel, op)
  {
    KeptLoop(cs, tag, sel, op);
    ApplyKept(cs, tag, sel, op);
  }

  lemma CaseLeaf(cs: seq<Node>, tag: string, sel: Selector, op: Op)
    requires cs != [] && !cs[0].Element?
    requires EditAll(cs[1..], Targets(cs[1..], tag, sel), op) == Apply(cs[1..], tag, sel, op)
    ensures EditAll(cs, Targets(cs, tag, sel), op) == Apply(cs, tag, sel, op)
  {
    assert Elems(cs, tag) == Elems(cs[1..], tag);
    IdsOfOne(cs[0]);
    assert cs == [cs[0]] + cs[1..];
    EditAllAfter(cs[0], cs[1..], Targets(cs[1..], tag, sel), op);
  }

  /** The source's loop over a getElementsByTagName snapshot, acting on each
      selected element object in turn, ends in the declarative rewrite. */
  lemma {:induction false} EditAllIsApply(cs: seq<Node>, tag: string, sel: Selector, op: Op)
    requires UniqueIds(cs)
    ensures EditAll(cs, Targets(cs, tag, sel), op) == Apply(cs, tag, sel, op)
    decreases cs
  {
    if cs == [] {
      assert Targets(cs, tag, sel) == [];
    } else {
      UniqueSplit(cs);
      if !cs[0].Element? {
        EditAllIsApply(cs[1..], tag, sel, op);
        CaseLeaf(cs, tag, sel, op);
      } else if !(TagMatches(cs[0].tag, tag) && Selected(sel, cs[0])) {
        EditAllIsApply(cs[0].children, tag, sel, op);
        EditAllIsApply(cs[1..], tag, sel, op);
        CaseKept(cs, tag, sel, op);
      } else if op.Remove? {
        assert UniqueIds(Following(cs, op.spaces)) by {
          TargetsOfFollowing(cs, tag, sel, op.spaces);
        }
        EditAllIsApply(Following(cs, op.spaces), tag, sel, op);
        CaseRemoved(cs, tag, sel, op.spaces);
      } else {
        EditAllIsApply(cs[0].children, tag, sel, op);
        EditAllIsApply(cs[1..], tag, sel, op);
        CaseCleared(cs, tag, sel);
      }
    }
  }

  // ---------------------------------------------------------------------
  // One step is the rewrite of one element object

  /** The rewrite of an element object that is not in the document changes
      nothing. */
  lemma {:induction false} ApplyAbsentObject(cs: seq<Node>, x: nat, op: Op)
    requires x !in AllIds(cs)
    ensures Apply(cs, "*", Object(x), op) == cs
    decreases cs
  {
    if cs != [] {
      IdsOfOne(cs[0]);
      assert cs == [cs[0]] + cs[1..];
      AllIdsConcat([cs[0]], cs[1..]);
      ApplyAbsentObject(cs[1..], x, op);
      if cs[0].Element? {
        ApplyAbsentObject(cs[0].children, x, op);
      }
    }
  }

  /** removeChild, cleanup_extra_spaces + removeChild, or clean_chunk_element
      on the element object `x` is the rewrite that selects `x` alone. */
  lemma {:induction false} EditIsApply(cs: seq<Node>, x: nat, op: Op)
    requires UniqueIds(cs)
    ensures Edit(cs, x, op) == Apply(cs, "*", Object(x), op)
    decreases cs
  {
    if cs != [] {
      UniqueSplit(cs);
      IdsOfOne(cs[0]);
      match cs[0]
      case Element(id, t, attrs, kids) =>
        if id == x {
          match op
          case Remove(spaces) =>
            TargetsOfFollowing(cs, "*", Object(x), spaces);
            ApplyAbsentObject(Following(cs, spaces), x, op);
          case ClearChunk =>
            ApplyAbsentObject(kids, x, op);
            ApplyAbsentObject(cs[1..], x, op);
        } else {
          EditIsApply(kids, x, op);
          EditIsApply(cs[1..], x, op);
        }
      case _ =>
        EditIsApply(cs[1..], x, op);
    }
  }
}
