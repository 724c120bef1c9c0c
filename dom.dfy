/** The part of the xml.dom.minidom object model that the DMR++ invariant
    builder reads and edits: element, text and other nodes, attribute lookup,
    the document-order search getElementsByTagName, and node identity. */
module Dom {

  /** A DOM node. `id` stands for the identity of a minidom element object:
      the loops of the invariant builder hold element objects taken from an
      earlier search and hand them back to removeChild, so the model refers to
      elements by id. `Other` is every node whose nodeType is not TEXT_NODE
      and that has no children in a DMR++ document (comments, CDATA sections,
      processing instructions). */
  datatype Node =
    | Element(id: nat, tag: string, attrs: map<string, string>, children: seq<Node>)
    | Text(data: string)
    | Other(data: string)

  /** Element.getAttribute: the attribute's value, or the empty string when
      the element has no attribute of that name. */
  function GetAttribute(e: Node, name: string): string
    requires e.Element?
  {
    if name in e.attrs then e.attrs[name] else ""
  }

  /** The characters for which Python's str.isspace() holds. */
  predicate IsPythonSpace(c: char)
  {
    c == ' ' || ('\t' <= c <= '\r') || ('\U{1C}' <= c <= '\U{1F}')
    || c == '\U{85}' || c == '\U{A0}' || c == '\U{1680}'
    || ('\U{2000}' <= c <= '\U{200A}') || c == '\U{2028}' || c == '\U{2029}'
    || c == '\U{202F}' || c == '\U{205F}' || c == '\U{3000}'
  }

  /** str.isspace(): at least one character, and all of them white space. */
  predicate IsBlank(s: string)
  {
    |s| > 0 && forall i :: 0 <= i < |s| ==> IsPythonSpace(s[i])
  }

  /** A TEXT_NODE whose data is white space only. */
  predicate IsBlankText(n: Node)
  {
    n.Text? && IsBlank(n.data)
  }

  /** The tag test of getElementsByTagName: "*" matches every element. */
  predicate TagMatches(t: string, tag: string)
  {
    tag == "*" || t == tag
  }

  /** getElementsByTagName over a list of children: every element below them
      whose tag matches, in document order (pre-order), as an eager list. */
  function Elems(cs: seq<Node>, tag: string): (es: seq<Node>)
    ensures forall e <- es :: e.Element? && TagMatches(e.tag, tag)
    decreases cs
  {
    if cs == [] then []
    else match cs[0]
      case Element(_, t, _, kids) =>
        (if TagMatches(t, tag) then [cs[0]] else []) + Elems(kids, tag) + Elems(cs[1..], tag)
      case _ => Elems(cs[1..], tag)
  }

  /** The ids of all elements below a list of children, in document order. */
  function AllIds(cs: seq<Node>): seq<nat>
    decreases cs
  {
    if cs == [] then []
    else match cs[0]
      case Element(id, _, _, kids) => [id] + AllIds(kids) + AllIds(cs[1..])
      case _ => AllIds(cs[1..])
  }

  /** The ids of the elements of a flat list of nodes, in list order. */
  function IdsOf(es: seq<Node>): seq<nat>
    decreases |es|
  {
    if es == [] then [] else IdOf(es[0]) + IdsOf(es[1..])
  }

  function IdOf(e: Node): seq<nat>
  {
    if e.Element? then [e.id] else []
  }

  /** The elements of a flat list of nodes whose tag matches, in list order. */
  function WithTag(es: seq<Node>, tag: string): seq<Node>
    decreases |es|
  {
    if es == [] then [] else KeepIfTag(es[0], tag) + WithTag(es[1..], tag)
  }

  function KeepIfTag(e: Node, tag: string): seq<Node>
  {
    if e.Element? && TagMatches(e.tag, tag) then [e] else []
  }

  /** The data of every text node below a list of children, in document order. */
  function Texts(cs: seq<Node>): seq<string>
    decreases cs
  {
    if cs == [] then []
    else match cs[0]
      case Element(_, _, _, kids) => Texts(kids) + Texts(cs[1..])
      case Text(data) => [data] + Texts(cs[1..])
      case Other(_) => Texts(cs[1..])
  }

  predicate Distinct(s: seq<nat>)
  {
    forall i, j :: 0 <= i < j < |s| ==> s[i] != s[j]
  }

  /** Object identity: no element object occurs twice in a document. */
  predicate UniqueIds(cs: seq<Node>)
  {
    Distinct(AllIds(cs))
  }

  lemma DistinctConcat(a: seq<nat>, b: seq<nat>)
    ensures Distinct(a + b) <==> Distinct(a) && Distinct(b) && (forall x <- a :: x !in b)
  {
    if Distinct(a + b) {
      forall i, j | 0 <= i < j < |a| ensures a[i] != a[j] {
        assert (a + b)[i] == a[i] && (a + b)[j] == a[j];
      }
      forall i, j | 0 <= i < j < |b| ensures b[i] != b[j] {
        assert (a + b)[|a| + i] == b[i] && (a + b)[|a| + j] == b[j];
      }
      forall i, j | 0 <= i < |a| && 0 <= j < |b| ensures a[i] != b[j] {
        assert (a + b)[i] == a[i] && (a + b)[|a| + j] == b[j];
      }
    }
    if Distinct(a) && Distinct(b) && (forall x <- a :: x !in b) {
      forall i, j | 0 <= i < j < |a + b| ensures (a + b)[i] != (a + b)[j] {
        if j < |a| {
          assert (a + b)[i] == a[i] && (a + b)[j] == a[j];
        } else if i >= |a| {
          assert (a + b)[i] == b[i - |a|] && (a + b)[j] == b[j - |a|];
        } else {
          assert (a + b)[i] == a[i] && (a + b)[j] == b[j - |a|];
          assert a[i] in a && b[j - |a|] in b;
        }
      }
      assert Distinct(a + b);
    }
  }

  /** Every element a search finds is an element of the document. */
  lemma {:induction false} ElemsInIds(cs: seq<Node>, tag: string)
    ensures forall e <- Elems(cs, tag) :: e.id in AllIds(cs)
    decreases cs
  {
    if cs != [] {
      ElemsInIds(cs[1..], tag);
      if cs[0].Element? {
        ElemsInIds(cs[0].children, tag);
      }
    }
  }

  lemma {:induction false} IdsOfConcat(a: seq<Node>, b: seq<Node>)
    ensures IdsOf(a + b) == IdsOf(a) + IdsOf(b)
    decreases |a|
  {
    if a == [] {
      assert a + b == b;
    } else {
      assert (a + b)[0] == a[0] && (a + b)[1..] == a[1..] + b;
      IdsOfConcat(a[1..], b);
    }
  }

  lemma {:induction false} WithTagConcat(a: seq<Node>, b: seq<Node>, tag: string)
    ensures WithTag(a + b, tag) == WithTag(a, tag) + WithTag(b, tag)
    decreases |a|
  {
    if a == [] {
      assert a + b == b;
    } else {
      assert (a + b)[0] == a[0] && (a + b)[1..] == a[1..] + b;
      WithTagConcat(a[1..], b, tag);
    }
  }

  /** A search for "*" finds every element of the document, each once, in
      document order. */
  lemma {:induction false} ElemsFindsAll(cs: seq<Node>)
    ensures IdsOf(Elems(cs, "*")) == AllIds(cs)
    decreases cs
  {
    if cs != [] {
      ElemsFindsAll(cs[1..]);
      match cs[0]
      case Element(id, _, _, kids) =>
        ElemsFindsAll(kids);
        IdsOfConcat([cs[0]] + Elems(kids, "*"), Elems(cs[1..], "*"));
        IdsOfConcat([cs[0]], Elems(kids, "*"));
        assert IdsOf([cs[0]]) == [id] by { assert [cs[0]][1..] == []; }
      case _ =>
    }
  }

  /** A search for `tag` finds exactly the elements of the search for "*"
      whose tag matches, in the same order. */
  lemma {:induction false} ElemsFiltered(cs: seq<Node>, tag: string)
    ensures Elems(cs, tag) == WithTag(Elems(cs, "*"), tag)
    decreases cs
  {
    if cs != [] {
      ElemsFiltered(cs[1..], tag);
      match cs[0]
      case Element(id, t, _, kids) =>
        ElemsFiltered(kids, tag);
        WithTagConcat([cs[0]] + Elems(kids, "*"), Elems(cs[1..], "*"), tag);
        WithTagConcat([cs[0]], Elems(kids, "*"), tag);
        assert WithTag([cs[0]], tag) == (if TagMatches(t, tag) then [cs[0]] else []) by {
          assert [cs[0]][1..] == [];
        }
      case _ =>
    }
  }
}
