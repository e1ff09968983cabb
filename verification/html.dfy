/**
 * The parsed-HTML tree the handlers walk, reduced to what they read: a tag
 * has a name, an attribute map, its list of classes (the multi-valued
 * `class` attribute) and its children; everything else is a text string.
 */
module Html {
  import opened Text

  datatype Node =
    | Element(name: string, attrs: map<string, string>, classes: seq<string>, children: seq<Node>)
    | TextNode(content: string)

  /** An element with the given tag name. */
  predicate IsNamed(n: Node, name: string) {
    n.Element? && n.name == name
  }

  // ------------------------------------------------------------------ tags

  /** The elements among `ns`, in order (the `isinstance(element, Tag)` filter). */
  function Tags(ns: seq<Node>): (ts: seq<Node>)
    ensures |ts| <= |ns|
    ensures forall k :: 0 <= k < |ts| ==> ts[k].Element?
  {
    if ns == [] then []
    else if ns[0].Element? then [ns[0]] + Tags(ns[1..])
    else Tags(ns[1..])
  }

  /** Filtering distributes over concatenation: the elements keep their order. */
  lemma {:induction false} TagsAppend(a: seq<Node>, b: seq<Node>)
    ensures Tags(a + b) == Tags(a) + Tags(b)
    decreases |a|
  {
    if a != [] {
      assert (a + b)[1..] == a[1..] + b;
      TagsAppend(a[1..], b);
    } else {
      assert a + b == b;
    }
  }

  /** Every element of `ns` is kept: the filter drops text nodes only. */
  lemma {:induction false} TagsKeepsElements(ns: seq<Node>, i: nat)
    requires i < |ns| && ns[i].Element?
    ensures ns[i] in Tags(ns)
    decreases |ns|
  {
    if i > 0 {
      TagsKeepsElements(ns[1..], i - 1);
    }
  }

  // ------------------------------------------------------------------ text

  /** `get_text()`: the text strings below `n`, in document order. */
  function TextOf(n: Node): string
    decreases n, 1
  {
    match n
    case TextNode(c) => c
    case Element(_, _, _, children) => TextOfAll(children)
  }

  function TextOfAll(ns: seq<Node>): string
    decreases ns, 0
  {
    if ns == [] then [] else TextOf(ns[0]) + TextOfAll(ns[1..])
  }

  // ---------------------------------------------------------------- search

  /** Every node below the nodes `ns`, each followed by its own descendants (document order). */
  function Preorder(ns: seq<Node>): seq<Node>
    decreases ns
  {
    if ns == [] then []
    else [ns[0]] + (if ns[0].Element? then Preorder(ns[0].children) else []) + Preorder(ns[1..])
  }

  /** The first element named `name` in a flat list. */
  function FirstNamed(xs: seq<Node>, name: string): (r: Option<Node>)
    ensures r.Some? ==> IsNamed(r.value, name) && r.value in xs
    ensures r.None? <==> forall k :: 0 <= k < |xs| ==> !IsNamed(xs[k], name)
  {
    if xs == [] then None
    else if IsNamed(xs[0], name) then Some(xs[0])
    else FirstNamed(xs[1..], name)
  }

  /**
   * `find(name)` below a tag whose children are `ns`: the first descendant
   * named `name`, searching each child before its later siblings.
   */
  function FindFirst(ns: seq<Node>, name: string): (r: Option<Node>)
    ensures r.Some? ==> IsNamed(r.value, name)
    decreases ns
  {
    if ns == [] then None
    else if IsNamed(ns[0], name) then Some(ns[0])
    else
      var inside := if ns[0].Element? then FindFirst(ns[0].children, name) else None;
      if inside.Some? then inside else FindFirst(ns[1..], name)
  }

  /** The search agrees with taking the first match of the document-order listing. */
  lemma {:induction false} FindFirstIsFirstInPreorder(ns: seq<Node>, name: string)
    ensures FindFirst(ns, name) == FirstNamed(Preorder(ns), name)
    decreases ns
  {
    if ns != [] && !IsNamed(ns[0], name) {
      var below := if ns[0].Element? then Preorder(ns[0].children) else [];
      var rest := Preorder(ns[1..]);
      PreorderCons(ns);
      FirstNamedSkip(ns[0], below + rest, name);
      if ns[0].Element? {
        FindFirstIsFirstInPreorder(ns[0].children, name);
      }
      FindFirstIsFirstInPreorder(ns[1..], name);
      FirstNamedAppend(below, rest, name);
    }
  }

  lemma PreorderCons(ns: seq<Node>)
    requires ns != []
    ensures Preorder(ns) == [ns[0]] + ((if ns[0].Element? then Preorder(ns[0].children) else []) + Preorder(ns[1..]))
  {
  }

  /** A first node without the name is passed over. */
  lemma FirstNamedSkip(x: Node, t: seq<Node>, name: string)
    requires !IsNamed(x, name)
    ensures FirstNamed([x] + t, name) == FirstNamed(t, name)
  {
    assert ([x] + t)[1..] == t;
  }

  /** In a concatenation the first list is searched first. */
  lemma {:induction false} FirstNamedAppend(a: seq<Node>, b: seq<Node>, name: string)
    ensures FirstNamed(a + b, name) == if FirstNamed(a, name).Some? then FirstNamed(a, name) else FirstNamed(b, name)
    decreases |a|
  {
    if a == [] {
      assert a + b == b;
    } else {
      assert (a + b)[1..] == a[1..] + b;
      FirstNamedAppend(a[1..], b, name);
    }
  }
}
