/**
 * An abstract XML document tree and the two DOM lookups the page script uses:
 * `querySelector(tag)` (the first descendant with that tag, in document order) and
 * `querySelectorAll(tag)` (all of them, in document order), plus the two-part
 * descendant selector `"A B"` used for `ReleasedBy Group` and `ReleasedAt Event`.
 */
module Xml {
  import opened Wrappers

  /** A DOM node: a text node or an element with a tag name and child nodes. */
  datatype Node = Text(content: string) | Elem(tag: string, children: seq<Node>)

  /** The child nodes of a node (a text node has none). */
  function Children(n: Node): seq<Node> {
    if n.Elem? then n.children else []
  }

  /** An element whose tag name is `tag` (XML tag matching is case-sensitive). */
  predicate HasTag(n: Node, tag: string) {
    n.Elem? && n.tag == tag
  }

  // ---------------------------------------------------------------------------
  // Reference definitions: document order and filtering
  // ---------------------------------------------------------------------------

  /** Every node of the forest `f` and below it, in document (pre-)order. */
  function PreOrder(f: seq<Node>): seq<Node>
    decreases f
  {
    if f == [] then []
    else [f[0]] + (if f[0].Elem? then PreOrder(f[0].children) else []) + PreOrder(f[1..])
  }

  /** The elements of `s` carrying `tag`, in the order of `s`. */
  function Tagged(s: seq<Node>, tag: string): (r: seq<Node>)
    ensures forall i :: 0 <= i < |r| ==> HasTag(r[i], tag)
    ensures forall x :: x in s && HasTag(x, tag) ==> x in r
    ensures forall x :: x in r ==> x in s
  {
    if s == [] then []
    else (if HasTag(s[0], tag) then [s[0]] else []) + Tagged(s[1..], tag)
  }

  /** The first element of `s` that carries `tag`, found by a linear scan. */
  function FirstTagged(s: seq<Node>, tag: string): (r: Option<Node>)
    ensures r.None? <==> forall i :: 0 <= i < |s| ==> !HasTag(s[i], tag)
    ensures r.Some? ==> exists i :: 0 <= i < |s| && s[i] == r.value && HasTag(s[i], tag) &&
                                    forall j :: 0 <= j < i ==> !HasTag(s[j], tag)
  {
    if s == [] then None
    else if HasTag(s[0], tag) then Some(s[0])
    else
      var r := FirstTagged(s[1..], tag);
      assert r.Some? ==> exists i :: 0 <= i < |s[1..]| && s[1..][i] == r.value && HasTag(s[1..][i], tag) &&
                                     forall j :: 0 <= j < i ==> !HasTag(s[1..][j], tag);
      assert r.Some? ==> exists i :: 1 <= i < |s| && s[i] == r.value && HasTag(s[i], tag) &&
                                     forall j :: 1 <= j < i ==> !HasTag(s[j], tag);
      r
  }

  /**
   * The nodes of the forest `f` and below it that lie below an element tagged `outer`,
   * in document order; `under` says whether such an element encloses `f`.
   */
  function PreOrderUnder(f: seq<Node>, outer: string, under: bool): seq<Node>
    decreases f
  {
    if f == [] then []
    else (if under then [f[0]] else [])
         + (if f[0].Elem? then PreOrderUnder(f[0].children, outer, under || f[0].tag == outer) else [])
         + PreOrderUnder(f[1..], outer, under)
  }

  /** The text of every text node of `s`, concatenated in the order of `s`. */
  function Texts(s: seq<Node>): string {
    if s == [] then "" else (if s[0].Text? then s[0].content else "") + Texts(s[1..])
  }

  // ---------------------------------------------------------------------------
  // The DOM operations
  // ---------------------------------------------------------------------------

  /** `textContent` of the nodes of a forest: their text, recursively, concatenated. */
  function ForestText(f: seq<Node>): string
    decreases f
  {
    if f == [] then ""
    else (match f[0] case Text(s) => s case Elem(_, cs) => ForestText(cs)) + ForestText(f[1..])
  }

  /** `node.textContent`. */
  function TextContent(n: Node): string {
    match n
    case Text(s) => s
    case Elem(_, cs) => ForestText(cs)
  }

  /** `querySelector(tag)` over the forest `f`: the first element tagged `tag`, depth first. */
  function FindFirst(f: seq<Node>, tag: string): (r: Option<Node>)
    decreases f
    ensures r.Some? ==> HasTag(r.value, tag)
  {
    if f == [] then None
    else if HasTag(f[0], tag) then Some(f[0])
    else
      var inner := if f[0].Elem? then FindFirst(f[0].children, tag) else None;
      if inner.Some? then inner else FindFirst(f[1..], tag)
  }

  /** `querySelectorAll(tag)` over the forest `f`: every element tagged `tag`, depth first. */
  function FindAll(f: seq<Node>, tag: string): seq<Node>
    decreases f
  {
    if f == [] then []
    else (if HasTag(f[0], tag) then [f[0]] else [])
         + (if f[0].Elem? then FindAll(f[0].children, tag) else [])
         + FindAll(f[1..], tag)
  }

  /**
   * `querySelector(outer + " " + inner)` over the forest `f`: the first element tagged `inner`
   * that lies below an element tagged `outer`; `under` says whether such an element encloses `f`.
   */
  function FindUnder(f: seq<Node>, outer: string, inner: string, under: bool): (r: Option<Node>)
    decreases f
    ensures r.Some? ==> HasTag(r.value, inner)
  {
    if f == [] then None
    else if under && HasTag(f[0], inner) then Some(f[0])
    else
      var below := if f[0].Elem? then FindUnder(f[0].children, outer, inner, under || f[0].tag == outer) else None;
      if below.Some? then below else FindUnder(f[1..], outer, inner, under)
  }

  // ---------------------------------------------------------------------------
  // Lemmas: the DOM operations agree with the reference definitions
  // ---------------------------------------------------------------------------

  lemma TaggedAppend(a: seq<Node>, b: seq<Node>, tag: string)
    ensures Tagged(a + b, tag) == Tagged(a, tag) + Tagged(b, tag)
  {
    if a == [] {
      assert a + b == b;
    } else {
      assert (a + b)[0] == a[0] && (a + b)[1..] == a[1..] + b;
      TaggedAppend(a[1..], b, tag);
    }
  }

  lemma FirstTaggedAppend(a: seq<Node>, b: seq<Node>, tag: string)
    ensures FirstTagged(a + b, tag) == if FirstTagged(a, tag).Some? then FirstTagged(a, tag) else FirstTagged(b, tag)
  {
    if a == [] {
      assert a + b == b;
    } else {
      assert (a + b)[0] == a[0] && (a + b)[1..] == a[1..] + b;
      FirstTaggedAppend(a[1..], b, tag);
    }
  }

  lemma TextsAppend(a: seq<Node>, b: seq<Node>)
    ensures Texts(a + b) == Texts(a) + Texts(b)
  {
    if a == [] {
      assert a + b == b;
    } else {
      assert (a + b)[0] == a[0] && (a + b)[1..] == a[1..] + b;
      TextsAppend(a[1..], b);
    }
  }

  /** `querySelectorAll` returns exactly the tagged nodes of the document, in document order. */
  lemma {:induction false} FindAllIsTaggedPreOrder(f: seq<Node>, tag: string)
    ensures FindAll(f, tag) == Tagged(PreOrder(f), tag)
    decreases f
  {
    if f != [] {
      var below := if f[0].Elem? then PreOrder(f[0].children) else [];
      if f[0].Elem? { FindAllIsTaggedPreOrder(f[0].children, tag); }
      FindAllIsTaggedPreOrder(f[1..], tag);
      TaggedAppend([f[0]] + below, PreOrder(f[1..]), tag);
      TaggedAppend([f[0]], below, tag);
    }
  }

  /** `querySelector` returns the first tagged node of the document in document order. */
  lemma {:induction false} FindFirstIsFirstInPreOrder(f: seq<Node>, tag: string)
    ensures FindFirst(f, tag) == FirstTagged(PreOrder(f), tag)
    decreases f
  {
    if f != [] {
      var below := if f[0].Elem? then PreOrder(f[0].children) else [];
      if f[0].Elem? { FindFirstIsFirstInPreOrder(f[0].children, tag); }
      FindFirstIsFirstInPreOrder(f[1..], tag);
      FirstTaggedAppend([f[0]] + below, PreOrder(f[1..]), tag);
      FirstTaggedAppend([f[0]], below, tag);
    }
  }

  /** `querySelector(tag)` is the head of `querySelectorAll(tag)`, and absent exactly when that is empty. */
  lemma FindFirstIsHeadOfFindAll(f: seq<Node>, tag: string)
    ensures FindFirst(f, tag) == if FindAll(f, tag) == [] then None else Some(FindAll(f, tag)[0])
  {
    FindFirstIsFirstInPreOrder(f, tag);
    FindAllIsTaggedPreOrder(f, tag);
    FirstTaggedIsHeadOfTagged(PreOrder(f), tag);
  }

  lemma FirstTaggedIsHeadOfTagged(s: seq<Node>, tag: string)
    ensures FirstTagged(s, tag) == if Tagged(s, tag) == [] then None else Some(Tagged(s, tag)[0])
  {
    if s != [] { FirstTaggedIsHeadOfTagged(s[1..], tag); }
  }

  /** `textContent` is the concatenation of the text nodes below, in document order. */
  lemma {:induction false} ForestTextIsPreOrderTexts(f: seq<Node>)
    ensures ForestText(f) == Texts(PreOrder(f))
    decreases f
  {
    if f != [] {
      var below := if f[0].Elem? then PreOrder(f[0].children) else [];
      if f[0].Elem? { ForestTextIsPreOrderTexts(f[0].children); }
      ForestTextIsPreOrderTexts(f[1..]);
      TextsAppend([f[0]] + below, PreOrder(f[1..]));
      TextsAppend([f[0]], below);
    }
  }

  /** Below an enclosing `outer` element, `"outer inner"` is the same lookup as `inner` alone. */
  lemma {:induction false} FindUnderEnclosed(f: seq<Node>, outer: string, inner: string)
    ensures FindUnder(f, outer, inner, true) == FindFirst(f, inner)
    decreases f
  {
    if f != [] {
      if f[0].Elem? { FindUnderEnclosed(f[0].children, outer, inner); }
      FindUnderEnclosed(f[1..], outer, inner);
    }
  }

  /** Inside an enclosing `outer` element every node counts as enclosed: the order is plain document order. */
  lemma {:induction false} PreOrderUnderEnclosed(f: seq<Node>, outer: string)
    ensures PreOrderUnder(f, outer, true) == PreOrder(f)
    decreases f
  {
    if f != [] {
      if f[0].Elem? { PreOrderUnderEnclosed(f[0].children, outer); }
      PreOrderUnderEnclosed(f[1..], outer);
    }
  }

  /** Some element of `s` tagged `outer` has `y` among the nodes below it. */
  ghost predicate BelowTagged(s: seq<Node>, outer: string, y: Node) {
    exists x :: x in s && HasTag(x, outer) && y in PreOrder(Children(x))
  }

  lemma BelowTaggedSplit(a: seq<Node>, b: seq<Node>, c: seq<Node>, outer: string, y: Node)
    ensures BelowTagged(a + b + c, outer, y) <==>
            BelowTagged(a, outer, y) || BelowTagged(b, outer, y) || BelowTagged(c, outer, y)
  {
    assert forall x :: x in a + b + c <==> x in a || x in b || x in c;
  }

  /**
   * The enclosed nodes are exactly the nodes below some `outer` element of the forest
   * (and, when an `outer` element encloses the forest, every node of it).
   */
  lemma {:induction false} PreOrderUnderMembers(f: seq<Node>, outer: string, under: bool, y: Node)
    ensures y in PreOrderUnder(f, outer, under) <==>
            (under && y in PreOrder(f)) || BelowTagged(PreOrder(f), outer, y)
    decreases f
  {
    if f != [] {
      var n := f[0];
      var below := if n.Elem? then PreOrder(n.children) else [];
      var underBelow := under || (n.Elem? && n.tag == outer);
      assert PreOrder(f) == [n] + below + PreOrder(f[1..]);
      BelowTaggedSplit([n], below, PreOrder(f[1..]), outer, y);
      PreOrderUnderMembers(f[1..], outer, under, y);
      if n.Elem? {
        PreOrderUnderMembers(n.children, outer, underBelow, y);
        if HasTag(n, outer) {
          assert BelowTagged([n], outer, y) <==> y in below;
        } else {
          assert !BelowTagged([n], outer, y);
        }
      } else {
        assert !BelowTagged([n], outer, y);
      }
      var head := if under then [n] else [];
      var belowUnder := if n.Elem? then PreOrderUnder(n.children, outer, underBelow) else [];
      assert PreOrderUnder(f, outer, under) == head + belowUnder + PreOrderUnder(f[1..], outer, under);
    }
  }

  /**
   * `"outer inner"` returns the first `inner` element, in document order, among the nodes
   * that lie below an `outer` element.
   */
  lemma {:induction false} FindUnderIsFirstEnclosed(f: seq<Node>, outer: string, inner: string, under: bool)
    ensures FindUnder(f, outer, inner, under) == FirstTagged(PreOrderUnder(f, outer, under), inner)
    decreases f
  {
    if f != [] {
      var head := if under then [f[0]] else [];
      var below := if f[0].Elem? then PreOrderUnder(f[0].children, outer, under || f[0].tag == outer) else [];
      if f[0].Elem? { FindUnderIsFirstEnclosed(f[0].children, outer, inner, under || f[0].tag == outer); }
      FindUnderIsFirstEnclosed(f[1..], outer, inner, under);
      assert PreOrderUnder(f, outer, under) == head + below + PreOrderUnder(f[1..], outer, under);
      FirstTaggedAppend(head + below, PreOrderUnder(f[1..], outer, under), inner);
      FirstTaggedAppend(head, below, inner);
      if under { assert [f[0]][1..] == []; }
    }
  }

  /** Every node below a node of the document is itself a node of the document. */
  lemma {:induction false} PreOrderClosed(f: seq<Node>, x: Node)
    requires x in PreOrder(f)
    ensures forall y :: y in PreOrder(Children(x)) ==> y in PreOrder(f)
    decreases f
  {
    var below := if f[0].Elem? then PreOrder(f[0].children) else [];
    assert PreOrder(f) == [f[0]] + below + PreOrder(f[1..]);
    if x == f[0] {
    } else if x in below {
      PreOrderClosed(f[0].children, x);
    } else {
      PreOrderClosed(f[1..], x);
    }
  }

  /** No element of `s` tagged `outer` has an element tagged `inner` below it. */
  ghost predicate NoneBelow(s: seq<Node>, outer: string, inner: string) {
    forall x :: x in s && HasTag(x, outer) ==> FindFirst(Children(x), inner).None?
  }

  lemma NoneBelowSplit(a: seq<Node>, b: seq<Node>, c: seq<Node>, outer: string, inner: string)
    ensures NoneBelow(a + b + c, outer, inner) <==>
            NoneBelow(a, outer, inner) && NoneBelow(b, outer, inner) && NoneBelow(c, outer, inner)
  {
    assert forall x :: x in a + b + c <==> x in a || x in b || x in c;
  }

  /** When no `inner` element lies below the forest, none lies below any of its `outer` elements. */
  lemma NoneBelowOfAbsent(f: seq<Node>, outer: string, inner: string)
    requires FindFirst(f, inner).None?
    ensures NoneBelow(PreOrder(f), outer, inner)
  {
    FindFirstIsFirstInPreOrder(f, inner);
    var p := PreOrder(f);
    assert forall y :: y in p ==> !HasTag(y, inner) by {
      forall y | y in p ensures !HasTag(y, inner) {
        var i :| 0 <= i < |p| && p[i] == y;
      }
    }
    forall x | x in p && HasTag(x, outer)
      ensures FindFirst(Children(x), inner).None?
    {
      PreOrderClosed(f, x);
      var q := PreOrder(Children(x));
      assert forall i :: 0 <= i < |q| ==> !HasTag(q[i], inner) by {
        forall i | 0 <= i < |q| ensures !HasTag(q[i], inner) {
          assert q[i] in q;
        }
      }
      FindFirstIsFirstInPreOrder(Children(x), inner);
    }
  }

  /**
   * `"outer inner"` finds nothing exactly when no `outer` element of the document
   * has an `inner` element below it.
   */
  lemma {:induction false} FindUnderNoneIff(f: seq<Node>, outer: string, inner: string)
    ensures FindUnder(f, outer, inner, false).None? <==> NoneBelow(PreOrder(f), outer, inner)
    decreases f
  {
    if f != [] {
      var n := f[0];
      var below := if n.Elem? then PreOrder(n.children) else [];
      assert PreOrder(f) == [n] + below + PreOrder(f[1..]);
      NoneBelowSplit([n], below, PreOrder(f[1..]), outer, inner);
      FindUnderNoneIff(f[1..], outer, inner);
      if n.Elem? {
        if n.tag == outer {
          FindUnderEnclosed(n.children, outer, inner);
          if FindFirst(n.children, inner).None? {
            NoneBelowOfAbsent(n.children, outer, inner);
          } else {
            assert n in [n] && HasTag(n, outer) && FindFirst(Children(n), inner).Some?;
          }
        } else {
          FindUnderNoneIff(n.children, outer, inner);
        }
      }
    }
  }
}
