/** The host document as the modal manager sees it: element nodes with the
    handful of properties it reads, arranged in a tree, plus the two tree
    walks (node-before-children, children left-to-right or right-to-left)
    that the focus searches and `getElementById` follow. */
module Dom {

  datatype Option<+T> = None | Some(value: T)

  /** One DOM node. `uid` stands for object identity (what `===` compares);
      `htmlId` is the `id` attribute ("" when absent); `datimModal` records
      whether the node carries the `datim-modal` attribute. Text nodes are
      nodes whose `nodeName` is "#text" and whose `tabIndex` is 0, which
      answers the `tabIndex < 0` test exactly as JavaScript's `undefined`. */
  datatype Element = Element(
    uid: nat,
    htmlId: string,
    nodeName: string,
    tabIndex: int,
    disabled: bool,
    href: string,
    rel: string,
    inputType: string,
    datimModal: bool)

  /** A node with its `childNodes`, in document order. */
  datatype Tree = Tree(elem: Element, children: seq<Tree>)

  /** Every node of a forest, each node before its children, the trees
      taken left to right. */
  function PreOrder(ts: seq<Tree>): seq<Tree>
    decreases ts
  {
    if ts == [] then []
    else [ts[0]] + PreOrder(ts[0].children) + PreOrder(ts[1..])
  }

  /** Every node of a forest, each node before its children, the trees
      taken right to left (at every level). This is not the reverse of
      PreOrder: a parent still comes before its own children. */
  function MirrorOrder(ts: seq<Tree>): seq<Tree>
    decreases ts
  {
    if ts == [] then []
    else
      var last := ts[|ts| - 1];
      [last] + MirrorOrder(last.children) + MirrorOrder(ts[..|ts| - 1])
  }

  lemma {:induction false} PreOrderAppend(a: seq<Tree>, b: seq<Tree>)
    ensures PreOrder(a + b) == PreOrder(a) + PreOrder(b)
    decreases a
  {
    if a == [] {
      assert a + b == b;
    } else {
      assert (a + b)[0] == a[0];
      assert (a + b)[1..] == a[1..] + b;
      PreOrderAppend(a[1..], b);
    }
  }

  /** Both walks visit exactly the same nodes. */
  lemma {:induction false} SameNodes(ts: seq<Tree>)
    ensures forall n :: n in PreOrder(ts) <==> n in MirrorOrder(ts)
    decreases ts
  {
    if ts != [] {
      var init, last := ts[..|ts| - 1], ts[|ts| - 1];
      assert ts == init + [last];
      PreOrderAppend(init, [last]);
      assert PreOrder([last]) == [last] + PreOrder(last.children) + PreOrder([]);
      SameNodes(init);
      SameNodes(last.children);
    }
  }

  /** `node.contains(other)`: `other` is `node` itself or one of its
      descendants. */
  function Contains(t: Tree, u: nat): (r: bool)
    ensures t.elem.uid == u ==> r
  {
    assert PreOrder([t]) == [t] + PreOrder(t.children) + PreOrder([]);
    exists n :: n in PreOrder([t]) && n.elem.uid == u
  }

  /** Whatever a walk of the children of `t` yields lies inside `t`. */
  lemma DescendantContained(t: Tree, n: Tree)
    requires n in PreOrder(t.children)
    ensures Contains(t, n.elem.uid)
  {
    assert PreOrder([t]) == [t] + PreOrder(t.children) + PreOrder([]);
    assert n in PreOrder([t]);
  }

  /** The first node of `s` whose id is `key`. */
  function FirstWithId(s: seq<Tree>, key: string): (r: Option<Tree>)
    ensures r.Some? ==> r.value in s && r.value.elem.htmlId == key
    ensures r.None? <==> forall n :: n in s ==> n.elem.htmlId != key
  {
    if s == [] then None
    else if s[0].elem.htmlId == key then Some(s[0])
    else FirstWithId(s[1..], key)
  }

  /** FirstWithId picks a node at an index before which no node carries
      the key. */
  lemma {:induction false} FirstWithIdIsEarliest(s: seq<Tree>, key: string)
    ensures FirstWithId(s, key).Some? ==>
              exists k :: 0 <= k < |s| && s[k] == FirstWithId(s, key).value &&
                          forall j :: 0 <= j < k ==> s[j].elem.htmlId != key
  {
    if s != [] && s[0].elem.htmlId != key && FirstWithId(s, key).Some? {
      FirstWithIdIsEarliest(s[1..], key);
      var k :| 0 <= k < |s[1..]| && s[1..][k] == FirstWithId(s[1..], key).value &&
               forall j :: 0 <= j < k ==> s[1..][j].elem.htmlId != key;
      assert s[k + 1] == FirstWithId(s, key).value;
      forall j | 0 <= j < k + 1
        ensures s[j].elem.htmlId != key
      {
        if j > 0 { assert s[j] == s[1..][j - 1]; }
      }
    }
  }

  /** `document.getElementById(key)`: the first node in document order
      carrying that id, or null; the empty id never matches. */
  function Lookup(doc: Tree, key: string): (r: Option<Tree>)
    ensures r.Some? ==> key != "" && r.value in PreOrder([doc]) && r.value.elem.htmlId == key
    ensures r.None? <==> key == "" || forall n :: n in PreOrder([doc]) ==> n.elem.htmlId != key
    ensures r.Some? ==>
              exists k :: 0 <= k < |PreOrder([doc])| && PreOrder([doc])[k] == r.value &&
                          forall j :: 0 <= j < k ==> PreOrder([doc])[j].elem.htmlId != key
  {
    if key == "" then None
    else
      FirstWithIdIsEarliest(PreOrder([doc]), key);
      FirstWithId(PreOrder([doc]), key)
  }
}
