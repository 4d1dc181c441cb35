/** `datimModals.Utils`: the focusability test, the focus attempt bracketed
    by the `IgnoreUntilFocusChanges` flag, and the two descendant searches.
    The host's focus state lives in class Host; `element.focus()` is an
    oracle that silently refuses the nodes in `refuses`. */
module Utils {
  import opened Dom

  /** `Utils.isFocusable`: negative tab index or disabled rules a node out;
      otherwise links need a target and a rel other than "ignore", inputs
      must not be hidden, and buttons, selects and text areas always qualify.
      Every other node name is not focusable. */
  function IsFocusable(e: Element): (r: bool)
    ensures e.tabIndex < 0 || e.disabled ==> !r
    ensures e.nodeName !in {"A", "INPUT", "BUTTON", "SELECT", "TEXTAREA"} ==> !r
    ensures e.nodeName == "A" ==> (r <==> 0 <= e.tabIndex && !e.disabled && e.href != "" && e.rel != "ignore")
    ensures e.nodeName == "INPUT" ==> (r <==> 0 <= e.tabIndex && !e.disabled && e.inputType != "hidden")
    ensures e.nodeName in {"BUTTON", "SELECT", "TEXTAREA"} ==> (r <==> 0 <= e.tabIndex && !e.disabled)
  {
    if e.tabIndex < 0 then false
    else if e.disabled then false
    else if e.nodeName == "A" then e.href != "" && e.rel != "ignore"
    else if e.nodeName == "INPUT" then e.inputType != "hidden"
    else if e.nodeName == "BUTTON" || e.nodeName == "SELECT" || e.nodeName == "TEXTAREA" then true
    else false
  }

  /** The active element after `element.focus()` on node `u`, starting from
      `active`: a refused call leaves focus where it was. */
  function FocusResult(u: nat, refuses: set<nat>, active: nat): (r: nat)
    ensures r == u || r == active
    ensures r == u <==> u !in refuses || u == active
  {
    if u in refuses then active else u
  }

  /** What `attemptFocus(t)` answers when focus starts on `active`: the node
      is focusable and is the active element once `focus()` has run. */
  predicate Accepts(t: Tree, refuses: set<nat>, active: nat)
  {
    IsFocusable(t.elem) && FocusResult(t.elem.uid, refuses, active) == t.elem.uid
  }

  /** The node `focusFirstDescendant` lands on, searching the forest `ts`:
      each child is tried, then its own children, left to right. */
  function FirstIn(ts: seq<Tree>, refuses: set<nat>, active: nat): (r: Option<Tree>)
    ensures r.Some? ==> r.value in PreOrder(ts) && Accepts(r.value, refuses, active)
    decreases ts
  {
    if ts == [] then None
    else if Accepts(ts[0], refuses, active) then Some(ts[0])
    else
      var inChild := FirstIn(ts[0].children, refuses, active);
      if inChild.Some? then inChild else FirstIn(ts[1..], refuses, active)
  }

  /** The node `focusLastDescendant` lands on: children right to left, each
      child tried before its own children. */
  function LastIn(ts: seq<Tree>, refuses: set<nat>, active: nat): (r: Option<Tree>)
    ensures r.Some? ==> r.value in MirrorOrder(ts) && Accepts(r.value, refuses, active)
    decreases ts
  {
    if ts == [] then None
    else
      var last := ts[|ts| - 1];
      if Accepts(last, refuses, active) then Some(last)
      else
        var inChild := LastIn(last.children, refuses, active);
        if inChild.Some? then inChild else LastIn(ts[..|ts| - 1], refuses, active)
  }

  /** Reference definition: the first node of a flat sequence that accepts
      focus, or None when none does. */
  function FirstAccepting(s: seq<Tree>, refuses: set<nat>, active: nat): (r: Option<Tree>)
    ensures r.None? <==> forall n :: n in s ==> !Accepts(n, refuses, active)
    ensures r.Some? ==> r.value in s && Accepts(r.value, refuses, active)
  {
    if s == [] then None
    else if Accepts(s[0], refuses, active) then Some(s[0])
    else FirstAccepting(s[1..], refuses, active)
  }

  /** The node FirstAccepting picks sits at an index before which nothing
      accepts focus. */
  lemma {:induction false} FirstAcceptingIsEarliest(s: seq<Tree>, refuses: set<nat>, active: nat)
    ensures FirstAccepting(s, refuses, active).Some? ==>
              exists k :: 0 <= k < |s| && s[k] == FirstAccepting(s, refuses, active).value &&
                          forall j :: 0 <= j < k ==> !Accepts(s[j], refuses, active)
  {
    if s != [] && !Accepts(s[0], refuses, active) && FirstAccepting(s, refuses, active).Some? {
      FirstAcceptingIsEarliest(s[1..], refuses, active);
      var k :| 0 <= k < |s[1..]| && s[1..][k] == FirstAccepting(s[1..], refuses, active).value &&
               forall j :: 0 <= j < k ==> !Accepts(s[1..][j], refuses, active);
      assert s[k + 1] == FirstAccepting(s, refuses, active).value;
      assert forall j :: 0 <= j < k + 1 ==> !Accepts(s[j], refuses, active) by {
        forall j | 0 <= j < k + 1 ensures !Accepts(s[j], refuses, active) {
          if j > 0 { assert s[j] == s[1..][j - 1]; }
        }
      }
    }
  }

  lemma {:induction false} FirstAcceptingAppend(a: seq<Tree>, b: seq<Tree>, refuses: set<nat>, active: nat)
    ensures FirstAccepting(a + b, refuses, active) ==
            if FirstAccepting(a, refuses, active).Some? then FirstAccepting(a, refuses, active)
            else FirstAccepting(b, refuses, active)
    decreases a
  {
    if a == [] {
      assert a + b == b;
    } else {
      assert (a + b)[0] == a[0];
      assert (a + b)[1..] == a[1..] + b;
      FirstAcceptingAppend(a[1..], b, refuses, active);
    }
  }

  /** `focusFirstDescendant` finds the first accepting node of the
      node-before-children, left-to-right walk. */
  lemma {:induction false} FirstInIsPreOrderFirst(ts: seq<Tree>, refuses: set<nat>, active: nat)
    ensures FirstIn(ts, refuses, active) == FirstAccepting(PreOrder(ts), refuses, active)
    decreases ts
  {
    if ts != [] {
      var rest := PreOrder(ts[0].children) + PreOrder(ts[1..]);
      assert PreOrder(ts) == [ts[0]] + rest;
      assert ([ts[0]] + rest)[1..] == rest;
      FirstInIsPreOrderFirst(ts[0].children, refuses, active);
      FirstInIsPreOrderFirst(ts[1..], refuses, active);
      FirstAcceptingAppend(PreOrder(ts[0].children), PreOrder(ts[1..]), refuses, active);
    }
  }

  /** `focusLastDescendant` finds the first accepting node of the
      node-before-children, right-to-left walk. */
  lemma {:induction false} LastInIsMirrorOrderFirst(ts: seq<Tree>, refuses: set<nat>, active: nat)
    ensures LastIn(ts, refuses, active) == FirstAccepting(MirrorOrder(ts), refuses, active)
    decreases ts
  {
    if ts != [] {
      var last := ts[|ts| - 1];
      var rest := MirrorOrder(last.children) + MirrorOrder(ts[..|ts| - 1]);
      assert MirrorOrder(ts) == [last] + rest;
      assert ([last] + rest)[1..] == rest;
      LastInIsMirrorOrderFirst(last.children, refuses, active);
      LastInIsMirrorOrderFirst(ts[..|ts| - 1], refuses, active);
      FirstAcceptingAppend(MirrorOrder(last.children), MirrorOrder(ts[..|ts| - 1]), refuses, active);
    }
  }

  /** Some node of the forest would accept focus. */
  ghost predicate AnyAccepting(ts: seq<Tree>, refuses: set<nat>, active: nat)
  {
    exists n :: n in PreOrder(ts) && Accepts(n, refuses, active)
  }

  /** The forward search succeeds exactly when some descendant accepts focus,
      and then lands on an accepting node inside `t`. */
  lemma FirstInFinds(t: Tree, refuses: set<nat>, active: nat)
    ensures FirstIn(t.children, refuses, active).Some? <==> AnyAccepting(t.children, refuses, active)
    ensures FirstIn(t.children, refuses, active).Some? ==>
              var n := FirstIn(t.children, refuses, active).value;
              Accepts(n, refuses, active) && Contains(t, n.elem.uid)
  {
    FirstInIsPreOrderFirst(t.children, refuses, active);
    var r := FirstIn(t.children, refuses, active);
    if r.Some? {
      DescendantContained(t, r.value);
    }
  }

  /** The backward search succeeds under exactly the same condition, and
      also lands on an accepting node inside `t`. */
  lemma LastInFinds(t: Tree, refuses: set<nat>, active: nat)
    ensures LastIn(t.children, refuses, active).Some? <==> AnyAccepting(t.children, refuses, active)
    ensures LastIn(t.children, refuses, active).Some? ==>
              var n := LastIn(t.children, refuses, active).value;
              Accepts(n, refuses, active) && Contains(t, n.elem.uid)
  {
    LastInIsMirrorOrderFirst(t.children, refuses, active);
    SameNodes(t.children);
    var r := LastIn(t.children, refuses, active);
    if r.Some? {
      DescendantContained(t, r.value);
    }
  }

  /** The forward and the backward search agree on whether anything in the
      subtree can take focus. */
  lemma SearchesAgree(t: Tree, refuses: set<nat>, active: nat)
    ensures FirstIn(t.children, refuses, active).Some? <==> LastIn(t.children, refuses, active).Some?
  {
    FirstInFinds(t, refuses, active);
    LastInFinds(t, refuses, active);
  }

  lemma {:induction false} FirstInSkip(ts: seq<Tree>, i: nat, refuses: set<nat>, active: nat)
    requires i < |ts|
    requires !Accepts(ts[i], refuses, active) && FirstIn(ts[i].children, refuses, active).None?
    ensures FirstIn(ts[i..], refuses, active) == FirstIn(ts[i + 1..], refuses, active)
  {
    assert ts[i..][0] == ts[i];
    assert ts[i..][1..] == ts[i + 1..];
  }

  lemma {:induction false} LastInSkip(ts: seq<Tree>, i: nat, refuses: set<nat>, active: nat)
    requires i < |ts|
    requires !Accepts(ts[i], refuses, active) && LastIn(ts[i].children, refuses, active).None?
    ensures LastIn(ts[..i + 1], refuses, active) == LastIn(ts[..i], refuses, active)
  {
    assert ts[..i + 1][i] == ts[i];
    assert ts[..i + 1][..i] == ts[..i];
  }

  /** The document's focus state: `document.activeElement`, the
      `IgnoreUntilFocusChanges` flag, and the pre/post sentinel nodes that
      open dialogs have inserted. The document tree itself does not change
      in this model. */
  class Host {
    const doc: Tree
    const refuses: set<nat>
    var active: nat
    var ignoreFocus: bool
    var sentinels: set<nat>
    var nextUid: nat

    /** Newly created nodes get identities no existing node has. */
    ghost predicate Valid()
      reads this`nextUid, this`sentinels
    {
      && (forall n :: n in PreOrder([doc]) ==> n.elem.uid < nextUid)
      && (forall u :: u in sentinels ==> u < nextUid)
    }

    constructor (doc: Tree, refuses: set<nat>, active: nat, nextUid: nat)
      requires forall n :: n in PreOrder([doc]) ==> n.elem.uid < nextUid
      ensures Valid()
      ensures this.doc == doc && this.refuses == refuses && this.active == active
      ensures !ignoreFocus && sentinels == {} && this.nextUid == nextUid
    {
      this.doc := doc;
      this.refuses := refuses;
      this.active := active;
      this.nextUid := nextUid;
      ignoreFocus := false;
      sentinels := {};
    }

    /** `element.focus()` on node `u`, which may silently fail. */
    method Focus(u: nat)
      modifies this`active
      ensures active == FocusResult(u, refuses, old(active))
    {
      if u !in refuses {
        active := u;
      }
    }

    /** `Utils.attemptFocus`: a non-focusable node is refused without
        touching anything; otherwise the focus call runs with the ignore
        flag raised, the flag is lowered, and the answer is whether the node
        is now the active element. */
    method AttemptFocus(t: Tree) returns (ok: bool)
      modifies this`active, this`ignoreFocus
      ensures ok == Accepts(t, refuses, old(active))
      ensures active == if ok then t.elem.uid else old(active)
      ensures !IsFocusable(t.elem) ==> ignoreFocus == old(ignoreFocus)
      ensures IsFocusable(t.elem) ==> !ignoreFocus
    {
      if !IsFocusable(t.elem) {
        return false;
      }
      ignoreFocus := true;
      Focus(t.elem.uid);
      ignoreFocus := false;
      ok := active == t.elem.uid;
    }

    /** `Utils.focusFirstDescendant`. */
    method FocusFirstDescendant(t: Tree) returns (found: bool)
      modifies this`active, this`ignoreFocus
      ensures found == FirstIn(t.children, refuses, old(active)).Some?
      ensures active == if found then FirstIn(t.children, refuses, old(active)).value.elem.uid else old(active)
      ensures ignoreFocus ==> old(ignoreFocus)
      decreases t
    {
      var i := 0;
      while i < |t.children|
        invariant 0 <= i <= |t.children|
        invariant active == old(active)
        invariant ignoreFocus ==> old(ignoreFocus)
        invariant FirstIn(t.children, refuses, old(active)) == FirstIn(t.children[i..], refuses, old(active))
      {
        var child := t.children[i];
        assert t.children[i..][0] == child;
        var ok := AttemptFocus(child);
        if !ok {
          ok := FocusFirstDescendant(child);
        }
        if ok {
          return true;
        }
        FirstInSkip(t.children, i, refuses, old(active));
        i := i + 1;
      }
      return false;
    }

    /** `Utils.focusLastDescendant`. */
    method FocusLastDescendant(t: Tree) returns (found: bool)
      modifies this`active, this`ignoreFocus
      ensures found == LastIn(t.children, refuses, old(active)).Some?
      ensures active == if found then LastIn(t.children, refuses, old(active)).value.elem.uid else old(active)
      ensures ignoreFocus ==> old(ignoreFocus)
      decreases t
    {
      var i: int := |t.children| - 1;
      assert t.children[..i + 1] == t.children;
      while i >= 0
        invariant -1 <= i < |t.children|
        invariant active == old(active)
        invariant ignoreFocus ==> old(ignoreFocus)
        invariant LastIn(t.children, refuses, old(active)) == LastIn(t.children[..i + 1], refuses, old(active))
      {
        var child := t.children[i];
        assert t.children[..i + 1][i] == child;
        var ok := AttemptFocus(child);
        if !ok {
          ok := FocusLastDescendant(child);
        }
        if ok {
          return true;
        }
        LastInSkip(t.children, i, refuses, old(active));
        i := i - 1;
      }
      return false;
    }

    /** Creates a `div` with tab index 0 and inserts it next to a dialog
        node; only its identity matters here. */
    method InsertSentinel() returns (u: nat)
      requires Valid()
      modifies this`sentinels, this`nextUid
      ensures Valid()
      ensures u == old(nextUid) && nextUid == u + 1
      ensures sentinels == old(sentinels) + {u}
    {
      u := nextUid;
      nextUid := nextUid + 1;
      sentinels := sentinels + {u};
    }

    /** `Utils.remove(node)`: the node leaves the document. */
    method RemoveSentinel(u: nat)
      requires Valid()
      modifies this`sentinels
      ensures Valid()
      ensures sentinels == old(sentinels) - {u}
    {
      sentinels := sentinels - {u};
    }
  }
}
