/** The dialog stack (`datimModals.OpenDialogList`), the `Dialog` objects,
    their construction, close, replace and focus trap, the Escape handler
    and the `openDialog`/`closeDialog`/`replaceDialog` entry points. */
module Dialogs {
  import opened Dom
  import opened Utils

  /** `KeyCodes.ESC`. */
  const ESC: int := 27

  /** A JavaScript argument that may name a node: omitted (`undefined`),
      `null`, an id string, or a node passed directly. */
  datatype Ref = Undefined | Null | ById(key: string) | Node(uid: nat)

  /** JavaScript truthiness of such an argument. */
  predicate Truthy(r: Ref)
  {
    match r
    case Undefined => false
    case Null => false
    case ById(key) => key != ""
    case Node(_) => true
  }

  /** The exceptions the code throws: the three `Error`s of the constructor
      and the `TypeError` of a property access on null/undefined. */
  datatype Error = NoElementWithId(key: string) | NotADatimModal | FocusAfterClosedRequired | TypeError

  /** A call that returns a value or throws. */
  datatype Result<+T> = Ok(value: T) | Threw(error: Error)

  /** Lines 258-269: how the constructor resolves `focusAfterClosed`. A
      string must name an existing node; `null` passes the `typeof ===
      "object"` test and is stored as null; anything else is refused. */
  function ResolveFocusAfterClosed(doc: Tree, focusAfterClosed: Ref): (r: Result<Option<nat>>)
    ensures r.Threw? <==> focusAfterClosed.Undefined? || (focusAfterClosed.ById? && Lookup(doc, focusAfterClosed.key).None?)
    ensures r.Threw? ==> r.error == if focusAfterClosed.Undefined? then FocusAfterClosedRequired
                                    else NoElementWithId(focusAfterClosed.key)
    ensures r.Ok? && r.value.Some? ==> focusAfterClosed.Node? || focusAfterClosed.ById?
    ensures r == Ok(None) <==> focusAfterClosed.Null?
    ensures focusAfterClosed.Node? ==> r == Ok(Some(focusAfterClosed.uid))
    ensures focusAfterClosed.ById? && r.Ok? ==> r.value == Some(Lookup(doc, focusAfterClosed.key).value.elem.uid)
  {
    match focusAfterClosed
    case ById(key) =>
      var found := Lookup(doc, key);
      if found.None? then Threw(NoElementWithId(key)) else Ok(Some(found.value.elem.uid))
    case Node(u) => Ok(Some(u))
    case Null => Ok(None)
    case Undefined => Threw(FocusAfterClosedRequired)
  }

  /** Lines 273-279: how the constructor resolves `focusFirst`. It never
      fails: an id that names no node, `null` and `undefined` all become
      null, which later means "search the dialog's descendants". */
  function ResolveFocusFirst(doc: Tree, focusFirst: Ref): (r: Option<nat>)
    ensures focusFirst.Undefined? || focusFirst.Null? ==> r.None?
    ensures focusFirst.Node? ==> r == Some(focusFirst.uid)
    ensures focusFirst.ById? ==> (r.None? <==> Lookup(doc, focusFirst.key).None?)
    ensures focusFirst.ById? && r.Some? ==> exists n :: n in PreOrder([doc]) && n.elem.htmlId == focusFirst.key && n.elem.uid == r.value
    ensures focusFirst.ById? && r.Some? ==> r.value == Lookup(doc, focusFirst.key).value.elem.uid
  {
    match focusFirst
    case ById(key) =>
      var found := Lookup(doc, key);
      if found.None? then None else Some(found.value.elem.uid)
    case Node(u) => Some(u)
    case Null => None
    case Undefined => None
  }

  /** The dialog id names a node carrying the `datim-modal` attribute. */
  predicate ModalFound(doc: Tree, dialogId: string)
  {
    Lookup(doc, dialogId).Some? && Lookup(doc, dialogId).value.elem.datimModal
  }

  /** Lines 220-269: the error, if any, the constructor throws, checked in
      the source's order. */
  function ConstructError(doc: Tree, dialogId: string, focusAfterClosed: Ref): (r: Option<Error>)
    ensures r.None? <==> ModalFound(doc, dialogId) && ResolveFocusAfterClosed(doc, focusAfterClosed).Ok?
    ensures Lookup(doc, dialogId).None? ==> r == Some(NoElementWithId(dialogId))
    ensures Lookup(doc, dialogId).Some? && !ModalFound(doc, dialogId) ==> r == Some(NotADatimModal)
    ensures ModalFound(doc, dialogId) && focusAfterClosed.Undefined? ==> r == Some(FocusAfterClosedRequired)
    ensures ModalFound(doc, dialogId) && focusAfterClosed.ById? && Lookup(doc, focusAfterClosed.key).None? ==>
              r == Some(NoElementWithId(focusAfterClosed.key))
  {
    var found := Lookup(doc, dialogId);
    if found.None? then Some(NoElementWithId(dialogId))
    else if !found.value.elem.datimModal then Some(NotADatimModal)
    else
      var resolved := ResolveFocusAfterClosed(doc, focusAfterClosed);
      if resolved.Threw? then Some(resolved.error) else None
  }

  /** Lines 315-322: where focus stands once a dialog has opened, starting
      from `active`: on `focusFirst` if one was resolved (its `focus()` may
      fail), otherwise on the first descendant that accepts focus. */
  function OpenFocus(node: Tree, focusFirst: Option<nat>, refuses: set<nat>, active: nat): (r: nat)
    ensures focusFirst.Some? ==> r == focusFirst.value || r == active
    ensures focusFirst.None? ==> r == active || Contains(node, r)
  {
    match focusFirst
    case Some(u) => FocusResult(u, refuses, active)
    case None =>
      FirstInFinds(node, refuses, active);
      var first := FirstIn(node.children, refuses, active);
      if first.Some? then first.value.elem.uid else active
  }

  /** Without `focusFirst`, opening moves focus into the dialog whenever
      something in it accepts focus, and leaves it alone otherwise. */
  lemma OpenFocusLands(node: Tree, refuses: set<nat>, active: nat)
    ensures AnyAccepting(node.children, refuses, active) ==> Contains(node, OpenFocus(node, None, refuses, active))
    ensures !AnyAccepting(node.children, refuses, active) ==> OpenFocus(node, None, refuses, active) == active
  {
    FirstInFinds(node, refuses, active);
  }

  /** Lines 409-417: the focus trap's effect on (active element, lastFocus)
      of the current dialog, for a focus event on `target`. */
  function TrapStep(node: Tree, refuses: set<nat>, active: nat, lastFocus: nat, target: nat): (r: (nat, nat))
    ensures r.0 == active || Contains(node, r.0)
    ensures !Contains(node, target) ==> r.0 == r.1
  {
    if Contains(node, target) then (active, target)
    else
      FirstInFinds(node, refuses, active);
      var first := FirstIn(node.children, refuses, active);
      var afterFirst := if first.Some? then first.value.elem.uid else active;
      var afterLast :=
        if lastFocus == afterFirst then
          LastInFinds(node, refuses, afterFirst);
          var last := LastIn(node.children, refuses, afterFirst);
          if last.Some? then last.value.elem.uid else afterFirst
        else afterFirst;
      (afterLast, afterLast)
  }

  /** An event inside the dialog only records the target; focus that
      escaped is pulled back inside whenever anything inside accepts focus,
      and `lastFocus` then names the new active element. */
  lemma TrapRedirectsInside(node: Tree, refuses: set<nat>, active: nat, lastFocus: nat, target: nat)
    ensures Contains(node, target) ==> TrapStep(node, refuses, active, lastFocus, target) == (active, target)
    ensures !Contains(node, target) ==> TrapStep(node, refuses, active, lastFocus, target).0 == TrapStep(node, refuses, active, lastFocus, target).1
    ensures !Contains(node, target) && AnyAccepting(node.children, refuses, active) ==>
              Contains(node, TrapStep(node, refuses, active, lastFocus, target).0)
  {
    FirstInFinds(node, refuses, active);
    var first := FirstIn(node.children, refuses, active);
    if first.Some? {
      var u := first.value.elem.uid;
      assert Accepts(first.value, refuses, u);
      assert AnyAccepting(node.children, refuses, u) by {
        FirstInIsPreOrderFirst(node.children, refuses, active);
      }
      LastInFinds(node, refuses, u);
    }
  }

  /** When nothing inside the dialog accepts focus, the trap leaves the
      active element where it was. */
  lemma TrapStaysPut(node: Tree, refuses: set<nat>, active: nat, lastFocus: nat, target: nat)
    requires !AnyAccepting(node.children, refuses, active)
    ensures TrapStep(node, refuses, active, lastFocus, target).0 == active
  {
    FirstInFinds(node, refuses, active);
    if lastFocus == active {
      LastInFinds(node, refuses, active);
    }
  }

  /** The wrap-around: when the forward search lands on the node focus last
      stood on (focus left the dialog backwards from its first element), the
      backward search runs from there and always finds a node, which becomes
      the active element. */
  lemma TrapWrapsToLast(node: Tree, refuses: set<nat>, active: nat, target: nat)
    requires !Contains(node, target)
    requires FirstIn(node.children, refuses, active).Some?
    ensures var u := FirstIn(node.children, refuses, active).value.elem.uid;
            var last := LastIn(node.children, refuses, u);
            last.Some? && TrapStep(node, refuses, active, u, target) == (last.value.elem.uid, last.value.elem.uid)
  {
    FirstInFinds(node, refuses, active);
    var first := FirstIn(node.children, refuses, active).value;
    var u := first.elem.uid;
    assert Accepts(first, refuses, u);
    assert AnyAccepting(node.children, refuses, u) by {
      FirstInIsPreOrderFirst(node.children, refuses, active);
    }
    LastInFinds(node, refuses, u);
  }

  /** Line 389: `newFocusAfterClosed || this.focusAfterClosed`. */
  function Fallback(newFocusAfterClosed: Ref, previous: Option<nat>): (r: Ref)
    ensures Truthy(newFocusAfterClosed) ==> r == newFocusAfterClosed
    ensures Truthy(r) || r.Null?
    ensures r.Null? <==> !Truthy(newFocusAfterClosed) && previous.None?
  {
    if Truthy(newFocusAfterClosed) then newFocusAfterClosed
    else match previous
      case Some(u) => Node(u)
      case None => Null
  }

  /** The successor built by `replace` inherits the replaced dialog's focus
      target exactly when no truthy new one is given, and that inherited
      target can never make the construction fail. */
  lemma ReplaceInheritsTarget(doc: Tree, newFocusAfterClosed: Ref, previous: Option<nat>)
    ensures !Truthy(newFocusAfterClosed) ==> ResolveFocusAfterClosed(doc, Fallback(newFocusAfterClosed, previous)) == Ok(previous)
    ensures Truthy(newFocusAfterClosed) ==>
              ResolveFocusAfterClosed(doc, Fallback(newFocusAfterClosed, previous)) == ResolveFocusAfterClosed(doc, newFocusAfterClosed)
  {
  }

  /** The pre and post nodes of the given dialogs. */
  ghost function SentinelsOf(ds: seq<Dialog>): set<nat>
  {
    if ds == [] then {}
    else SentinelsOf(ds[..|ds| - 1]) + {ds[|ds| - 1].preNode, ds[|ds| - 1].postNode}
  }

  /** Sentinels were created in opening order: each dialog's pair lies
      above every pair of the dialogs beneath it, and all lie below
      `bound`. */
  ghost predicate SentinelsStacked(ds: seq<Dialog>, bound: nat)
    decreases |ds|
  {
    ds == [] ||
    (var top := ds[|ds| - 1];
     top.preNode < top.postNode < bound && SentinelsStacked(ds[..|ds| - 1], top.preNode))
  }

  /** Every sentinel of stacked dialogs lies below the bound, and each
      dialog's pre node precedes its post node. */
  lemma {:induction false} SentinelsBelow(ds: seq<Dialog>, bound: nat)
    requires SentinelsStacked(ds, bound)
    ensures forall u :: u in SentinelsOf(ds) ==> u < bound
    ensures forall i :: 0 <= i < |ds| ==> ds[i].preNode < ds[i].postNode < bound
    decreases |ds|
  {
    if ds != [] {
      var init, top := ds[..|ds| - 1], ds[|ds| - 1];
      SentinelsBelow(init, top.preNode);
      forall i | 0 <= i < |ds| - 1
        ensures ds[i].preNode < ds[i].postNode < bound
      {
        assert ds[i] == init[i];
      }
    }
  }

  /** The top dialog of a stack is a different object from every dialog
      beneath it. */
  lemma TopDistinct(ds: seq<Dialog>, bound: nat)
    requires SentinelsStacked(ds, bound) && ds != []
    ensures forall i :: 0 <= i < |ds| - 1 ==> ds[i] != ds[|ds| - 1]
  {
    var init, top := ds[..|ds| - 1], ds[|ds| - 1];
    SentinelsBelow(init, top.preNode);
    forall i | 0 <= i < |ds| - 1
      ensures ds[i] != top
    {
      assert ds[i] == init[i];
    }
  }

  /** A stack below one bound is below any larger bound. */
  lemma StackedRaise(ds: seq<Dialog>, bound: nat, newBound: nat)
    requires SentinelsStacked(ds, bound) && bound <= newBound
    ensures SentinelsStacked(ds, newBound)
  {
  }

  /** Pushing a dialog whose sentinels are newer than every existing one
      keeps the stack ordered and adds exactly its two sentinels. */
  lemma PushOrdered(ds: seq<Dialog>, d: Dialog, bound: nat, newBound: nat)
    requires SentinelsStacked(ds, bound)
    requires bound <= d.preNode < d.postNode < newBound
    ensures SentinelsStacked(ds + [d], newBound)
    ensures SentinelsOf(ds + [d]) == SentinelsOf(ds) + {d.preNode, d.postNode}
  {
    assert (ds + [d])[..|ds|] == ds;
    StackedRaise(ds, bound, d.preNode);
  }

  /** One open dialog. Everything but `lastFocus` is fixed at construction. */
  class Dialog {
    const dialogNode: Tree
    const focusAfterClosed: Option<nat>
    const focusFirst: Option<nat>
    const preNode: nat
    const postNode: nat
    var lastFocus: nat

    constructor (dialogNode: Tree, focusAfterClosed: Option<nat>, focusFirst: Option<nat>,
                 preNode: nat, postNode: nat, lastFocus: nat)
      ensures this.dialogNode == dialogNode && this.focusAfterClosed == focusAfterClosed
      ensures this.focusFirst == focusFirst && this.preNode == preNode && this.postNode == postNode
      ensures this.lastFocus == lastFocus
    {
      this.dialogNode := dialogNode;
      this.focusAfterClosed := focusAfterClosed;
      this.focusFirst := focusFirst;
      this.preNode := preNode;
      this.postNode := postNode;
      this.lastFocus := lastFocus;
    }
  }

  /** The `datimModals` namespace: the open dialog list, whether the shared
      `trapFocus` listener is registered on the document (every dialog
      registers the same prototype function, so there is one registration,
      not one per dialog), and whether the body carries "has-dialog". */
  class Modals {
    const host: Host
    var openDialogs: seq<Dialog>
    var trapInstalled: bool
    var bodyMarked: bool

    /** Sentinels exist exactly for the open dialogs, and the body is marked
        while any dialog is open. This much holds even while `attemptFocus`
        is moving focus, when the trap listener may run. */
    ghost predicate Bracketed()
      reads this, host`nextUid, host`sentinels
    {
      && host.Valid()
      && host.sentinels == SentinelsOf(openDialogs)
      && SentinelsStacked(openDialogs, host.nextUid)
      && (openDialogs != [] ==> bodyMarked)
    }

    /** The state between calls: bracketed, no focus attempt under way, and
        the listener registered only while some dialog is open. */
    ghost predicate Valid()
      reads this, host`nextUid, host`sentinels, host`ignoreFocus
    {
      && Bracketed()
      && !host.ignoreFocus
      && (trapInstalled ==> openDialogs != [])
    }

    /** The trap listener is registered exactly while a dialog is open; its
        handler always acts on the top dialog. */
    ghost predicate ListenerOnTop()
      reads this
    {
      trapInstalled <==> openDialogs != []
    }

    constructor (host: Host)
      requires host.Valid() && host.sentinels == {} && !host.ignoreFocus
      ensures Valid() && ListenerOnTop()
      ensures this.host == host && openDialogs == [] && !trapInstalled && !bodyMarked
    {
      this.host := host;
      openDialogs := [];
      trapInstalled := false;
      bodyMarked := false;
    }

    /** `getCurrentDialog`: the last dialog of the list, or nothing
        (`undefined`) when the list is empty. */
    function Current(): (r: Option<Dialog>)
      reads this
      ensures r.Some? <==> openDialogs != []
      ensures r.Some? ==> r.value == openDialogs[|openDialogs| - 1]
    {
      if |openDialogs| > 0 then Some(openDialogs[|openDialogs| - 1]) else None
    }

    /** The `Dialog` constructor (also what `window.openDialog` runs). */
    method NewDialog(dialogId: string, focusAfterClosed: Ref, focusFirst: Ref) returns (r: Result<Dialog>)
      requires Valid()
      modifies this, host
      ensures Valid()
      ensures r.Threw? <==> ConstructError(host.doc, dialogId, focusAfterClosed).Some?
      ensures r.Threw? ==> r.error == ConstructError(host.doc, dialogId, focusAfterClosed).value
      ensures r.Threw? ==> openDialogs == old(openDialogs) && trapInstalled == old(trapInstalled)
      ensures r.Threw? ==> host.active == old(host.active) && host.sentinels == old(host.sentinels)
      ensures bodyMarked == (old(bodyMarked) || ModalFound(host.doc, dialogId))
      ensures r.Ok? ==>
                && fresh(r.value)
                && openDialogs == old(openDialogs) + [r.value]
                && trapInstalled
                && r.value.dialogNode == Lookup(host.doc, dialogId).value
                && r.value.focusAfterClosed == ResolveFocusAfterClosed(host.doc, focusAfterClosed).value
                && r.value.focusFirst == ResolveFocusFirst(host.doc, focusFirst)
                && host.sentinels == old(host.sentinels) + {r.value.preNode, r.value.postNode}
                && r.value.preNode !in old(host.sentinels) && r.value.postNode !in old(host.sentinels)
                && host.active == OpenFocus(r.value.dialogNode, r.value.focusFirst, host.refuses, old(host.active))
                && r.value.lastFocus == host.active
    {
      var found := Lookup(host.doc, dialogId);
      if found.None? {
        return Threw(NoElementWithId(dialogId));
      }
      var node := found.value;
      if !node.elem.datimModal {
        return Threw(NotADatimModal);
      }
      bodyMarked := true;
      var afterClosed := ResolveFocusAfterClosed(host.doc, focusAfterClosed);
      if afterClosed.Threw? {
        return Threw(afterClosed.error);
      }
      var first := ResolveFocusFirst(host.doc, focusFirst);
      var d := Activate(node, afterClosed.value, first);
      r := Ok(d);
    }

    /** Lines 281-322, once the arguments are resolved: push the dialog,
        then let it take focus. */
    method Activate(node: Tree, afterClosed: Option<nat>, first: Option<nat>) returns (d: Dialog)
      requires Valid() && bodyMarked
      modifies this, host
      ensures Valid() && bodyMarked
      ensures fresh(d) && openDialogs == old(openDialogs) + [d] && trapInstalled
      ensures d.dialogNode == node && d.focusAfterClosed == afterClosed && d.focusFirst == first
      ensures host.sentinels == old(host.sentinels) + {d.preNode, d.postNode}
      ensures d.preNode !in old(host.sentinels) && d.postNode !in old(host.sentinels)
      ensures host.active == OpenFocus(node, first, host.refuses, old(host.active))
      ensures d.lastFocus == host.active
    {
      d := Push(node, afterClosed, first);
      label pushed:
      InitialFocus(d);
      assert unchanged@pushed(this, host`nextUid, host`sentinels);
    }

    /** Lines 281-309: bracket the dialog node with two new sentinels, move
        the listener from the previous top to this dialog (removing before
        adding: with one shared registration the opposite order would leave
        none registered), and push. */
    method Push(node: Tree, afterClosed: Option<nat>, first: Option<nat>) returns (d: Dialog)
      requires Valid() && bodyMarked
      modifies this, host`sentinels, host`nextUid
      ensures Valid() && bodyMarked
      ensures fresh(d) && openDialogs == old(openDialogs) + [d] && trapInstalled
      ensures d.dialogNode == node && d.focusAfterClosed == afterClosed && d.focusFirst == first
      ensures host.sentinels == old(host.sentinels) + {d.preNode, d.postNode}
      ensures d.preNode !in old(host.sentinels) && d.postNode !in old(host.sentinels)
      ensures d.lastFocus == host.active
    {
      SentinelsBelow(openDialogs, host.nextUid);
      var pre := host.InsertSentinel();
      var post := host.InsertSentinel();
      if |openDialogs| > 0 {
        trapInstalled := false;  // getCurrentDialog().removeListeners()
      }
      trapInstalled := true;     // this.addListeners()
      d := new Dialog(node, afterClosed, first, pre, post, host.active);
      var pushed := openDialogs + [d];
      PushOrdered(openDialogs, d, pre, host.nextUid);
      openDialogs := pushed;
    }

    /** Lines 315-322: the opening dialog takes focus, and `lastFocus`
        records where focus ended up. */
    method InitialFocus(d: Dialog)
      modifies host`active, host`ignoreFocus, d`lastFocus
      ensures host.active == OpenFocus(d.dialogNode, d.focusFirst, host.refuses, old(host.active))
      ensures d.lastFocus == host.active
      ensures host.ignoreFocus ==> old(host.ignoreFocus)
    {
      if d.focusFirst.Some? {
        host.Focus(d.focusFirst.value);
      } else {
        var _ := host.FocusFirstDescendant(d.dialogNode);
      }
      d.lastFocus := host.active;
    }

    /** The teardown `close` and `replace` share: pop the top dialog,
        unregister the trap listener, remove the pre and post nodes. */
    method Teardown()
      requires Valid() && openDialogs != []
      modifies this, host
      ensures Valid()
      ensures openDialogs == old(openDialogs)[..|old(openDialogs)| - 1]
      ensures !trapInstalled && bodyMarked == old(bodyMarked)
      ensures host.active == old(host.active) && host.ignoreFocus == old(host.ignoreFocus)
      ensures host.sentinels == old(host.sentinels) - {old(openDialogs)[|old(openDialogs)| - 1].preNode,
                                                      old(openDialogs)[|old(openDialogs)| - 1].postNode}
    {
      var top := openDialogs[|openDialogs| - 1];
      var rest := openDialogs[..|openDialogs| - 1];
      SentinelsBelow(rest, top.preNode);
      StackedRaise(rest, top.preNode, host.nextUid);
      openDialogs := rest;
      trapInstalled := false;
      host.RemoveSentinel(top.preNode);
      host.RemoveSentinel(top.postNode);
    }

    /** `Dialog.prototype.close`, on the top dialog, with line 360 as it is
        evidently meant: the dialog left on top gets the listener back. */
    method Close() returns (r: Result<()>)
      requires Valid() && openDialogs != []
      modifies this, host
      ensures Valid()
      ensures openDialogs == old(openDialogs)[..|old(openDialogs)| - 1]
      ensures host.sentinels == old(host.sentinels) - {old(openDialogs[|openDialogs| - 1]).preNode,
                                                      old(openDialogs[|openDialogs| - 1]).postNode}
      ensures host.ignoreFocus == old(host.ignoreFocus)
      ensures old(openDialogs[|openDialogs| - 1]).focusAfterClosed.None? ==>
                r == Threw(TypeError) && !trapInstalled && host.active == old(host.active) && bodyMarked == old(bodyMarked)
      ensures old(openDialogs[|openDialogs| - 1]).focusAfterClosed.Some? ==>
                && r == Ok(())
                && ListenerOnTop()
                && bodyMarked == (openDialogs != [])
                && host.active == FocusResult(old(openDialogs[|openDialogs| - 1]).focusAfterClosed.value, host.refuses, old(host.active))
    {
      var top := openDialogs[|openDialogs| - 1];
      Teardown();
      if top.focusAfterClosed.None? {
        return Threw(TypeError);  // null.focus()
      }
      host.Focus(top.focusAfterClosed.value);
      if |openDialogs| > 0 {
        trapInstalled := true;    // getCurrentDialog().addListeners()
      } else {
        bodyMarked := false;
      }
      r := Ok(());
    }

    /** `Dialog.prototype.close` exactly as written: line 360 reads
        `addListeners` off the function `getCurrentDialog` instead of off
        its result, so with a dialog left underneath the call throws a
        TypeError and that dialog gets no listener back. */
    method CloseAsWritten() returns (r: Result<()>)
      requires Valid() && openDialogs != []
      modifies this, host
      ensures Valid()
      ensures openDialogs == old(openDialogs)[..|old(openDialogs)| - 1]
      ensures !trapInstalled && bodyMarked == r.Threw?
      ensures r.Ok? <==> old(openDialogs[|openDialogs| - 1]).focusAfterClosed.Some? && openDialogs == []
      ensures r.Threw? ==> r.error == TypeError
      ensures |old(openDialogs)| > 1 ==> r == Threw(TypeError) && !ListenerOnTop()
      ensures host.ignoreFocus == old(host.ignoreFocus)
      ensures old(openDialogs[|openDialogs| - 1]).focusAfterClosed.None? ==> host.active == old(host.active)
      ensures old(openDialogs[|openDialogs| - 1]).focusAfterClosed.Some? ==>
                host.active == FocusResult(old(openDialogs[|openDialogs| - 1]).focusAfterClosed.value, host.refuses, old(host.active))
      ensures host.sentinels == old(host.sentinels) - {old(openDialogs[|openDialogs| - 1]).preNode,
                                                      old(openDialogs[|openDialogs| - 1]).postNode}
    {
      var top := openDialogs[|openDialogs| - 1];
      Teardown();
      if top.focusAfterClosed.None? {
        return Threw(TypeError);  // null.focus()
      }
      host.Focus(top.focusAfterClosed.value);
      if |openDialogs| > 0 {
        return Threw(TypeError);  // getCurrentDialog.addListeners is not a function
      } else {
        bodyMarked := false;
      }
      r := Ok(());
    }

    /** `Dialog.prototype.replace`, on the top dialog: the same teardown as
        `close` without restoring focus, then a new dialog whose focus target
        defaults to the replaced one's. The construction may throw after the
        teardown, leaving the list one shorter and no listener registered. */
    method Replace(newDialogId: string, newFocusAfterClosed: Ref, newFocusFirst: Ref) returns (r: Result<Dialog>)
      requires Valid() && openDialogs != []
      modifies this, host
      ensures Valid()
      ensures var top := old(openDialogs[|openDialogs| - 1]);
              var target := Fallback(newFocusAfterClosed, top.focusAfterClosed);
              && (r.Threw? <==> ConstructError(host.doc, newDialogId, target).Some?)
              && (r.Threw? ==> r.error == ConstructError(host.doc, newDialogId, target).value)
              && (r.Threw? ==> openDialogs == old(openDialogs)[..|old(openDialogs)| - 1] && !trapInstalled)
              && (r.Threw? ==> host.active == old(host.active))
              && (r.Ok? ==> r.value.focusAfterClosed == ResolveFocusAfterClosed(host.doc, target).value)
      ensures r.Ok? ==>
                && fresh(r.value)
                && openDialogs == old(openDialogs)[..|old(openDialogs)| - 1] + [r.value]
                && |openDialogs| == |old(openDialogs)|
                && ListenerOnTop()
                && r.value.dialogNode == Lookup(host.doc, newDialogId).value
                && r.value.focusFirst == ResolveFocusFirst(host.doc, newFocusFirst)
                && host.active == OpenFocus(r.value.dialogNode, r.value.focusFirst, host.refuses, old(host.active))
                && r.value.lastFocus == host.active
      ensures bodyMarked
    {
      var top := openDialogs[|openDialogs| - 1];
      Teardown();
      var target := Fallback(newFocusAfterClosed, top.focusAfterClosed);
      r := NewDialog(newDialogId, target, newFocusFirst);
    }

    /** `Dialog.prototype.trapFocus`, the capturing focus listener, for a
        focus event on `target`. It ignores the event while `attemptFocus`
        is moving focus, and otherwise acts on the current dialog, whichever
        dialog registered it. */
    method TrapFocus(target: nat) returns (r: Result<()>)
      requires Bracketed()
      modifies host`active, host`ignoreFocus, openDialogs
      ensures host.ignoreFocus == old(host.ignoreFocus)
      ensures forall i :: 0 <= i < |openDialogs| - 1 ==> openDialogs[i].lastFocus == old(openDialogs[i].lastFocus)
      ensures old(host.ignoreFocus) ==>
                && r == Ok(())
                && host.active == old(host.active)
                && forall d :: d in openDialogs ==> d.lastFocus == old(d.lastFocus)
      ensures !old(host.ignoreFocus) && openDialogs == [] ==> r == Threw(TypeError) && host.active == old(host.active)
      ensures !old(host.ignoreFocus) && openDialogs != [] ==>
                var top := openDialogs[|openDialogs| - 1];
                r == Ok(()) &&
                (host.active, top.lastFocus) == TrapStep(top.dialogNode, host.refuses, old(host.active), old(top.lastFocus), target)
    {
      if host.ignoreFocus {
        return Ok(());
      }
      var current := Current();
      if current.None? {
        return Threw(TypeError);  // undefined.dialogNode
      }
      var d := current.value;
      TopDistinct(openDialogs, host.nextUid);
      if Contains(d.dialogNode, target) {
        d.lastFocus := target;
      } else {
        var _ := host.FocusFirstDescendant(d.dialogNode);
        if d.lastFocus == host.active {
          var _ := host.FocusLastDescendant(d.dialogNode);
        }
        d.lastFocus := host.active;
      }
      r := Ok(());
    }

    /** A focus change to `target` made by the user or the page (a click,
        Tab, or `element.focus()`). If it takes effect, the document fires a
        focus event, which reaches `trapFocus` only while the listener is
        registered; otherwise focus simply stays on `target`. */
    method FocusEvent(target: nat) returns (r: Result<()>)
      requires Valid()
      modifies host`active, host`ignoreFocus, openDialogs
      ensures Valid()
      ensures host.ignoreFocus == old(host.ignoreFocus)
      ensures FocusResult(target, host.refuses, old(host.active)) == old(host.active) ==>
                && r == Ok(())
                && host.active == old(host.active)
                && forall d :: d in openDialogs ==> d.lastFocus == old(d.lastFocus)
      ensures FocusResult(target, host.refuses, old(host.active)) != old(host.active) && !trapInstalled ==>
                && r == Ok(())
                && host.active == target
                && forall d :: d in openDialogs ==> d.lastFocus == old(d.lastFocus)
      ensures FocusResult(target, host.refuses, old(host.active)) != old(host.active) && trapInstalled ==>
                openDialogs != [] &&
                var top := openDialogs[|openDialogs| - 1];
                && r == Ok(())
                && (host.active, top.lastFocus) == TrapStep(top.dialogNode, host.refuses, target, old(top.lastFocus), target)
                && forall i :: 0 <= i < |openDialogs| - 1 ==> openDialogs[i].lastFocus == old(openDialogs[i].lastFocus)
    {
      if target in host.refuses || target == host.active {
        return Ok(());
      }
      host.Focus(target);
      if !trapInstalled {
        return Ok(());
      }
      r := TrapFocus(target);
    }

    /** `closeCurrentDialog`: false with nothing changed when no dialog is
        open; otherwise closes the top dialog with `close` as written and
        answers true, unless that close throws. With a dialog left
        underneath it always throws (line 360). */
    method CloseCurrentDialog() returns (r: Result<bool>)
      requires Valid()
      modifies this, host
      ensures Valid()
      ensures old(openDialogs) == [] ==> r == Ok(false) && unchanged(this, host)
      ensures old(openDialogs) != [] ==>
                var top := old(openDialogs[|openDialogs| - 1]);
                && openDialogs == old(openDialogs)[..|old(openDialogs)| - 1]
                && !trapInstalled
                && bodyMarked == r.Threw?
                && (r == Ok(true) || r == Threw(TypeError))
                && (r == Ok(true) <==> top.focusAfterClosed.Some? && |old(openDialogs)| == 1)
                && host.sentinels == old(host.sentinels) - {top.preNode, top.postNode}
                && (top.focusAfterClosed.None? ==> host.active == old(host.active))
                && (top.focusAfterClosed.Some? ==>
                      host.active == FocusResult(top.focusAfterClosed.value, host.refuses, old(host.active)))
    {
      var current := Current();
      if current.None? {
        return Ok(false);
      }
      var closed := CloseAsWritten();
      if closed.Threw? {
        return Threw(closed.error);
      }
      r := Ok(true);
    }

    /** `handleEscape` for a keyup with `keyCode`: answers whether
        propagation was stopped, which happens only for Escape when a dialog
        was actually closed. A close that throws (line 360, with a dialog
        underneath) propagates, and propagation is then not stopped. */
    method HandleEscape(keyCode: int) returns (r: Result<bool>)
      requires Valid()
      modifies this, host
      ensures Valid()
      ensures keyCode != ESC ==> r == Ok(false) && unchanged(this, host)
      ensures r == Ok(true) <==>
                keyCode == ESC && |old(openDialogs)| == 1 && old(openDialogs[|openDialogs| - 1]).focusAfterClosed.Some?
      ensures keyCode == ESC && old(openDialogs) == [] ==> r == Ok(false) && unchanged(this, host)
      ensures keyCode == ESC && old(openDialogs) != [] ==>
                var top := old(openDialogs[|openDialogs| - 1]);
                && openDialogs == old(openDialogs)[..|old(openDialogs)| - 1]
                && !trapInstalled
                && bodyMarked == r.Threw?
                && (r == Ok(true) || r == Threw(TypeError))
                && host.sentinels == old(host.sentinels) - {top.preNode, top.postNode}
                && (top.focusAfterClosed.None? ==> host.active == old(host.active))
                && (top.focusAfterClosed.Some? ==>
                      host.active == FocusResult(top.focusAfterClosed.value, host.refuses, old(host.active)))
    {
      if keyCode != ESC {
        return Ok(false);
      }
      var closed := CloseCurrentDialog();
      if closed.Threw? {
        return Threw(closed.error);
      }
      r := Ok(closed.value);  // event.stopPropagation() when true
    }

    /** `window.closeDialog`: closes the top dialog with `close` as written
        when the button is inside it; with no dialog open, reading
        `dialogNode` off undefined throws. */
    method CloseDialog(closeButton: nat) returns (r: Result<bool>)
      requires Valid()
      modifies this, host
      ensures Valid()
      ensures old(openDialogs) == [] ==> r == Threw(TypeError) && unchanged(this, host)
      ensures old(openDialogs) != [] && !Contains(old(openDialogs[|openDialogs| - 1]).dialogNode, closeButton) ==>
                r == Ok(false) && unchanged(this, host)
      ensures old(openDialogs) != [] && Contains(old(openDialogs[|openDialogs| - 1]).dialogNode, closeButton) ==>
                var top := old(openDialogs[|openDialogs| - 1]);
                && openDialogs == old(openDialogs)[..|old(openDialogs)| - 1]
                && !trapInstalled
                && bodyMarked == r.Threw?
                && (r == Ok(true) || r == Threw(TypeError))
                && (r == Ok(true) <==> top.focusAfterClosed.Some? && |old(openDialogs)| == 1)
                && host.sentinels == old(host.sentinels) - {top.preNode, top.postNode}
                && (top.focusAfterClosed.None? ==> host.active == old(host.active))
                && (top.focusAfterClosed.Some? ==>
                      host.active == FocusResult(top.focusAfterClosed.value, host.refuses, old(host.active)))
    {
      var current := Current();
      if current.None? {
        return Threw(TypeError);
      }
      if !Contains(current.value.dialogNode, closeButton) {
        return Ok(false);
      }
      var closed := CloseAsWritten();
      if closed.Threw? {
        return Threw(closed.error);
      }
      r := Ok(true);
    }

    /** `window.replaceDialog`: replaces the top dialog when focus is inside
        it; with no dialog open, reading `dialogNode` off undefined throws. */
    method ReplaceDialog(newDialogId: string, newFocusAfterClosed: Ref, newFocusFirst: Ref) returns (r: Result<bool>)
      requires Valid()
      modifies this, host
      ensures Valid()
      ensures old(openDialogs) == [] ==> r == Threw(TypeError) && unchanged(this, host)
      ensures old(openDialogs) != [] && !Contains(old(openDialogs[|openDialogs| - 1]).dialogNode, old(host.active)) ==>
                r == Ok(false) && unchanged(this, host)
      ensures old(openDialogs) != [] && Contains(old(openDialogs[|openDialogs| - 1]).dialogNode, old(host.active)) ==>
                var target := Fallback(newFocusAfterClosed, old(openDialogs[|openDialogs| - 1]).focusAfterClosed);
                var n := |old(openDialogs)|;
                && (r.Ok? <==> ConstructError(host.doc, newDialogId, target).None?)
                && (r.Threw? ==> r.error == ConstructError(host.doc, newDialogId, target).value)
                && (r.Threw? ==> openDialogs == old(openDialogs)[..n - 1] && !trapInstalled)
                && (r.Threw? ==> host.active == old(host.active))
                && (r.Ok? ==>
                      && r.value
                      && |openDialogs| == n
                      && openDialogs[..n - 1] == old(openDialogs)[..n - 1]
                      && fresh(openDialogs[n - 1])
                      && ListenerOnTop()
                      && openDialogs[n - 1].dialogNode == Lookup(host.doc, newDialogId).value
                      && openDialogs[n - 1].focusAfterClosed == ResolveFocusAfterClosed(host.doc, target).value
                      && openDialogs[n - 1].focusFirst == ResolveFocusFirst(host.doc, newFocusFirst)
                      && host.active == OpenFocus(openDialogs[n - 1].dialogNode, openDialogs[n - 1].focusFirst,
                                                  host.refuses, old(host.active))
                      && openDialogs[n - 1].lastFocus == host.active)
      ensures old(openDialogs) != [] ==> bodyMarked
    {
      var current := Current();
      if current.None? {
        return Threw(TypeError);
      }
      if !Contains(current.value.dialogNode, host.active) {
        return Ok(false);
      }
      var replaced := Replace(newDialogId, newFocusAfterClosed, newFocusFirst);
      if replaced.Threw? {
        return Threw(replaced.error);
      }
      r := Ok(true);
    }
  }
}
