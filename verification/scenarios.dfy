/** Client runs of the dialog manager on one small page: each method opens
    and closes dialogs through the modelled operations and states in its
    postcondition what a caller observes. */
module Scenarios {
  import opened Dom
  import opened Utils
  import opened Dialogs

  function PageNode(uid: nat, id: string, name: string, datimModal: bool, children: seq<Tree>): Tree
  {
    Tree(Element(uid, id, name, 0, false, "", "", "text", datimModal), children)
  }

  const BtnA: Tree := PageNode(1, "btnA", "BUTTON", false, [])
  const Input1: Tree := PageNode(3, "", "INPUT", false, [])
  const D1: Tree := PageNode(2, "d1", "DIV", true, [Input1])
  const Button2: Tree := PageNode(5, "", "BUTTON", false, [])
  const D2: Tree := PageNode(4, "d2", "DIV", true, [Button2])
  const Plain: Tree := PageNode(6, "plain", "DIV", false, [])

  /** A page with a button "btnA" and two modal containers: "d1" holding a
      text input, and "d2" holding a button. The div "plain" lacks the
      modal attribute. */
  const Page: Tree := PageNode(0, "", "BODY", false, [BtnA, D1, D2, Plain])

  lemma PreOrderOne(t: Tree)
    ensures PreOrder([t]) == [t] + PreOrder(t.children)
  {
    assert PreOrder([t]) == [t] + PreOrder(t.children) + PreOrder([]);
  }

  lemma PageOrder()
    ensures PreOrder([Page]) == [Page, BtnA, D1, Input1, D2, Button2, Plain]
  {
    PreOrderOne(BtnA);
    PreOrderOne(Input1);
    PreOrderOne(D1);
    PreOrderOne(Button2);
    PreOrderOne(D2);
    PreOrderOne(Plain);
    PreOrderOne(Page);
    PreOrderAppend([BtnA], [D1, D2, Plain]);
    PreOrderAppend([D1], [D2, Plain]);
    PreOrderAppend([D2], [Plain]);
    assert [BtnA] + [D1, D2, Plain] == Page.children;
    assert [D1] + [D2, Plain] == [D1, D2, Plain];
    assert [D2] + [Plain] == [D2, Plain];
  }

  lemma PageUids()
    ensures forall n :: n in PreOrder([Page]) ==> n.elem.uid < 7
  {
    PageOrder();
  }

  /** A key carried by exactly one node of the page finds that node. */
  lemma LookupUnique(key: string, n: Tree)
    requires key != "" && n in PreOrder([Page]) && n.elem.htmlId == key
    requires forall m :: m in PreOrder([Page]) && m.elem.htmlId == key ==> m == n
    ensures Lookup(Page, key) == Some(n)
  {
  }

  lemma LookupBtnA()
    ensures Lookup(Page, "btnA") == Some(BtnA)
  {
    PageOrder();
    LookupUnique("btnA", BtnA);
  }

  lemma LookupD1()
    ensures Lookup(Page, "d1") == Some(D1)
  {
    PageOrder();
    LookupUnique("d1", D1);
  }

  lemma LookupD2()
    ensures Lookup(Page, "d2") == Some(D2)
  {
    PageOrder();
    LookupUnique("d2", D2);
  }

  lemma LookupPlain()
    ensures Lookup(Page, "plain") == Some(Plain)
  {
    PageOrder();
    LookupUnique("plain", Plain);
  }

  /** A fresh manager over Page with focus on "btnA" and a focus oracle
      that never refuses. */
  method NewManager() returns (m: Modals)
    ensures fresh(m) && fresh(m.host)
    ensures m.Valid() && m.openDialogs == [] && !m.trapInstalled && !m.bodyMarked
    ensures m.host.doc == Page && m.host.refuses == {} && m.host.active == 1 && !m.host.ignoreFocus
  {
    PageUids();
    var host := new Host(Page, {}, 1, 7);
    m := new Modals(host);
  }

  lemma LookupNowhere()
    ensures Lookup(Page, "nowhere").None?
  {
    PageOrder();
  }

  /** Opening "d1" without `focusFirst` lands on its text input, whatever
      had focus before. */
  lemma D1Opens(active: nat)
    ensures OpenFocus(D1, None, {}, active) == 3
  {
    assert FirstIn(D1.children, {}, active) == Some(Input1);
  }

  /** Opening "d2" without `focusFirst` lands on its button. */
  lemma D2Opens(active: nat)
    ensures OpenFocus(D2, None, {}, active) == 5
  {
    assert FirstIn(D2.children, {}, active) == Some(Button2);
  }

  /** Focus escaping "d1" to "btnA" while `lastFocus` is the input: the
      first descendant is the last focus, so the trap wraps to the last
      descendant, which is the same input. */
  lemma D1TrapsBtnA()
    ensures TrapStep(D1, {}, 1, 3, 1) == (3, 3)
  {
    PreOrderOne(D1);
    PreOrderOne(Input1);
    assert !Contains(D1, 1);
    assert FirstIn(D1.children, {}, 1) == Some(Input1);
    assert LastIn(D1.children, {}, 3) == Some(Input1);
  }

  /** A manager with "d1" open, its focus returning to "btnA" on close;
      focus has moved to the input of "d1". */
  method OpenD1() returns (m: Modals)
    ensures fresh(m) && fresh(m.host) && m.Valid()
    ensures m.host.doc == Page && m.host.refuses == {} && m.host.active == 3 && !m.host.ignoreFocus
    ensures |m.openDialogs| == 1 && m.trapInstalled && m.bodyMarked
    ensures m.openDialogs[0].dialogNode == D1 && m.openDialogs[0].focusAfterClosed == Some(1)
    ensures m.openDialogs[0].lastFocus == 3 && fresh(m.openDialogs[0])
  {
    m := NewManager();
    LookupD1();
    LookupBtnA();
    D1Opens(1);
    var r := m.NewDialog("d1", ById("btnA"), Undefined);
    assert r.Ok?;
  }

  /** Open "d1" returning focus to "btnA", then close it: focus goes to the
      input and comes back to the button, and the body marker is removed. */
  method OpenThenClose() returns (landed: nat, closed: Result<()>, back: nat, remaining: nat, marked: bool)
    ensures landed == 3 && closed == Ok(()) && back == 1 && remaining == 0 && !marked
  {
    var m := OpenD1();
    landed := m.host.active;
    closed := m.Close();
    back := m.host.active;
    remaining := |m.openDialogs|;
    marked := m.bodyMarked;
  }

  /** The constructor's three errors, in order: an unknown id, a node
      without the modal attribute, and a missing `focusAfterClosed`, which
      leaves the body marked although nothing opened. */
  method ConstructionErrors() returns (unknown: Result<Dialog>, plain: Result<Dialog>, missing: Result<Dialog>, openCount: nat, marked: bool)
    ensures unknown == Threw(NoElementWithId("nowhere"))
    ensures plain == Threw(NotADatimModal)
    ensures missing == Threw(FocusAfterClosedRequired)
    ensures openCount == 0 && marked
  {
    var m := NewManager();
    LookupNowhere();
    LookupPlain();
    LookupD1();
    unknown := m.NewDialog("nowhere", ById("btnA"), Undefined);
    plain := m.NewDialog("plain", ById("btnA"), Undefined);
    missing := m.NewDialog("d1", Undefined, Undefined);
    openCount := |m.openDialogs|;
    marked := m.bodyMarked;
  }

  /** Two stacked dialogs, "d1" over "btnA" and "d2" over the input of
      "d1"; returns the manager with the focus on the button of "d2". */
  method Stacked() returns (m: Modals)
    ensures fresh(m) && fresh(m.host) && m.Valid()
    ensures m.host.doc == Page && m.host.refuses == {} && m.host.active == 5 && !m.host.ignoreFocus
    ensures |m.openDialogs| == 2 && m.trapInstalled && m.bodyMarked
    ensures m.openDialogs[0].dialogNode == D1 && m.openDialogs[0].focusAfterClosed == Some(1)
    ensures m.openDialogs[1].dialogNode == D2 && m.openDialogs[1].focusAfterClosed == Some(3)
    ensures m.openDialogs[0].lastFocus == 3 && fresh(m.openDialogs[0]) && fresh(m.openDialogs[1])
  {
    m := OpenD1();
    LookupD2();
    D2Opens(3);
    var r2 := m.NewDialog("d2", Node(3), Undefined);
    assert r2.Ok?;
  }

  /** Closing the upper of two dialogs with `close` as written: focus does
      return to the input, but the call throws and no dialog is left
      listening for focus although "d1" is still open, so focus moved to
      "btnA" afterwards escapes "d1". */
  method StackedCloseAsWritten() returns (r: Result<()>, back: nat, remaining: nat, listening: bool, afterEvent: nat)
    ensures r == Threw(TypeError) && back == 3 && remaining == 1 && !listening && afterEvent == 1
  {
    var m := Stacked();
    r := m.CloseAsWritten();
    back := m.host.active;
    remaining := |m.openDialogs|;
    listening := m.trapInstalled;
    var _ := m.FocusEvent(1);
    afterEvent := m.host.active;
  }

  /** The same with the corrected `close`: "d1" gets the focus listener
      back, and focus moved to "btnA" is pulled back to its input. */
  method StackedClose() returns (r: Result<()>, back: nat, remaining: nat, listening: bool, afterEvent: nat)
    ensures r == Ok(()) && back == 3 && remaining == 1 && listening && afterEvent == 3
  {
    var m := Stacked();
    r := m.Close();
    back := m.host.active;
    remaining := |m.openDialogs|;
    listening := m.trapInstalled;
    D1TrapsBtnA();
    var _ := m.FocusEvent(1);
    afterEvent := m.host.active;
  }

  /** Escape over two stacked dialogs: the upper one is closed, but the
      close throws, so the handler throws before stopping propagation. */
  method StackedEscape() returns (r: Result<bool>, remaining: nat, listening: bool)
    ensures r == Threw(TypeError) && remaining == 1 && !listening
  {
    var m := Stacked();
    r := m.HandleEscape(ESC);
    remaining := |m.openDialogs|;
    listening := m.trapInstalled;
  }

  /** Replacing "d1" by "d2" without a new `focusAfterClosed`: the new
      dialog inherits "btnA" as its target and focus moves to its button. */
  method ReplaceInherits() returns (r: Result<Dialog>, target: Option<nat>, landed: nat, open: nat)
    ensures r.Ok? && target == Some(1) && landed == 5 && open == 1
  {
    var m := OpenD1();
    LookupD2();
    D2Opens(3);
    r := m.Replace("d2", Undefined, Undefined);
    target := if r.Ok? then r.value.focusAfterClosed else None;
    landed := m.host.active;
    open := |m.openDialogs|;
  }

  /** With "d1" open, focus moved to "btnA" is pulled back to the input. */
  method TrapPullsBack() returns (r: Result<()>, active: nat)
    ensures r == Ok(()) && active == 3
  {
    var m := OpenD1();
    D1TrapsBtnA();
    r := m.FocusEvent(1);
    active := m.host.active;
  }

  /** Enter leaves "d1" open; Escape closes it and stops propagation. */
  method EscapeCloses() returns (enter: Result<bool>, escape: Result<bool>, remaining: nat)
    ensures enter == Ok(false) && escape == Ok(true) && remaining == 0
  {
    var m := OpenD1();
    enter := m.HandleEscape(13);
    escape := m.HandleEscape(ESC);
    remaining := |m.openDialogs|;
  }
}
