# datim-modal focus manager in Dafny

A model of `datim-modal.js`, a small browser library for accessible modal
dialogs. The library:

- keeps a stack of open dialogs (`datimModals.OpenDialogList`);
- moves focus into a dialog when it opens and back to a chosen element when
  it closes;
- traps focus inside the top dialog with one capturing `focus` listener;
- closes the top dialog on Escape;
- exposes `openDialog`, `closeDialog` and `replaceDialog` to page code.

The model has four modules:

- `Dom` (dom.dfy): the document as an immutable tree of elements. It
  defines the two walks the focus searches follow, `node.contains`, and
  `document.getElementById`.
- `Utils` (utils.dfy): `isFocusable` and the focus oracle. `element.focus()`
  silently refuses a fixed set of nodes and otherwise makes the node active.
  The class `Host` holds the focus state: the active element, the
  `IgnoreUntilFocusChanges` flag, and the sentinel nodes dialogs insert.
  Its methods are `attemptFocus`, `focusFirstDescendant` and
  `focusLastDescendant`, as loops over the children.
- `Dialogs` (dialogs.dfy): the `Dialog` objects and the class `Modals`.
  `Modals` holds the open-dialog list, whether the shared focus listener is
  registered, and whether the body carries the `has-dialog` class. It
  models:
  - the constructor, as `NewDialog`;
  - `close`, both as written and corrected;
  - `replace` and `trapFocus`;
  - `getCurrentDialog`, `closeCurrentDialog` and `handleEscape`;
  - the three window entry points.
- `Scenarios` (scenarios.dfy): client runs on one concrete page. Each run's
  postcondition states what a caller observes.

Every listener registration adds the same prototype function
`Dialog.prototype.trapFocus`, so the registration is one boolean. The
invariant kept by every correct operation is that the listener is registered
exactly when a dialog is open (`Modals.ListenerOnTop`). Every operation,
the as-written ones included, keeps the weaker `Modals.Valid`: the sentinels
belong exactly to the open dialogs, the body is marked while one is open, no
focus attempt is under way between calls, and the listener is registered
only while some dialog is open. The listener itself, `Modals.TrapFocus`, may
run during a focus attempt and needs only the first two. Thrown exceptions
are modelled as a `Result` with the error that was thrown. The state changes
made before a throw are kept, as in JavaScript.

A focus change made by the user or the page is `Modals.FocusEvent`. It
reaches `trapFocus` only while the listener is registered. The entry points
`closeCurrentDialog`, `handleEscape` and `closeDialog` call `close` as the
code has it, including the defect at line 360 described under "## Findings".

Some edge behaviour of the code, which the model keeps:

- `isFocusable` ignores the `datim-modal` attribute: a container is
  focusable exactly when its own tab index, disabled flag and node name make
  it so. A `DIV` container is not, but a container whose node name is, say,
  `BUTTON` is.
- When the dialog has no `focusFirst` and nothing in it accepts focus,
  opening it leaves focus where it was, and the trap leaves escaped focus
  outside (`Dialogs.OpenFocusLands`, `Dialogs.TrapStaysPut`). A given
  `focusFirst` is focused directly.
- `handleEscape` acts on every keyup with code 27, whatever element the
  event comes from.
- A construction error raised after line 254 (a missing or unknown
  `focusAfterClosed`) leaves the body marked with `has-dialog`.

## Model

| member | source | states |
|---|---|---|
| Dom.Lookup | datim-modal.js:220-222 | `getElementById` returns the first node in document order carrying the id, or nothing exactly when no node carries it or the id is empty |
| Dom.FirstWithIdIsEarliest | datim-modal.js:220-222 | no node before the one the id search picks carries the id |
| Dom.Contains | datim-modal.js:410 | `node.contains(other)` holds when `other` is the node itself (and, by definition, for any node of its subtree) |
| Dom.SameNodes | datim-modal.js:122-151 | the left-to-right and the right-to-left walk visit the same nodes |
| Dom.PreOrderAppend | datim-modal.js:122-132 | the walk of two concatenated forests is the concatenation of their walks |
| Utils.IsFocusable | datim-modal.js:63-86 | a negative tab index or a disabled node is never focusable; links need an href and a rel other than "ignore"; inputs must not be hidden; buttons, selects and text areas qualify; every other node name is refused |
| Utils.FocusResult | datim-modal.js:105 | `focus()` either moves focus to the node or leaves it where it was, and it stays put only for a refused node |
| Utils.FirstIn | datim-modal.js:122-132 | the node `focusFirstDescendant` lands on is a descendant in the node-before-children walk and accepts focus |
| Utils.LastIn | datim-modal.js:141-151 | the node `focusLastDescendant` lands on is a descendant in the right-to-left walk and accepts focus |
| Utils.FirstAccepting | datim-modal.js:122-151 | reference search: nothing is found exactly when no node accepts focus, and a found node is in the sequence and accepts |
| Utils.FirstAcceptingIsEarliest | datim-modal.js:122-151 | every node before the found one refuses focus |
| Utils.FirstInIsPreOrderFirst | datim-modal.js:122-132 | `focusFirstDescendant` lands on the first accepting node of the left-to-right, node-before-children walk |
| Utils.LastInIsMirrorOrderFirst | datim-modal.js:141-151 | `focusLastDescendant` lands on the first accepting node of the right-to-left, node-before-children walk |
| Utils.FirstInFinds | datim-modal.js:122-132 | the forward search succeeds exactly when some descendant accepts focus, and it lands inside the node |
| Utils.LastInFinds | datim-modal.js:141-151 | the backward search succeeds under the same condition, and it lands inside the node |
| Utils.SearchesAgree | datim-modal.js:122-151 | the forward and backward searches agree on whether anything can take focus |
| Utils.Host.Focus | datim-modal.js:105 | the active element after `element.focus()` is as the oracle decides |
| Utils.Host.AttemptFocus | datim-modal.js:95-113 | the answer is "focusable and active afterwards"; the active element moves only on success; the ignore flag is cleared after any attempt on a focusable node, and is untouched otherwise |
| Utils.Host.FocusFirstDescendant | datim-modal.js:122-132 | the loop answers whether the forward search finds a node, and leaves focus on that node, or unchanged when there is none |
| Utils.Host.FocusLastDescendant | datim-modal.js:141-151 | the same for the backward loop and the backward search |
| Utils.Host.InsertSentinel | datim-modal.js:284-298 | a new node gets an identity unused by any node and joins the sentinels |
| Utils.Host.RemoveSentinel | datim-modal.js:348-349 | `Utils.remove` takes the node out of the document |
| Dialogs.ResolveFocusAfterClosed | datim-modal.js:258-269 | the call throws exactly for a missing argument, or an id naming no node, and throws the matching error; a node is stored as given, an id as the node `getElementById` finds; `null` is accepted and stored as no target |
| Dialogs.ResolveFocusFirst | datim-modal.js:273-279 | never fails; an unknown id, `null` or a missing argument all mean "no focusFirst"; a known id yields the node `getElementById` finds, that is the one `Lookup` returns, which carries the id |
| Dialogs.ConstructError | datim-modal.js:220-269 | the constructor succeeds exactly when the id names a `datim-modal` node and the focus target resolves; otherwise it throws the first failing check's error, in source order |
| Dialogs.OpenFocus | datim-modal.js:315-322 | after opening, focus is on `focusFirst` or where it was when `focusFirst` is given, and inside the dialog or where it was otherwise |
| Dialogs.OpenFocusLands | datim-modal.js:315-322 | without focusFirst, opening puts focus inside the dialog whenever something there accepts focus, and leaves it alone otherwise |
| Dialogs.TrapStep | datim-modal.js:409-417 | the trap never moves focus to a node outside the dialog, and after an escaped event `lastFocus` names the active element |
| Dialogs.TrapRedirectsInside | datim-modal.js:404-419 | an event inside the dialog only records its target; focus that escaped ends up on the recorded `lastFocus`, and lands inside whenever anything inside accepts focus |
| Dialogs.TrapStaysPut | datim-modal.js:413-417 | with nothing inside accepting focus, the trap leaves focus where it was |
| Dialogs.TrapWrapsToLast | datim-modal.js:413-416 | when the first descendant was already the last focus, the trap moves to the last descendant |
| Dialogs.Fallback | datim-modal.js:389 | a truthy new target is kept; otherwise the old one is used, and the result is a truthy target or `null`, `null` exactly when neither exists |
| Dialogs.ReplaceInheritsTarget | datim-modal.js:389 | with no truthy new target the successor inherits the old one and cannot fail on it; a truthy new target is resolved as given |
| Dialogs.SentinelsBelow | datim-modal.js:284-298 | every sentinel of a stack of dialogs lies below the stack's bound, and each dialog's pre node precedes its post node |
| Dialogs.TopDistinct | datim-modal.js:409-417 | the dialog the trap updates, the top one, is a different object from every dialog beneath it |
| Dialogs.PushOrdered | datim-modal.js:284-309 | pushing a dialog whose sentinels are newer than all others keeps the stack ordered and adds exactly its two sentinels |
| Dialogs.Modals.constructor | datim-modal.js:154 | the list starts empty, with no listener and an unmarked body |
| Dialogs.Modals.Current | datim-modal.js:159-165 | `getCurrentDialog` returns the last dialog of the list, or nothing for an empty list |
| Dialogs.Modals.NewDialog | datim-modal.js:218-323 | throws exactly what ConstructError names, leaving list, listener, focus and sentinels unchanged; the body is marked whenever the id names a modal; on success the new dialog is pushed with its resolved targets, the listener is registered, two fresh sentinels are added, and focus is where OpenFocus says |
| Dialogs.Modals.Activate | datim-modal.js:281-322 | a resolved dialog is pushed and takes focus as OpenFocus says |
| Dialogs.Modals.Push | datim-modal.js:281-309 | the dialog is appended with two fresh sentinels, and the single listener is registered |
| Dialogs.Modals.InitialFocus | datim-modal.js:315-322 | focus moves as OpenFocus says, and `lastFocus` records the active element |
| Dialogs.Modals.Teardown | datim-modal.js:344-349 | the top dialog is popped, the listener removed and both its sentinels leave the document |
| Dialogs.Modals.Close | datim-modal.js:342-364 | corrected close: pops the top, restores focus to its target, and re-registers the listener when a dialog remains, keeping ListenerOnTop; otherwise it unmarks the body; with no target (`null`) it throws a TypeError after the teardown |
| Dialogs.Modals.CloseAsWritten | datim-modal.js:342-364 | close as written: with another dialog underneath it always throws a TypeError after moving focus, and leaves that dialog without a listener |
| Dialogs.Modals.Replace | datim-modal.js:378-391 | tears down the top dialog, then constructs the new one with the inherited target; a failure leaves the list one shorter with no listener and focus unmoved; success keeps the list's length and ListenerOnTop, puts focus where OpenFocus says and records it as the new dialog's `lastFocus`; the body stays marked either way |
| Dialogs.Modals.TrapFocus | datim-modal.js:404-419 | ignored while a focus attempt runs; with no dialog open it throws; otherwise focus and the top dialog's `lastFocus` move as TrapStep says, and no other dialog changes |
| Dialogs.Modals.FocusEvent | datim-modal.js:395-419 | a focus change that the host refuses does nothing; one that takes effect leaves focus on the target when no listener is registered, and otherwise runs the trap on the open top dialog as TrapStep says, with the target as the active element; the manager's invariant is kept |
| Dialogs.Modals.CloseCurrentDialog | datim-modal.js:171-183 | false and nothing changed with no dialog open; otherwise it pops the top with `close` as written, removes its sentinels, moves focus to its target, leaves no listener, and answers true exactly when that was the only dialog and it had a target; otherwise it throws a TypeError, and the body stays marked exactly when it throws |
| Dialogs.Modals.HandleEscape | datim-modal.js:188-197 | only keyCode 27 does anything; propagation is stopped exactly when a single dialog with a target was open; with a dialog underneath the close as written throws a TypeError, which propagates, so propagation is never stopped; on Escape with a dialog open the top is popped with its sentinels, focus moves to its target if it has one, no listener is left, and the body stays marked exactly when the close threw |
| Dialogs.Modals.CloseDialog | datim-modal.js:425-430 | throws with no dialog open; closes the top dialog with `close` as written exactly when the button lies inside it, with the outcome CloseCurrentDialog describes |
| Dialogs.Modals.ReplaceDialog | datim-modal.js:432-437 | throws with no dialog open; replaces the top dialog exactly when focus lies inside it: on failure the error, the shortened list and the unchanged focus; on success the dialogs beneath are kept, and the new top dialog has the looked-up node, the inherited or new target and the resolved focusFirst, focus is where OpenFocus says and is recorded as its `lastFocus`; the body stays marked |
| Scenarios.OpenThenClose | datim-modal.js:218-364 | opening a dialog moves focus to its input; closing it returns focus to the opener, empties the list and unmarks the body |
| Scenarios.ConstructionErrors | datim-modal.js:220-269 | an unknown id, a node without the attribute and a missing target each throw their own error; the last one leaves the body marked with nothing open |
| Scenarios.StackedCloseAsWritten | datim-modal.js:355-360 | closing the upper of two dialogs as written throws a TypeError and leaves the remaining dialog without the listener, so focus moved outside it afterwards stays outside |
| Scenarios.StackedClose | datim-modal.js:355-360 | the corrected close returns focus and gives the remaining dialog its listener back, so focus moved outside it is pulled back |
| Scenarios.StackedEscape | datim-modal.js:188-197 | Escape over two stacked dialogs closes the upper one but throws, leaving no listener |
| Scenarios.ReplaceInherits | datim-modal.js:378-391 | a replacement without a target inherits the opener and focuses the new dialog's button |
| Scenarios.TrapPullsBack | datim-modal.js:404-419 | focus moved outside the open dialog is pulled back to its input |
| Scenarios.EscapeCloses | datim-modal.js:188-197 | Enter leaves the dialog open; Escape closes it and stops propagation |

## Left out

- Backdrop wrapping, the `active` class, `className` changes and the stylesheet classes (lines 234-250, 313, 351-353, 386-388): presentation only. A dialog node without a parent would throw at line 237; the model treats every dialog node as having one.
- `clearDialog` (lines 328-333): it only empties input values, which the model does not represent.
- `datimModals.KeyCodes`: only `ESC` (27) is used, and only it is modelled.
- `Utils.remove` (lines 27-44): both of its routes take the node out of the document, so the model removes the sentinel directly. Its `false` answer for a node with no parent cannot arise for the sentinels.
- Event dispatch: a focus change exists only as a call to `Modals.FocusEvent`, and a keyup only as a call to `Modals.HandleEscape`. The focus events fired by the direct `focus()` calls at lines 317 and 355 are not fed back into the trap. At line 317 this matters: the listener is already registered (line 307), so in the code a `focusFirst` lying outside the dialog is pulled inside by the trap, while `OpenFocus` and `Modals.NewDialog` leave focus on it. At line 355 nothing is lost, because the listener was removed at line 346.
- The catch at lines 103-108: `focus()` cannot throw in the model. A refusal is modelled by the oracle's `refuses` set.
- Arguments of other JavaScript types: a number or boolean given for `focusAfterClosed` is treated like a missing one, and the same for `focusFirst`. An object other than a node is not modelled.
- The document tree is fixed. Only the sentinels come and go, as a set of node identities. The sentinels are never the subject of a focus search.

## Findings

| source | as written | input that shows it | evidently intended | confidence | as-written member | corrected member |
|---|---|---|---|---|---|---|
| datim-modal.js:360 | `getCurrentDialog.addListeners()` reads `addListeners` off the function, not off the dialog it returns, so the call throws a TypeError | two stacked dialogs, then closing the upper one (Scenarios.StackedCloseAsWritten) | `getCurrentDialog().addListeners()`: the dialog left on top gets the focus trap back | not executed | Dialogs.Modals.CloseAsWritten | Dialogs.Modals.Close |

`CloseCurrentDialog`, `HandleEscape` and `CloseDialog` call the close as
written, because that is what the code runs. `Scenarios.StackedEscape` shows
the defect reaching the Escape handler. `Scenarios.StackedClose` shows the
intended behaviour of the corrected close.
