# Directional focus navigation, modelled in Dafny

This project models the core of react-key-navigation: a focus-navigation engine for keyboard and remote-control interfaces. It has two parts:

- **The `Navigation` controller.** It maps arrow keys to directions and asks the focused leaf for the next focus. When focus moves it:
  - blurs the old path from the first index where the two paths differ, root to leaf (nothing when one path extends the other);
  - records in every container it leaves which child focus left through;
  - focuses the target;
  - swaps the current and the last focused paths.

  It also keeps a default focus target and a registry of components by id, with a counter for generated ids.
- **The horizontal traversal rule.** It decides the next focus for a direction in a horizontal list:
  - up and down are absorbed or bubbled to the parent;
  - left and right move to the neighbouring child, entering a container through its default focus, or bubble to the parent when there is no neighbour.

## How it is modelled

The tree of focusable components is an arena, `seq<Node>`, addressed by handles (module `FocusTree`):
- Each node holds its parent, its ordered children, its index in its parent, whether it is a container, its orientation, `remainInFocus`, whether it has `onWillMove` and `onEnterDown` handlers, and `lastFocusChild`.
- A parent's handle is smaller than its children's.
- `TreePath` (a node's `treePath`) is read off the parent chain.

Notifications to nodes are opaque calls in the source. Here they are entries in an event trace (`Events.Event`): the node's own `focus()` and `blur()`, and calls to `onWillMove` and `onEnterDown`.

The controller (module `Controller`) has two layers:
- **The value `NavState`** with one pure transition function per operation, such as `KeyDownState`, `FocusState` and `BlurState`. Lemmas state what each operation does. These functions are the specification.
- **The class `Navigation`**, whose fields are the controller's mutable fields. Each method is proved to leave its fields exactly as the matching transition function says. The two loops of `blur` are the methods `ChangeNode` (the first differing index) and `BlurFrom` (the blur-and-record loop). Both are proved against the functions `FirstDiff`, `RecordUpTo` and `Blurs`.

Operations that throw in the source return an error value and leave the state unchanged.

The base component `Focusable` and the `VerticalList` component are not part of this model. The calls made into them are modelled on these stated assumptions, not on verified source behaviour:
- `super.getNextFocus` asks the parent, passing this node's `indexInParent` and the same direction, and gives nothing at the root (`Traversal.Bubble`).
- `previousChild(i)` and `nextChild(i)` are child `i-1` and child `i+1`, or nothing out of range.
- `getDefaultFocus`:
  - a leaf resolves to itself;
  - a container descends into its `lastFocusChild` when that is a valid index, else into child 0;
  - a container without children resolves to nothing (`FocusTree.DefaultFocus`), and that nothing is `undefined`, not `null`.
- `getNextFocusFrom` on a leaf bubbles to its parent.
- A vertical list is the horizontal rule with up and down as its axis. A node without an orientation only bubbles.
- `isContainer` is a field of the node.

`Scenario` works one concrete tree: a vertical root over two horizontal lists of three leaves each. On it, moving down from the third leaf of the first list enters the second list. Moving back up then returns to the third leaf, because of the recorded `lastFocusChild`. Without that memory, the move would land on the first leaf.

### Behaviour worth noting

- **`blur` when one path extends the other.** `blur` does nothing whenever the two paths agree on every index they share. That includes the old path being a prefix of the new one, and the reverse. The code is followed here (src/Navigation.jsx:146-157); `BlurredSuffixSpec` states the condition in both directions.
- **A generated id can replace an existing entry.** A generated id `"focusable-" + n` is not checked against the registry. A component registered earlier under the same string by its caller is replaced. `AddComponentEffect` therefore promises only the new mapping in that case, not that the registry is otherwise unchanged.

## Model

| member | source | states |
|---|---|---|
| FocusTree.Last | src/Navigation.jsx:10 | `gLast`: the element it gives belongs to the (non-empty) sequence; the body is its last element |
| FocusTree.TreePath | src/Navigation.jsx:171-175 | the `treePath` of a node starts at a parentless root, has each node's parent as its predecessor, and ends at the node |
| FocusTree.TreePathAscending | src/Navigation.jsx:159-167 | handles strictly increase along a tree path, so the blur loop never visits a node twice |
| FocusTree.EntryIndex | src/Navigation.jsx:165-166 | the assumed re-entry index, the remembered `lastFocusChild` when it is a valid index and else 0, is a valid child index of a container with children |
| FocusTree.DefaultFocus | src/HorizontalList.jsx:26-28 | `getDefaultFocus` (assumed) resolves, when it resolves, to a leaf of the arena whose handle is at least the node's |
| FocusTree.DefaultFocusInSubtree | src/HorizontalList.jsx:26-28 | the default focus of a node lies in its subtree: the node's tree path is a prefix of the tree path of the leaf it resolves to |
| FocusTree.DefaultFocusThroughChild | src/Navigation.jsx:165-166 | a container whose `lastFocusChild` is a valid index resolves its default focus through that child |
| FocusTree.SameShapeStructure | src/Navigation.jsx:165-166 | writing only `lastFocusChild` keeps the arena well formed and keeps every tree path and every `treePath` |
| Traversal.RemainsInFocus | src/HorizontalList.jsx:6 | no contract; the body reads `remainInFocus` as false unless it is supplied and true |
| Traversal.ChildAt | src/HorizontalList.jsx:15-20 | a child is found exactly when the index is in range, and it is the child at that index |
| Traversal.PreviousChild | src/HorizontalList.jsx:17 | the assumed `previousChild(i)`: a child exactly when 1 <= i <= the number of children, and then child i-1 |
| Traversal.NextChild | src/HorizontalList.jsx:19 | the assumed `nextChild(i)`: a child exactly when -1 <= i < the number of children minus 1, and then child i+1 |
| Traversal.Bubble | src/HorizontalList.jsx:12 | delegation to the parent (assumed) yields nothing at a node without a parent; otherwise it is exactly the parent's answer for the same direction from this node's `indexInParent`; any result is a leaf of the arena |
| Traversal.NextFocus | src/HorizontalList.jsx:12 | `getNextFocus` dispatched on the node's orientation (a node without one only bubbles, assumed); any result is a leaf of the arena |
| Traversal.HorizontalNextFocus | src/HorizontalList.jsx:5-31 | the horizontal rule never yields a container or a handle outside the arena |
| Traversal.VerticalNextFocus | src/Navigation.jsx:64-69 | the assumed vertical rule of the root list yields only leaves of the arena |
| Traversal.NextFocusFrom | src/Navigation.jsx:131 | the next focus from the focused leaf is a leaf of the arena, if any |
| Traversal.HorizontalOffAxis | src/HorizontalList.jsx:6-12 | for up/down, a set `remainInFocus` yields nothing; an absent one counts as false; otherwise the result is exactly the parent's answer for the same direction from this node's `indexInParent`, and nothing at the root |
| Traversal.HorizontalOnAxis | src/HorizontalList.jsx:15-30 | left looks only at child i-1 and right only at child i+1; no such child bubbles (also with `remainInFocus` set); a container child yields its default focus; a leaf child is the answer |
| Traversal.HorizontalEntersContainer | src/HorizontalList.jsx:26-28 | a container sibling is never the answer; the answer lies inside that sibling, below the list |
| Traversal.LeftUndoesRight | src/HorizontalList.jsx:15-30 | between two leaf siblings, right from child i reaches child i+1 and left from there returns to child i |
| Traversal.NoWrapAround | src/HorizontalList.jsx:22-24 | at a parentless list, left from the first child and right from the last child find nothing |
| Events.Dispatch | src/Navigation.jsx:106-128 | exactly the four event names are known; `onfocus` and `onblur` always notify the node; `willmove` and `enter-down` call the handler only when the node has one; nothing is notified for another node |
| Keys.IsArrowKey | src/Navigation.jsx:75-78 | no contract; the body is membership in the four arrow codes of the case labels |
| Keys.DirectionFromKey | src/Navigation.jsx:11-16 | key codes 0x25, 0x26, 0x27, 0x28 map to left, up, right, down respectively, and no other code has a direction |
| FocusableIds.NatToString | src/Navigation.jsx:201 | the counter's decimal numeral is non-empty, all digits and without a leading zero |
| FocusableIds.AutoId | src/Navigation.jsx:201 | a generated id is "focusable-" followed by at least one character, all of them digits |
| FocusableIds.NatToStringRoundTrip | src/Navigation.jsx:201 | reading the numeral back gives the counter value |
| FocusableIds.AutoIdInjective | src/Navigation.jsx:201 | distinct counter values give distinct generated ids |
| PathDiff.FirstDiff | src/Navigation.jsx:144-153 | the index found is inside both paths |
| PathDiff.FirstDiffSpec | src/Navigation.jsx:144-157 | nothing is found exactly when the paths agree on every shared index; otherwise the paths differ at the index found and agree before it |
| PathDiff.BlurredSuffix | src/Navigation.jsx:155-161 | the nodes that lose focus form a suffix of the old path |
| PathDiff.BlurredSuffixSpec | src/Navigation.jsx:144-161 | the suffix is empty exactly when the paths agree on every shared index; otherwise it starts at the first index where they differ |
| PathDiff.Blurs | src/Navigation.jsx:159-160 | one blur notification per node |
| PathDiff.BlursSpec | src/Navigation.jsx:159-160 | the j-th notification blurs the j-th node, in root-to-leaf order |
| PathDiff.RecordUpTo | src/Navigation.jsx:159-167 | the loop's writes change only `lastFocusChild` |
| PathDiff.AfterBlur | src/Navigation.jsx:139-167 | the arena after `blur` differs from the old one only in `lastFocusChild` |
| PathDiff.RecordUpToWritten | src/Navigation.jsx:165-166 | a node visited at an index with a successor ends up remembering its successor's `indexInParent` |
| PathDiff.RecordUpToUntouched | src/Navigation.jsx:162-164 | a node that is never visited at an index with a successor is left as it was |
| PathDiff.RecordSuffixEffect | src/Navigation.jsx:159-167 | from index k to the node before the leaf, every node remembers its successor's index; the prefix, the leaf and every other node are unchanged |
| PathDiff.BlurMemory | src/Navigation.jsx:159-167 | every blurred node but the last remembers the `indexInParent` of the next node on the old path |
| PathDiff.BlurLeavesRest | src/Navigation.jsx:144-167 | with no differing index nothing changes; otherwise the common prefix, the old leaf and all non-blurred nodes keep their values |
| PathDiff.BlurResumesLastChild | src/Navigation.jsx:165-166 | every exited container but the last now resolves its default focus through the child focus left it by |
| Controller.MissingComponent | src/Navigation.jsx:210-212 | the message is the fixed opening sentence, then exactly the id, then the closing quote and "doesn't exist!" |
| Controller.Initial | src/Navigation.jsx:31-36 | the initial state has empty current and last paths, no direction, no default target, an empty registry, a zero counter and an empty trace, and is valid over a well-formed tree |
| Controller.BlurState | src/Navigation.jsx:139-167 | `blur` keeps the state valid, changes the arena only in `lastFocusChild`, and changes nothing but the arena and the trace |
| Controller.FocusState | src/Navigation.jsx:170-177 | after `focus(next)` the current path is `next`'s tree path, ending at `next`, and the last path is the old current path; the trace gains the blurs of the exited suffix, then the focus of `next`; the arena is exactly the arena after `blur` towards `next`'s tree path (`AfterBlur`, whose writes `BlurMemory` and `BlurLeavesRest` describe), so it changes only in `lastFocusChild`; no other field changes |
| Controller.FocusNextState | src/Navigation.jsx:130-137 | `focusNext` keeps the state valid |
| Controller.FireEventState | src/Navigation.jsx:106-128 | the result is true exactly for the four known events; an unknown event changes nothing; only the trace changes, by at most one notification, and only for the element |
| Controller.KeyDownState | src/Navigation.jsx:73-104 | a key press keeps the state valid, and the event is suppressed exactly for the four arrow keys |
| Controller.FocusDefaultState | src/Navigation.jsx:179-185 | a `focusDefault` that does not throw leaves a valid state |
| Controller.SetDefaultState | src/Navigation.jsx:187-193 | `setDefault` keeps the state valid |
| Controller.AddComponentState | src/Navigation.jsx:195-206 | `addComponent` keeps the state valid |
| Controller.ForceFocusState | src/Navigation.jsx:208-216 | a `forceFocus` that does not throw leaves a valid state |
| Controller.RemoveFocusableIdState | src/Navigation.jsx:218-222 | exactly the given id is removed, other ids keep their components, an absent id changes nothing, and no other field changes |
| Controller.LeavesAfterFocus | src/Navigation.jsx:170-177 | a state whose arena differs only in remembered children, whose current path ends at a leaf, whose last path is the old current path and whose default target is kept has its paths and target at leaves again |
| Controller.FocusKeepsFocusOnLeaves | src/Navigation.jsx:170-177 | focusing a leaf keeps both paths and the default target ending at leaves |
| Controller.KeyDownFocusesLeaves | src/Navigation.jsx:73-104 | key presses only ever focus leaves |
| Controller.FocusDefaultFocusesLeaves | src/Navigation.jsx:179-185 | `focusDefault` only ever focuses a leaf |
| Controller.ForceFocusFocusesLeaves | src/Navigation.jsx:208-216 | `forceFocus` only ever focuses a leaf |
| Controller.FocusDefaultEffect | src/Navigation.jsx:179-185 | an explicit default target is focused; with no default target the root's default focus is focused; it throws the no-target error exactly when the target is unresolved or the root resolves to nothing |
| Controller.SetDefaultEffect | src/Navigation.jsx:187-193 | a leaf component becomes its own default target; a container stores its default focus, or `Unresolved` when that is nothing; no other field changes |
| Controller.ForceFocusEffect | src/Navigation.jsx:208-216 | an unregistered id throws the missing-component error; a registered component's default focus is focused; a component that resolves to nothing throws the no-target error |
| Controller.SetDefaultTargetsLeaf | src/Navigation.jsx:187-193 | the default target is a leaf, and the component set as default lies on that leaf's tree path |
| Controller.FocusNextEffect | src/Navigation.jsx:130-137 | no next focus leaves the state entirely unchanged; otherwise the direction is recorded, the target's tree path becomes current and the old current path becomes the last one |
| Controller.KeyDownEffect | src/Navigation.jsx:74-102 | an arrow key moves from the current path when it is non-empty, else from the last path, else does nothing, and is suppressed; Enter with nothing focused does nothing, otherwise only the focused leaf gets `enter-down` and neither path changes; every other key does nothing |
| Controller.ModifierKeysIgnored | src/Navigation.jsx:97-102 | Alt, Control, Meta and Shift change nothing and are not suppressed |
| Controller.AddComponentEffect | src/Navigation.jsx:195-206 | a registered id is returned and changes nothing; a new non-empty id is registered as given; no id or the empty id registers "focusable-" plus the old counter, which advances by one; the returned id is always registered and it is the only key added |
| Controller.AddComponentIdempotent | src/Navigation.jsx:195-198 | registering twice under one id returns that id both times, and the second call changes nothing |
| Controller.GeneratedIdsDiffer | src/Navigation.jsx:200-202 | two generated ids in a row differ, and the counter advances by two |
| Controller.ForceFocusUnknownId | src/Navigation.jsx:209-213 | an unregistered id throws the missing-component message, before any blur or path change |
| Controller.ReentryResumesLastChild | src/Navigation.jsx:159-171 | after `focus(next)`, every exited container but the last resolves its default focus through the child focus left it by |
| Controller.ChangeNode | src/Navigation.jsx:144-153 | the first loop of `blur` computes the first index, below both lengths, at which the paths differ |
| Controller.BlurStateSteps | src/Navigation.jsx:155-167 | `blur` in closed form: nothing when no index differs, otherwise the memory writes and blurs from that index to the leaf |
| Controller.BlurFrom | src/Navigation.jsx:159-167 | the second loop of `blur` yields exactly the remembered-child writes and the root-to-leaf blurs of the suffix |
| Controller.Navigation.constructor | src/Navigation.jsx:29-37 | a controller starts with empty paths, no direction, no default target, an empty registry and a zero counter |
| Controller.Navigation.OnKeyDown | src/Navigation.jsx:73-104 | `_onKeyDown` moves the fields as `KeyDownState` says and reports suppression |
| Controller.Navigation.FireEvent | src/Navigation.jsx:106-128 | `fireEvent` moves the fields and returns its result as `FireEventState` says |
| Controller.Navigation.FocusNext | src/Navigation.jsx:130-137 | `focusNext` moves the fields as `FocusNextState` says |
| Controller.Navigation.Blur | src/Navigation.jsx:139-168 | `blur` moves the fields as `BlurState` says |
| Controller.Navigation.Focus | src/Navigation.jsx:170-177 | `focus` moves the fields as `FocusState` says |
| Controller.Navigation.FocusDefault | src/Navigation.jsx:179-185 | `focusDefault` either moves the fields as `FocusDefaultState` says, or reports its error and changes nothing |
| Controller.Navigation.SetDefault | src/Navigation.jsx:187-193 | `setDefault` moves the fields as `SetDefaultState` says |
| Controller.Navigation.AddComponent | src/Navigation.jsx:195-206 | `addComponent` moves the fields and returns the id as `AddComponentState` says |
| Controller.Navigation.ForceFocus | src/Navigation.jsx:208-216 | `forceFocus` either moves the fields as `ForceFocusState` says, or reports its error and changes nothing |
| Controller.Navigation.RemoveFocusableId | src/Navigation.jsx:218-222 | `removeFocusableId` moves the fields as `RemoveFocusableIdState` says |
| Scenario.MountResolvesToA | src/Navigation.jsx:183 | in the example tree, the root's default focus is the first leaf of the first list, with tree path root, list, leaf |
| Scenario.RightAlongH1 | src/HorizontalList.jsx:19-30 | in the example tree, right moves along the leaves of the first list |
| Scenario.RightBlockedAtC | src/HorizontalList.jsx:22-24 | right from the last leaf of the first list bubbles up and is blocked at the root |
| Scenario.DownEntersH2AtD | src/HorizontalList.jsx:8-12 | down from the first list bubbles to the vertical root, which enters the second list at its first leaf |
| Scenario.LeavingH1RemembersC | src/Navigation.jsx:159-167 | moving from the third leaf of the first list to the second list blurs the first list and then the leaf, and the first list remembers index 2 |
| Scenario.UpReturnsToC | src/Navigation.jsx:165-166 | with that memory, up from the second list returns to the third leaf of the first list |
| Scenario.UpWithoutMemoryLandsOnA | src/HorizontalList.jsx:26-28 | without the memory the same move lands on the first leaf |

## Left out

- Rendering and React context (`render`, `getChildContext`, `childContextTypes`): these are view glue with no navigation logic.
- Registering the window listener in `componentDidMount`, and its initial `focusDefault` call: this is host I/O. The initial call is still available as `FocusDefault`.
- `preventDefault` and `stopPropagation`: host calls, modelled only as the `suppressed` result of `OnKeyDown`.
- The bodies of `onWillMove` and `onEnterDown` handlers, the visual effect of a node's `focus()` and `blur()`, and the payload `evtProps`: these are foreign calls, recorded only as trace entries. Reentrant calls from a handler back into the controller are not modelled.
- The `root` reference set by React's ref callback: the root list is given to the constructor, so a controller used before mounting is not modelled.
- The `currentFocusedPath === null` guard of `blur`: it cannot be reached, because the field starts as `[]` and is only ever set to a tree path.
- JavaScript object semantics of the registry, which is a plain `{}` read with `[id]`. Three cases are not modelled:
  - a missing id keys the registry under the string "null";
  - registered components are assumed truthy;
  - inherited keys such as "toString", "constructor" and "__proto__" count as registered before anything is added. For such an id, `addComponent` returns it without registering anything, and `forceFocus` passes its check and then fails with a TypeError instead of the missing-component error.

  The registry is modelled as a `map<string, Handle>` that starts empty, so these ids are fresh. Ids are `Option<string>`, and "" is read as no id.
- JavaScript number formatting of the counter: it is modelled as the decimal numeral of a natural number, with no exponent form for huge values.
- Enter falls through to the modifier-key cases and the default case, which only `break`. This fall-through has no effect and is not modelled separately.
- Throwing on a missing focus target: `focus(undefined)` fails when it reads `treePath`, before anything changes. It is modelled as an error result with the single message `NO_FOCUS_TARGET`. This applies to `focusDefault`, and to `forceFocus` on a component that resolves to nothing. The JavaScript message text is not reproduced.
- `setDefault` on a container that resolves to nothing stores whatever `getDefaultFocus` returns (src/Navigation.jsx:189). The model assumes that value is `undefined` and calls it `Unresolved`. `focusDefault` then takes its first branch, because `undefined !== null`, and throws (src/Navigation.jsx:180-181). If the unseen `getDefaultFocus` returned `null` instead, `focusDefault` would fall back to the root's default focus (src/Navigation.jsx:180,183). `Controller.FocusDefaultEffect` rests on the `undefined` assumption.
- Controller.FocusNextState: its own contract states only that the state stays valid. What it does is stated by the lemma FocusNextEffect.
- Controller.KeyDownState: its own contract states validity and when the key is suppressed. What it does is stated by the lemma KeyDownEffect.
- Controller.FocusDefaultState: its own contract states only that a result that does not throw is valid. What it does is stated by the lemma FocusDefaultEffect.
- Controller.SetDefaultState: its own contract states only that the state stays valid. What it does is stated by the lemma SetDefaultEffect.
- Controller.AddComponentState: its own contract states only that the state stays valid. What it does is stated by the lemma AddComponentEffect.
- Controller.ForceFocusState: its own contract states only that a result that does not throw is valid. What it does is stated by the lemmas ForceFocusEffect and ForceFocusUnknownId.
- Controller.AddComponentEffect: it does not say that a generated id leaves an existing entry alone, because the source replaces a caller-registered entry with the same string.
- FocusTree.DefaultFocus: a node's own `defaultFocus` override, a designated descendant that would win over the remembered child and over child 0, is not modelled, since `Focusable.jsx`, which would apply it, is not part of this model. DefaultFocusThroughChild, BlurResumesLastChild, ReentryResumesLastChild and Scenario.UpReturnsToC therefore hold only for containers without such an override.
- `Focusable.jsx` and `VerticalList.jsx` are not part of this model. Their behaviour enters only through the assumptions listed above.
