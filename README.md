# Adaptive Cards designer: peer machinery

A Dafny model of the peer machinery of the Adaptive Cards web designer
(`card-designer.ts`). The designer lays a *peer* over every element and every
action of the card it edits. A peer holds the selection and hover flags, offers
the commands for its node, and reports selection, changes, removal and newly
created peers to the `CardDesigner`. The designer keeps the flat list of live
peers and the one selected peer. It rebuilds the peers by walking the card's
element tree. Two registries pick the peer class for each element class and
each action class.

Modules:

- `Registry`: the peer registry (`DesignerPeerRegistry`) as a class over an
  ordered `seq` of (source type, peer type) bindings. It comes with the
  functions that specify lookup, registration and unregistration, and lemmas
  about them.
- `Document`: the element tree as the designer reads it, and `Walk`, the
  depth-first pre-order that `renderPeer` visits (element, then its actions,
  then its children).
- `PeerKinds`: the peer classes, the default bindings of the two concrete
  registries, the command list each peer offers, separator visibility, and the
  height choice mapping.
- `Designer`: the `Peer` class (`DesignerPeer` with its `CardElementPeer` and
  `ActionPeer` variants) and the `CardDesigner` class.

The four callbacks that `initializePeer` assigns always call the same designer
handlers. So a peer event is modelled as a direct call into the designer.
Setting `isSelected` on a wired peer calls `setSelectedPeer(sender)` again. That
nested call is modelled literally: `SetPeerSelected` and `SetSelectedPeer` call
each other. Their contracts prove that the nested call changes nothing, because
its argument is already the selected peer. The designer's `log` records the
calls to `onSelectedPeerChanged`, card re-renders and layout passes, in order.
`Valid()` is the designer's invariant:

- the peer list has no duplicates;
- the selected peer is null or live;
- exactly the selected peer has `isSelected` set;
- every live peer is wired, rendered and shows the separator its state calls for;
- the design surface holds exactly the live peers' overlays.

## Model

| member | source | states |
|---|---|---|
| Registry.IndexOf | source/nodejs/adaptivecards-designer/src/card-designer.ts:768-776 | the first binding whose source type equals `s` exactly, or -1 exactly when no binding has it |
| Registry.PeerRegistry.FindTypeRegistration | source/nodejs/adaptivecards-designer/src/card-designer.ts:768-776 | the loop's answer is the first exact match, or -1 when there is none |
| Registry.PeerRegistry.Clear | source/nodejs/adaptivecards-designer/src/card-designer.ts:784-786 | the binding list becomes empty |
| Registry.PeerRegistry.RegisterPeer | source/nodejs/adaptivecards-designer/src/card-designer.ts:788-802 | the new list is `Registered(old list)`, and source types stay pairwise distinct |
| Registry.RegisterShape | source/nodejs/adaptivecards-designer/src/card-designer.ts:788-802 | registering a bound type overwrites it in place (same length, other bindings untouched); an unbound type gets exactly one appended binding |
| Registry.RegisterUnbound | source/nodejs/adaptivecards-designer/src/card-designer.ts:796-801 | a type without a binding is appended at the end |
| Registry.RegisterKeepsUnique | source/nodejs/adaptivecards-designer/src/card-designer.ts:788-802 | registering keeps source types pairwise distinct |
| Registry.RegisterLookup | source/nodejs/adaptivecards-designer/src/card-designer.ts:788-802 | after registering, `s` looks up to `p` and every other type looks up as before |
| Registry.PeerRegistry.UnregisterPeer | source/nodejs/adaptivecards-designer/src/card-designer.ts:804-812 | the loop splices out the first binding for `s` (the list is `Unregistered(old list)`) and keeps the types distinct |
| Registry.UnregisterKeepsOrder | source/nodejs/adaptivecards-designer/src/card-designer.ts:804-812 | in a registry without duplicates, unregistering equals the reference filter `Without`: only the bindings of `s` go, the rest keep their order |
| Registry.Without | source/nodejs/adaptivecards-designer/src/card-designer.ts:804-812 | the reference filter keeps exactly the bindings whose type is not `s` |
| Registry.WithoutUnbound | source/nodejs/adaptivecards-designer/src/card-designer.ts:804-812 | the reference filter leaves a list without bindings for `s` unchanged |
| Registry.UnregisterAbsent | source/nodejs/adaptivecards-designer/src/card-designer.ts:804-812 | unregistering an unbound type changes nothing |
| Registry.UnregisterLookup | source/nodejs/adaptivecards-designer/src/card-designer.ts:804-812 | after unregistering, `s` resolves to the fallback and every other type keeps its binding |
| Registry.UnregisterKeepsUnique | source/nodejs/adaptivecards-designer/src/card-designer.ts:804-812 | unregistering keeps source types pairwise distinct |
| Registry.PeerRegistry.CreatePeerInstance | source/nodejs/adaptivecards-designer/src/card-designer.ts:828-832 | a bound type gets its bound peer type, an unbound one gets the fallback; it never fails |
| Registry.LookupFirst | source/nodejs/adaptivecards-designer/src/card-designer.ts:768-776 | the scan stops at the first binding of a type: a binding with no earlier one of its type is the one found |
| Registry.LookupFindsBinding | source/nodejs/adaptivecards-designer/src/card-designer.ts:768-776 | the exact-type scan finds every binding of a registry without duplicates |
| Registry.ResolveUnbound | source/nodejs/adaptivecards-designer/src/card-designer.ts:828-832 | a type without a binding resolves to the fallback |
| PeerKinds.ResetCardElementPeerRegistry | source/nodejs/adaptivecards-designer/src/card-designer.ts:816-826 | after reset the element registry holds exactly the seven default bindings, in order, without duplicates |
| PeerKinds.ResetActionPeerRegistry | source/nodejs/adaptivecards-designer/src/card-designer.ts:836-840 | after reset the action registry is empty |
| PeerKinds.NewCardElementPeerRegistry | source/nodejs/adaptivecards-designer/src/card-designer.ts:778-780 | a new element registry falls back to CardElementPeer and holds the seven defaults |
| PeerKinds.NewActionPeerRegistry | source/nodejs/adaptivecards-designer/src/card-designer.ts:778-780 | a new action registry falls back to ActionPeer and is empty |
| PeerKinds.DefaultsUnique | source/nodejs/adaptivecards-designer/src/card-designer.ts:816-826 | the seven default bindings bind seven distinct element classes |
| PeerKinds.DefaultElementBindings | source/nodejs/adaptivecards-designer/src/card-designer.ts:816-832 | with the defaults, each of the seven element classes gets the peer class reset binds to it |
| PeerKinds.DefaultElementFallback | source/nodejs/adaptivecards-designer/src/card-designer.ts:828-832 | with the defaults, any other element class gets CardElementPeer |
| PeerKinds.Commands | source/nodejs/adaptivecards-designer/src/card-designer.ts:130-136 | getCommands: the base "Remove" (66-73) comes first in every list and appears once, before the insert-after command (283-299) and the peer class's own commands (448-600) |
| PeerKinds.InsertAfterGuard | source/nodejs/adaptivecards-designer/src/card-designer.ts:283-299 | "Insert TextBlox after" is offered exactly to element peers whose parent is a Container |
| PeerKinds.CommandNamesDistinct | source/nodejs/adaptivecards-designer/src/card-designer.ts:448-600 | no peer offers two commands with the same name |
| PeerKinds.SeparatorVisibility | source/nodejs/adaptivecards-designer/src/card-designer.ts:417 | hidden when spacing is None; otherwise visible exactly when selected or hovered |
| PeerKinds.HeightFromChoice | source/nodejs/adaptivecards-designer/src/card-designer.ts:368 | the written-back height is auto exactly when the choice is "auto" |
| PeerKinds.HeightChoiceRoundTrip | source/nodejs/adaptivecards-designer/src/card-designer.ts:362-369 | each offered height choice writes back the height it stands for |
| PeerKinds.CreatedNode | source/nodejs/adaptivecards-designer/src/card-designer.ts:440-600 | the add-action commands create action nodes and the other creating commands create element nodes |
| Document.ActionNodes | source/nodejs/adaptivecards-designer/src/card-designer.ts:919-923 | one action node per attached action, in order |
| Document.WalkSize | source/nodejs/adaptivecards-designer/src/card-designer.ts:914-930 | the walk visits as many nodes as the tree has elements plus attached actions |
| Document.WalkItemsSize | source/nodejs/adaptivecards-designer/src/card-designer.ts:925-929 | the same count for a list of children |
| Document.WalkItemsStep | source/nodejs/adaptivecards-designer/src/card-designer.ts:925-929 | walking one more child appends that child's walk |
| Document.TwoChildrenOneAction | source/nodejs/adaptivecards-designer/src/card-designer.ts:914-930 | a card with two children, one of which has an action, gets four peers |
| Designer.RemoveFirstDrops | source/nodejs/adaptivecards-designer/src/card-designer.ts:889 | splicing out a present peer from a list without duplicates removes it and only it |
| Designer.Peer.constructor | source/nodejs/adaptivecards-designer/src/card-designer.ts:126-128 | a new peer has its selection and hover flags undefined (reading as false), is not rendered and not wired |
| Designer.Peer.UpdateLayout | source/nodejs/adaptivecards-designer/src/card-designer.ts:405-418 | a layout pass makes the separator agree with spacing, selection and hover; before render it changes nothing; a consistent peer is left as it is |
| Designer.Peer.UpdateLayoutAsWritten | source/nodejs/adaptivecards-designer/src/card-designer.ts:405-418 | as written, the pass throws exactly for an element peer that is not rendered |
| Designer.Peer.Render | source/nodejs/adaptivecards-designer/src/card-designer.ts:152-155 | after render the peer is rendered and its separator agrees with its state |
| Designer.Peer.SetIsMouseOver | source/nodejs/adaptivecards-designer/src/card-designer.ts:53-59 | the flag takes the value; a value equal to an already assigned flag leaves the separator as it was; any other value recomputes it by line 417 |
| Designer.Peer.SetIsSelected | source/nodejs/adaptivecards-designer/src/card-designer.ts:193-204 | the flag takes the value; the callback fires exactly when the value differs from the flag, or the flag is still undefined, and a callback is assigned; otherwise nothing else changes |
| Designer.CardDesigner.constructor | source/nodejs/adaptivecards-designer/src/card-designer.ts:942-966 | a new designer has no card, no peers, no selection and an empty surface |
| Designer.CardDesigner.SetSelectedPeer | source/nodejs/adaptivecards-designer/src/card-designer.ts:859-875 | the same value changes nothing; otherwise the old peer is deselected, the new one selected, and the observer is told once |
| Designer.CardDesigner.SetPeerSelected | source/nodejs/adaptivecards-designer/src/card-designer.ts:193-204 | when the setter fires on a wired peer that is not selected (a new value, or any value while the flag is undefined) the designer selects it and notifies once; otherwise only the flag changes and nothing is notified |
| Designer.CardDesigner.AtMostOneSelected | source/nodejs/adaptivecards-designer/src/card-designer.ts:859-875 | under the designer's invariant no two live peers are selected |
| Designer.CardDesigner.PeerClicked | source/nodejs/adaptivecards-designer/src/card-designer.ts:77-78 | a click selects the peer, keeps the invariant, and notifies unless the peer was already selected |
| Designer.CardDesigner.PeerMouseOver | source/nodejs/adaptivecards-designer/src/card-designer.ts:88-89 | entering or leaving sets the hover flag and keeps the invariant |
| Designer.CardDesigner.RenderCard | source/nodejs/adaptivecards-designer/src/card-designer.ts:932-938 | one card re-render is recorded |
| Designer.CardDesigner.UpdateLayout | source/nodejs/adaptivecards-designer/src/card-designer.ts:983-987 | a pass over every live peer keeps the invariant and leaves every separator as it was |
| Designer.CardDesigner.PeerChanged | source/nodejs/adaptivecards-designer/src/card-designer.ts:883-886 | a change re-renders the card, then runs a layout pass |
| Designer.CardDesigner.InitializePeer | source/nodejs/adaptivecards-designer/src/card-designer.ts:899-912 | the peer is appended to the live list and the surface, wired and rendered |
| Designer.CardDesigner.InitializeNewPeer | source/nodejs/adaptivecards-designer/src/card-designer.ts:899-912 | initializing a new peer while the peers are rebuilt appends it to the live list and the surface, wired and unselected |
| Designer.CardDesigner.RenderPeer | source/nodejs/adaptivecards-designer/src/card-designer.ts:914-930 | while the peers are rebuilt (live list and surface agree, every peer wired and unselected), the new peers are fresh, appended after the old ones, and mirror the element's walk one for one with the registries' peer classes |
| Designer.CardDesigner.RenderContents | source/nodejs/adaptivecards-designer/src/card-designer.ts:919-929 | the peers after the element's own mirror its actions, then its children's walks |
| Designer.CardDesigner.RenderActions | source/nodejs/adaptivecards-designer/src/card-designer.ts:919-923 | one fresh action peer per attached action, in order |
| Designer.CardDesigner.RenderChildren | source/nodejs/adaptivecards-designer/src/card-designer.ts:925-929 | the peers of each child, child after child |
| Designer.CardDesigner.DetachPeers | source/nodejs/adaptivecards-designer/src/card-designer.ts:970-974 | the surface and the live list are emptied and the selection cleared, notifying once when there was one |
| Designer.CardDesigner.Render | source/nodejs/adaptivecards-designer/src/card-designer.ts:970-981 | selection cleared and old peers dropped; the live peers mirror the card's walk and number its elements plus its actions; the invariant holds |
| Designer.CardDesigner.SetCard | source/nodejs/adaptivecards-designer/src/card-designer.ts:1003-1009 | the same card changes nothing; a different card is rendered afresh |
| Designer.CardDesigner.PeerRemoved | source/nodejs/adaptivecards-designer/src/card-designer.ts:888-897 | the peer leaves the live list; the selection is cleared exactly when the peer held it; then a re-render and a layout pass |
| Designer.CardDesigner.RemovePeer | source/nodejs/adaptivecards-designer/src/card-designer.ts:138-150 | the result is the node removal's result; on failure nothing changes; on success the peer leaves the surface and the live list |
| Designer.CardDesigner.RemoveSelected | source/nodejs/adaptivecards-designer/src/card-designer.ts:989-993 | without a selection nothing happens; otherwise the selected peer is removed and the selection cleared |
| Designer.CardDesigner.NewPeerCreated | source/nodejs/adaptivecards-designer/src/card-designer.ts:105-111 | from a wired sender: re-render and layout pass first, then the new peer is appended, wired and becomes the one selected peer; from an unwired sender the callback guards let nothing change |
| Designer.CardDesigner.AddPeerFor | source/nodejs/adaptivecards-designer/src/card-designer.ts:272-566 | the tail of insertElementAfter (272-281), the add-inside commands (457-461, 506-510, 527-530, 548-551) and addAction (440-446, 560-566): from a wired sender the new node's peer gets the class its registry gives, is appended and becomes selected; from an unwired sender nothing changes |
| Designer.CardDesigner.ExecuteCommand | source/nodejs/adaptivecards-designer/src/card-designer.ts:283-299 | Remove removes the peer with its selection and log effects, or changes nothing when the node stays; every other offered command re-renders and refreshes once, then appends a new peer for the node it creates and selects it with one notification, when the sender is wired; otherwise nothing changes |
| Designer.UpdateLayoutBeforeRender | source/nodejs/adaptivecards-designer/src/card-designer.ts:405-418 | with the guarded layout pass, a fresh element peer's separator is untouched |
| Designer.UpdateLayoutBeforeRenderAsWritten | source/nodejs/adaptivecards-designer/src/card-designer.ts:417 | as written, the layout pass on a fresh element peer throws |

## Left out

- DOM and geometry: overlay elements, CSS classes, bounding boxes and pixel
  offsets (lines 74-90, 92-103, 157-166, 405-416) are browser I/O. A peer keeps
  only `rendered` (the overlay exists) and the separator's visibility. The
  design surface is the sequence of peers whose overlays are attached.
- Property sheets (`addLabelAndInput`, `addPropertySheetEntries`,
  `buildPropertySheetCard`) build widgets of the rendering library. Only the
  height mapping at line 368 is kept.
- The `maxLines` handler of the TextBlock property sheet is not modelled.
- Operations of the rendering library's object model (`remove`, `addItem`,
  `insertItemAfter`, `addAction`, `card.render`) are foreign calls. Node removal
  is the boolean parameter `nodeRemoved`. The element tree is not updated after
  a command, and the card's root is fixed once the card is built. `instanceof
  Container` and `instanceof CardElementContainer` are the data fields
  `isContainer` and `isElementContainer`.
- Designer.CardDesigner.PeerRemoved: requires the peer to be live. For an
  absent peer the source's `splice(indexOf(peer), 1)` drops the last peer
  instead.
- Designer.CardDesigner.RemovePeer: requires a live peer. A host can keep a peer
  from before a re-render and run its Remove command; the source then reaches
  peerRemoved with an absent peer, the case the PeerRemoved line above leaves
  out.
- Designer.Peer.SetIsSelected: requires a rendered peer. Before render the
  source's `updateCssStyles` (lines 94-97 and 258-261) reads the missing
  overlay and throws after the flag is assigned; the designer sets the flag
  only on peers that initializePeer has rendered.
- Designer.CardDesigner.SetPeerSelected: requires a rendered peer, for the same
  pre-render throw in `updateCssStyles`.
- Designer.CardDesigner.NewPeerCreated: a sender wired by another designer is
  excluded; its callbacks update that designer, not this one.
- Designer.CardDesigner.AddPeerFor: the same exclusion of a sender wired by
  another designer.
- Designer.CardDesigner.ExecuteCommand: the same exclusion of a sender wired by
  another designer.
- Designer.CardDesigner.ExecuteCommand: custom peer classes registered by a host
  are given the base CardElementPeer commands. New nodes get the object model's
  default spacing and a parent taken from the sender.
- Designer.CardDesigner.SetSelectedPeer: the observer `onSelectedPeerChanged`
  is assumed to be set. Each call is a `SelectedPeerChanged` entry in the log.
- Badge text, `getJsonTypeName` and the `IPeerCommand.execute` closures are not
  modelled; a command is a datatype value run by `ExecuteCommand`.
- The two static registries are constructor parameters of the designer, not
  process-wide globals. Peers created before a later `registerPeer` keep the
  class they were given.
- `constants.ts` holds only a sample card payload. The UWP renderer wrappers
  and the C++ `Util.h` declaration are not part of this model.

## Findings

| source | as written | input that shows it | evidently intended | confidence | as-written member | corrected member |
|---|---|---|---|---|---|---|
| source/nodejs/adaptivecards-designer/src/card-designer.ts:417 | `CardElementPeer.updateLayout` sets the separator overlay's visibility without checking that the overlay exists, although line 408 guards the same overlay | a new CardElementPeer (or any element peer) whose `updateLayout()` runs before `render()`: the separator element is undefined and the assignment throws | like the base guard at line 158, a layout pass before render does nothing | not executed | Designer.UpdateLayoutBeforeRenderAsWritten | Designer.UpdateLayoutBeforeRender |
