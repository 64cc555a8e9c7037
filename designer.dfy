/**
 * The designer's peers and the CardDesigner that owns them. A peer mirrors one
 * node of the card; the designer keeps the flat list of live peers, the single
 * selected peer, and the overlays attached to its design surface.
 *
 * The four callbacks initializePeer assigns to a peer always call the same
 * designer handlers, so a peer event is modelled as a direct call into the
 * designer: the isSelected setter of a wired peer calls SetSelectedPeer, which
 * in turn sets isSelected on the old and the new peer (SetPeerSelected and
 * SetSelectedPeer are mutually recursive, exactly as the setter and the handler).
 */
module Designer {
  import opened Registry
  import opened Document
  import opened PeerKinds

  /** No object appears twice. */
  ghost predicate Distinct<T>(s: seq<T>)
  {
    forall i, j :: 0 <= i < j < |s| ==> s[i] != s[j]
  }

  /** splice(indexOf(x), 1): drop the first occurrence of `x`. */
  function RemoveFirst<T(==)>(s: seq<T>, x: T): seq<T>
  {
    if s == [] then []
    else if s[0] == x then s[1..]
    else [s[0]] + RemoveFirst(s[1..], x)
  }

  /** Removing a present element from a list without duplicates drops it and only it. */
  lemma {:induction false} RemoveFirstDrops<T>(s: seq<T>, x: T)
    requires Distinct(s) && x in s
    ensures Distinct(RemoveFirst(s, x))
    ensures |RemoveFirst(s, x)| == |s| - 1
    ensures forall y :: y in RemoveFirst(s, x) <==> y in s && y != x
  {
    var tail := s[1..];
    assert Distinct(tail) by {
      forall i, j | 0 <= i < j < |tail| ensures tail[i] != tail[j] {
        assert tail[i] == s[i + 1] && tail[j] == s[j + 1];
      }
    }
    assert s[0] !in tail by {
      forall k | 0 <= k < |tail| ensures tail[k] != s[0] {
        assert tail[k] == s[k + 1];
      }
    }
    if s[0] != x {
      RemoveFirstDrops(tail, x);
      var r := RemoveFirst(s, x);
      assert r == [s[0]] + RemoveFirst(tail, x);
      forall i, j | 0 <= i < j < |r| ensures r[i] != r[j] {
        if i == 0 {
          assert r[j] in RemoveFirst(tail, x);
        } else {
          assert r[i] == RemoveFirst(tail, x)[i - 1] && r[j] == RemoveFirst(tail, x)[j - 1];
        }
      }
      assert forall y :: y in s <==> y == s[0] || y in tail;
    }
  }

  /** The non-null ones among two peer slots. */
  function Slots(a: Peer?, b: Peer?): set<Peer>
  {
    (if a == null then {} else {a}) + (if b == null then {} else {b})
  }

  /** What the host observes, in order. */
  datatype Event =
    | SelectedPeerChanged(peer: Peer?)  // onSelectedPeerChanged(selectedPeer)
    | CardRendered                      // renderCard: the card host is rebuilt
    | LayoutUpdated                     // updateLayout over every live peer

  /** `peers` are the peers the bindings give for `nodes`, one for one. */
  ghost predicate Mirrors(peers: seq<Peer>, nodes: seq<Node>, b: Bindings)
  {
    |peers| == |nodes| &&
    forall k :: 0 <= k < |peers| ==> peers[k].node == nodes[k] && peers[k].kind == PeerKindFor(nodes[k], b)
  }

  /** Peers mirroring two node lists, side by side, mirror the joined list. */
  lemma MirrorsAppend(a: seq<Peer>, x: seq<Node>, c: seq<Peer>, y: seq<Node>, b: Bindings)
    requires Mirrors(a, x, b) && Mirrors(c, y, b)
    ensures Mirrors(a + c, x + y, b)
  {
    assert forall k :: 0 <= k < |a| ==> (a + c)[k] == a[k] && (x + y)[k] == x[k];
    assert forall k :: |a| <= k < |a| + |c| ==> (a + c)[k] == c[k - |a|] && (x + y)[k] == y[k - |a|];
  }

  /** The peers of one more child extend the mirror of the children walked so far. */
  lemma MirrorsNextChild(added: seq<Peer>, child: seq<Peer>, es: seq<Element>, j: nat, pc: bool, b: Bindings)
    requires j < |es|
    requires Mirrors(added, WalkItems(es[..j], pc), b) && Mirrors(child, Walk(es[j], pc), b)
    ensures Mirrors(added + child, WalkItems(es[..j + 1], pc), b)
  {
    WalkItemsStep(es, j, pc);
    MirrorsAppend(added, WalkItems(es[..j], pc), child, Walk(es[j], pc), b);
  }

  /** The card (root element) the designer edits. */
  class Card {
    const root: Element

    constructor (root: Element)
      ensures this.root == root
    {
      this.root := root;
    }
  }

  /**
   * A designer peer. `rendered` says render() has created its overlay (and, for
   * an element peer, its separator overlay); `wired` says initializePeer has
   * assigned its callbacks; `separator` is the separator overlay's visibility.
   * The private selection and hover flags start out undefined: `selectionSet`
   * and `hoverSet` say a setter has assigned them, and until then the getters
   * read as false (`isSelected`, `isMouseOver`).
   */
  class Peer {
    const designer: CardDesigner
    const kind: PeerKind
    const node: Node
    var isSelected: bool
    var isMouseOver: bool
    var selectionSet: bool
    var hoverSet: bool
    var rendered: bool
    var wired: bool
    var separator: Visibility

    constructor (designer: CardDesigner, kind: PeerKind, node: Node)
      ensures this.designer == designer && this.kind == kind && this.node == node
      ensures !isSelected && !isMouseOver && !selectionSet && !hoverSet
      ensures !rendered && !wired && separator == Hidden
    {
      this.designer := designer;
      this.kind := kind;
      this.node := node;
      isSelected := false;
      isMouseOver := false;
      selectionSet := false;
      hoverSet := false;
      rendered := false;
      wired := false;
      separator := Hidden;
    }

    /** A rendered element peer shows its separator as its spacing, selection and hover say. */
    ghost predicate Consistent()
      reads this
    {
      rendered && node.ElementNode? ==>
        separator == SeparatorVisibility(node.spacing, isSelected, isMouseOver)
    }

    /**
     * updateLayout. Overlay geometry is not modelled; an element peer recomputes
     * its separator's visibility. Before render there is no overlay and the call
     * changes nothing.
     */
    method UpdateLayout()
      modifies this`separator
      ensures Consistent()
      ensures !rendered ==> separator == old(separator)
      ensures old(Consistent()) ==> separator == old(separator)
    {
      if rendered && node.ElementNode? {
        separator := SeparatorVisibility(node.spacing, isSelected, isMouseOver);
      }
    }

    /**
     * updateLayout as CardElementPeer writes it: the separator line runs even
     * when render has not yet created the separator element, and then throws.
     */
    method UpdateLayoutAsWritten() returns (threw: bool)
      modifies this`separator
      ensures threw <==> node.ElementNode? && !rendered
      ensures !threw ==> Consistent()
    {
      threw := false;
      if node.ElementNode? {
        if !rendered {
          threw := true;
        } else {
          separator := SeparatorVisibility(node.spacing, isSelected, isMouseOver);
        }
      }
    }

    /** render: create the overlay (separator hidden), then run a layout pass. */
    method Render()
      modifies this`rendered, this`separator
      ensures rendered && Consistent()
    {
      rendered := true;
      separator := Hidden;
      UpdateLayout();
    }

    /** The setters' test `value != flag`: an undefined flag differs from both values. */
    predicate HoverChanges(value: bool)
      reads this
    {
      !hoverSet || value != isMouseOver
    }

    predicate SelectionChanges(value: bool)
      reads this
    {
      !selectionSet || value != isSelected
    }

    /**
     * The isMouseOver setter: only a different value, or the first value while
     * the flag is undefined, updates the flag and the layout.
     */
    method SetIsMouseOver(value: bool)
      modifies this`isMouseOver, this`hoverSet, this`separator
      ensures isMouseOver == value && hoverSet
      ensures !old(HoverChanges(value)) ==> separator == old(separator)
      ensures old(HoverChanges(value)) || old(Consistent()) ==> Consistent()
    {
      if HoverChanges(value) {
        isMouseOver := value;
        hoverSet := true;
        UpdateLayout();
      }
    }

    /**
     * The isSelected setter without its callback: only a different value, or the
     * first value while the flag is undefined, updates the flag, the styles and
     * the layout; `notify` says onSelectedChanged fires, which needs the callback
     * to have been assigned.
     */
    method SetIsSelected(value: bool) returns (notify: bool)
      requires rendered
      modifies this`isSelected, this`selectionSet, this`separator
      ensures isSelected == value && selectionSet
      ensures notify <==> old(SelectionChanges(value)) && wired
      ensures !old(SelectionChanges(value)) ==> separator == old(separator)
      ensures old(SelectionChanges(value)) || old(Consistent()) ==> Consistent()
    {
      notify := false;
      if SelectionChanges(value) {
        isSelected := value;
        selectionSet := true;
        UpdateLayout();
        notify := wired;
      }
    }
  }

  /** The designer: the card, the live peers, the selection and the design surface. */
  class CardDesigner {
    const elementRegistry: PeerRegistry<ElementType, ElementPeerType>
    const actionRegistry: PeerRegistry<ActionType, ActionPeerType>
    var card: Card?
    var items: seq<Peer>
    var selected: Peer?
    var surface: seq<Peer>
    var log: seq<Event>

    /** A peer initializePeer has finished with: wired to this designer and rendered. */
    ghost predicate Wired(p: Peer)
      reads p
    {
      p.designer == this && p.wired && p.rendered && p.Consistent()
    }

    /** The designer's invariant apart from the design surface. */
    ghost predicate Core()
      reads this, items
    {
      Distinct(items) &&
      (selected == null || selected in items) &&
      forall p :: p in items ==> Wired(p) && (p.isSelected <==> p == selected)
    }

    /**
     * The selected peer is null or live, exactly the selected peer has isSelected
     * set, and the surface holds the overlays of exactly the live peers.
     */
    ghost predicate Valid()
      reads this, items
    {
      Core() && surface == items
    }

    /** No two live peers are selected at once. */
    lemma AtMostOneSelected(p: Peer, q: Peer)
      requires Core() && p in items && q in items && p.isSelected && q.isSelected
      ensures p == q
    {
    }

    /** The registries' bindings and fallbacks as they are now. */
    ghost function CurrentBindings(): Bindings
      reads elementRegistry, actionRegistry
    {
      Bindings(elementRegistry.items, elementRegistry.fallback, actionRegistry.items, actionRegistry.fallback)
    }

    constructor (
      elementRegistry: PeerRegistry<ElementType, ElementPeerType>,
      actionRegistry: PeerRegistry<ActionType, ActionPeerType>)
      ensures this.elementRegistry == elementRegistry && this.actionRegistry == actionRegistry
      ensures Valid() && card == null && items == [] && selected == null && log == []
    {
      this.elementRegistry := elementRegistry;
      this.actionRegistry := actionRegistry;
      card := null;
      items := [];
      selected := null;
      surface := [];
      log := [];
    }

    /**
     * setSelectedPeer: nothing when `value` is already selected; otherwise clear
     * the old peer's isSelected, take `value`, set its isSelected, and notify once.
     * The nested calls that the two isSelected assignments make through
     * onSelectedChanged find their argument already selected and do nothing.
     */
    method SetSelectedPeer(value: Peer?)
      requires value != null ==> value.designer == this && value.rendered
      requires selected != null ==> selected.designer == this && selected.rendered
      modifies this`selected, this`log
      modifies Slots(selected, value)`isSelected, Slots(selected, value)`selectionSet, Slots(selected, value)`separator
      decreases if value == selected then 0 else 1, 0
      ensures selected == value
      ensures value == old(selected) ==> log == old(log)
      ensures value == old(selected) && value != null ==>
        value.isSelected == old(value.isSelected) && value.selectionSet == old(value.selectionSet) &&
        value.separator == old(value.separator)
      ensures value != old(selected) ==> log == old(log) + [SelectedPeerChanged(value)]
      ensures value != old(selected) && old(selected) != null ==> !old(selected).isSelected
      ensures value != old(selected) && value != null ==> value.isSelected && value.selectionSet
      ensures forall p :: p in Slots(old(selected), value) && old(p.Consistent()) ==> p.Consistent()
    {
      if value != selected {
        if selected != null {
          SetPeerSelected(selected, false);
        }
        selected := value;
        if selected != null {
          SetPeerSelected(selected, true);
        }
        log := log + [SelectedPeerChanged(selected)];
      }
    }

    /**
     * `p.isSelected = value` on a peer whose callbacks go to this designer: the
     * setter, then, when it fires and the callback is wired, setSelectedPeer(p).
     * On a wired peer whose flag is still undefined even `false` fires, and the
     * peer ends up selected.
     */
    method SetPeerSelected(p: Peer, value: bool)
      requires p.designer == this && p.rendered
      requires selected != null ==> selected.designer == this && selected.rendered
      modifies this`selected, this`log
      modifies Slots(selected, p)`isSelected, Slots(selected, p)`selectionSet, Slots(selected, p)`separator
      decreases if p == selected then 0 else 1, 1
      ensures p.selectionSet
      ensures if old(p.SelectionChanges(value)) && p.wired && p != old(selected) then
          selected == p && p.isSelected && log == old(log) + [SelectedPeerChanged(p)] &&
          (old(selected) != null ==> !old(selected).isSelected)
        else
          selected == old(selected) && p.isSelected == value && log == old(log) &&
          (old(selected) != null && old(selected) != p ==>
             old(selected).isSelected == old(selected.isSelected) &&
             old(selected).separator == old(selected.separator))
      ensures forall q :: q in Slots(old(selected), p) && old(q.Consistent()) ==> q.Consistent()
      ensures old(p.SelectionChanges(value)) ==> p.Consistent()
    {
      var notify := p.SetIsSelected(value);
      if notify {
        SetSelectedPeer(p);
      }
    }

    /** A click on a live peer's overlay: `isSelected = true`. */
    method PeerClicked(p: Peer)
      requires Valid() && p in items
      modifies this`selected, this`log, items`isSelected, items`selectionSet, items`separator
      ensures Valid() && items == old(items)
      ensures selected == p
      ensures log == old(log) + (if old(selected) == p then [] else [SelectedPeerChanged(p)])
    {
      SetPeerSelected(p, true);
    }

    /** The mouse entering (`value`) or leaving a live peer's overlay. */
    method PeerMouseOver(p: Peer, value: bool)
      requires Valid() && p in items
      modifies p`isMouseOver, p`hoverSet, p`separator
      ensures Valid()
      ensures p.isMouseOver == value
    {
      p.SetIsMouseOver(value);
    }

    /** renderCard: the rendering engine rebuilds the card host. */
    method RenderCard()
      modifies this`log
      ensures log == old(log) + [CardRendered]
    {
      log := log + [CardRendered];
    }

    /** updateLayout: a layout pass over every live peer, which leaves consistent peers as they are. */
    method UpdateLayout()
      requires Valid()
      modifies this`log, items`separator
      ensures Valid()
      ensures log == old(log) + [LayoutUpdated]
      ensures forall p :: p in items ==> p.separator == old(p.separator)
    {
      for i := 0 to |items|
        invariant Valid() && log == old(log)
        invariant forall p :: p in items ==> p.separator == old(p.separator)
      {
        items[i].UpdateLayout();
      }
      log := log + [LayoutUpdated];
    }

    /** peerChanged: re-render the card, then refresh every overlay. */
    method PeerChanged(p: Peer)
      requires Valid()
      modifies this`log, items`separator
      ensures Valid()
      ensures log == old(log) + [CardRendered, LayoutUpdated]
    {
      RenderCard();
      UpdateLayout();
    }

    /**
     * initializePeer: append the peer to the live list, assign its callbacks,
     * render it, and attach its overlays to the design surface.
     */
    method InitializePeer(p: Peer)
      requires p.designer == this && !p.wired && p !in items
      modifies this`items, this`surface, p`wired, p`rendered, p`separator
      ensures items == old(items) + [p] && surface == old(surface) + [p]
      ensures Wired(p)
    {
      items := items + [p];
      p.wired := true;
      p.Render();
      surface := surface + [p];
    }

    /**
     * While render builds peers: the live peers are distinct, all on the
     * surface, all wired, and none selected.
     */
    ghost predicate Building()
      reads this, items
    {
      Distinct(items) && surface == items && forall p :: p in items ==> Wired(p) && !p.isSelected
    }

    /** initializePeer on a new, unselected peer keeps the building state. */
    method InitializeNewPeer(p: Peer)
      requires Building() && p.designer == this && !p.wired && !p.isSelected && p !in items
      modifies this`items, this`surface, p`wired, p`rendered, p`separator
      ensures Building() && items == old(items) + [p]
    {
      InitializePeer(p);
      assert forall q :: q in items ==> q == p || q in old(items);
    }

    /**
     * renderPeer: a peer for the element, one for each attached action, then,
     * for an element container, the peers of each child in turn. `added` names
     * the new peers it appends.
     */
    method RenderPeer(e: Element, parentIsContainer: bool) returns (ghost added: seq<Peer>)
      requires Building()
      modifies this`items, this`surface
      decreases e, 2
      ensures Building() && items == old(items) + added
      ensures Mirrors(added, Walk(e, parentIsContainer), CurrentBindings())
      ensures forall p :: p in added ==> fresh(p)
    {
      var head := ElementNode(e.kind, e.spacing, e.isContainer, parentIsContainer);
      var elementPeer := elementRegistry.CreatePeerInstance(e.kind);
      var peer := new Peer(this, ForElement(elementPeer), head);
      ghost var items0 := items;
      InitializeNewPeer(peer);
      var rest := RenderContents(e);
      added := [peer] + rest;
      assert items0 + [peer] + rest == items0 + added;
      MirrorsAppend([peer], [head], rest, WalkBelow(e), CurrentBindings());
    }

    /** The peers renderPeer builds after the element's own: its actions', then its children's. */
    method RenderContents(e: Element) returns (ghost added: seq<Peer>)
      requires Building()
      modifies this`items, this`surface
      decreases e, 1
      ensures Building() && items == old(items) + added
      ensures Mirrors(added, WalkBelow(e), CurrentBindings())
      ensures forall p :: p in added ==> fresh(p)
    {
      added := RenderActions(e.actions);
      if e.isElementContainer {
        var children := RenderChildren(e.items, e.isContainer);
        MirrorsAppend(added, ActionNodes(e.actions), children, WalkItems(e.items, e.isContainer), CurrentBindings());
        assert old(items) + added + children == old(items) + (added + children);
        added := added + children;
      } else {
        assert ActionNodes(e.actions) + [] == ActionNodes(e.actions);
      }
    }

    /** The action loop of renderPeer: one action peer per attached action, in order. */
    method RenderActions(actions: seq<ActionType>) returns (ghost added: seq<Peer>)
      requires Building()
      modifies this`items, this`surface
      ensures Building() && items == old(items) + added
      ensures Mirrors(added, ActionNodes(actions), CurrentBindings())
      ensures forall p :: p in added ==> fresh(p)
    {
      added := [];
      for i := 0 to |actions|
        invariant Building() && items == old(items) + added
        invariant Mirrors(added, ActionNodes(actions[..i]), CurrentBindings())
        invariant forall p :: p in added ==> fresh(p)
      {
        var actionPeer := actionRegistry.CreatePeerInstance(actions[i]);
        var p := new Peer(this, ForAction(actionPeer), ActionNode(actions[i]));
        InitializeNewPeer(p);
        assert ActionNodes(actions[..i + 1]) == ActionNodes(actions[..i]) + [ActionNode(actions[i])];
        MirrorsAppend(added, ActionNodes(actions[..i]), [p], [ActionNode(actions[i])], CurrentBindings());
        assert old(items) + added + [p] == old(items) + (added + [p]);
        added := added + [p];
      }
      assert actions[..|actions|] == actions;
    }

    /** The child loop of renderPeer: the peers of each child element, child after child. */
    method RenderChildren(es: seq<Element>, parentIsContainer: bool) returns (ghost added: seq<Peer>)
      requires Building()
      modifies this`items, this`surface
      decreases es, 0
      ensures Building() && items == old(items) + added
      ensures Mirrors(added, WalkItems(es, parentIsContainer), CurrentBindings())
      ensures forall p :: p in added ==> fresh(p)
    {
      added := [];
      ghost var b := CurrentBindings();
      for j := 0 to |es|
        invariant Building() && items == old(items) + added
        invariant Mirrors(added, WalkItems(es[..j], parentIsContainer), b)
        invariant forall p :: p in added ==> fresh(p)
      {
        var child := RenderPeer(es[j], parentIsContainer);
        MirrorsNextChild(added, child, es, j, parentIsContainer, b);
        assert old(items) + added + child == old(items) + (added + child);
        added := added + child;
      }
      assert es[..|es|] == es;
    }

    /**
     * render: empty the surface and the live list, clear the selection, re-render
     * the card and, when there is one, build its peers by the tree walk.
     */
    method Render()
      requires Valid()
      modifies this`items, this`surface, this`selected, this`log, items`isSelected, items`selectionSet, items`separator
      ensures Valid() && selected == null
      ensures log == old(log) + (if old(selected) != null then [SelectedPeerChanged(null)] else []) + [CardRendered]
      ensures old(selected) != null ==> !old(selected).isSelected
      ensures card == null ==> items == []
      ensures card != null ==> Mirrors(items, Walk(card.root, false), CurrentBindings())
      ensures card != null && WellFormed(card.root) ==>
        |items| == ElementCount(card.root) + ActionCount(card.root)
      ensures forall p :: p in items ==> fresh(p)
    {
      DetachPeers();
      RenderCard();
      if card != null {
        ghost var added := RenderPeer(card.root, false);
        if WellFormed(card.root) {
          WalkSize(card.root, false);
        }
      }
    }

    /** The first half of render: empty the surface and the live list, then clear the selection. */
    method DetachPeers()
      requires Valid()
      modifies this`items, this`surface, this`selected, this`log, items`isSelected, items`selectionSet, items`separator
      ensures Valid() && items == [] && selected == null
      ensures log == old(log) + (if old(selected) != null then [SelectedPeerChanged(null)] else [])
      ensures old(selected) != null ==> !old(selected).isSelected
    {
      surface := [];
      items := [];
      SetSelectedPeer(null);
    }

    /** The card setter: a different card replaces the current one and re-renders. */
    method SetCard(value: Card?)
      requires Valid()
      modifies this`card, this`items, this`surface, this`selected, this`log, items`isSelected, items`selectionSet, items`separator
      ensures Valid() && card == value
      ensures value == old(card) ==> items == old(items) && selected == old(selected) && log == old(log)
      ensures value != old(card) ==>
        selected == null &&
        log == old(log) + (if old(selected) != null then [SelectedPeerChanged(null)] else []) + [CardRendered] &&
        (value == null ==> items == []) &&
        (value != null ==> Mirrors(items, Walk(value.root, false), CurrentBindings()))
    {
      if value != card {
        card := value;
        Render();
      }
    }

    /**
     * peerRemoved: evict the peer from the live list, clear the selection if it
     * held it, re-render the card and refresh every overlay. The peer's overlays
     * have already left the surface.
     */
    method PeerRemoved(p: Peer)
      requires Core() && p in items && surface == RemoveFirst(items, p)
      modifies this`items, this`selected, this`log, items`isSelected, items`selectionSet, items`separator
      ensures Valid()
      ensures items == RemoveFirst(old(items), p) && p !in items
      ensures selected == if old(selected) == p then null else old(selected)
      ensures log == old(log) + (if old(selected) == p then [SelectedPeerChanged(null)] else []) +
                    [CardRendered, LayoutUpdated]
      ensures old(selected) == p ==> !p.isSelected
    {
      RemoveFirstDrops(items, p);
      items := RemoveFirst(items, p);
      if p == selected {
        SetSelectedPeer(null);
      }
      RenderCard();
      assert forall i :: 0 <= i < |items| ==> items[i] in old(items);
      UpdateLayout();
    }

    /**
     * remove on a live peer: `nodeRemoved` is what the object model's own remove
     * answers. On failure nothing changes; on success the peer's overlays leave
     * the surface and peerRemoved runs.
     */
    method RemovePeer(p: Peer, nodeRemoved: bool) returns (removed: bool)
      requires Valid() && p in items
      modifies this`items, this`surface, this`selected, this`log, items`isSelected, items`selectionSet, items`separator
      ensures Valid()
      ensures removed == nodeRemoved
      ensures !removed ==> items == old(items) && selected == old(selected) && log == old(log)
      ensures removed ==>
        items == RemoveFirst(old(items), p) && p !in items &&
        selected == (if old(selected) == p then null else old(selected)) &&
        log == old(log) + (if old(selected) == p then [SelectedPeerChanged(null)] else []) +
               [CardRendered, LayoutUpdated]
    {
      removed := nodeRemoved;
      if removed {
        surface := RemoveFirst(surface, p);
        PeerRemoved(p);
      }
    }

    /** removeSelected: remove the selected peer; nothing when there is none. */
    method RemoveSelected(nodeRemoved: bool)
      requires Valid()
      modifies this`items, this`surface, this`selected, this`log, items`isSelected, items`selectionSet, items`separator
      ensures Valid()
      ensures old(selected) == null || !nodeRemoved ==>
        items == old(items) && selected == old(selected) && log == old(log)
      ensures old(selected) != null && nodeRemoved ==>
        items == RemoveFirst<Peer>(old(items), old(selected)) && old(selected) !in items && selected == null &&
        log == old(log) + [SelectedPeerChanged(null), CardRendered, LayoutUpdated]
    {
      if selected != null {
        var removed := RemovePeer(selected, nodeRemoved);
        if removed {
          assert log == old(log) + [SelectedPeerChanged(null), CardRendered, LayoutUpdated];
        }
      }
    }

    /**
     * newPeerCreated: onChanged (re-render and refresh), then onNewPeerCreated,
     * whose handler initializes the new peer and selects it. Both callbacks are
     * tested first: a sender no designer has wired reaches no handler and nothing
     * changes. Neither handler reads the sender, so a wired sender from before a
     * re-render is handled like a live one. A sender wired by another designer
     * reports to that designer, not to this one.
     */
    method NewPeerCreated(sender: Peer, newPeer: Peer)
      requires Valid() && (sender.wired ==> sender.designer == this)
      requires newPeer.designer == this && !newPeer.wired && !newPeer.isSelected && newPeer !in items
      modifies this`items, this`surface, this`selected, this`log, items`isSelected, items`selectionSet, items`separator
      modifies newPeer`wired, newPeer`rendered, newPeer`isSelected, newPeer`selectionSet, newPeer`separator
      ensures Valid()
      ensures !sender.wired ==> items == old(items) && selected == old(selected) && log == old(log)
      ensures sender.wired ==>
        items == old(items) + [newPeer] && selected == newPeer && newPeer.isSelected &&
        log == old(log) + [CardRendered, LayoutUpdated, SelectedPeerChanged(newPeer)] &&
        (old(selected) != null ==> !old(selected).isSelected)
    {
      if sender.wired {
        PeerChanged(sender);
        InitializePeer(newPeer);
        SetPeerSelected(newPeer, true);
      }
    }

    /**
     * The tail of a creating command: the registry picks the new node's peer
     * class, and the sender reports the new peer.
     */
    method AddPeerFor(sender: Peer, n: Node)
      requires Valid() && (sender.wired ==> sender.designer == this)
      modifies this`items, this`surface, this`selected, this`log, items`isSelected, items`selectionSet, items`separator
      ensures Valid()
      ensures !sender.wired ==> items == old(items) && selected == old(selected) && log == old(log)
      ensures sender.wired ==>
        |items| == old(|items|) + 1 && items[..old(|items|)] == old(items) &&
        selected == items[old(|items|)] && fresh(selected) &&
        selected.node == n && selected.kind == PeerKindFor(n, CurrentBindings()) &&
        log == old(log) + [CardRendered, LayoutUpdated, SelectedPeerChanged(selected)]
    {
      var kind: PeerKind;
      if n.ElementNode? {
        var elementPeer := elementRegistry.CreatePeerInstance(n.kind);
        kind := ForElement(elementPeer);
      } else {
        var actionPeer := actionRegistry.CreatePeerInstance(n.action);
        kind := ForAction(actionPeer);
      }
      var newPeer := new Peer(this, kind, n);
      NewPeerCreated(sender, newPeer);
    }

    /**
     * Runs one of the commands a peer offers. Remove removes the peer, which
     * must be live; every other command has the object model add a node (not
     * modelled) and reports a new, selected peer for it, which reaches this
     * designer only when the sender is wired.
     */
    method ExecuteCommand(sender: Peer, c: Command, nodeRemoved: bool)
      requires Valid() && (c == Remove ==> sender in items) && (sender.wired ==> sender.designer == this)
      requires c in Commands(sender.kind, ParentIsContainer(sender.node))
      modifies this`items, this`surface, this`selected, this`log, items`isSelected, items`selectionSet, items`separator
      ensures Valid()
      ensures c == Remove && !nodeRemoved ==>
        items == old(items) && selected == old(selected) && log == old(log)
      ensures c == Remove && nodeRemoved ==>
        items == RemoveFirst(old(items), sender) && sender !in items &&
        selected == (if old(selected) == sender then null else old(selected)) &&
        log == old(log) + (if old(selected) == sender then [SelectedPeerChanged(null)] else []) +
               [CardRendered, LayoutUpdated]
      ensures c != Remove && !sender.wired ==>
        items == old(items) && selected == old(selected) && log == old(log)
      ensures c != Remove && sender.wired ==>
        |items| == old(|items|) + 1 && items[..old(|items|)] == old(items) &&
        selected == items[old(|items|)] && fresh(selected) &&
        selected.node == CreatedNode(c, sender.node) &&
        selected.kind == PeerKindFor(selected.node, CurrentBindings()) &&
        log == old(log) + [CardRendered, LayoutUpdated, SelectedPeerChanged(selected)]
    {
      if c == Remove {
        var _ := RemovePeer(sender, nodeRemoved);
      } else if c == InsertTextBlockAfter {
        InsertAfterGuard(sender.kind, ParentIsContainer(sender.node));
        if ParentIsContainer(sender.node) {
          AddPeerFor(sender, CreatedNode(c, sender.node));
        }
      } else {
        AddPeerFor(sender, CreatedNode(c, sender.node));
      }
    }
  }

  /** With the model's corrected layout pass, a peer that was never rendered is left alone. */
  method UpdateLayoutBeforeRender(d: CardDesigner) returns (separatorKept: bool)
    ensures separatorKept
  {
    var p := new Peer(d, ForElement(CardElementPeer), ElementNode(TextBlock, Spacing.Default, false, true));
    p.UpdateLayout();
    separatorKept := p.separator == Hidden;
  }

  /** As written, the same call on the same fresh element peer throws. */
  method UpdateLayoutBeforeRenderAsWritten(d: CardDesigner) returns (threw: bool)
    ensures threw
  {
    var p := new Peer(d, ForElement(CardElementPeer), ElementNode(TextBlock, Spacing.Default, false, true));
    threw := p.UpdateLayoutAsWritten();
  }
}
