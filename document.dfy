/**
 * The card's element tree as the designer sees it, and the order in which the
 * designer's tree walk (renderPeer) visits it. The tree belongs to the
 * rendering library's object model; only what the walk reads is kept.
 */
module Document {

  /** Element classes; OtherElement stands for any class with no default peer binding. */
  datatype ElementType =
    | AdaptiveCard | Container | TextBlock | Image | ActionSet | ColumnSet | Column
    | OtherElement(name: string)

  /** Action classes; the three named ones are those the designer's commands create. */
  datatype ActionType = OpenUrlAction | ShowCardAction | HttpAction | OtherAction(name: string)

  datatype Spacing = None | Small | Default | Medium | Large | ExtraLarge | Padding

  /**
   * One content element. `isContainer` says the element is an Adaptive.Container
   * (what the insert-after command tests of a parent); `isElementContainer` says it
   * is an Adaptive.CardElementContainer (what the tree walk tests before visiting
   * `items`). Both are facts of the object model's class hierarchy.
   */
  datatype Element = Element(
    kind: ElementType,
    spacing: Spacing,
    isContainer: bool,
    isElementContainer: bool,
    actions: seq<ActionType>,
    items: seq<Element>)

  /** Only element containers have child elements. */
  predicate WellFormed(e: Element)
  {
    (e.isElementContainer || e.items == []) &&
    forall i :: 0 <= i < |e.items| ==> WellFormed(e.items[i])
  }

  /** The node one peer wraps, with what the peer reads of it and of its parent. */
  datatype Node =
    | ElementNode(kind: ElementType, spacing: Spacing, isContainer: bool, parentIsContainer: bool)
    | ActionNode(action: ActionType)

  function ActionNodes(actions: seq<ActionType>): (r: seq<Node>)
    ensures |r| == |actions|
    ensures forall i :: 0 <= i < |r| ==> r[i] == ActionNode(actions[i])
  {
    seq(|actions|, i requires 0 <= i < |actions| => ActionNode(actions[i]))
  }

  /**
   * The nodes the walk visits, in order: the element, then each attached action,
   * then (for an element container) the walk of each child in turn.
   */
  function Walk(e: Element, parentIsContainer: bool): seq<Node>
    decreases e, 1
  {
    [ElementNode(e.kind, e.spacing, e.isContainer, parentIsContainer)] + WalkBelow(e)
  }

  /** What the walk visits after the element itself. */
  function WalkBelow(e: Element): seq<Node>
    decreases e, 0
  {
    ActionNodes(e.actions) + (if e.isElementContainer then WalkItems(e.items, e.isContainer) else [])
  }

  function WalkItems(es: seq<Element>, parentIsContainer: bool): seq<Node>
    decreases es, 2
  {
    if es == [] then []
    else WalkItems(es[..|es| - 1], parentIsContainer) + Walk(es[|es| - 1], parentIsContainer)
  }

  /** Number of content elements in the tree. */
  function ElementCount(e: Element): nat
  {
    1 + ElementCountItems(e.items)
  }

  function ElementCountItems(es: seq<Element>): nat
  {
    if es == [] then 0 else ElementCountItems(es[..|es| - 1]) + ElementCount(es[|es| - 1])
  }

  /** Number of actions attached to elements of the tree. */
  function ActionCount(e: Element): nat
  {
    |e.actions| + ActionCountItems(e.items)
  }

  function ActionCountItems(es: seq<Element>): nat
  {
    if es == [] then 0 else ActionCountItems(es[..|es| - 1]) + ActionCount(es[|es| - 1])
  }

  /** The walk visits exactly one node per element and one per attached action. */
  lemma {:induction false} WalkSize(e: Element, parentIsContainer: bool)
    requires WellFormed(e)
    ensures |Walk(e, parentIsContainer)| == ElementCount(e) + ActionCount(e)
  {
    if e.isElementContainer {
      WalkItemsSize(e.items, e.isContainer);
    }
  }

  lemma {:induction false} WalkItemsSize(es: seq<Element>, parentIsContainer: bool)
    requires forall i :: 0 <= i < |es| ==> WellFormed(es[i])
    ensures |WalkItems(es, parentIsContainer)| == ElementCountItems(es) + ActionCountItems(es)
  {
    if es != [] {
      WalkItemsSize(es[..|es| - 1], parentIsContainer);
      WalkSize(es[|es| - 1], parentIsContainer);
    }
  }

  /** Walking one more child appends that child's walk. */
  lemma WalkItemsStep(es: seq<Element>, j: nat, parentIsContainer: bool)
    requires j < |es|
    ensures WalkItems(es[..j + 1], parentIsContainer) ==
            WalkItems(es[..j], parentIsContainer) + Walk(es[j], parentIsContainer)
  {
    assert es[..j + 1][..j] == es[..j];
  }

  /**
   * A card whose body holds two elements, the first carrying one action, gives
   * four peers: the card, the two elements and the action.
   */
  lemma TwoChildrenOneAction(first: Element, second: Element, root: Element)
    requires first.actions == [OpenUrlAction] && first.items == [] && second.actions == [] && second.items == []
    requires root.kind == AdaptiveCard && root.isElementContainer && root.actions == []
    requires root.items == [first, second]
    ensures |Walk(root, false)| == 4
  {
    assert WellFormed(root) by {
      assert WellFormed(first) && WellFormed(second);
    }
    WalkSize(root, false);
    var es := [first, second];
    assert es[..1] == [first] && es[..1][..0] == [];
    assert ElementCount(first) == 1 && ElementCount(second) == 1;
    assert ActionCount(first) == 1 && ActionCount(second) == 0;
    assert ElementCountItems(es[..1]) == 1 && ActionCountItems(es[..1]) == 1;
  }
}
