/**
 * The peer classes of the designer, the default bindings of the two registries,
 * the command list each peer offers, and the small values a peer derives from
 * its state (separator visibility, the height choice).
 */
module PeerKinds {
  import opened Registry
  import opened Document

  /** Peer classes for content elements; CardElementPeer is the fallback. */
  datatype ElementPeerType =
    | ContainerPeer | AdaptiveCardPeer | TextBlockPeer | ImagePeer | ActionSetPeer
    | ColumnSetPeer | ColumnPeer | CardElementPeer
    | CustomElementPeer(name: string)

  /** Peer classes for actions; ActionPeer is the fallback. */
  datatype ActionPeerType = ActionPeer | CustomActionPeer(name: string)

  datatype PeerKind = ForElement(elementPeer: ElementPeerType) | ForAction(actionPeer: ActionPeerType)

  /** The bindings CardElementPeerRegistry.reset registers, in its order. */
  function CardElementDefaults(): seq<(ElementType, ElementPeerType)>
  {
    [(Container, ContainerPeer), (AdaptiveCard, AdaptiveCardPeer), (TextBlock, TextBlockPeer),
     (Image, ImagePeer), (ActionSet, ActionSetPeer), (ColumnSet, ColumnSetPeer), (Column, ColumnPeer)]
  }

  /** CardElementPeerRegistry.reset: clear, then bind the seven element classes. */
  method ResetCardElementPeerRegistry(r: PeerRegistry<ElementType, ElementPeerType>)
    modifies r
    ensures r.items == CardElementDefaults() && r.Valid()
  {
    r.Clear();
    RegisterUnbound(r.items, Container, ContainerPeer);
    r.RegisterPeer(Container, ContainerPeer);
    RegisterUnbound(r.items, AdaptiveCard, AdaptiveCardPeer);
    r.RegisterPeer(AdaptiveCard, AdaptiveCardPeer);
    RegisterUnbound(r.items, TextBlock, TextBlockPeer);
    r.RegisterPeer(TextBlock, TextBlockPeer);
    RegisterUnbound(r.items, Image, ImagePeer);
    r.RegisterPeer(Image, ImagePeer);
    RegisterUnbound(r.items, ActionSet, ActionSetPeer);
    r.RegisterPeer(ActionSet, ActionSetPeer);
    RegisterUnbound(r.items, ColumnSet, ColumnSetPeer);
    r.RegisterPeer(ColumnSet, ColumnSetPeer);
    RegisterUnbound(r.items, Column, ColumnPeer);
    r.RegisterPeer(Column, ColumnPeer);
  }

  /** ActionPeerRegistry.reset: clear; no default bindings. */
  method ResetActionPeerRegistry(r: PeerRegistry<ActionType, ActionPeerType>)
    modifies r
    ensures r.items == [] && r.Valid()
  {
    r.Clear();
  }

  /** new CardElementPeerRegistry(): the constructor runs reset. */
  method NewCardElementPeerRegistry() returns (r: PeerRegistry<ElementType, ElementPeerType>)
    ensures fresh(r) && r.fallback == CardElementPeer
    ensures r.items == CardElementDefaults() && r.Valid()
  {
    r := new PeerRegistry(CardElementPeer);
    ResetCardElementPeerRegistry(r);
  }

  /** new ActionPeerRegistry(): the constructor runs reset. */
  method NewActionPeerRegistry() returns (r: PeerRegistry<ActionType, ActionPeerType>)
    ensures fresh(r) && r.fallback == ActionPeer
    ensures r.items == [] && r.Valid()
  {
    r := new PeerRegistry(ActionPeer);
    ResetActionPeerRegistry(r);
  }

  /** The default bindings bind each element class once. */
  lemma DefaultsUnique()
    ensures Unique(CardElementDefaults())
  {
    var d := CardElementDefaults();
    forall i, j | 0 <= i < j < |d| ensures d[i].0 != d[j].0 {
    }
  }

  /** With the default bindings, each of the seven element classes gets the peer class bound to it. */
  lemma DefaultElementBindings(k: nat)
    requires k < |CardElementDefaults()|
    ensures Resolve(CardElementDefaults(), CardElementDefaults()[k].0, CardElementPeer) == CardElementDefaults()[k].1
  {
    DefaultsUnique();
    LookupFindsBinding(CardElementDefaults(), k);
  }

  /** With the default bindings, an element class outside the seven gets CardElementPeer. */
  lemma DefaultElementFallback(name: string)
    ensures Resolve(CardElementDefaults(), OtherElement(name), CardElementPeer) == CardElementPeer
  {
    ResolveUnbound(CardElementDefaults(), OtherElement(name), CardElementPeer);
  }

  /** What the two registries hold at one moment: their bindings and their fallbacks. */
  datatype Bindings = Bindings(
    elements: seq<(ElementType, ElementPeerType)>,
    elementFallback: ElementPeerType,
    actions: seq<(ActionType, ActionPeerType)>,
    actionFallback: ActionPeerType)

  /** The peer class the registries give a node: createPeerInstance of the matching registry. */
  function PeerKindFor(n: Node, b: Bindings): PeerKind
  {
    match n
    case ElementNode(kind, _, _, _) => ForElement(Resolve(b.elements, kind, b.elementFallback))
    case ActionNode(action) => ForAction(Resolve(b.actions, action, b.actionFallback))
  }

  /** The commands peers offer; each name is the label the designer shows. */
  datatype Command =
    | Remove | InsertTextBlockAfter | AddTextBlockInside | AddColumn
    | AddOpenUrlAction | AddShowCardAction | AddHttpAction

  function CommandName(c: Command): string
  {
    match c
    case Remove => "Remove"
    case InsertTextBlockAfter => "Insert TextBlox after"
    case AddTextBlockInside => "Add TextBlock inside"
    case AddColumn => "Add Column"
    case AddOpenUrlAction => "Add OpenUrl action"
    case AddShowCardAction => "Add ShowCard action"
    case AddHttpAction => "Add Http action"
  }

  /** The commands a specialised element peer appends after those of CardElementPeer. */
  function OwnCommands(t: ElementPeerType): seq<Command>
  {
    match t
    case AdaptiveCardPeer => [AddTextBlockInside, AddOpenUrlAction, AddShowCardAction, AddHttpAction]
    case ColumnPeer => [AddTextBlockInside]
    case ColumnSetPeer => [AddColumn]
    case ContainerPeer => [AddTextBlockInside]
    case ActionSetPeer => [AddOpenUrlAction, AddShowCardAction, AddHttpAction]
    case _ => []
  }

  /**
   * getCommands: the base "Remove", then for an element peer "Insert TextBlox after"
   * when the element's parent is a Container, then the peer class's own commands.
   * Every list starts with "Remove", and "Remove" appears in it once.
   */
  function Commands(kind: PeerKind, parentIsContainer: bool): (r: seq<Command>)
    ensures |r| >= 1 && r[0] == Remove && Remove !in r[1..]
  {
    match kind
    case ForAction(_) => [Remove]
    case ForElement(t) =>
      [Remove] + (if parentIsContainer then [InsertTextBlockAfter] else []) + OwnCommands(t)
  }

  /** "Insert TextBlox after" is offered exactly to element peers whose parent is a Container. */
  lemma InsertAfterGuard(kind: PeerKind, parentIsContainer: bool)
    ensures InsertTextBlockAfter in Commands(kind, parentIsContainer) <==> kind.ForElement? && parentIsContainer
  {
  }

  /** No peer offers the same command twice, so the displayed names are distinct. */
  lemma CommandNamesDistinct(kind: PeerKind, parentIsContainer: bool, i: nat, j: nat)
    requires i < j < |Commands(kind, parentIsContainer)|
    ensures CommandName(Commands(kind, parentIsContainer)[i]) != CommandName(Commands(kind, parentIsContainer)[j])
  {
  }

  /** Whether the node's parent is a Container, as the insert-after guard tests it. */
  predicate ParentIsContainer(n: Node)
  {
    n.ElementNode? && n.parentIsContainer
  }

  /**
   * The node a creating command adds to the card. A new element has the object
   * model's default spacing; a TextBlock is not a Container and a Column is.
   * A sibling inserted after the peer's element shares its Container parent; a
   * child added inside has the peer's element as parent.
   */
  function CreatedNode(c: Command, sender: Node): (n: Node)
    requires c != Remove
    ensures n.ActionNode? <==> c in {AddOpenUrlAction, AddShowCardAction, AddHttpAction}
  {
    var senderIsContainer := sender.ElementNode? && sender.isContainer;
    match c
    case InsertTextBlockAfter => ElementNode(TextBlock, Spacing.Default, false, true)
    case AddTextBlockInside => ElementNode(TextBlock, Spacing.Default, false, senderIsContainer)
    case AddColumn => ElementNode(Column, Spacing.Default, true, senderIsContainer)
    case AddOpenUrlAction => ActionNode(OpenUrlAction)
    case AddShowCardAction => ActionNode(ShowCardAction)
    case AddHttpAction => ActionNode(HttpAction)
  }

  datatype Visibility = Visible | Hidden

  /**
   * The separator overlay's visibility after a layout pass: hidden when the
   * element's spacing is None, otherwise visible exactly when the peer is
   * selected or under the mouse.
   */
  function SeparatorVisibility(spacing: Spacing, isSelected: bool, isMouseOver: bool): (v: Visibility)
    ensures spacing == Spacing.None ==> v == Hidden
    ensures spacing != Spacing.None ==> (v == Visible <==> isSelected || isMouseOver)
  {
    if spacing == Spacing.None then Hidden
    else if isSelected || isMouseOver then Visible
    else Hidden
  }

  datatype Height = Auto | Stretch

  /** The value of each height choice in the property sheet. */
  function HeightChoice(h: Height): string
  {
    match h
    case Auto => "auto"
    case Stretch => "stretch"
  }

  /** The height an edited choice writes back: "auto" only for "auto", anything else stretches. */
  function HeightFromChoice(value: string): (h: Height)
    ensures h == Auto <==> value == "auto"
  {
    if value == "auto" then Auto else Stretch
  }

  /** Reading back a height's own choice gives that height. */
  lemma HeightChoiceRoundTrip(h: Height)
    ensures HeightFromChoice(HeightChoice(h)) == h
  {
  }
}
