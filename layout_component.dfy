/**
 * The layout block of src/components/LayoutComponent.tsx: the drop and hover
 * guards that decide which inserts and moves reach the editor's handlers,
 * the class table, and the choice of what the block shows inside it.
 */
module LayoutComponent {
  import opened Wrappers
  import opened ComponentTree
  import opened ContentPreview

  /** The call `onDrop(parentId, item)` a layout makes; only the item's type is used by the handler. */
  datatype DropCall = DropCall(parentId: string, itemType: string)

  /** The drop guard: a container-type item is refused, anything else goes in as a child of this block. */
  function DropGuard(component: Component, item: DragItem): (r: Option<DropCall>)
    ensures r.Some? <==> !IsContainerType(item.kind)
    ensures r.Some? ==> r.value.parentId == component.id && r.value.itemType == item.kind
  {
    if IsContainerType(item.kind) then None else Some(DropCall(component.id, item.kind))
  }

  /** The hover guard: a move is asked for unless the block hovers over itself or the drag is a container. */
  function HoverGuard(component: Component, item: DragItem): (r: Option<MoveCall>)
    ensures r.Some? <==> item.id != Some(component.id) && !IsContainerType(item.kind)
    ensures r.Some? ==> r.value.dragId == item.id && r.value.hoverId == component.id
  {
    if item.id != Some(component.id) && !IsContainerType(item.kind) then Some(MoveCall(item.id, component.id))
    else None
  }

  /**
   * The editor state after this block handles a drop, `freshId` standing for
   * the new uuid: a container item changes nothing, any other item becomes
   * a child of this block, and no id but the new one gains or loses a node.
   */
  function AfterDrop(prev: seq<Component>, component: Component, item: DragItem, freshId: string): (r: seq<Component>)
    ensures IsContainerType(item.kind) ==> r == prev
    ensures !IsContainerType(item.kind) ==> r == Drop(prev, Some(component.id), item.kind, freshId)
    ensures forall x :: x != freshId ==> Count(r, x) == Count(prev, x)
  {
    DropCounts(prev, Some(component.id), item.kind, freshId);
    match DropGuard(component, item)
    case None => prev
    case Some(call) => Drop(prev, Some(call.parentId), call.itemType, freshId)
  }

  /**
   * The editor state after this block handles a hover: a hover over itself,
   * by a container or by an item without id changes nothing; otherwise
   * nothing outside the dragged subtree changes, and the subtree is moved
   * after this block or, when this block lies inside it, lost.
   */
  function AfterHover(prev: seq<Component>, component: Component, item: DragItem): (r: seq<Component>)
    ensures item.id.None? || item.id == Some(component.id) || IsContainerType(item.kind) ==> r == prev
    ensures item.id.Some? ==> Remove(r, item.id.value) == Remove(prev, item.id.value)
    ensures item.id.Some? && item.id != Some(component.id) && !IsContainerType(item.kind) ==>
      r == Move(prev, item.id.value, component.id)
  {
    match HoverGuard(component, item)
    case None => prev
    case Some(call) =>
      MoveItemOnlyRelocatesDragged(prev, call.dragId, call.hoverId);
      MoveItem(prev, call.dragId, call.hoverId)
  }

  /** No node below the top level is of a container type. */
  ghost predicate ContainerFree(f: seq<Component>) {
    forall c :: c in Nodes(f) ==> !IsContainerType(c.kind)
  }

  ghost predicate ContainersAtTop(f: seq<Component>) {
    forall i :: 0 <= i < |f| ==> ContainerFree(Kids(f[i]))
  }

  /**
   * Through a layout drop a container never lands inside another node: if
   * every container was at the top level before, it still is.
   */
  lemma LayoutDropKeepsContainersAtTop(prev: seq<Component>, component: Component, item: DragItem, freshId: string)
    requires ContainersAtTop(prev)
    ensures ContainersAtTop(AfterDrop(prev, component, item, freshId))
  {
    if !IsContainerType(item.kind) {
      var n := NewComponent(freshId, item.kind);
      var r := AfterDrop(prev, component, item, freshId);
      NodesCons(n, []);
      assert [n] + [] == [n];
      if component.id != "" {
        forall i | 0 <= i < |r| ensures ContainerFree(Kids(r[i])) {
          if prev[i].id == component.id {
            NodesAppend(Kids(prev[i]), [n]);
          }
        }
      }
    }
  }

  /** The dragged item's type is the type of the node its id names. */
  predicate Describes(prev: seq<Component>, item: DragItem) {
    match item.id
    case None => true
    case Some(d) =>
      match Find(prev, d)
      case None => true
      case Some(node) => node.kind == item.kind
  }

  /** Every node that is not of a container type has no children. */
  ghost predicate LeavesChildless(f: seq<Component>) {
    forall c :: c in Nodes(f) && !IsContainerType(c.kind) ==> Kids(c) == []
  }

  /**
   * When only containers have children, a move asked for by a layout hover
   * never has its hovered block inside the dragged subtree, so it keeps
   * every node exactly once.
   */
  lemma LayoutHoverKeepsNodes(prev: seq<Component>, component: Component, item: DragItem)
    requires UniqueIds(prev)
    requires Describes(prev, item)
    requires LeavesChildless(prev)
    ensures forall d, node ::
      (HoverGuard(component, item) == Some(MoveCall(Some(d), component.id)) && Find(prev, d) == Some(node))
      ==> Count([node], component.id) == 0
    ensures forall x :: Count(AfterHover(prev, component, item), x) == Count(prev, x)
    ensures UniqueIds(AfterHover(prev, component, item))
  {
    if item.id.Some? && HoverGuard(component, item).Some? {
      var d := item.id.value;
      var h := component.id;
      if Find(prev, d).Some? {
        var node := Find(prev, d).value;
        FindInNodes(prev, d);
        FoundSubtreeIn(prev, d, d);
        CountCons(node, [], h);
        assert [node] + [] == [node];
        if Find(prev, h).Some? {
          MoveRelocates(prev, d, h);
        }
      }
    }
  }

  /** The hover guard with the subtree check the move itself lacks. */
  function AfterHoverChecked(prev: seq<Component>, component: Component, item: DragItem): seq<Component>
  {
    match HoverGuard(component, item)
    case None => prev
    case Some(call) =>
      match call.dragId
      case None => prev
      case Some(d) => MoveChecked(prev, d, call.hoverId)
  }

  /** With the subtree check, a layout hover keeps every node whatever the shape of the tree. */
  lemma LayoutHoverCheckedKeepsNodes(prev: seq<Component>, component: Component, item: DragItem)
    requires UniqueIds(prev)
    ensures forall x :: Count(AfterHoverChecked(prev, component, item), x) == Count(prev, x)
  {
    if HoverGuard(component, item).Some? && item.id.Some? {
      MoveCheckedKeepsNodes(prev, item.id.value, component.id);
    }
  }

  /**
   * The drop guard lets a leaf type receive a child, after which the hover
   * guard no longer protects it: a PARAGRAPH that was given a QUOTE child by
   * a layout drop and is then dragged over that quote is lost with it. The
   * sidebar offers no PARAGRAPH or QUOTE item, so this needs a node that
   * nothing in these files creates.
   */
  lemma LayoutHoverLosesReparentedLeaf()
    ensures var s1 := Drop([], None, PARAGRAPH, "p");
            var p := s1[0];
            var s2 := AfterDrop(s1, p, DragItem(None, QUOTE), "q");
            var q := Kids(s2[0])[0];
            && |s1| == 1 && |s2| == 1 && q.id == "q"
            && AfterHover(s2, q, DragItemOf(s2[0])) == []
  {
    var s1 := Drop([], None, PARAGRAPH, "p");
    var p := s1[0];
    var n := NewComponent("q", QUOTE);
    var s2 := AfterDrop(s1, p, DragItem(None, QUOTE), "q");
    assert s1 == [NewComponent("p", PARAGRAPH)];
    assert p.id == "p" && Kids(p) == [];
    assert s2 == Drop(s1, Some("p"), QUOTE, "q");
    assert [] + [n] == [n];
    assert s2 == [p.(children := Present([n]))];
    var top := s2[0];
    assert Find(s2, "p") == Some(top);
    assert Find(s2, "q") == Some(n) by {
      assert Find([n], "q") == Some(n);
    }
    assert Remove(s2, "p") == [] by {
      assert s2[1..] == [];
    }
  }

  /**
   * The drop guard checks only the dropped item's type, not this block's: a
   * DIVIDER on the canvas accepts a HEADLINE as its child, which leaves a node
   * of a non-container type with children, and a DIVIDER's body shows only
   * its rule, so the child is never rendered.
   */
  lemma LayoutDropHidesChildInDivider()
    ensures var s1 := Drop([], None, DIVIDER, "d");
            var h := NewComponent("h", HEADLINE);
            var s2 := AfterDrop(s1, s1[0], DragItem(None, HEADLINE), "h");
            && WellShaped(s1) && !WellShaped(s2)
            && s2 == [s1[0].(children := Present([h]))]
            && LayoutBody(s2[0], false) == [Rule] && LayoutBody(s2[0], true) == [Rule]
  {
    var d := NewComponent("d", DIVIDER);
    var h := NewComponent("h", HEADLINE);
    var s1 := Drop([], None, DIVIDER, "d");
    assert s1 == [d];
    NodesCons(d, []);
    assert [d] + [] == [d];
    assert Nodes(s1) == [d];
    var s2 := AfterDrop(s1, d, DragItem(None, HEADLINE), "h");
    assert s2 == Drop(s1, Some("d"), HEADLINE, "h");
    assert [] + [h] == [h];
    var d' := d.(children := Present([h]));
    assert s2 == [d'];
    NodesCons(d', []);
    assert [d'] + [] == [d'];
    assert d' in Nodes(s2);
  }

  /** The drop guard that also refuses a target of a type that does not hold children. */
  function DropGuardChecked(component: Component, item: DragItem): (r: Option<DropCall>)
    ensures r.Some? <==> IsContainerType(component.kind) && !IsContainerType(item.kind)
    ensures r.Some? ==> r.value == DropCall(component.id, item.kind)
  {
    if IsContainerType(component.kind) then DropGuard(component, item) else None
  }

  function AfterDropChecked(prev: seq<Component>, component: Component, item: DragItem, freshId: string): seq<Component>
  {
    match DropGuardChecked(component, item)
    case None => prev
    case Some(call) => Drop(prev, Some(call.parentId), call.itemType, freshId)
  }

  /**
   * With the target's type checked, a layout drop keeps children present
   * exactly on the container types, provided the block's id names top-level
   * nodes of the block's own type.
   */
  lemma LayoutDropCheckedKeepsShape(prev: seq<Component>, component: Component, item: DragItem, freshId: string)
    requires WellShaped(prev)
    requires forall i :: 0 <= i < |prev| && prev[i].id == component.id ==> prev[i].kind == component.kind
    ensures WellShaped(AfterDropChecked(prev, component, item, freshId))
  {
    if DropGuardChecked(component, item).Some? {
      DropKeepsShape(prev, Some(component.id), item.kind, freshId);
    }
  }

  // ---------------------------------------------------------------------------
  // What the block shows

  /** `getLayoutClasses`: a fixed class string for each of the four layout types, `''` for the rest. */
  function LayoutClasses(kind: string): (r: string)
    ensures kind == ONE_COLUMN ==> r == "flex flex-col w-full bg-[#F5FAFF] p-4 rounded gap-2"
    ensures kind == TWO_COLUMN ==> r == "grid grid-cols-2 w-full bg-[#F5FAFF] p-4 rounded gap-4"
    ensures kind == CONTAINER ==> r == "border border-gray-300 p-4 rounded bg-[#F5FAFF] w-full"
    ensures kind == DIVIDER ==> r == "border-t border-gray-300 my-4 w-full"
    ensures r != "" <==> kind == ONE_COLUMN || kind == TWO_COLUMN || kind == CONTAINER || kind == DIVIDER
  {
    if kind == ONE_COLUMN then "flex flex-col w-full bg-[#F5FAFF] p-4 rounded gap-2"
    else if kind == TWO_COLUMN then "grid grid-cols-2 w-full bg-[#F5FAFF] p-4 rounded gap-4"
    else if kind == CONTAINER then "border border-gray-300 p-4 rounded bg-[#F5FAFF] w-full"
    else if kind == DIVIDER then "border-t border-gray-300 my-4 w-full"
    else ""
  }

  /** One piece of a layout block's body. */
  datatype Slot = Rule | EmptyColumn | Child(node: Component) | Placeholder(text: string)

  /** `toLowerCase` on the ASCII letters; other characters are kept. */
  function Lower(s: string): (r: string)
    ensures |r| == |s|
    ensures forall i :: 0 <= i < |s| ==> r[i] == if 'A' <= s[i] <= 'Z' then (s[i] as int + 32) as char else s[i]
  {
    if s == [] then [] else [if 'A' <= s[0] <= 'Z' then (s[0] as int + 32) as char else s[0]] + Lower(s[1..])
  }

  /** The placeholder text: `Drop here` while an item is over the block, else `Empty <type>`. */
  function PlaceholderLabel(kind: string, isOver: bool): (r: string)
    ensures isOver ==> r == "Drop here"
    ensures !isOver ==> |r| == 6 + |kind| && r[..6] == "Empty " && r[6..] == Lower(kind)
  {
    if isOver then "Drop here" else "Empty " + Lower(kind)
  }

  function ChildSlots(kids: seq<Component>): (r: seq<Slot>)
    ensures |r| == |kids|
    ensures forall i :: 0 <= i < |kids| ==> r[i] == Child(kids[i])
  {
    seq(|kids|, i requires 0 <= i < |kids| => Child(kids[i]))
  }

  /**
   * The body: a DIVIDER shows only its rule; a 2COLUMN shows two empty
   * columns, then its children; any other type shows its children and a
   * placeholder exactly when it has none.
   */
  function LayoutBody(c: Component, isOver: bool): (r: seq<Slot>)
    ensures c.kind == DIVIDER ==> r == [Rule]
    ensures c.kind == TWO_COLUMN ==>
      |r| == 2 + |Kids(c)| && r[0] == EmptyColumn && r[1] == EmptyColumn && r[2..] == ChildSlots(Kids(c))
    ensures c.kind != DIVIDER && c.kind != TWO_COLUMN ==>
      |r| == |Kids(c)| + (if Kids(c) == [] then 1 else 0)
      && r[..|Kids(c)|] == ChildSlots(Kids(c))
      && (Placeholder(PlaceholderLabel(c.kind, isOver)) in r <==> Kids(c) == [])
  {
    if c.kind == DIVIDER then [Rule]
    else if c.kind == TWO_COLUMN then [EmptyColumn, EmptyColumn] + ChildSlots(Kids(c))
    else ChildSlots(Kids(c)) + if Kids(c) == [] then [Placeholder(PlaceholderLabel(c.kind, isOver))] else []
  }

  /** A child is shown exactly when its parent is not a DIVIDER. */
  lemma ChildShownUnlessDivider(c: Component, isOver: bool, k: Component)
    requires k in Kids(c)
    ensures Child(k) in LayoutBody(c, isOver) <==> c.kind != DIVIDER
  {
    var i :| 0 <= i < |Kids(c)| && Kids(c)[i] == k;
    var r := LayoutBody(c, isOver);
    if c.kind == TWO_COLUMN {
      assert r[2 + i] == Child(k);
    } else if c.kind != DIVIDER {
      assert r[i] == Child(k);
    }
  }
}
