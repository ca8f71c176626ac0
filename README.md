# Page-layout editor: component forest and drag-and-drop handlers

This project is a Dafny model of the editing core of a React page-layout
editor. An article is an ordered forest of component nodes. Each node has an
id, a type tag (HEADLINE, BODY, 1COLUMN, CONTAINER, DIVIDER, ...), optional
text content, an optional style record and an optional list of children.
The user changes the forest by dragging items in from a sidebar, dragging
nodes onto other nodes, and editing text blocks.

The model has five modules:

- `Wrappers`: the `Option` type. JavaScript `undefined` becomes `None`.
- `ComponentTree`: the node record and the three traversals the move handler
  is built from. These are depth-first search (`Find`), delete-with-subtree
  (`Remove`) and insert-directly-after (`InsertAfter`). Each is a recursive
  function. Lemmas state what each one does in terms of `Count(f, x)`, the
  number of nodes with id `x` at any depth, and in terms of pre-order and
  sibling order.
- `ContentPreview`: the editor's handlers `handleDrop`, `handleUpdate`,
  `handleStyleChange` and `handleMove`. They are functions over the forest.
  The loop-based `findComponent`, `removeComponent` and `insertAfter` are
  methods proved equal to those functions. The `Editor` class holds the
  `components` state that each handler replaces.
- `LayoutComponent`: the layout block's drop and hover guards, its class
  table and the choice of what it shows inside.
- `TextComponent`: the text block's local state as a class. It also holds
  the caret save and restore arithmetic over a sequence of text-node
  lengths, the merge of a settings change into the style record, and the
  tag and default-content tables.

Each handler closure is modelled as a plain function or method. A
component's callbacks (`onDrop`, `onMove`, `onUpdate`, `onStyleChange`) are
the editor's handlers. The new node's uuid is a parameter `freshId`.

The move handler removes the dragged node and then inserts it directly
after the hover node. A reading of the move as "take over the hover node's
slot, inserting before it" does not match the code. `MoveLastOntoFirst`
shows where the two differ. The model follows the code.

## Model

| member | source | states |
|---|---|---|
| ComponentTree.Find | src/components/ContentPreview.tsx:225-237 | a node the search returns carries the id searched for |
| ComponentTree.FindIsFirstInPreorder | src/components/ContentPreview.tsx:225-237 | the search returns the first node with the id in depth-first pre-order of the whole forest |
| ComponentTree.FirstWithIdIsFirst | src/components/ContentPreview.tsx:225-237 | the reference "first in a sequence" is `None` iff no element has the id; otherwise it has the id and every earlier element has a different one |
| ComponentTree.FindNoneIff | src/components/ContentPreview.tsx:225-237 | the search returns nothing exactly when no node at any depth has the id |
| ComponentTree.FindInNodes | src/components/ContentPreview.tsx:225-237 | the node found is a node of the forest |
| ComponentTree.FoundSubtreeIn | src/components/ContentPreview.tsx:225-237 | the node found has the id searched for, and every id occurs in its subtree no more often than in the forest |
| ComponentTree.Remove | src/components/ContentPreview.tsx:245-253 | no top-level node of the result has the id, and the top level shrinks by exactly the number of top-level nodes that had it |
| ComponentTree.RemoveComplete | src/components/ContentPreview.tsx:245-253 | after removal no node at any depth has the id |
| ComponentTree.RemoveAbsent | src/components/ContentPreview.tsx:245-253 | removing an id that occurs nowhere returns the forest unchanged |
| ComponentTree.RemoveKeepsSiblingOrder | src/components/ContentPreview.tsx:245-253 | the top-level ids after removal are the old ones, in the old order, minus the removed id |
| ComponentTree.RemoveNodes | src/components/ContentPreview.tsx:245-253 | at every depth, the pre-order node list after removal is the list of surviving nodes (those with no removed node on their path from the top), in their old order, each with its id, type, content and styles unchanged and its own children filtered the same way |
| ComponentTree.RemoveKeepsSurvivors | src/components/ContentPreview.tsx:245-253 | every surviving node, at any depth, is still present after removal with the same id, type, content and styles, and its children's ids are its old children's ids in the old order minus the removed id |
| ComponentTree.RemoveKeepsOnlySurvivors | src/components/ContentPreview.tsx:245-253 | every node present after removal is a surviving old node with only its children filtered: removal creates and alters nothing else |
| ComponentTree.RemoveKeepsShape | src/components/ContentPreview.tsx:245-253 | removal keeps children present exactly on the container types |
| ComponentTree.FoundKeepsShape | src/components/ContentPreview.tsx:225-237 | the subtree the search finds keeps children present exactly on the container types when the forest does |
| ComponentTree.RemoveSubtreeCount | src/components/ContentPreview.tsx:245-253 | with the id occurring once, removal takes away exactly the found node's subtree: every id's count drops by its count in that subtree |
| ComponentTree.InsertAfter | src/components/ContentPreview.tsx:258-272 | the top level grows by exactly the number of top-level nodes carrying the anchor id |
| ComponentTree.InsertAfterAbsent | src/components/ContentPreview.tsx:258-272 | inserting after an id that occurs nowhere inserts nothing |
| ComponentTree.InsertAfterFollows | src/components/ContentPreview.tsx:258-272 | when the id is present, some sibling list holds that node directly followed by the inserted node, at whatever depth |
| ComponentTree.InsertAfterCount | src/components/ContentPreview.tsx:258-272 | with the id occurring at most once, insertion adds the inserted subtree's ids exactly once if the id is present and nothing otherwise |
| ComponentTree.InsertAfterKeepsShape | src/components/ContentPreview.tsx:258-272 | inserting a subtree in which children are present exactly on container types keeps that rule for the whole forest |
| ComponentTree.RemoveUndoesInsertAfter | src/components/ContentPreview.tsx:245-272 | removing the inserted node's id after an insertion gives the same forest as removing it before |
| ComponentTree.TopIds | src/components/ContentPreview.tsx:6-12 | a helper, not a model of these lines: it lists the `id` field of each top-level node, one entry per node in order, and is used to state sibling order |
| ComponentTree.DragItemOf | src/components/LayoutComponent.tsx:23-29 | a node's drag item carries its id and its type |
| ContentPreview.NewComponent | src/components/ContentPreview.tsx:184-196 | the new node has the fresh id and the item's type; content is `''` iff the type is HEADLINE, SUBHEADER or BODY and is absent otherwise; children are `[]` iff the type is 1COLUMN, 2COLUMN or CONTAINER and are absent otherwise; styles are `{color: '#000000'}` |
| ContentPreview.Drop | src/components/ContentPreview.tsx:183-209 | with a falsy parent id, exactly one new node is appended at the end and every old node is kept; otherwise only top-level nodes with that id change, and their children become the old children (or none) followed by the new node |
| ContentPreview.Update | src/components/ContentPreview.tsx:211-215 | only the content of top-level nodes with the id is replaced; every other node and field is unchanged |
| ContentPreview.SetStyles | src/components/ContentPreview.tsx:217-221 | only the styles of top-level nodes with the id are replaced; every other node and field is unchanged |
| ContentPreview.MapMatching | src/components/ContentPreview.tsx:200-204 | the top-level map keeps the length and changes exactly the entries with the id |
| ContentPreview.MissingTopLevelIdIsNoop | src/components/ContentPreview.tsx:198-221 | an id no top-level node carries, even one a nested node carries, leaves the forest unchanged under update, style change and drop-into-parent |
| ContentPreview.LastEditWins | src/components/ContentPreview.tsx:211-221 | a later content edit of a node replaces an earlier one, and so does a later style edit |
| ContentPreview.ContentAndStyleCommute | src/components/ContentPreview.tsx:211-221 | content and style edits of the same node commute |
| ContentPreview.UpdatesKeepShape | src/components/ContentPreview.tsx:211-221 | content and style edits keep children present exactly on the container types |
| ContentPreview.MapMatchingKeepsShape | src/components/ContentPreview.tsx:211-221 | a top-level map that keeps each node's type and children keeps children present exactly on the container types |
| ContentPreview.UpdatesKeepNodes | src/components/ContentPreview.tsx:211-221 | content and style edits keep every id's count |
| ContentPreview.MapMatchingKeepsCounts | src/components/ContentPreview.tsx:211-221 | a top-level map that keeps ids and children keeps every id's count |
| ComponentTree.TopMatches | src/components/ContentPreview.tsx:200-204 | the number of top-level nodes with an id is at most its count in the forest |
| ContentPreview.AppendChildCounts | src/components/ContentPreview.tsx:198-205 | a drop into a parent adds the new id once per top-level node with the parent id and changes no other count |
| ContentPreview.DropKeepsIdsUnique | src/components/ContentPreview.tsx:183-209 | with a fresh id, a drop keeps all ids distinct, and the new id is present exactly when the drop is top-level or its parent is a top-level node |
| ContentPreview.NodesAfterAppendChild | src/components/ContentPreview.tsx:198-205 | every node after a drop into a parent is an old node, the new node, or a top-level parent with the new node appended |
| ContentPreview.DropKeepsShape | src/components/ContentPreview.tsx:183-209 | if children are present exactly on container types before, they still are after a drop, provided a named parent is a container |
| ContentPreview.Move | src/components/ContentPreview.tsx:223-278 | when the dragged or hovered id is not found the old forest is returned, so the forest changes only when both ids occur |
| ContentPreview.MoveKeepsShape | src/components/ContentPreview.tsx:239-276 | a move keeps children present exactly on the container types, whether it relocates the dragged subtree or loses it |
| ContentPreview.MoveMissingIsNoop | src/components/ContentPreview.tsx:239-242 | a move whose dragged or hovered id occurs nowhere returns the old forest |
| ContentPreview.MoveRelocates | src/components/ContentPreview.tsx:223-278 | with distinct ids and the hover node outside the dragged subtree, a move keeps every id's count, keeps ids distinct, and puts the dragged subtree directly after the hover node |
| ContentPreview.MoveIntoOwnSubtreeDropsIt | src/components/ContentPreview.tsx:223-278 | with distinct ids and the hover node the dragged node itself or inside its subtree, the move only deletes the dragged subtree |
| ContentPreview.MoveOnlyRelocatesDragged | src/components/ContentPreview.tsx:245-274 | for any drag and hover ids, the forest after the move, with the dragged id removed, is the old forest with it removed: nothing outside the dragged subtree changes |
| ContentPreview.MoveFirstOntoLast | src/components/ContentPreview.tsx:245-274 | for three top-level leaves, dragging the first onto the third gives the order second, third, first |
| ContentPreview.MoveLastOntoFirst | src/components/ContentPreview.tsx:245-274 | for three top-level leaves, dragging the third onto the first gives the order first, third, second |
| ContentPreview.MoveItem | src/components/ContentPreview.tsx:239-242 | a move asked for with no drag id, as by a sidebar item, leaves the forest unchanged |
| ContentPreview.MoveCheckedKeepsNodes | src/components/ContentPreview.tsx:223-278 | with distinct ids, the move guarded against the hover node lying in the dragged subtree keeps every id's count and keeps ids distinct, for all drag and hover ids |
| ContentPreview.FindComponent | src/components/ContentPreview.tsx:225-237 | the loop with early return computes the depth-first search |
| ContentPreview.RemoveComponent | src/components/ContentPreview.tsx:245-253 | the filter with its recursive rewrite of children computes the removal |
| ContentPreview.InsertAfterComponent | src/components/ContentPreview.tsx:258-272 | the accumulating reduce computes the insertion |
| ContentPreview.ComputeMove | src/components/ContentPreview.tsx:223-278 | search both ids, give up if either is missing, then remove and insert: the move |
| ContentPreview.Editor.constructor | src/components/ContentPreview.tsx:181 | the editor starts with an empty forest |
| ContentPreview.Editor.HandleDrop | src/components/ContentPreview.tsx:183-209 | the state becomes the drop of the old state |
| ContentPreview.Editor.HandleUpdate | src/components/ContentPreview.tsx:211-215 | the state becomes the content update of the old state |
| ContentPreview.Editor.HandleStyleChange | src/components/ContentPreview.tsx:217-221 | the state becomes the style update of the old state |
| ContentPreview.Editor.HandleMove | src/components/ContentPreview.tsx:223-278 | the state becomes the move of the old state |
| LayoutComponent.DropGuard | src/components/LayoutComponent.tsx:33-37 | a drop reaches the editor iff the item's type is not 1COLUMN, 2COLUMN or CONTAINER, and then names this block as parent with the item's type |
| LayoutComponent.HoverGuard | src/components/LayoutComponent.tsx:38-45 | a move is asked for iff the item is not this block and its type is not a container type, with the item's id as drag id and this block as hover id |
| LayoutComponent.AfterDrop | src/components/LayoutComponent.tsx:33-37 | a dropped container item leaves the editor state unchanged; any other item makes the state the drop of that item with this block as parent, so each top-level node with this block's id gets the new node appended to its children; no id's count changes except the fresh one |
| LayoutComponent.AfterHover | src/components/LayoutComponent.tsx:38-45 | a hover over the block itself, by a container item or by an item without id leaves the state unchanged; otherwise the state becomes the move of the dragged id onto this block, so with the dragged id removed it is as before; by `MoveRelocates` and `MoveIntoOwnSubtreeDropsIt` that move puts the dragged subtree after this block, or loses it when this block lies inside it |
| LayoutComponent.LayoutDropKeepsContainersAtTop | src/components/LayoutComponent.tsx:33-37 | if no container lies below the top level before a layout drop, none does after it |
| LayoutComponent.LayoutHoverKeepsNodes | src/components/LayoutComponent.tsx:38-45 | with distinct ids, an item that describes its node, and childless non-container nodes, the hovered block never lies in the dragged subtree, and the move keeps every id's count and keeps ids distinct |
| LayoutComponent.LayoutClasses | src/components/LayoutComponent.tsx:51-64 | 1COLUMN, 2COLUMN, CONTAINER and DIVIDER each map to their own class string, spelled out in the contract; every other type maps to `''` |
| LayoutComponent.Lower | src/components/LayoutComponent.tsx:110 | lower-casing maps A-Z to a-z and keeps every other character |
| LayoutComponent.PlaceholderLabel | src/components/LayoutComponent.tsx:110 | while an item is over the block the placeholder says `Drop here`; otherwise `Empty ` followed by the lower-cased type |
| LayoutComponent.ChildSlots | src/components/LayoutComponent.tsx:103-107 | one child slot per child, in order |
| LayoutComponent.LayoutBody | src/components/LayoutComponent.tsx:93-114 | a DIVIDER shows only its rule; a 2COLUMN shows two empty columns and then its children; any other type shows its children, then a placeholder iff it has none |
| LayoutComponent.ChildShownUnlessDivider | src/components/LayoutComponent.tsx:93-114 | a child is shown iff its parent is not a DIVIDER |
| TextComponent.SaveOffsets | src/components/TextComponent.tsx:59-72 | with no selection, range or element the saved offsets stay; otherwise start is the length before the range and end is start plus the selected length, so end is at least start |
| TextComponent.FirstReaching | src/components/TextComponent.tsx:85-100 | the node found is an index into the text nodes |
| TextComponent.FirstReachingIsFirst | src/components/TextComponent.tsx:85-100 | the node found is the first whose cumulative end reaches the offset; none is found iff no node's end does |
| TextComponent.FirstReachingNoneIff | src/components/TextComponent.tsx:85-102 | over a non-empty run of nodes, no node is found iff the offset is past the total text length |
| TextComponent.FirstReachingExtends | src/components/TextComponent.tsx:85-100 | a node found among the first nodes is still the one found when more nodes follow |
| TextComponent.SumMonotone | src/components/TextComponent.tsx:99 | the running character count never decreases |
| TextComponent.Restored | src/components/TextComponent.tsx:85-109 | a restored caret has its start node at or before its end node, both within the text nodes, and is only produced when end lies within the total text length |
| TextComponent.RestoredInBounds | src/components/TextComponent.tsx:85-109 | a restored caret has start node at or before end node, both offsets within their nodes, and offsets that count back to the saved positions |
| TextComponent.RestoreAppliedIff | src/components/TextComponent.tsx:102-109 | for start at most end, a caret is applied iff there is text and end is not past its length |
| TextComponent.RestoreSelection | src/components/TextComponent.tsx:74-110 | the loop with early exit and `break` computes the reference result, and does nothing without saved offsets or an element |
| TextComponent.TypeOnly | src/components/TextComponent.tsx:194-196 | a type change is a settings change naming only the type |
| TextComponent.MergeSettings | src/components/TextComponent.tsx:180 | each settings field the change names takes the change's value, and every field it does not name keeps the old value |
| TextComponent.MergeSettingsIdempotent | src/components/TextComponent.tsx:180 | applying the same settings change twice is applying it once |
| TextComponent.SettingsStyles | src/components/TextComponent.tsx:182-188 | every style key other than fontFamily, fontWeight, fontStyle and textDecoration is kept; fontFamily changes only for a non-empty supplied font; weight, style and decoration are bold, italic, underline only when this change sets the flag to true, else normal, normal, none |
| TextComponent.TypeChangeResetsEmphasis | src/components/TextComponent.tsx:182-196 | a type-only change keeps the font and the other styles and resets weight, style and decoration |
| TextComponent.SettingsStylesIdempotent | src/components/TextComponent.tsx:182-188 | recomputing the styles with the same change again changes nothing |
| TextComponent.UnrelatedChangeDropsBold | src/components/TextComponent.tsx:179-191 | a change not naming bold keeps a bold block bold in its settings but sets its weight style to normal |
| TextComponent.SettingsStylesFromMerged | src/components/TextComponent.tsx:182-188 | the corrected styles keep every unrelated key and always carry the three emphasis keys |
| TextComponent.MergedStylesMatchSettings | src/components/TextComponent.tsx:179-191 | with emphasis taken from the merged settings, each emphasis style is on iff its setting is |
| TextComponent.TagFor | src/components/TextComponent.tsx:227-234 | HEADLINE is h1, SUBHEADER h2, BODY and PARAGRAPH p, QUOTE blockquote, and any other type div |
| TextComponent.DefaultContent | src/components/TextComponent.tsx:198-205 | the four fixed placeholder texts for SUBHEADER, BODY, PARAGRAPH and QUOTE; `''` for HEADLINE and any other type |
| TextComponent.InitialStyles | src/components/TextComponent.tsx:36-40 | the initial styles hold color and fontFamily, defaulting to '#000000' and 'Arial', overridden key by key by the node's own styles |
| TextComponent.ContentOf | src/components/TextComponent.tsx:35 | the local text starts as the node's content, or `''` without one |
| TextComponent.InitialSettings | src/components/TextComponent.tsx:43-50 | the initial settings have the node's type (BODY when empty), link 'none', font 'Arial' and no emphasis |
| TextComponent.TextHoverGuard | src/components/TextComponent.tsx:167-177 | a move is asked for iff the item is not this block, whatever its type |
| TextComponent.AfterTextHover | src/components/TextComponent.tsx:169-173 | a hover over the block itself or by an item without id leaves the state unchanged; otherwise the state becomes the move of the dragged id onto this block, so with the dragged id removed it is as before; by `MoveRelocates` and `MoveIntoOwnSubtreeDropsIt` that move puts the dragged subtree after this block, or loses it when this block lies inside it |
| TextComponent.TextHoverLosesContainer | src/components/TextComponent.tsx:167-177 | a container with one text child that is dragged over that child is deleted together with the child |
| TextComponent.TextHoverCheckedKeepsNodes | src/components/TextComponent.tsx:167-177 | with the subtree check, a text hover keeps every id's count and keeps ids distinct |
| LayoutComponent.LayoutHoverLosesReparentedLeaf | src/components/LayoutComponent.tsx:33-45 | a PARAGRAPH that received a QUOTE through a layout drop and is dragged over that quote is deleted together with it; no path in these files creates a PARAGRAPH or QUOTE node, so this shows only that the hover guard relies on leaves being childless |
| LayoutComponent.LayoutDropHidesChildInDivider | src/components/LayoutComponent.tsx:33-37 | a HEADLINE dropped onto a DIVIDER becomes its child, so a non-container node has children, and the divider's body is still only its rule, so the child is never shown |
| LayoutComponent.DropGuardChecked | src/components/LayoutComponent.tsx:33-37 | the corrected drop guard forwards a drop iff the block is of a container type and the item is not |
| LayoutComponent.LayoutDropCheckedKeepsShape | src/components/LayoutComponent.tsx:33-37 | with the target's type checked, a layout drop keeps children present exactly on the container types |
| LayoutComponent.LayoutHoverCheckedKeepsNodes | src/components/LayoutComponent.tsx:38-45 | with the subtree check, a layout hover keeps every id's count whatever the tree's shape |
| TextComponent.TextEditor.constructor | src/components/TextComponent.tsx:34-52 | the block starts with the node's content, the initial styles and settings, not editing, with no saved caret |
| TextComponent.TextEditor.ReceiveComponent | src/components/TextComponent.tsx:54-57 | the local text is reset to the node's content only when that content changed |
| TextComponent.TextEditor.HandleFocus | src/components/TextComponent.tsx:136-138 | focus starts editing and changes nothing else |
| TextComponent.TextEditor.SaveSelection | src/components/TextComponent.tsx:59-72 | the saved caret becomes the offsets computed from the browser's range |
| TextComponent.TextEditor.HandleContentChange | src/components/TextComponent.tsx:129-134 | the caret is saved and the local text becomes the element's text, or `''` |
| TextComponent.TextEditor.HandleBlur | src/components/TextComponent.tsx:140-144 | blur stops editing and commits the content first and the styles second |
| TextComponent.TextEditor.HandleSettingsChange | src/components/TextComponent.tsx:179-192 | the settings are merged, the styles recomputed, and those styles committed to the editor |
| TextComponent.TextEditor.HandleTypeChange | src/components/TextComponent.tsx:194-196 | a type change is a settings change of the type alone, after which the tag follows the new type |
| TextComponent.TextEditor.SetColor | src/components/TextComponent.tsx:451-458 | the color picker sets only the local color style |
| TextComponent.TextEditor.SetFontSize | src/components/TextComponent.tsx:465-474 | the slider sets only the local font size, the value followed by `px` |
| TextComponent.TextEditor.SaveStyles | src/components/TextComponent.tsx:489-493 | Save commits the local styles to the editor |

## Left out

- The React and react-dnd layers are not modelled. This covers `useState` and `useEffect` scheduling, drag monitors, `isDragging`, and JSX markup. Each setter is a field assignment, and each hover or drop callback is a plain call. The model does not capture whether react-dnd also calls the drop or hover handlers of enclosing targets.
- The DOM Selection, Range and TreeWalker APIs are replaced. A range is the two lengths `saveSelection` reads from it, and an element is the sequence of its text-node lengths. `restoreSelection` returns the caret it would apply instead of applying it. The deferred restore after typing (`setTimeout`) is not modelled; `RestoreSelection` is the restore itself.
- `uuidv4` is the `freshId` parameter. Lemmas that need a fresh id say so in their preconditions.
- `removeComponent` and `insertAfter` reassign `comp.children` in place, on nodes that are shared with the previous state after the shallow copy `[...prev]`. The model computes the same resulting forest as values. It does not capture that the previous state's nodes are changed too.
- ContentPreview.tsx renders with its own local `TextComponent` and `LayoutComponent` (lines 14-178). Those copies check only the id in hover, and the local layout forwards every drop. They are not part of this model. The model covers the exported components in TextComponent.tsx and LayoutComponent.tsx, with the editor's handlers as their callbacks.
- `renderComponent` (ContentPreview.tsx:280-304) and the canvas drop target (ContentPreview.tsx:306-312) are not modelled separately. A canvas drop is `Drop` with no parent.
- `onDelete` is not modelled. The editor passes no delete handler, and none exists in these files.
- The layout's class string around `getLayoutClasses`, which adds `relative group` and the `isOver` highlight, is not modelled. The placeholder's `isOver` is a parameter of `LayoutBody`.
- LayoutComponent.Lower: follows `toLowerCase` only on ASCII letters, because type tags are ASCII.
- TextComponent.SettingsStyles: when neither the change nor the old styles give a font, the result has no fontFamily key. The source has the key with value `undefined`; the model has the key absent.
- The dialog's tab and visibility flags, the font and link option lists, the tag class table, the toolbar icons and the caret placement on first focus are display only.
- MediaComponent.tsx, ComponentsSidebar.tsx, EditorHeader.tsx, ArticleToolbar.tsx and LayoutEditor.tsx are not part of this model. They are markup and composition: sidebar items carry only a type, and LayoutEditor's props to ContentPreview are ignored. No HTML serializer, media extraction, draft store or archive export exists in these files.
- LayoutComponent.LayoutHoverKeepsNodes: assumes every non-container node is childless. The code does not ensure this, because a layout drop onto any non-container block gives it children. With the sidebar's types the only such block is a DIVIDER, which hides its children (`LayoutDropHidesChildInDivider`), so no hover reaches them; `LayoutHoverLosesReparentedLeaf` shows the loss for PARAGRAPH and QUOTE nodes, which nothing in these files creates.

## Findings

| source | as written | input that shows it | evidently intended | confidence | as-written member | corrected member |
|---|---|---|---|---|---|---|
| src/components/TextComponent.tsx:167-177 | the text hover asks for a move for any dragged item other than itself, containers included, and the move deletes the dragged subtree when the hover node lies inside it | drop a CONTAINER on the canvas, drop a BODY into it, drag the container over its own BODY: both nodes are deleted | a move onto a node inside the dragged subtree does nothing | medium, not executed | TextComponent.TextHoverLosesContainer | TextComponent.TextHoverCheckedKeepsNodes |
| src/components/LayoutComponent.tsx:33-37 | the drop guard checks only the dropped item's type, not the type of the block it lands on, so a DIVIDER accepts a child | drop a DIVIDER on the canvas, then drop a HEADLINE onto it: the divider now has a child, which breaks "children present only on container types", and it never shows that child | only container blocks accept children | medium, not executed | LayoutComponent.LayoutDropHidesChildInDivider | LayoutComponent.LayoutDropCheckedKeepsShape |
| src/components/TextComponent.tsx:182-188 | weight, style and decoration are computed from the change alone, not from the merged settings | on a bold block, turn on italic or change the type: the settings still say bold, the weight style becomes normal | the emphasis styles follow the merged settings | medium, not executed | TextComponent.UnrelatedChangeDropsBold | TextComponent.MergedStylesMatchSettings |

The corrected definitions are `MoveChecked` (a move that does nothing when
the hover node lies in the dragged subtree), used by `AfterHoverChecked` and
`AfterTextHoverChecked`, `DropGuardChecked`, used by `AfterDropChecked`, and
`SettingsStylesFromMerged`. The `Editor` and
`TextEditor` classes keep the behaviour as written.
