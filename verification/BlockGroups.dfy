/** Grouping of consecutive list blocks in a content preview
(src/components/history/ContentPreview.tsx). */
module BlockGroups {
  import opened Strings
  import opened Wrappers

  datatype Block = Block(blockType: string, content: string)

  datatype Kind = Ul | Ol | Checklist

  /** `index` is the position of the rendered block in the document. */
  datatype Node =
    | Element(key: string, index: nat, block: Block)
    | ListElement(key: string, kind: Kind, items: seq<Node>)

  datatype OpenList = OpenList(kind: Kind, items: seq<Node>)

  function ListKind(blockType: string): Option<Kind> {
    if blockType == "bulletListItem" then Some(Ul)
    else if blockType == "numberedListItem" then Some(Ol)
    else if blockType == "checkListItem" then Some(Checklist)
    else None
  }

  predicate Known(blockType: string) {
    ListKind(blockType).Some? || blockType in ["paragraph", "heading", "quote", "codeBlock", "table", "image"]
  }

  /** The nine types that are rendered; three are list items, each of a kind of its own. */
  lemma KindsExactly(t: string, u: string)
    ensures ListKind(t).Some? <==> t in {"bulletListItem", "numberedListItem", "checkListItem"}
    ensures ListKind(t).Some? && ListKind(t) == ListKind(u) ==> t == u
    ensures Known(t) <==> t in {"bulletListItem", "numberedListItem", "checkListItem", "paragraph", "heading",
                                "quote", "codeBlock", "table", "image"}
  {
  }

  function RenderBlock(block: Block, index: nat): Node {
    Element("block-" + Decimal(index), index, block)
  }

  function CreateListElement(list: OpenList, position: nat): Node {
    ListElement("list-" + Decimal(position), list.kind, list.items)
  }

  // ---------------------------------------------------------------- what a grouping is

  /** The blocks of known type, each rendered, in document order. */
  function Rendered(blocks: seq<Block>): (r: seq<Node>)
    ensures forall n :: n in r ==> n.Element? && n.index < |blocks| && n == RenderBlock(blocks[n.index], n.index)
    ensures forall i, j :: 0 <= i < j < |r| ==> r[i].index < r[j].index
  {
    if blocks == [] then []
    else
      var front, last := blocks[..|blocks| - 1], blocks[|blocks| - 1];
      Rendered(front) + if Known(last.blockType) then [RenderBlock(last, |front|)] else []
  }

  function Contents(node: Node): seq<Node> {
    if node.ListElement? then node.items else [node]
  }

  function Flatten(nodes: seq<Node>): seq<Node> {
    if nodes == [] then [] else Flatten(nodes[..|nodes| - 1]) + Contents(nodes[|nodes| - 1])
  }

  predicate IsItem(node: Node, kind: Kind) {
    node.Element? && ListKind(node.block.blockType) == Some(kind)
  }

  /** A list holds a non-empty run of neighbouring blocks of its kind and is keyed by its
      position; anything else is not a list item. */
  predicate NodeFits(node: Node, position: nat) {
    if node.ListElement? then
      && node.key == "list-" + Decimal(position)
      && node.items != []
      && (forall i :: 0 <= i < |node.items| ==> IsItem(node.items[i], node.kind))
      && (forall i :: 0 <= i < |node.items| - 1 ==> node.items[i].index + 1 == node.items[i + 1].index)
    else ListKind(node.block.blockType).None?
  }

  predicate EndsBefore(node: Node, index: nat) {
    node.ListElement? && node.items != [] && node.items[|node.items| - 1].Element? ==>
      node.items[|node.items| - 1].index + 1 < index
  }

  /** Lists of one kind are neighbours only if a block was dropped between them. */
  predicate Parted(a: Node, b: Node) {
    a.ListElement? && b.ListElement? && a.kind == b.kind && b.items != [] && b.items[0].Element? ==>
      EndsBefore(a, b.items[0].index)
  }

  predicate WellGrouped(result: seq<Node>) {
    && (forall k :: 0 <= k < |result| ==> NodeFits(result[k], k))
    && (forall k :: 0 <= k < |result| - 1 ==> Parted(result[k], result[k + 1]))
  }

  predicate IsGrouping(blocks: seq<Block>, result: seq<Node>) {
    Flatten(result) == Rendered(blocks) && WellGrouped(result)
  }

  // ---------------------------------------------------------------- the loop

  function Closed(result: seq<Node>, currentList: Option<OpenList>): seq<Node> {
    if currentList.Some? then result + [CreateListElement(currentList.value, |result|)] else result
  }

  /** The last item of the current list is the last block. */
  predicate EndsAt(items: seq<Node>, count: nat) {
    items != [] && items[|items| - 1].Element? && items[|items| - 1].index + 1 == count
  }

  /** What the loop keeps after `blocks`: closing the current list now gives a grouping of them,
      the current list ends at the last block, and a closed list before it does not. */
  ghost predicate Progress(blocks: seq<Block>, result: seq<Node>, currentList: Option<OpenList>) {
    && IsGrouping(blocks, Closed(result, currentList))
    && (currentList.Some? ==> EndsAt(currentList.value.items, |blocks|))
    && (currentList.None? && result != [] ==> EndsBefore(result[|result| - 1], |blocks|))
  }

  lemma FlattenSnoc(nodes: seq<Node>, node: Node)
    ensures Flatten(nodes + [node]) == Flatten(nodes) + Contents(node)
  {
    assert (nodes + [node])[..|nodes|] == nodes;
  }

  lemma RenderedSnoc(blocks: seq<Block>, b: Block)
    ensures Rendered(blocks + [b]) == Rendered(blocks) + if Known(b.blockType) then [RenderBlock(b, |blocks|)] else []
  {
    assert (blocks + [b])[..|blocks|] == blocks;
  }

  lemma WellGroupedSnoc(nodes: seq<Node>, node: Node)
    ensures WellGrouped(nodes + [node]) <==>
              && WellGrouped(nodes)
              && NodeFits(node, |nodes|)
              && (nodes != [] ==> Parted(nodes[|nodes| - 1], node))
  {
    hide NodeFits, Parted;
    var longer := nodes + [node];
    if WellGrouped(longer) {
      forall k | 0 <= k < |nodes| ensures NodeFits(nodes[k], k) {
        assert NodeFits(longer[k], k);
      }
      forall k | 0 <= k < |nodes| - 1 ensures Parted(nodes[k], nodes[k + 1]) {
        assert Parted(longer[k], longer[k + 1]);
      }
      assert NodeFits(longer[|nodes|], |nodes|);
      assert nodes != [] ==> Parted(longer[|nodes| - 1], longer[|nodes| - 1 + 1]);
    }
  }

  /** A block that is no list item ends the current list. */
  lemma PlainBlock(blocks: seq<Block>, b: Block, result: seq<Node>, currentList: Option<OpenList>)
    requires Progress(blocks, result, currentList) && ListKind(b.blockType).None?
    ensures Progress(blocks + [b],
                     Closed(result, currentList) + if Known(b.blockType) then [RenderBlock(b, |blocks|)] else [], None)
  {
    hide WellGrouped, Flatten, Rendered, ListKind, Known, Decimal, NodeFits;
    RenderedSnoc(blocks, b);
    var closed := Closed(result, currentList);
    var node := RenderBlock(b, |blocks|);
    if Known(b.blockType) {
      FlattenSnoc(closed, node);
      PlainFits(b, |blocks|, |closed|);
      WellGroupedSnoc(closed, node);
    } else {
      assert closed + [] == closed;
    }
  }

  lemma PlainFits(b: Block, index: nat, position: nat)
    requires ListKind(b.blockType).None?
    ensures NodeFits(RenderBlock(b, index), position)
  {
  }

  lemma LongerFits(list: OpenList, b: Block, index: nat, position: nat)
    requires NodeFits(CreateListElement(list, position), position) && EndsAt(list.items, index)
    requires ListKind(b.blockType) == Some(list.kind)
    ensures NodeFits(CreateListElement(OpenList(list.kind, list.items + [RenderBlock(b, index)]), position), position)
  {
    hide ListKind, Decimal;
    var items := list.items + [RenderBlock(b, index)];
    assert items[|list.items|] == RenderBlock(b, index);
    assert forall i :: 0 <= i < |list.items| ==> items[i] == list.items[i];
  }

  lemma FirstFits(b: Block, index: nat, position: nat)
    requires ListKind(b.blockType).Some?
    ensures var kind := ListKind(b.blockType).value;
            NodeFits(CreateListElement(OpenList(kind, [RenderBlock(b, index)]), position), position)
  {
    hide ListKind, Decimal;
  }

  /** An item of the kind of the current list extends it. */
  lemma SameKind(blocks: seq<Block>, b: Block, result: seq<Node>, list: OpenList)
    requires ListKind(b.blockType) == Some(list.kind)
    ensures Progress(blocks, result, Some(list)) ==>
              Progress(blocks + [b], result, Some(OpenList(list.kind, list.items + [RenderBlock(b, |blocks|)])))
  {
    hide WellGrouped, Flatten, Rendered, ListKind, Decimal, NodeFits;
    if Progress(blocks, result, Some(list)) {
      var longer := OpenList(list.kind, list.items + [RenderBlock(b, |blocks|)]);
      var before, after := CreateListElement(list, |result|), CreateListElement(longer, |result|);
      RenderedSnoc(blocks, b);
      ListKnown(b.blockType);
      FlattenSnoc(result, before);
      FlattenSnoc(result, after);
      WellGroupedSnoc(result, before);
      LongerFits(list, b, |blocks|, |result|);
      assert after.items[0] == before.items[0];
      WellGroupedSnoc(result, after);
    }
  }

  lemma ListKnown(blockType: string)
    ensures ListKind(blockType).Some? ==> Known(blockType)
  {
  }

  /** Any other item closes the current list, if there is one, and starts the next. */
  lemma OtherKind(blocks: seq<Block>, b: Block, result: seq<Node>, currentList: Option<OpenList>)
    requires Progress(blocks, result, currentList) && ListKind(b.blockType).Some?
    requires currentList.Some? ==> Some(currentList.value.kind) != ListKind(b.blockType)
    ensures Progress(blocks + [b], Closed(result, currentList),
                     Some(OpenList(ListKind(b.blockType).value, [RenderBlock(b, |blocks|)])))
  {
    hide WellGrouped, Flatten, Rendered, ListKind, Decimal, NodeFits;
    var closed := Closed(result, currentList);
    var started := CreateListElement(OpenList(ListKind(b.blockType).value, [RenderBlock(b, |blocks|)]), |closed|);
    RenderedSnoc(blocks, b);
    ListKnown(b.blockType);
    FlattenSnoc(closed, started);
    FirstFits(b, |blocks|, |closed|);
    WellGroupedSnoc(closed, started);
  }

  lemma ProgressStart()
    ensures Progress([], [], None)
  {
  }

  lemma ProgressDone(blocks: seq<Block>, result: seq<Node>, currentList: Option<OpenList>)
    ensures Progress(blocks, result, currentList) ==> IsGrouping(blocks, Closed(result, currentList))
  {
  }

  /** The result renders every block of known type, in order, in lists as long as they can be:
      it is a grouping, and by GroupingUnique there is only one. */
  method GroupBlocks(blocks: seq<Block>) returns (result: seq<Node>)
    ensures IsGrouping(blocks, result)
  {
    hide Progress, IsGrouping, ListKind, Known, RenderBlock, CreateListElement;
    result := [];
    var currentList: Option<OpenList> := None;
    var index := 0;
    ProgressStart();
    while index < |blocks|
      invariant index <= |blocks|
      invariant Progress(blocks[..index], result, currentList)
    {
      var block := blocks[index];
      assert blocks[..index + 1] == blocks[..index] + [block];
      var kind := ListKind(block.blockType);
      if kind.Some? {
        if currentList.None? || currentList.value.kind != kind.value {
          OtherKind(blocks[..index], block, result, currentList);
          if currentList.Some? {
            result := result + [CreateListElement(currentList.value, |result|)];
          }
          currentList := Some(OpenList(kind.value, [RenderBlock(block, index)]));
        } else {
          SameKind(blocks[..index], block, result, currentList.value);
          currentList := Some(OpenList(kind.value, currentList.value.items + [RenderBlock(block, index)]));
        }
      } else {
        PlainBlock(blocks[..index], block, result, currentList);
        if currentList.Some? {
          result := result + [CreateListElement(currentList.value, |result|)];
          currentList := None;
        }
        if Known(block.blockType) {
          result := result + [RenderBlock(block, index)];
        } else {
          assert result + [] == result;
        }
      }
      index := index + 1;
    }
    assert blocks[..index] == blocks;
    ProgressDone(blocks, result, currentList);
    if currentList.Some? {
      result := result + [CreateListElement(currentList.value, |result|)];
    }
  }

  // ---------------------------------------------------------------- consequences

  lemma LastContents(result: seq<Node>)
    requires result != []
    ensures var last := Contents(result[|result| - 1]);
            && Flatten(result) == Flatten(result[..|result| - 1]) + last
            && |last| <= |Flatten(result)|
            && last == Flatten(result)[|Flatten(result)| - |last|..]
            && Flatten(result[..|result| - 1]) == Flatten(result)[..|Flatten(result)| - |last|]
  {
  }

  /** In a list, neighbours are of its kind and adjacent in the document. */
  lemma ListRun(node: Node, position: nat, cut: nat)
    requires NodeFits(node, position) && 0 < cut < |Contents(node)|
    ensures node.ListElement?
    ensures var items := Contents(node);
            && IsItem(items[cut - 1], node.kind) && IsItem(items[cut], node.kind)
            && items[cut - 1].index + 1 == items[cut].index
  {
    var i := cut - 1;
    assert node.items[i].index + 1 == node.items[i + 1].index;
  }

  /** Between two neighbouring nodes there is no such pair. */
  lemma Boundary(a: Node, b: Node, p: nat, q: nat, kind: Kind)
    requires NodeFits(a, p) && NodeFits(b, q) && Parted(a, b)
    ensures Contents(a) != [] && Contents(b) != []
    ensures var x, y := Contents(a)[|Contents(a)| - 1], Contents(b)[0];
            !(IsItem(x, kind) && IsItem(y, kind) && x.index + 1 == y.index)
  {
  }

  /** Where the last node of one grouping ends, no node of another can go on. */
  lemma LastNotShorter(g: seq<Node>, h: seq<Node>)
    requires WellGrouped(g) && WellGrouped(h) && g != [] && h != [] && Flatten(g) == Flatten(h)
    ensures |Contents(g[|g| - 1])| >= |Contents(h[|h| - 1])|
  {
    hide NodeFits, Parted, WellGrouped, Flatten, IsItem, Contents;
    var m, n := |g| - 1, |h| - 1;
    var flat := Flatten(g);
    var a, b := Contents(g[m]), Contents(h[n]);
    FitsAt(g, m);
    FitsAt(h, n);
    LastContents(g);
    LastContents(h);
    if |a| < |b| {
      var cut := |b| - |a|;
      var front := g[..m];
      Nonempty(g[m], m);
      ListRun(h[n], n, cut);
      assert front != [] by { NothingMeansEmptyLeft(front); }
      LastContents(front);
      assert front[m - 1] == g[m - 1];
      PartedAt(g, m);
      Boundary(g[m - 1], g[m], m - 1, m, h[n].kind);
    }
  }

  lemma NothingMeansEmptyLeft(g: seq<Node>)
    ensures g == [] ==> Flatten(g) == []
  {
  }

  lemma Nonempty(node: Node, position: nat)
    requires NodeFits(node, position)
    ensures Contents(node) != []
  {
  }

  lemma FitsAt(g: seq<Node>, m: nat)
    requires WellGrouped(g) && m < |g|
    ensures NodeFits(g[m], m)
  {
  }

  lemma PartedAt(g: seq<Node>, m: nat)
    requires WellGrouped(g) && 0 < m < |g|
    ensures NodeFits(g[m - 1], m - 1) && NodeFits(g[m], m) && Parted(g[m - 1], g[m])
  {
    var k := m - 1;
    assert Parted(g[k], g[k + 1]);
  }

  lemma NothingMeansEmpty(g: seq<Node>)
    requires WellGrouped(g)
    ensures Flatten(g) == [] <==> g == []
  {
    assert g != [] ==> NodeFits(g[|g| - 1], |g| - 1);
  }

  lemma SameContents(a: Node, b: Node, position: nat)
    requires NodeFits(a, position) && NodeFits(b, position) && Contents(a) == Contents(b)
    ensures a == b
  {
    assert Contents(a) != [] && Contents(a)[0] == Contents(b)[0];
    assert a.ListElement? ==> IsItem(a.items[0], a.kind);
    assert b.ListElement? ==> IsItem(b.items[0], b.kind);
  }

  /** The contract of GroupBlocks leaves no choice: a document has one grouping. */
  lemma {:induction false} GroupingUnique(g: seq<Node>, h: seq<Node>)
    requires WellGrouped(g) && WellGrouped(h) && Flatten(g) == Flatten(h)
    ensures |g| == |h| && g == h
    decreases |g|
  {
    hide NodeFits, Parted, WellGrouped, Flatten, Contents;
    if g != [] && h != [] {
      var m, n := |g| - 1, |h| - 1;
      LastNotShorter(g, h);
      LastNotShorter(h, g);
      LastContents(g);
      LastContents(h);
      assert g == g[..m] + [g[m]] && h == h[..n] + [h[n]];
      WellGroupedSnoc(g[..m], g[m]);
      WellGroupedSnoc(h[..n], h[n]);
      GroupingUnique(g[..m], h[..n]);
      SameContents(g[m], h[n], m);
    } else {
      NothingMeansEmpty(g);
      NothingMeansEmpty(h);
    }
  }

  lemma {:induction false} InFlatten(nodes: seq<Node>, k: nat, node: Node)
    requires k < |nodes| && node in Contents(nodes[k])
    ensures node in Flatten(nodes)
  {
    if k < |nodes| - 1 { InFlatten(nodes[..|nodes| - 1], k, node); }
  }

  lemma {:induction false} FlattenApart(nodes: seq<Node>, j: nat, k: nat)
    requires j < k < |nodes| && nodes[j].Element? && nodes[k].Element?
    requires forall x, y :: 0 <= x < y < |Flatten(nodes)| ==> Flatten(nodes)[x] != Flatten(nodes)[y]
    ensures nodes[j] != nodes[k]
  {
    var front := nodes[..|nodes| - 1];
    LastContents(nodes);
    if k < |nodes| - 1 {
      FlattenApart(front, j, k);
    } else {
      InFlatten(front, j, nodes[j]);
      var x :| 0 <= x < |Flatten(front)| && Flatten(front)[x] == nodes[j];
      assert Flatten(nodes)[x] == nodes[j];
      assert Flatten(nodes)[|Flatten(nodes)| - 1] == nodes[k];
    }
  }

  /** No two siblings share a key, neither at the top nor inside a list. */
  lemma KeysDistinct(blocks: seq<Block>, result: seq<Node>)
    requires IsGrouping(blocks, result)
    ensures forall j, k :: 0 <= j < k < |result| ==> result[j].key != result[k].key
    ensures forall n, j, k :: 0 <= n < |result| && result[n].ListElement? && 0 <= j < k < |result[n].items| ==>
              result[n].items[j].key != result[n].items[k].key
  {
    forall j, k | 0 <= j < k < |result| ensures result[j].key != result[k].key {
      TopKeys(blocks, result, j, k);
    }
    forall n, j, k | 0 <= n < |result| && result[n].ListElement? && 0 <= j < k < |result[n].items|
      ensures result[n].items[j].key != result[n].items[k].key
    {
      ItemKeys(blocks, result, n, j, k);
    }
  }

  lemma BlockKeyInjective(i: nat, j: nat)
    requires "block-" + Decimal(i) == "block-" + Decimal(j)
    ensures i == j
  {
    assert Decimal(i) == ("block-" + Decimal(i))[6..] && Decimal(j) == ("block-" + Decimal(j))[6..];
    DecimalInjective(i, j);
  }

  lemma ListKeyInjective(i: nat, j: nat)
    requires "list-" + Decimal(i) == "list-" + Decimal(j)
    ensures i == j
  {
    assert Decimal(i) == ("list-" + Decimal(i))[5..] && Decimal(j) == ("list-" + Decimal(j))[5..];
    DecimalInjective(i, j);
  }

  lemma KeyTellsNode(blocks: seq<Block>, result: seq<Node>, k: nat)
    requires IsGrouping(blocks, result) && k < |result|
    ensures result[k].ListElement? ==> result[k].key == "list-" + Decimal(k) && result[k].key[0] == 'l'
    ensures result[k].Element? ==>
              && result[k].index < |blocks|
              && result[k] == RenderBlock(blocks[result[k].index], result[k].index)
              && result[k].key[0] == 'b'
  {
    assert NodeFits(result[k], k);
    if result[k].Element? { InFlatten(result, k, result[k]); }
  }

  lemma TopKeys(blocks: seq<Block>, result: seq<Node>, j: nat, k: nat)
    requires IsGrouping(blocks, result) && j < k < |result|
    ensures result[j].key != result[k].key
  {
    KeyTellsNode(blocks, result, j);
    KeyTellsNode(blocks, result, k);
    if result[j].key == result[k].key {
      if result[j].ListElement? {
        ListKeyInjective(j, k);
      } else {
        FlattenApart(result, j, k);
        BlockKeyInjective(result[j].index, result[k].index);
      }
    }
  }

  lemma ItemKeys(blocks: seq<Block>, result: seq<Node>, n: nat, j: nat, k: nat)
    requires IsGrouping(blocks, result) && n < |result| && result[n].ListElement? && j < k < |result[n].items|
    ensures result[n].items[j].key != result[n].items[k].key
  {
    var items := result[n].items;
    assert NodeFits(result[n], n);
    Consecutive(items, j, k);
    InFlatten(result, n, items[j]);
    InFlatten(result, n, items[k]);
    if items[j].key == items[k].key { BlockKeyInjective(items[j].index, items[k].index); }
  }

  lemma {:induction false} Consecutive(items: seq<Node>, j: nat, k: nat)
    requires j <= k < |items| && forall i :: 0 <= i < |items| ==> items[i].Element?
    requires forall i :: 0 <= i < |items| - 1 ==> items[i].index + 1 == items[i + 1].index
    ensures items[k].index == items[j].index + (k - j)
  {
    if j < k {
      Consecutive(items, j, k - 1);
      assert items[k - 1].index + 1 == items[k].index;
    }
  }
}
