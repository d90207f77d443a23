/**
  The streaming renumberer of the document import (saveNodesToDatabase): nodes.jsonl is read
  line by line, every valid line becomes one node row, rows are flushed to COPY in batches,
  and the renumbered nodes are written to nodes.json as they pass.
 */
module Renumber {
  import opened Common
  import opened PhpStrings

  const BATCH_NODES: nat := 5000
  const NODES_PER_CHUNK: nat := 100

  /** A decoded JSON line; the first three fields are overwritten. */
  datatype Node = Node(
    startLine: int, chunkId: int, nodeId: string, content: string,
    footnotes: string, plainText: string, kind: string)

  datatype NodeRow = NodeRow(
    book: string, startLine: int, chunkId: int, nodeId: string, content: string,
    footnotes: string, plainText: string, kind: string)

  /** The helpers the job calls: JSON in and out, id generation per node, id attributes put into the content. */
  datatype Helpers = Helpers(
    decode: string -> Option<Node>,
    encode: Node -> string,
    generateNodeId: nat -> string,
    ensureNodeIdInContent: (string, int, string) -> string)

  /** The nodes on the lines that are neither blank nor undecodable. */
  function ValidNodes(lines: seq<string>, h: Helpers): seq<Node> {
    if lines == [] then []
    else
      var n := |lines| - 1;
      var before := ValidNodes(lines[..n], h);
      var line := Trim(lines[n]);
      if line == "" then before
      else match h.decode(line)
        case None => before
        case Some(node) => before + [node]
  }

  /** The node at index i of the book, with its new position and id. */
  function RenumberedAt(node: Node, i: nat, h: Helpers): Node {
    var startLine := (i + 1) * 100;
    var nodeId := h.generateNodeId(i);
    node.(
      startLine := startLine,
      chunkId := i / NODES_PER_CHUNK * 100,
      nodeId := nodeId,
      content := h.ensureNodeIdInContent(node.content, startLine, nodeId))
  }

  function Renumbered(nodes: seq<Node>, h: Helpers): (r: seq<Node>)
    ensures |r| == |nodes|
  {
    if nodes == [] then []
    else
      var n := |nodes| - 1;
      Renumbered(nodes[..n], h) + [RenumberedAt(nodes[n], n, h)]
  }

  function RowOf(bookId: string, node: Node): NodeRow {
    NodeRow(bookId, node.startLine, node.chunkId, node.nodeId, node.content, node.footnotes, node.plainText, node.kind)
  }

  function RowsOf(bookId: string, nodes: seq<Node>): (r: seq<NodeRow>)
    ensures |r| == |nodes|
  {
    if nodes == [] then []
    else
      var n := |nodes| - 1;
      RowsOf(bookId, nodes[..n]) + [RowOf(bookId, nodes[n])]
  }

  /** The elements of a JSON list, as written between its brackets. */
  function JsonElements(nodes: seq<Node>, h: Helpers): string {
    if nodes == [] then ""
    else
      var n := |nodes| - 1;
      var last := h.encode(nodes[n]);
      if n == 0 then last else JsonElements(nodes[..n], h) + "," + last
  }

  /** Every batch but the last is full and no batch is empty or oversized. */
  ghost predicate FullBatches<T>(batches: seq<seq<T>>, size: nat) {
    && (forall k | 0 <= k < |batches| :: 0 < |batches[k]| <= size)
    && (forall k | 0 <= k < |batches| - 1 :: |batches[k]| == size)
  }

  /** What has been flushed and what is still buffered are the rows so far, and the buffer is not full. */
  ghost predicate Buffered(bookId: string, nodes: seq<Node>, flushed: seq<seq<NodeRow>>, batch: seq<NodeRow>) {
    && Concat(flushed) + batch == RowsOf(bookId, nodes)
    && |batch| < BATCH_NODES
    && forall k | 0 <= k < |flushed| :: |flushed[k]| == BATCH_NODES
  }

  /** One pass over the lines: the batches flushed to the nodes table and the text of nodes.json. */
  method SaveNodes(bookId: string, lines: seq<string>, h: Helpers)
    returns (flushed: seq<seq<NodeRow>>, json: string)
    ensures var nodes := Renumbered(ValidNodes(lines, h), h);
      && Concat(flushed) == RowsOf(bookId, nodes)
      && FullBatches(flushed, 5000)
      && json == "[" + JsonElements(nodes, h) + "]"
  {
    flushed := [];
    json := "[";
    var firstJsonNode := true;
    var batch := [];
    var index := 0;
    ghost var nodes := [];
    var l := 0;
    while l < |lines|
      invariant 0 <= l <= |lines|
      invariant nodes == NodesUpTo(lines, l, h) && |nodes| == index
      invariant Buffered(bookId, nodes, flushed, batch)
      invariant firstJsonNode <==> nodes == []
      invariant json == "[" + JsonElements(nodes, h)
    {
      var chunk := RenumberLine(lines[l], index, h);
      ReadLine(lines, l, h);
      if chunk.Some? {
        flushed, batch := AddRow(bookId, nodes, chunk.value, flushed, batch);
        json := AppendJson(json, firstJsonNode, chunk.value, h, nodes);
        firstJsonNode := false;
        nodes := nodes + [chunk.value];
        index := index + 1;
      }
      l := l + 1;
    }
    assert lines[..l] == lines;
    BufferEnd(bookId, nodes, flushed, batch);
    if batch != [] {
      flushed := flushed + [batch];
    }
    json := json + "]";
  }

  /** The node of one line with its new position, or none for a line that is skipped. */
  method RenumberLine(text: string, index: nat, h: Helpers) returns (chunk: Option<Node>)
    ensures chunk == Taken(text, index, h)
  {
    var line := Trim(text);
    if line == "" {
      return None;
    }
    chunk := h.decode(line);
    if chunk == None {
      return;
    }
    var newStartLine := (index + 1) * 100;
    var chunkIndex := index / NODES_PER_CHUNK;
    var newChunkId := chunkIndex * 100;
    var nodeId := h.generateNodeId(index);
    var content := h.ensureNodeIdInContent(chunk.value.content, newStartLine, nodeId);
    chunk := Some(chunk.value.(
      startLine := newStartLine, chunkId := newChunkId, nodeId := nodeId, content := content));
  }

  function Taken(text: string, index: nat, h: Helpers): Option<Node> {
    var line := Trim(text);
    var decoded := if line == "" then None else h.decode(line);
    match decoded
    case None => None
    case Some(node) => Some(RenumberedAt(node, index, h))
  }

  /** The renumbered nodes of the first l lines. */
  ghost function NodesUpTo(lines: seq<string>, l: nat, h: Helpers): seq<Node>
    requires l <= |lines|
  {
    Renumbered(ValidNodes(lines[..l], h), h)
  }

  lemma ReadLine(lines: seq<string>, l: nat, h: Helpers)
    requires l < |lines|
    ensures var before := NodesUpTo(lines, l, h);
      NodesUpTo(lines, l + 1, h)
      == match Taken(lines[l], |before|, h)
         case None => before
         case Some(node) => before + [node]
  {
    assert lines[..l + 1][..l] == lines[..l];
    var before := ValidNodes(lines[..l], h);
    var line := Trim(lines[l]);
    if line != "" && h.decode(line).Some? {
      AppendNode(before, h.decode(line).value, h);
    }
  }

  /** Append a row to the batch; a full batch is flushed. */
  method AddRow(
    bookId: string, ghost nodes: seq<Node>, chunk: Node, flushed: seq<seq<NodeRow>>, batch: seq<NodeRow>)
    returns (flushed': seq<seq<NodeRow>>, batch': seq<NodeRow>)
    requires Buffered(bookId, nodes, flushed, batch)
    ensures Buffered(bookId, nodes + [chunk], flushed', batch')
  {
    flushed', batch' := flushed, batch + [RowOf(bookId, chunk)];
    assert (nodes + [chunk])[..|nodes|] == nodes;
    assert Concat(flushed) + batch' == RowsOf(bookId, nodes + [chunk]);
    if |batch'| >= BATCH_NODES {
      ConcatSnoc(flushed, batch');
      flushed', batch' := flushed + [batch'], [];
      assert Concat(flushed') + batch' == Concat(flushed');
    }
  }

  method AppendJson(json: string, firstJsonNode: bool, chunk: Node, h: Helpers, ghost nodes: seq<Node>)
    returns (json': string)
    requires json == "[" + JsonElements(nodes, h) && (firstJsonNode <==> nodes == [])
    ensures json' == "[" + JsonElements(nodes + [chunk], h)
  {
    JsonAppend(json, nodes, chunk, h);
    json' := (if firstJsonNode then json else json + ",") + h.encode(chunk);
  }

  lemma BufferEnd(bookId: string, nodes: seq<Node>, flushed: seq<seq<NodeRow>>, batch: seq<NodeRow>)
    requires Buffered(bookId, nodes, flushed, batch)
    ensures var all := if batch == [] then flushed else flushed + [batch];
      Concat(all) == RowsOf(bookId, nodes) && FullBatches(all, BATCH_NODES)
  {
    ConcatSnoc(flushed, batch);
    assert Concat(flushed) + [] == Concat(flushed);
  }

  lemma JsonAppend(json: string, nodes: seq<Node>, chunk: Node, h: Helpers)
    requires json == "[" + JsonElements(nodes, h)
    ensures (if nodes == [] then json else json + ",") + h.encode(chunk) == "[" + JsonElements(nodes + [chunk], h)
  {
    assert (nodes + [chunk])[..|nodes|] == nodes;
  }

  lemma AppendNode(before: seq<Node>, node: Node, h: Helpers)
    ensures Renumbered(before + [node], h) == Renumbered(before, h) + [RenumberedAt(node, |before|, h)]
  {
    assert (before + [node])[..|before|] == before;
  }

  /**
    Each node, in the rows and in nodes.json, is the input's of the same index with a start line of 100, 200, 300, ...,
    its chunk's id, its generated id and the content with that id in it; all else is the input's.
   */
  lemma {:induction false} RowAt(bookId: string, nodes: seq<Node>, h: Helpers, i: nat)
    requires i < |nodes|
    ensures var node, startLine, id := nodes[i], 100 * (i + 1), h.generateNodeId(i);
      var content := h.ensureNodeIdInContent(node.content, startLine, id);
      && Renumbered(nodes, h)[i] == Node(
           startLine, i / 100 * 100, id, content, node.footnotes, node.plainText, node.kind)
      && RowsOf(bookId, Renumbered(nodes, h))[i] == NodeRow(
           bookId, startLine, i / 100 * 100, id, content, node.footnotes, node.plainText, node.kind)
  {
    var n := |nodes| - 1;
    var r := Renumbered(nodes, h);
    assert r[..n] == Renumbered(nodes[..n], h);
    if i < n {
      RowAt(bookId, nodes[..n], h, i);
    }
  }

  /** A chunk id covers exactly one hundred consecutive nodes, or what is left of them at the end of the book. */
  lemma {:induction false} ChunkCovers(bookId: string, nodes: seq<Node>, h: Helpers, c: nat, i: nat)
    requires i < |nodes|
    ensures RowsOf(bookId, Renumbered(nodes, h))[i].chunkId == 100 * c <==> 100 * c <= i < 100 * c + 100
  {
    RowAt(bookId, nodes, h, i);
    ChunkOf(c, i);
  }

  lemma ChunkOf(c: nat, i: nat)
    ensures i / NODES_PER_CHUNK * 100 == 100 * c <==> 100 * c <= i < 100 * c + 100
  {
  }
}
