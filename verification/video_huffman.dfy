/**
  The Huffman codec of the video page: counting, tree building, the code
  table, decoding, and the chain the compress button runs (count, build,
  code, encode, decode).
*/
module VideoHuffman {
  import opened Prelude
  import opened Frequencies
  import opened HuffmanTrees
  import opened HuffmanCodes
  import opened RoundTrip

  /** `calculateFrequency`: one pass over the data, adding one to the
      entry of each byte met (a missing entry counts as 0). */
  method CalculateFrequency(data: seq<Byte>) returns (frequency: map<Byte, nat>)
    ensures CountsOf(frequency, data)
  {
    frequency := map[];
    var i := 0;
    while i < |data|
      invariant 0 <= i <= |data|
      invariant CountsOf(frequency, data[..i])
    {
      var byte := data[i];
      assert data[..i + 1] == data[..i] + [byte];
      frequency := frequency[byte := Val(frequency, byte) + 1];
      i := i + 1;
    }
    assert data[..i] == data;
  }

  /** The leaves `Object.entries(frequency)` yields from key `k` on: one per
      entry, in ascending key order, as an object enumerates integer keys. */
  function LeavesFrom(table: map<Byte, nat>, k: nat): (r: seq<Tree>)
    ensures forall i :: 0 <= i < |r| ==>
      r[i].Leaf? && k <= r[i].symbol && r[i].symbol in table && r[i].weight == table[r[i].symbol]
    ensures forall i, j :: 0 <= i < j < |r| ==> r[i].symbol < r[j].symbol
    decreases 256 - k
  {
    if k >= 256 then []
    else if k in table then [Leaf(k, table[k])] + LeavesFrom(table, k + 1)
    else LeavesFrom(table, k + 1)
  }

  /** The leaves hold each key of the table from `k` on exactly once, their
      frequencies add up to the table's values, and there are none only when
      the table has no such key. */
  lemma {:induction false} LeavesCover(table: map<Byte, nat>, k: nat)
    ensures forall b :: ForestBag(LeavesFrom(table, k))[b] == (if b in table && k <= b then 1 else 0)
    ensures ForestWeight(LeavesFrom(table, k)) == SumFrom(table, k)
    ensures AllOver(LeavesFrom(table, k), table)
    ensures LeavesFrom(table, k) == [] <==> forall b :: b in table ==> b < k
    decreases 256 - k
  {
    if k < 256 {
      LeavesCover(table, k + 1);
      if k in table {
        var rest := LeavesFrom(table, k + 1);
        assert ([Leaf(k, table[k])] + rest)[1..] == rest;
      }
    }
  }

  /** `buildHuffmanTree`: while more than one node is left, sort the nodes
      by frequency, shift off two and push their parent; then `nodes[0]`,
      which is `undefined` for an empty table. */
  method BuildHuffmanTree(frequency: map<Byte, nat>) returns (root: Option<Tree>)
    ensures root.None? <==> frequency == map[]
    ensures root.Some? ==> LeavesFrom(frequency, 0) != [] && root.value == Merge(LeavesFrom(frequency, 0))[0]
    ensures root.Some? ==> IsTreeOver(root.value, frequency)
    ensures root.Some? ==> root.value.weight == GetTotalFrequency(frequency)
  {
    var nodes := LeavesFrom(frequency, 0);
    ghost var leaves := nodes;
    while |nodes| > 1
      invariant Merge(nodes) == Merge(leaves)
      decreases |nodes|
    {
      ghost var before := nodes;
      nodes := SortByFrequency(nodes);
      var left := nodes[0];
      nodes := nodes[1..];
      var right := nodes[0];
      nodes := nodes[1..];
      var newNode := Node(left.weight + right.weight, left, right);
      nodes := nodes + [newNode];
      assert nodes == Step(before);
    }
    LeavesCover(frequency, 0);
    if |nodes| == 0 {
      assert frequency == map[];
      root := None;
    } else {
      MergeBuildsTree(leaves, frequency);
      root := Some(nodes[0]);
    }
  }

  /** `buildHuffmanCodes`: walks the tree, recording `prefix` for the
      symbol of each leaf, extending it by '0' into the left and by '1' into
      the right subtree. The table handed down is filled further and
      returned. */
  method BuildHuffmanCodes(node: Tree, prefix: Bits, codeTable: map<Byte, Bits>)
    returns (table: map<Byte, Bits>)
    ensures table == codeTable + PathCodes(node, prefix)
    decreases node
  {
    if node.Leaf? {
      table := codeTable[node.symbol := prefix];
    } else {
      table := BuildHuffmanCodes(node.left, prefix + [false], codeTable);
      table := BuildHuffmanCodes(node.right, prefix + [true], table);
      assert table == codeTable + (PathCodes(node.left, prefix + [false]) + PathCodes(node.right, prefix + [true]));
    }
  }

  /** `huffmanDecode`: a cursor moves left on '0' and right otherwise; at a
      leaf the symbol is emitted and the cursor goes back to the root.
      Stepping down from a leaf (only a one-leaf tree has its root there)
      reads a property of `null` and throws. */
  method HuffmanDecode(encodedData: Bits, huffmanTree: Tree) returns (result: Result<seq<Byte>>)
    ensures result == Decoding(encodedData, huffmanTree)
  {
    var decodedData: seq<Byte> := [];
    var node := huffmanTree;
    var i := 0;
    assert encodedData[0..] == encodedData;
    assert Prepend([], Decoding(encodedData, huffmanTree)) == Decoding(encodedData, huffmanTree) by {
      var whole := Decoding(encodedData, huffmanTree);
      if whole.Ok? {
        assert [] + whole.value == whole.value;
      }
    }
    while i < |encodedData|
      invariant 0 <= i <= |encodedData|
      invariant Prepend(decodedData, DecodeFrom(huffmanTree, node, encodedData[i..]))
                == Decoding(encodedData, huffmanTree)
    {
      assert encodedData[i..][0] == encodedData[i] && encodedData[i..][1..] == encodedData[i + 1..];
      if node.Leaf? {
        return Err(TypeError);
      }
      node := if encodedData[i] then node.right else node.left;
      if node.Leaf? {
        PrependAssoc(decodedData, [node.symbol], DecodeFrom(huffmanTree, huffmanTree, encodedData[i + 1..]));
        decodedData := decodedData + [node.symbol];
        node := huffmanTree;
      }
      i := i + 1;
    }
    assert decodedData + [] == decodedData;
    result := Ok(decodedData);
  }

  /** The compress button's chain: count, build the tree, build the code
      table, encode, decode. Empty data throws (the tree is `undefined`),
      data of one repeated byte comes back empty (its code is empty), and
      any other data comes back unchanged. */
  method CompressAndRestore(videoData: seq<Byte>) returns (compressedVideo: Result<seq<Byte>>)
    ensures videoData == [] ==> compressedVideo == Err(TypeError)
    ensures videoData != [] && (forall i :: 0 <= i < |videoData| ==> videoData[i] == videoData[0])
            ==> compressedVideo == Ok([])
    ensures (exists i :: 0 <= i < |videoData| && videoData[i] != videoData[0])
            ==> compressedVideo == Ok(videoData)
  {
    var frequency := CalculateFrequency(videoData);
    assert videoData != [] ==> videoData[0] in frequency;
    var huffmanTree := BuildHuffmanTree(frequency);
    if huffmanTree.None? {
      return Err(TypeError);
    }
    var tree := huffmanTree.value;
    var huffmanCodes := BuildHuffmanCodes(tree, [], map[]);
    assert huffmanCodes == PathCodes(tree, []);
    var encodedData := HuffmanEncode(videoData, huffmanCodes);
    compressedVideo := HuffmanDecode(encodedData, tree);
    if forall i :: 0 <= i < |videoData| ==> videoData[i] == videoData[0] {
      RepeatedByteRoundTrip(tree, frequency, videoData);
    } else {
      DistinctBytesRoundTrip(tree, frequency, videoData);
    }
  }
}
