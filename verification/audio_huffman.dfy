/**
  The Huffman compressor of the audio page: the WAV body (every byte after
  the 44-byte header) is counted into an insertion-ordered map, a tree is
  built with a list kept sorted by frequency, the codes are collected by a
  traversal, and the code bits are packed into bytes behind the unchanged
  header.
*/
module AudioHuffman {
  import opened Prelude
  import opened Frequencies
  import opened HuffmanTrees
  import opened HuffmanCodes
  import opened BitPacking
  import opened RoundTrip

  /** Length of the WAV header kept as it is. */
  const HeaderLength: nat := 44

  /** A `Map` from bytes to counts: its keys in insertion order and the
      value stored under each. */
  datatype FreqMap = FreqMap(keys: seq<Byte>, counts: map<Byte, nat>)
  {
    /** What every `Map` satisfies: no key twice, and a value for exactly
        the keys listed. */
    ghost predicate Valid()
    {
      (forall i, j :: 0 <= i < j < |keys| ==> keys[i] != keys[j]) &&
      (forall b :: b in counts <==> b in keys)
    }

    /** `Map.prototype.set`: a new key goes to the end of the key order, an
        existing key keeps its place. */
    function Set(k: Byte, v: nat): (m: FreqMap)
      requires Valid()
      ensures m.Valid()
      ensures m.counts == counts[k := v]
      ensures k in keys ==> m.keys == keys
      ensures k !in keys ==> m.keys == keys + [k]
    {
      if k in counts then FreqMap(keys, counts[k := v]) else FreqMap(keys + [k], counts[k := v])
    }
  }

  /** The map the counting pass produces: keys in first-appearance order,
      each with its number of occurrences. */
  function FrequenciesOf(data: seq<Byte>): FreqMap
  {
    var occurrences: multiset<Byte> := multiset(data);
    FreqMap(FirstAppearance(data), map b: Byte | b in data :: occurrences[b])
  }

  /** `calculateFrequencies`: one pass over the data, setting each byte's
      entry to its previous value (0 when missing) plus one. */
  method CalculateFrequencies(data: seq<Byte>) returns (freqMap: FreqMap)
    ensures freqMap.keys == FirstAppearance(data)
    ensures CountsOf(freqMap.counts, data)
    ensures freqMap.Valid()
    ensures freqMap == FrequenciesOf(data)
  {
    freqMap := FreqMap([], map[]);
    var i := 0;
    while i < |data|
      invariant 0 <= i <= |data|
      invariant freqMap.keys == FirstAppearance(data[..i])
      invariant CountsOf(freqMap.counts, data[..i])
    {
      var byte := data[i];
      assert data[..i + 1] == data[..i] + [byte];
      CountOneMore(freqMap, data[..i], byte);
      freqMap := freqMap.Set(byte, Val(freqMap.counts, byte) + 1);
      i := i + 1;
    }
    assert data[..i] == data;
    CountedMapIsFrequencies(freqMap, data);
  }

  /** The map of the counting pass over `data` is `FrequenciesOf(data)`, and
      a valid map. */
  lemma {:induction false} CountedMapIsFrequencies(freqMap: FreqMap, data: seq<Byte>)
    requires freqMap.keys == FirstAppearance(data) && CountsOf(freqMap.counts, data)
    ensures freqMap.Valid()
    ensures freqMap == FrequenciesOf(data)
  {
    FirstAppearanceOrder(data);
    assert freqMap.counts == FrequenciesOf(data).counts;
  }

  /** One round of the counting pass: setting `byte` to its count plus one
      turns the map of `data` into the map of `data + [byte]`. */
  lemma {:induction false} CountOneMore(freqMap: FreqMap, data: seq<Byte>, byte: Byte)
    requires freqMap.keys == FirstAppearance(data) && CountsOf(freqMap.counts, data)
    ensures freqMap.Valid()
    ensures freqMap.Set(byte, Val(freqMap.counts, byte) + 1).keys == FirstAppearance(data + [byte])
    ensures CountsOf(freqMap.Set(byte, Val(freqMap.counts, byte) + 1).counts, data + [byte])
  {
    FirstAppearanceKeys(data);
    assert (data + [byte])[..|data|] == data;
    CountOneMoreCounts(freqMap.counts, data, byte);
  }

  lemma {:induction false} CountOneMoreCounts(counts: map<Byte, nat>, data: seq<Byte>, byte: Byte)
    requires CountsOf(counts, data)
    ensures CountsOf(counts[byte := Val(counts, byte) + 1], data + [byte])
  {
    var before: multiset<Byte> := multiset(data);
    var after: multiset<Byte> := multiset(data + [byte]);
    assert after == before + multiset{byte};
    assert forall b :: b in data + [byte] <==> b in data || b == byte;
  }

  /** The leaves `[...freqMap.entries()]` becomes: one per key, in key order. */
  function LeavesOf(keys: seq<Byte>, counts: map<Byte, nat>): (r: seq<Tree>)
    ensures |r| == |keys|
  {
    if keys == [] then [] else [Leaf(keys[0], Val(counts, keys[0]))] + LeavesOf(keys[1..], counts)
  }

  /** The leaves of a valid map hold each key exactly once, with its count. */
  lemma {:induction false} LeavesOfCover(keys: seq<Byte>, counts: map<Byte, nat>)
    requires forall i, j :: 0 <= i < j < |keys| ==> keys[i] != keys[j]
    requires forall b :: b in keys ==> b in counts
    ensures forall b :: ForestBag(LeavesOf(keys, counts))[b] == (if b in keys then 1 else 0)
    ensures AllOver(LeavesOf(keys, counts), counts)
  {
    if keys != [] {
      var rest := LeavesOf(keys[1..], counts);
      assert forall b :: b in keys[1..] ==> b in keys;
      LeavesOfCover(keys[1..], counts);
      assert keys[0] !in keys[1..];
      assert ([Leaf(keys[0], Val(counts, keys[0]))] + rest)[1..] == rest;
      assert forall b :: b in keys <==> b == keys[0] || b in keys[1..];
    }
  }

  /** `buildHuffmanTree`: the leaves are sorted once; then, while more than
      one node is left, two are shifted off the front, their parent is
      pushed, and the list is sorted again. `pq[0]` is `undefined` for an
      empty map. */
  method BuildHuffmanTree(freqMap: FreqMap) returns (root: Option<Tree>)
    requires freqMap.Valid()
    ensures root.None? <==> freqMap.keys == []
    ensures root.Some? ==> root.value == Merge(LeavesOf(freqMap.keys, freqMap.counts))[0]
    ensures root.Some? ==> IsTreeOver(root.value, freqMap.counts)
  {
    ghost var leaves := LeavesOf(freqMap.keys, freqMap.counts);
    var pq := LeavesOf(freqMap.keys, freqMap.counts);
    pq := SortByFrequency(pq);
    SortSorts(leaves);
    MergeAfterSort(leaves);
    while |pq| > 1
      invariant Sorted(pq)
      invariant Merge(pq) == Merge(leaves)
      decreases |pq|
    {
      ghost var before := pq;
      var left := pq[0];
      pq := pq[1..];
      var right := pq[0];
      pq := pq[1..];
      var newNode := Node(left.weight + right.weight, left, right);
      pq := pq + [newNode];
      SortSorted(before);
      assert pq == Step(before);
      SortSorts(pq);
      MergeAfterSort(pq);
      pq := SortByFrequency(pq);
    }
    if |pq| == 0 {
      root := None;
    } else {
      LeavesOfCover(freqMap.keys, freqMap.counts);
      MergeBuildsTree(leaves, freqMap.counts);
      root := Some(pq[0]);
    }
  }

  /** The code table `generateHuffmanCodes` fills through its `traverse`
      closure. */
  class CodeTable {
    var codes: map<Byte, Bits>

    constructor()
      ensures codes == map[]
    {
      codes := map[];
    }

    /** `traverse`: a node with a symbol records `code` for it; any other
        node is walked into on the left with '0' and on the right with
        '1' appended. */
    method Traverse(node: Tree, code: Bits)
      modifies this
      ensures codes == old(codes) + PathCodes(node, code)
      decreases node
    {
      if node.Leaf? {
        codes := codes[node.symbol := code];
      } else {
        Traverse(node.left, code + [false]);
        Traverse(node.right, code + [true]);
        assert codes == old(codes) + (PathCodes(node.left, code + [false]) + PathCodes(node.right, code + [true]));
      }
    }
  }

  /** `generateHuffmanCodes`: the traversal from the root with the empty
      code, collected into a fresh table. */
  method GenerateHuffmanCodes(tree: Tree) returns (huffmanCodes: map<Byte, Bits>)
    ensures huffmanCodes == PathCodes(tree, [])
  {
    var table := new CodeTable();
    table.Traverse(tree, []);
    huffmanCodes := table.codes;
  }

  /** The tree built for a non-empty body. */
  function AudioTree(body: seq<Byte>): Tree
    requires body != []
  {
    FirstAppearanceOrder(body);
    var freqMap := FrequenciesOf(body);
    Merge(LeavesOf(freqMap.keys, freqMap.counts))[0]
  }

  /** The code bits of a non-empty body: each byte's code, in order. */
  function EncodedBody(body: seq<Byte>): Bits
    requires body != []
  {
    HuffmanEncode(body, PathCodes(AudioTree(body), []))
  }

  /** The tree built for a non-empty body is a Huffman tree over the body's
      counts. */
  lemma {:induction false} AudioTreeIsHuffmanTree(body: seq<Byte>)
    requires body != []
    ensures CountsOf(FrequenciesOf(body).counts, body)
    ensures IsTreeOver(AudioTree(body), FrequenciesOf(body).counts)
  {
    FirstAppearanceOrder(body);
    var freqMap := FrequenciesOf(body);
    assert body[0] in freqMap.keys;
    LeavesOfCover(freqMap.keys, freqMap.counts);
    MergeBuildsTree(LeavesOf(freqMap.keys, freqMap.counts), freqMap.counts);
  }

  /** A body of one repeated byte gets the empty code, so nothing follows
      the header. */
  lemma {:induction false} RepeatedByteHeaderOnly(body: seq<Byte>)
    requires body != []
    requires forall i :: 0 <= i < |body| ==> body[i] == body[0]
    ensures EncodedBody(body) == [] && Pack(EncodedBody(body)) == []
  {
    AudioTreeIsHuffmanTree(body);
    RepeatedByteRoundTrip(AudioTree(body), FrequenciesOf(body).counts, body);
  }

  /** A body with two different bytes can be restored: unpacking the packed
      bits with their count and decoding them with the tree gives the body. */
  lemma {:induction false} CompressedBodyDecodes(body: seq<Byte>)
    requires exists i :: 0 <= i < |body| && body[i] != body[0]
    ensures Decoding(Unpack(Pack(EncodedBody(body)), |EncodedBody(body)|), AudioTree(body)) == Ok(body)
  {
    AudioTreeIsHuffmanTree(body);
    UnpackPack(EncodedBody(body));
    DistinctBytesRoundTrip(AudioTree(body), FrequenciesOf(body).counts, body);
  }

  /** The codes of the body's tree are prefix-free, and only leaf symbols
      (bytes of the body) get one. */
  lemma {:induction false} AudioCodesPrefixFree(body: seq<Byte>, a: Byte, b: Byte)
    requires body != []
    ensures a in PathCodes(AudioTree(body), []) <==> a in body
    ensures a in body && b in body && a != b ==>
      a in PathCodes(AudioTree(body), []) && b in PathCodes(AudioTree(body), []) &&
      !(PathCodes(AudioTree(body), [])[a] <= PathCodes(AudioTree(body), [])[b])
  {
    AudioTreeIsHuffmanTree(body);
    CodesCoverLeaves(AudioTree(body), [], a);
    CodesCoverLeaves(AudioTree(body), [], b);
    if a in body && b in body && a != b {
      CodesPrefixFree(AudioTree(body), a, b);
    }
  }

  /** `huffmanCompressWav`: the first 44 bytes are kept, the rest is Huffman
      coded, packed eight bits to a byte and appended. With no bytes after
      the header the tree is `undefined` and the traversal throws. */
  method HuffmanCompressWav(audioData: seq<Byte>) returns (result: Result<seq<Byte>>)
    ensures |audioData| <= HeaderLength ==> result == Err(TypeError)
    ensures |audioData| > HeaderLength ==>
      result == Ok(audioData[..HeaderLength] + Pack(EncodedBody(audioData[HeaderLength..])))
    ensures |audioData| > HeaderLength ==>
      result.Ok? && |result.value| == HeaderLength + (|EncodedBody(audioData[HeaderLength..])| + 7) / 8
  {
    var headerLength := Min(|audioData|, HeaderLength);
    var wavHeader := audioData[..headerLength];
    var wavBody := audioData[headerLength..];

    var freqMap := CalculateFrequencies(wavBody);
    var huffmanTree := BuildHuffmanTree(freqMap);
    if huffmanTree.None? {
      FirstAppearanceOrder(wavBody);
      return Err(TypeError);
    }
    var tree := huffmanTree.value;
    var huffmanCodes := GenerateHuffmanCodes(tree);
    BodyHasCodes(wavBody, freqMap, tree, huffmanCodes);
    var encodedData := EncodeBody(wavBody, huffmanCodes);

    assert encodedData == EncodedBody(wavBody);
    PackGroups(encodedData);

    var compressedData := PackBits(encodedData);
    ghost var packed := compressedData[..];

    var output := new Byte[|wavHeader| + compressedData.Length];
    CopyInto(output, wavHeader, 0);
    assert output[..|wavHeader|] == wavHeader;
    CopyInto(output, compressedData[..], |wavHeader|);
    assert output[..] == wavHeader + packed;
    result := Ok(output[..]);
  }

  /** Every body byte has a code, and the tree is the one `AudioTree`
      describes. */
  lemma {:induction false} BodyHasCodes(body: seq<Byte>, freqMap: FreqMap, tree: Tree, codes: map<Byte, Bits>)
    requires freqMap == FrequenciesOf(body) && CountsOf(freqMap.counts, body) && body != []
    requires tree == Merge(LeavesOf(freqMap.keys, freqMap.counts))[0]
    requires IsTreeOver(tree, freqMap.counts)
    requires codes == PathCodes(tree, [])
    ensures tree == AudioTree(body)
    ensures forall i :: 0 <= i < |body| ==> body[i] in codes
  {
    forall i | 0 <= i < |body|
      ensures body[i] in codes
    {
      assert body[i] in LeafBag(tree);
      CodesCoverLeaves(tree, [], body[i]);
    }
  }

  /** The encoding loop: `encodedData += huffmanCodes.get(byte)` for each
      byte of the body. */
  method EncodeBody(wavBody: seq<Byte>, huffmanCodes: map<Byte, Bits>) returns (encodedData: Bits)
    requires forall i :: 0 <= i < |wavBody| ==> wavBody[i] in huffmanCodes
    ensures encodedData == HuffmanEncode(wavBody, huffmanCodes)
  {
    encodedData := [];
    var i := 0;
    while i < |wavBody|
      invariant 0 <= i <= |wavBody|
      invariant encodedData == HuffmanEncode(wavBody[..i], huffmanCodes)
    {
      var byte := wavBody[i];
      EncodeAppend(wavBody[..i], [byte], huffmanCodes);
      assert wavBody[..i + 1] == wavBody[..i] + [byte];
      assert HuffmanEncode([byte], huffmanCodes) == huffmanCodes[byte] + [];
      encodedData := encodedData + huffmanCodes[byte];
      i := i + 1;
    }
    assert wavBody[..i] == wavBody;
  }

  /** The packing loop: `compressedData[i / 8] = parseInt(substring(i, i + 8), 2)`
      for `i` = 0, 8, 16, ... below the bit count, into an array of
      `ceil(bits / 8)` bytes. */
  method PackBits(encodedData: Bits) returns (compressedData: array<Byte>)
    ensures fresh(compressedData)
    ensures compressedData[..] == Pack(encodedData)
  {
    var byteLength := (|encodedData| + 7) / 8;
    compressedData := new Byte[byteLength];
    PackLength(encodedData);
    var i := 0;
    ghost var g := 0;
    while i < |encodedData|
      invariant i == 8 * g && g <= byteLength && i < |encodedData| + 8
      invariant forall j :: 0 <= j < g ==> compressedData[j] == Pack(encodedData)[j]
      decreases |encodedData| - i
    {
      assert i / 8 == g;
      var group := encodedData[i..Min(i + 8, |encodedData|)];
      PackGroupAt(encodedData, g);
      Pow2AtMost8(|group|);
      compressedData[i / 8] := BitsValue(group);
      i := i + 8;
      g := g + 1;
    }
    assert compressedData[..] == Pack(encodedData);
  }

  /** `result.set(source, offset)`: copies `source` into `target` from
      `offset` on and leaves every other byte as it was. */
  method CopyInto(target: array<Byte>, source: seq<Byte>, offset: nat)
    requires offset + |source| <= target.Length
    modifies target
    ensures target[..] == old(target[..offset]) + source + old(target[offset + |source|..])
  {
    var k := 0;
    while k < |source|
      invariant 0 <= k <= |source|
      invariant forall j :: 0 <= j < offset ==> target[j] == old(target[j])
      invariant forall j :: 0 <= j < k ==> target[offset + j] == source[j]
      invariant forall j :: offset + k <= j < target.Length ==> target[j] == old(target[j])
    {
      target[offset + k] := source[k];
      k := k + 1;
    }
    assert target[..] == old(target[..offset]) + source + old(target[offset + |source|..]);
  }
}
