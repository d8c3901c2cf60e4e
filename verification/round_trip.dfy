/**
  What the chain count, build, code, encode, decode gives back, for any
  Huffman tree built over the counts of the data: nothing for data made of
  one repeated byte, and the data itself otherwise.
*/
module RoundTrip {
  import opened Prelude
  import opened Frequencies
  import opened HuffmanTrees
  import opened HuffmanCodes

  /** Every byte of the data is a leaf of a Huffman tree over its counts. */
  lemma {:induction false} BytesAreLeaves(tree: Tree, frequency: map<Byte, nat>, data: seq<Byte>)
    requires IsTreeOver(tree, frequency) && CountsOf(frequency, data)
    ensures forall i :: 0 <= i < |data| ==> data[i] in LeafBag(tree)
  {
  }

  /** Data made of one repeated byte: the tree is a single leaf, its code is
      empty, the encoding is empty, and the chain gives back nothing. */
  lemma {:induction false} RepeatedByteRoundTrip(tree: Tree, frequency: map<Byte, nat>, data: seq<Byte>)
    requires IsTreeOver(tree, frequency) && CountsOf(frequency, data) && data != []
    requires forall i :: 0 <= i < |data| ==> data[i] == data[0]
    ensures tree.Leaf?
    ensures HuffmanEncode(data, PathCodes(tree, [])) == []
    ensures Decoding(HuffmanEncode(data, PathCodes(tree, [])), tree) == Ok([])
  {
    SingleByteNoNode(tree, frequency, data);
    BytesAreLeaves(tree, frequency, data);
    assert forall i :: 0 <= i < |data| ==> data[i] == tree.symbol;
    EncodeEmptyCodes(data, PathCodes(tree, []));
  }

  /** Data with two different bytes: the tree has an internal root and the
      chain gives the data back. */
  lemma {:induction false} DistinctBytesRoundTrip(tree: Tree, frequency: map<Byte, nat>, data: seq<Byte>)
    requires IsTreeOver(tree, frequency) && CountsOf(frequency, data)
    requires exists i :: 0 <= i < |data| && data[i] != data[0]
    ensures Decoding(HuffmanEncode(data, PathCodes(tree, [])), tree) == Ok(data)
  {
    BytesAreLeaves(tree, frequency, data);
    var i :| 0 <= i < |data| && data[i] != data[0];
    assert data[i] in LeafBag(tree) && data[0] in LeafBag(tree);
    assert tree.Node?;
    DecodeEncode(tree, data);
  }

  /** A Huffman tree over the counts of data made of one repeated byte is a
      single leaf. */
  lemma {:induction false} SingleByteNoNode(tree: Tree, frequency: map<Byte, nat>, data: seq<Byte>)
    requires IsTreeOver(tree, frequency) && CountsOf(frequency, data) && data != []
    requires forall i :: 0 <= i < |data| ==> data[i] == data[0]
    ensures tree.Leaf?
  {
    forall b
      ensures LeafBag(tree)[b] == multiset{data[0]}[b]
    {
      if b in data {
        var i :| 0 <= i < |data| && data[i] == b;
      }
    }
    assert LeafBag(tree) == multiset{data[0]};
    LeafBagSize(tree);
  }
}
