/**
  Code tables read off a Huffman tree, the encoder that concatenates codes,
  and the decoder that walks the tree bit by bit.

  A bit string is a `seq<bool>`: `false` stands for the character '0' and
  `true` for '1' of the source's code strings.
*/
module HuffmanCodes {
  import opened Prelude
  import opened HuffmanTrees

  type Bits = seq<bool>

  /** The code table filled by the recursive walk: every leaf below `t` gets
      `prefix` followed by its path, '0' for a left and '1' for a right step.
      A later entry for the same symbol overwrites an earlier one, as the
      assignment into the table does. */
  function PathCodes(t: Tree, prefix: Bits): map<Byte, Bits>
  {
    match t
    case Leaf(s, _) => map[s := prefix]
    case Node(_, l, r) => PathCodes(l, prefix + [false]) + PathCodes(r, prefix + [true])
  }

  /** The subtree reached by following `path` from `t`, or None once a step
      would leave a leaf. */
  function Follow(t: Tree, path: Bits): Option<Tree>
  {
    if path == [] then Some(t)
    else match t
      case Leaf(_, _) => None
      case Node(_, l, r) => Follow(if path[0] then r else l, path[1..])
  }

  /** `huffmanEncode`: each byte's code, in input order, joined. A byte with
      no code contributes nothing, as `join` renders `undefined` as ''. */
  function HuffmanEncode(data: seq<Byte>, codes: map<Byte, Bits>): (r: Bits)
    ensures |data| == 1 ==> r == if data[0] in codes then codes[data[0]] else []
  {
    if data == [] then []
    else (if data[0] in codes then codes[data[0]] else []) + HuffmanEncode(data[1..], codes)
  }

  /** Output emitted so far, in front of the outcome of the rest of the walk. */
  function Prepend(out: seq<Byte>, rest: Result<seq<Byte>>): Result<seq<Byte>>
  {
    if rest.Ok? then Ok(out + rest.value) else rest
  }

  /** The decoding walk with the cursor at `cur`: a '0' moves to the left
      child and any other bit to the right one; reaching a leaf emits its
      symbol and puts the cursor back at `root`. Stepping down from a leaf
      reads a property of `null` and throws. */
  function DecodeFrom(root: Tree, cur: Tree, bits: Bits): Result<seq<Byte>>
    decreases |bits|
  {
    if bits == [] then Ok([])
    else match cur
      case Leaf(_, _) => Err(TypeError)
      case Node(_, l, r) =>
        var next := if bits[0] then r else l;
        if next.Leaf? then Prepend([next.symbol], DecodeFrom(root, root, bits[1..]))
        else DecodeFrom(root, next, bits[1..])
  }

  /** What `huffmanDecode` computes: the walk from the root over all bits. */
  function Decoding(bits: Bits, tree: Tree): Result<seq<Byte>>
  {
    DecodeFrom(tree, tree, bits)
  }

  // ---------------------------------------------------------------------
  // The code table.

  /** The table has an entry for exactly the symbols at the leaves. */
  lemma {:induction false} CodesCoverLeaves(t: Tree, prefix: Bits, b: Byte)
    ensures b in PathCodes(t, prefix) <==> b in LeafBag(t)
  {
    if t.Node? {
      CodesCoverLeaves(t.left, prefix + [false], b);
      CodesCoverLeaves(t.right, prefix + [true], b);
    }
  }

  /** At an internal node, a symbol's code comes from the right subtree when
      the symbol is there, and from the left one otherwise. */
  lemma {:induction false} NodeCode(t: Tree, prefix: Bits, b: Byte)
    requires t.Node? && b in LeafBag(t)
    ensures b in PathCodes(t, prefix)
    ensures b in LeafBag(t.right) ==> b in PathCodes(t.right, prefix + [true])
    ensures b !in LeafBag(t.right) ==> b in PathCodes(t.left, prefix + [false])
    ensures PathCodes(t, prefix)[b] ==
      if b in LeafBag(t.right) then PathCodes(t.right, prefix + [true])[b]
      else PathCodes(t.left, prefix + [false])[b]
  {
    CodesCoverLeaves(t.left, prefix + [false], b);
    CodesCoverLeaves(t.right, prefix + [true], b);
  }

  /** The same, with the step into the subtree as a bit: the code is
      that subtree's code from `prefix + [step]`. */
  lemma {:induction false} StepCode(t: Tree, prefix: Bits, b: Byte)
    requires t.Node? && b in LeafBag(t)
    ensures var step := b in LeafBag(t.right);
            var child := if step then t.right else t.left;
            b in LeafBag(child) && b in PathCodes(t, prefix) && b in PathCodes(child, prefix + [step]) &&
            PathCodes(t, prefix)[b] == PathCodes(child, prefix + [step])[b]
  {
    NodeCode(t, prefix, b);
  }

  /** Every code starts with the prefix the walk began with: starting the
      walk with `p + q` puts `p` in front of each code of the walk from `q`. */
  lemma {:induction false} CodesShift(t: Tree, p: Bits, q: Bits, b: Byte)
    requires b in LeafBag(t)
    ensures b in PathCodes(t, p + q) && b in PathCodes(t, q)
    ensures PathCodes(t, p + q)[b] == p + PathCodes(t, q)[b]
  {
    if t.Node? {
      var step := b in LeafBag(t.right);
      StepCode(t, p + q, b);
      StepCode(t, q, b);
      assert (p + q) + [step] == p + (q + [step]);
      CodesShift(if step then t.right else t.left, p, q + [step], b);
    }
  }

  /** At an internal node, a symbol's code is the step into the subtree that
      holds it, followed by its code within that subtree. */
  lemma {:induction false} CodeOfChild(t: Tree, b: Byte)
    requires t.Node? && b in LeafBag(t)
    ensures b in PathCodes(t, [])
    ensures b in LeafBag(t.right) ==>
      b in PathCodes(t.right, []) && PathCodes(t, [])[b] == [true] + PathCodes(t.right, [])[b]
    ensures b !in LeafBag(t.right) ==>
      b in PathCodes(t.left, []) && PathCodes(t, [])[b] == [false] + PathCodes(t.left, [])[b]
  {
    NodeCode(t, [], b);
    assert [] + [true] == [true] + [] == [true];
    assert [] + [false] == [false] + [] == [false];
    if b in LeafBag(t.right) {
      CodesShift(t.right, [true], [], b);
    } else {
      CodesShift(t.left, [false], [], b);
    }
  }

  /** A symbol's code is a root-to-leaf path: following it from the root
      ends at a leaf holding that symbol. */
  lemma {:induction false} CodeIsPath(t: Tree, b: Byte)
    requires b in LeafBag(t)
    ensures b in PathCodes(t, [])
    ensures Follow(t, PathCodes(t, [])[b]).Some?
    ensures Follow(t, PathCodes(t, [])[b]).value.Leaf?
    ensures Follow(t, PathCodes(t, [])[b]).value.symbol == b
  {
    CodesCoverLeaves(t, [], b);
    if t.Node? {
      CodeOfChild(t, b);
      var code := PathCodes(t, [])[b];
      if b in LeafBag(t.right) {
        CodeIsPath(t.right, b);
        assert code[0] && code[1..] == PathCodes(t.right, [])[b];
      } else {
        CodeIsPath(t.left, b);
        assert !code[0] && code[1..] == PathCodes(t.left, [])[b];
      }
    }
  }

  /** Following `x + y` is following `x`, then `y` from where `x` ends. */
  lemma {:induction false} FollowAppend(t: Tree, x: Bits, y: Bits)
    ensures Follow(t, x + y) == if Follow(t, x).Some? then Follow(Follow(t, x).value, y) else None
  {
    if x == [] {
      assert x + y == y;
    } else if t.Node? {
      assert (x + y)[0] == x[0] && (x + y)[1..] == x[1..] + y;
      FollowAppend(if x[0] then t.right else t.left, x[1..], y);
    }
  }

  /** The table is prefix-free: no symbol's code begins another symbol's. */
  lemma {:induction false} CodesPrefixFree(t: Tree, a: Byte, b: Byte)
    requires a in PathCodes(t, []) && b in PathCodes(t, []) && a != b
    ensures !(PathCodes(t, [])[a] <= PathCodes(t, [])[b])
  {
    var codes := PathCodes(t, []);
    CodesCoverLeaves(t, [], a);
    CodesCoverLeaves(t, [], b);
    if codes[a] <= codes[b] {
      var rest := codes[b][|codes[a]|..];
      assert codes[b] == codes[a] + rest;
      CodeIsPath(t, a);
      CodeIsPath(t, b);
      FollowAppend(t, codes[a], rest);
    }
  }

  /** A tree with two or more leaves gives every symbol a non-empty code. */
  lemma {:induction false} CodesOfNodeNonEmpty(t: Tree, b: Byte)
    requires t.Node? && b in LeafBag(t)
    ensures b in PathCodes(t, []) && PathCodes(t, [])[b] != []
  {
    CodeIsPath(t, b);
  }

  // ---------------------------------------------------------------------
  // Encoding.

  /** Encoding is in input order: the bits of `a + b` are those of `a`
      followed by those of `b`. */
  lemma {:induction false} EncodeAppend(a: seq<Byte>, b: seq<Byte>, codes: map<Byte, Bits>)
    ensures HuffmanEncode(a + b, codes) == HuffmanEncode(a, codes) + HuffmanEncode(b, codes)
  {
    if a == [] {
      assert a + b == b;
    } else {
      assert (a + b)[0] == a[0] && (a + b)[1..] == a[1..] + b;
      EncodeAppend(a[1..], b, codes);
    }
  }


  /** When every byte's code is empty, the encoding is empty. */
  lemma {:induction false} EncodeEmptyCodes(data: seq<Byte>, codes: map<Byte, Bits>)
    requires forall i :: 0 <= i < |data| ==> data[i] in codes && codes[data[i]] == []
    ensures HuffmanEncode(data, codes) == []
  {
    if data != [] {
      EncodeEmptyCodes(data[1..], codes);
    }
  }

  /** The summed lengths of the codes of `data`, added from the last byte
      back (a byte without a code counts 0). */
  function CodeLength(data: seq<Byte>, codes: map<Byte, Bits>): nat
  {
    if data == [] then 0
    else
      var last := data[|data| - 1];
      CodeLength(data[..|data| - 1], codes) + (if last in codes then |codes[last]| else 0)
  }

  /** The encoding is as long as the codes of its bytes together. */
  lemma {:induction false} EncodeLength(data: seq<Byte>, codes: map<Byte, Bits>)
    ensures |HuffmanEncode(data, codes)| == CodeLength(data, codes)
    decreases |data|
  {
    if data != [] {
      var init := data[..|data| - 1];
      var last := data[|data| - 1];
      assert data == init + [last];
      EncodeAppend(init, [last], codes);
      EncodeLength(init, codes);
      assert [last][1..] == [];
    }
  }

  /** Byte `i`'s code sits in the encoding right after the codes of the
      bytes before it. */
  lemma {:induction false} EncodePlacesCodes(data: seq<Byte>, codes: map<Byte, Bits>, i: nat)
    requires i < |data| && data[i] in codes
    ensures CodeLength(data[..i + 1], codes) == CodeLength(data[..i], codes) + |codes[data[i]]|
    ensures CodeLength(data[..i + 1], codes) <= |HuffmanEncode(data, codes)|
    ensures HuffmanEncode(data, codes)[CodeLength(data[..i], codes)..CodeLength(data[..i + 1], codes)]
            == codes[data[i]]
  {
    var before := data[..i];
    var rest := data[i + 1..];
    assert data == before + [data[i]] + rest;
    assert data[..i + 1][..i] == before;
    EncodeAppend(before + [data[i]], rest, codes);
    EncodeAppend(before, [data[i]], codes);
    assert [data[i]][1..] == [];
    assert HuffmanEncode([data[i]], codes) == codes[data[i]];
    EncodeLength(before, codes);
    EncodeLength(data[..i + 1], codes);
  }

  // ---------------------------------------------------------------------
  // Decoding.

  lemma {:induction false} PrependAssoc(a: seq<Byte>, b: seq<Byte>, r: Result<seq<Byte>>)
    ensures Prepend(a, Prepend(b, r)) == Prepend(a + b, r)
  {
    if r.Ok? {
      assert a + (b + r.value) == (a + b) + r.value;
    }
  }

  /** Walking along a path that ends at a leaf emits that leaf's symbol and
      continues from the root with whatever follows the path. */
  lemma {:induction false} DecodePath(root: Tree, cur: Tree, path: Bits, rest: Bits)
    requires cur.Node?
    requires Follow(cur, path).Some? && Follow(cur, path).value.Leaf?
    ensures DecodeFrom(root, cur, path + rest)
            == Prepend([Follow(cur, path).value.symbol], DecodeFrom(root, root, rest))
  {
    assert path != [];
    var next := if path[0] then cur.right else cur.left;
    assert (path + rest)[0] == path[0] && (path + rest)[1..] == path[1..] + rest;
    if next.Leaf? {
      assert path[1..] == [];
      assert path[1..] + rest == rest;
    } else {
      DecodePath(root, next, path[1..], rest);
    }
  }

  /** Decoding what the tree's own table encodes gives the input back, for a
      tree with at least two leaves and input drawn from its leaves. */
  lemma {:induction false} DecodeEncode(t: Tree, data: seq<Byte>)
    requires t.Node?
    requires forall i :: 0 <= i < |data| ==> data[i] in LeafBag(t)
    ensures Decoding(HuffmanEncode(data, PathCodes(t, [])), t) == Ok(data)
  {
    var codes := PathCodes(t, []);
    if data != [] {
      CodeIsPath(t, data[0]);
      DecodeEncode(t, data[1..]);
      var rest := HuffmanEncode(data[1..], codes);
      DecodePath(t, t, codes[data[0]], rest);
      assert data == [data[0]] + data[1..];
    }
  }

  /** Bits that stop inside the tree, short of a leaf, emit nothing. */
  lemma {:induction false} DecodePartialPath(root: Tree, cur: Tree, path: Bits)
    requires cur.Node?
    requires Follow(cur, path).Some? && Follow(cur, path).value.Node?
    ensures DecodeFrom(root, cur, path) == Ok([])
  {
    if path != [] {
      var next := if path[0] then cur.right else cur.left;
      if next.Node? {
        DecodePartialPath(root, next, path[1..]);
      }
    }
  }


  /** Trailing bits that do not reach a leaf are dropped: decoding the
      encoding of `data` followed by such bits still gives `data`. */
  lemma {:induction false} DecodeIgnoresTrailingBits(t: Tree, data: seq<Byte>, tail: Bits)
    requires t.Node?
    requires forall i :: 0 <= i < |data| ==> data[i] in LeafBag(t)
    requires Follow(t, tail).Some? && Follow(t, tail).value.Node?
    ensures Decoding(HuffmanEncode(data, PathCodes(t, [])) + tail, t) == Ok(data)
  {
    var codes := PathCodes(t, []);
    if data == [] {
      assert HuffmanEncode(data, codes) + tail == tail;
      DecodePartialPath(t, t, tail);
    } else {
      CodeIsPath(t, data[0]);
      DecodeIgnoresTrailingBits(t, data[1..], tail);
      var rest := HuffmanEncode(data[1..], codes);
      assert HuffmanEncode(data, codes) + tail == codes[data[0]] + (rest + tail);
      DecodePath(t, t, codes[data[0]], rest + tail);
      assert data == [data[0]] + data[1..];
    }
  }
}
