/**
  Byte frequency tables, as both Huffman coders count them, and the order in
  which their keys are enumerated.
*/
module Frequencies {
  import opened Prelude

  /** `table` is the frequency table of `data`: it has an entry for exactly
      the bytes that occur in `data`, holding that byte's number of
      occurrences. */
  ghost predicate CountsOf(table: map<Byte, nat>, data: seq<Byte>)
  {
    (forall b :: b in table <==> b in data) &&
    (forall b :: b in table ==> table[b] == multiset(data)[b])
  }

  /** The value stored under `b`, with a missing entry read as 0. */
  function Val(table: map<Byte, nat>, b: Byte): nat
  {
    if b in table then table[b] else 0
  }

  /** The values of the entries with keys `k` and up, added in ascending key
      order (the order in which an object's integer keys are enumerated). */
  function SumFrom(table: map<Byte, nat>, k: nat): nat
    decreases 256 - k
  {
    if k >= 256 then 0 else Val(table, k) + SumFrom(table, k + 1)
  }

  /** `getTotalFrequency`: the sum of all values of the table. */
  function GetTotalFrequency(table: map<Byte, nat>): (r: nat)
    ensures forall b :: b in table ==> table[b] <= r
    ensures r == 0 <==> forall b :: b in table ==> table[b] == 0
  {
    SumFromBounds(table, 0);
    SumFrom(table, 0)
  }

  /** Every value from key `k` on is at most the sum from `k`, and the sum
      is 0 exactly when all those values are 0. */
  lemma {:induction false} SumFromBounds(table: map<Byte, nat>, k: nat)
    ensures forall b: Byte :: k <= b && b in table ==> table[b] <= SumFrom(table, k)
    ensures SumFrom(table, k) == 0 <==> forall b: Byte :: k <= b && b in table ==> table[b] == 0
    decreases 256 - k
  {
    if k < 256 {
      SumFromBounds(table, k + 1);
    }
  }

  /** Adding one to a single entry adds one to every sum that includes it. */
  lemma {:induction false} SumFromBump(t1: map<Byte, nat>, t2: map<Byte, nat>, b: Byte, k: nat)
    requires forall x: Byte :: x != b ==> Val(t1, x) == Val(t2, x)
    requires Val(t1, b) == Val(t2, b) + 1
    ensures SumFrom(t1, k) == SumFrom(t2, k) + (if k <= b then 1 else 0)
    decreases 256 - k
  {
    if k < 256 {
      SumFromBump(t1, t2, b, k + 1);
    }
  }

  /** A table without entries sums to 0. */
  lemma {:induction false} SumFromEmpty(table: map<Byte, nat>, k: nat)
    requires forall x: Byte :: x !in table
    ensures SumFrom(table, k) == 0
    decreases 256 - k
  {
    if k < 256 {
      SumFromEmpty(table, k + 1);
    }
  }

  /** The counts of a frequency table add up to the length of the data it
      was counted from. */
  lemma {:induction false} TotalFrequencyIsLength(table: map<Byte, nat>, data: seq<Byte>)
    requires CountsOf(table, data)
    ensures GetTotalFrequency(table) == |data|
    decreases |data|
  {
    if data == [] {
      SumFromEmpty(table, 0);
    } else {
      var init := data[..|data| - 1];
      var last := data[|data| - 1];
      assert data == init + [last];
      var counted: multiset<Byte> := multiset(init);
      var smaller := map b: Byte | b in init :: counted[b];
      TotalFrequencyIsLength(smaller, init);
      forall x: Byte
        ensures Val(table, x) == Val(smaller, x) + (if x == last then 1 else 0)
      {
        var whole: multiset<Byte> := multiset(data);
        assert whole == counted + multiset{last};
      }
      SumFromBump(table, smaller, last, 0);
    }
  }

  // ---------------------------------------------------------------------
  // First appearance.

  /** The position at which `b` first occurs in `data`. */
  function FirstIndex(data: seq<Byte>, b: Byte): (i: nat)
    requires b in data
    ensures i < |data| && data[i] == b
    ensures forall k :: 0 <= k < i ==> data[k] != b
  {
    if data[0] == b then 0 else 1 + FirstIndex(data[1..], b)
  }

  /** The distinct bytes of `data`, each where it first occurs: the key order
      of an insertion-ordered map filled by one pass over `data`. */
  function FirstAppearance(data: seq<Byte>): seq<Byte>
  {
    if data == [] then []
    else
      var keys := FirstAppearance(data[..|data| - 1]);
      var last := data[|data| - 1];
      if last in keys then keys else keys + [last]
  }

  /** Appending a byte does not move the first occurrence of a byte already
      present, and a new byte first occurs at the end. */
  lemma {:induction false} FirstIndexAppend(init: seq<Byte>, x: Byte, b: Byte)
    requires b in init + [x]
    ensures b in init ==> FirstIndex(init + [x], b) == FirstIndex(init, b)
    ensures b !in init ==> FirstIndex(init + [x], b) == |init|
  {
    assert forall k :: 0 <= k < |init| ==> (init + [x])[k] == init[k];
    if b in init {
      var j := FirstIndex(init, b);
      assert (init + [x])[j] == b;
    }
  }

  /** The key order holds exactly the bytes of the data, each once. */
  lemma {:induction false} FirstAppearanceKeys(data: seq<Byte>)
    ensures forall b :: b in FirstAppearance(data) <==> b in data
    ensures forall i, j :: 0 <= i < j < |FirstAppearance(data)| ==>
      FirstAppearance(data)[i] != FirstAppearance(data)[j]
  {
    if data != [] {
      var init := data[..|data| - 1];
      assert data == init + [data[|data| - 1]];
      FirstAppearanceKeys(init);
    }
  }

  /** The keys are exactly the bytes of `data`, with no repeats, ordered by
      where each first occurs. */
  lemma {:induction false} FirstAppearanceOrder(data: seq<Byte>)
    ensures forall b :: b in FirstAppearance(data) <==> b in data
    ensures forall i, j :: 0 <= i < j < |FirstAppearance(data)| ==>
      FirstAppearance(data)[i] != FirstAppearance(data)[j]
    ensures forall i, j :: 0 <= i < j < |FirstAppearance(data)| ==>
      FirstIndex(data, FirstAppearance(data)[i]) < FirstIndex(data, FirstAppearance(data)[j])
  {
    FirstAppearanceKeys(data);
    if data != [] {
      var init := data[..|data| - 1];
      var last := data[|data| - 1];
      assert data == init + [last];
      FirstAppearanceOrder(init);
      var keys := FirstAppearance(init);
      forall b | b in init
        ensures FirstIndex(data, b) == FirstIndex(init, b)
      {
        FirstIndexAppend(init, last, b);
      }
      if last !in keys {
        FirstIndexAppend(init, last, last);
        forall i | 0 <= i < |keys|
          ensures FirstIndex(data, keys[i]) < FirstIndex(data, last)
        {
          assert keys[i] in init;
        }
      }
    }
  }

}
