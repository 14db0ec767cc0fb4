/** `convert_key_value` (vc.rs): key-value pairs become a flat bit vector and a parallel
    index vector. Value `i` contributes `to_binary(values[i])`; its key `k` contributes the
    index block `k*8 .. k*8+7`. The Rust function panics when `keys` is shorter than
    `values` (an out-of-bounds `keys[i]`) and, in a build with overflow checks, when
    `keys[i]*8 + 8` exceeds `usize::MAX`; both panics are the `Err` results here. */
module KeyValue {
  import opened Words
  import opened ValueBits

  datatype EncodeError =
    | MissingKey(index: nat)     // `keys[index]` is out of bounds
    | IndexOverflow(index: nat)  // `keys[index] * 8 + 8` does not fit in a `usize`

  datatype Result<T> = Ok(value: T) | Err(error: EncodeError)

  /** The pair of vectors `convert_key_value` returns: `(binary_vec, indices)`. */
  datatype Encoding = Encoding(bits: seq<bool>, indices: seq<Usize>)

  /** The end of key `key`'s index range, `key*8 + 8`, is a `usize`. */
  predicate IndexFits(key: Usize) {
    key * 8 + 8 < USIZE_MODULUS
  }

  /** Pair `i` can be converted: its key exists and its index range fits. */
  predicate PairFits(keys: seq<Usize>, i: nat) {
    i < |keys| && IndexFits(keys[i])
  }

  /** The panic the loop raises at pair `i` when that pair does not fit. */
  function FailureAt(keys: seq<Usize>, i: nat): EncodeError {
    if i < |keys| then IndexOverflow(i) else MissingKey(i)
  }

  /** `(key*8 .. key*8 + 8).collect()`: the index slots owned by `key`; slot `j` divides
      down to the key and leaves remainder `j`. */
  function IndexBlock(key: Usize): (r: seq<Usize>)
    requires IndexFits(key)
    ensures |r| == OFFSET
    ensures forall j | 0 <= j < |r| :: r[j] / 8 == key && r[j] % 8 == j
  {
    seq(OFFSET, j requires 0 <= j < OFFSET => key * 8 + j)
  }

  /** What `convert_key_value(keys, values)` returns: the loop body applied to the
      pairs in input order, stopping at the first pair that panics. */
  function KeyValueEncoding(keys: seq<Usize>, values: seq<ValueType>): (r: Result<Encoding>)
    ensures r.Ok? ==> |values| <= |keys| && |r.value.bits| == |r.value.indices| == OFFSET * |values|
    ensures r.Err? ==> r.error.index < |values|
  {
    if |values| == 0 then Ok(Encoding([], []))
    else
      var n := |values| - 1;
      match KeyValueEncoding(keys, values[..n])
      case Err(e) => Err(e)
      case Ok(done) =>
        if !PairFits(keys, n) then Err(FailureAt(keys, n))
        else Ok(Encoding(done.bits + ToBinary(values[n]), done.indices + IndexBlock(keys[n])))
  }

  /** The loop of `convert_key_value`, appending to two growable vectors. */
  method ConvertKeyValue(keys: seq<Usize>, values: seq<ValueType>) returns (r: Result<Encoding>)
    ensures r == KeyValueEncoding(keys, values)
  {
    var binaryVec: seq<bool> := [];
    var indices: seq<Usize> := [];
    for i := 0 to |values|
      invariant KeyValueEncoding(keys, values[..i]) == Ok(Encoding(binaryVec, indices))
    {
      assert values[..i + 1][..i] == values[..i];
      var valueVec := ToBinary(values[i]);
      if i >= |keys| || !IndexFits(keys[i]) {
        EncodeErrorPersists(keys, values, i + 1);
        return Err(FailureAt(keys, i));
      }
      var indexVec := IndexBlock(keys[i]);
      binaryVec := binaryVec + valueVec;
      indices := indices + indexVec;
    }
    assert values[..|values|] == values;
    return Ok(Encoding(binaryVec, indices));
  }

  /** Once a prefix of the pairs fails, the whole conversion fails the same way. */
  lemma {:induction false} EncodeErrorPersists(keys: seq<Usize>, values: seq<ValueType>, n: nat)
    requires n <= |values|
    requires KeyValueEncoding(keys, values[..n]).Err?
    ensures KeyValueEncoding(keys, values) == KeyValueEncoding(keys, values[..n])
  {
    if n < |values| {
      var init := values[..|values| - 1];
      assert init[..n] == values[..n];
      EncodeErrorPersists(keys, init, n);
    } else {
      assert values[..n] == values;
    }
  }

  /** The conversion succeeds exactly when every value has a key and every key's index
      range fits in a `usize`; extra keys play no part. */
  lemma {:induction false} EncodeSucceedsIff(keys: seq<Usize>, values: seq<ValueType>)
    ensures KeyValueEncoding(keys, values).Ok?
        <==> |values| <= |keys| && forall i | 0 <= i < |values| :: IndexFits(keys[i])
  {
    if |values| > 0 {
      var n := |values| - 1;
      EncodeSucceedsIff(keys, values[..n]);
    }
  }

  /** A failed conversion reports the first pair that does not fit, and the right panic:
      a missing key when `keys` ran out, an overflow otherwise. */
  lemma {:induction false} EncodeFailsAtFirstBadPair(keys: seq<Usize>, values: seq<ValueType>)
    requires KeyValueEncoding(keys, values).Err?
    ensures var i := KeyValueEncoding(keys, values).error.index;
      && i < |values|
      && !PairFits(keys, i)
      && (forall j | 0 <= j < i :: PairFits(keys, j))
      && KeyValueEncoding(keys, values).error == FailureAt(keys, i)
  {
    var n := |values| - 1;
    if KeyValueEncoding(keys, values[..n]).Err? {
      EncodeFailsAtFirstBadPair(keys, values[..n]);
    } else {
      EncodeSucceedsIff(keys, values[..n]);
    }
  }

  /** Both vectors hold eight entries per value, aligned: position `p` carries bit
      `p % 8` of `to_binary(values[p / 8])` and the index `keys[p / 8] * 8 + p % 8`. */
  lemma {:induction false} EncodeLayout(keys: seq<Usize>, values: seq<ValueType>, e: Encoding)
    requires KeyValueEncoding(keys, values) == Ok(e)
    ensures |values| <= |keys|
    ensures |e.bits| == |e.indices| == OFFSET * |values|
    ensures forall p | 0 <= p < |e.bits| :: e.bits[p] == ToBinary(values[p / 8])[p % 8]
    ensures forall p | 0 <= p < |e.indices| :: e.indices[p] == keys[p / 8] * 8 + p % 8
  {
    if |values| > 0 {
      var n := |values| - 1;
      var done := KeyValueEncoding(keys, values[..n]).value;
      EncodeLayout(keys, values[..n], done);
      assert e.bits == done.bits + ToBinary(values[n]);
      assert e.indices == done.indices + IndexBlock(keys[n]);
      forall p | 0 <= p < |e.bits|
        ensures e.bits[p] == ToBinary(values[p / 8])[p % 8]
        ensures e.indices[p] == keys[p / 8] * 8 + p % 8
      {
        if p < 8 * n {
          assert values[..n][p / 8] == values[p / 8];
        } else {
          assert p / 8 == n;
        }
      }
    }
  }

  /** An index names its key and its bit offset: dividing by eight gives the key of the
      value the position belongs to, the remainder gives the position within that value. */
  lemma EncodeIndexLocates(keys: seq<Usize>, values: seq<ValueType>, e: Encoding, p: nat)
    requires KeyValueEncoding(keys, values) == Ok(e)
    requires p < |e.indices|
    ensures p / 8 < |values| <= |keys|
    ensures e.indices[p] / 8 == keys[p / 8]
    ensures e.indices[p] % 8 == p % 8
  {
    EncodeLayout(keys, values, e);
    var key, offset := keys[p / 8], p % 8;
    assert e.indices[p] == 8 * key + offset;
    DivModUnique(e.indices[p], 8, key, offset);
  }

  /** Two positions share an index only if their values were stored under the same key,
      at the same bit offset. */
  lemma SharedIndexSameSlot(keys: seq<Usize>, values: seq<ValueType>, e: Encoding, p: nat, q: nat)
    requires KeyValueEncoding(keys, values) == Ok(e)
    requires p < |e.indices| && q < |e.indices|
    requires e.indices[p] == e.indices[q]
    ensures p / 8 < |values| <= |keys| && q / 8 < |values|
    ensures keys[p / 8] == keys[q / 8] && p % 8 == q % 8
  {
    EncodeIndexLocates(keys, values, e, p);
    EncodeIndexLocates(keys, values, e, q);
  }

  /** The keys in use are pairwise distinct. */
  predicate DistinctKeys(keys: seq<Usize>, n: nat) {
    forall i, j | 0 <= i < j < n && j < |keys| :: keys[i] != keys[j]
  }

  /** No index is repeated. */
  predicate DistinctIndices(indices: seq<Usize>) {
    forall p, q | 0 <= p < q < |indices| :: indices[p] != indices[q]
  }

  /** With distinct keys, no index is handed out twice. */
  lemma DistinctKeysGiveDistinctIndices(keys: seq<Usize>, values: seq<ValueType>, e: Encoding)
    requires KeyValueEncoding(keys, values) == Ok(e)
    requires DistinctKeys(keys, |values|)
    ensures DistinctIndices(e.indices)
  {
    forall p, q | 0 <= p < q < |e.indices| ensures e.indices[p] != e.indices[q] {
      if e.indices[p] == e.indices[q] {
        SharedIndexSameSlot(keys, values, e, p, q);
        assert false;
      }
    }
  }

  /** The slots of a key are eight strictly increasing indices, and an index is among
      them exactly when it divides down to the key. */
  lemma IndexBlockOwnsSlots(key: Usize, x: nat)
    requires IndexFits(key)
    ensures forall a, b | 0 <= a < b < |IndexBlock(key)| :: IndexBlock(key)[a] < IndexBlock(key)[b]
    ensures x in IndexBlock(key) <==> x / 8 == key
  {
    if x / 8 == key {
      assert IndexBlock(key)[x % 8] == x;
    }
  }

  /** Different keys own disjoint index blocks. */
  lemma DisjointIndexBlocks(key1: Usize, key2: Usize)
    requires IndexFits(key1) && IndexFits(key2)
    requires key1 != key2
    ensures forall x :: x in IndexBlock(key1) ==> x !in IndexBlock(key2)
  {
    forall x | x in IndexBlock(key1) ensures x !in IndexBlock(key2) {
      IndexBlockOwnsSlots(key1, x);
      IndexBlockOwnsSlots(key2, x);
    }
  }

  /** Converting a single pair yields its value's bits and its key's block. */
  lemma SinglePairEncoding(key: Usize, value: ValueType)
    ensures KeyValueEncoding([key], [value])
         == if IndexFits(key) then Ok(Encoding(ToBinary(value), IndexBlock(key)))
            else Err(IndexOverflow(0))
  {
    assert [value][..0] == [];
    var empty := KeyValueEncoding([key], []);
    assert empty == Ok(Encoding([], []));
    if IndexFits(key) {
      assert [] + ToBinary(value) == ToBinary(value);
      assert [] + IndexBlock(key) == IndexBlock(key);
    }
  }

  /** Distinct pairs convert to distinct encodings: a substituted key or value never
      re-derives the same bits and indices. */
  lemma SinglePairInjective(key1: Usize, value1: ValueType, key2: Usize, value2: ValueType)
    requires KeyValueEncoding([key1], [value1]).Ok?
    requires KeyValueEncoding([key1], [value1]) == KeyValueEncoding([key2], [value2])
    ensures key1 == key2 && value1 == value2
  {
    SinglePairEncoding(key1, value1);
    SinglePairEncoding(key2, value2);
    assert IndexBlock(key1)[0] == IndexBlock(key2)[0];
    ToBinaryInjective(value1, value2);
  }

  /** The (index, bit) pairs an encoding assigns, with their order forgotten: what an
      engine that multiplies one prime per assigned index sees of the two vectors. */
  function Assignment(bits: seq<bool>, indices: seq<Usize>): (r: set<(Usize, bool)>)
    ensures forall p | 0 <= p < |bits| && p < |indices| :: (indices[p], bits[p]) in r
    ensures forall x | x in r :: exists p | 0 <= p < |bits| && p < |indices| :: x == (indices[p], bits[p])
  {
    set p | 0 <= p < |bits| && p < |indices| :: (indices[p], bits[p])
  }

  /** Even with their order forgotten, the (index, bit) pairs of one converted pair
      determine its key and its value. */
  lemma SinglePairAssignmentInjective(key1: Usize, value1: ValueType, key2: Usize, value2: ValueType)
    requires IndexFits(key1) && IndexFits(key2)
    requires Assignment(ToBinary(value1), IndexBlock(key1)) == Assignment(ToBinary(value2), IndexBlock(key2))
    ensures key1 == key2 && value1 == value2
  {
    var bits1, block1 := ToBinary(value1), IndexBlock(key1);
    var bits2, block2 := ToBinary(value2), IndexBlock(key2);
    assert (block1[0], bits1[0]) in Assignment(bits2, block2);
    var q :| 0 <= q < 8 && (block1[0], bits1[0]) == (block2[q], bits2[q]);
    assert key1 == block1[0] / 8 == block2[q] / 8 == key2;
    forall j | 0 <= j < 8 ensures bits1[j] == bits2[j] {
      assert (block1[j], bits1[j]) in Assignment(bits2, block2);
      var p :| 0 <= p < 8 && (block1[j], bits1[j]) == (block2[p], bits2[p]);
      assert p == block2[p] % 8 == block1[j] % 8 == j;
    }
    assert bits1 == bits2;
    ToBinaryInjective(value1, value2);
  }

  /** The eight positions of pair `i` hold the value's bits and the key's block. */
  lemma {:induction false} EncodeBlock(keys: seq<Usize>, values: seq<ValueType>, e: Encoding, i: nat)
    requires KeyValueEncoding(keys, values) == Ok(e)
    requires i < |values|
    ensures i < |keys| && IndexFits(keys[i])
    ensures 8 * i + 8 <= |e.bits| == |e.indices|
    ensures e.bits[8 * i .. 8 * i + 8] == ToBinary(values[i])
    ensures e.indices[8 * i .. 8 * i + 8] == IndexBlock(keys[i])
  {
    var n := |values| - 1;
    var done := KeyValueEncoding(keys, values[..n]).value;
    assert e.bits == done.bits + ToBinary(values[n]);
    assert e.indices == done.indices + IndexBlock(keys[n]);
    if i < n {
      EncodeBlock(keys, values[..n], done, i);
      assert e.bits[8 * i .. 8 * i + 8] == done.bits[8 * i .. 8 * i + 8];
      assert e.indices[8 * i .. 8 * i + 8] == done.indices[8 * i .. 8 * i + 8];
    } else {
      assert e.bits[8 * n ..] == ToBinary(values[n]);
      assert e.indices[8 * n ..] == IndexBlock(keys[n]);
    }
  }

  /** The eight positions of pair `i` in a batch conversion are exactly what converting
      that pair alone yields, so a single-pair opening matches a batch commitment. */
  lemma EncodeBlockIsSinglePair(keys: seq<Usize>, values: seq<ValueType>, e: Encoding, i: nat)
    requires KeyValueEncoding(keys, values) == Ok(e)
    requires i < |values|
    ensures i < |keys| && 8 * i + 8 <= |e.bits| == |e.indices|
    ensures KeyValueEncoding([keys[i]], [values[i]])
         == Ok(Encoding(e.bits[8 * i .. 8 * i + 8], e.indices[8 * i .. 8 * i + 8]))
  {
    EncodeBlock(keys, values, e, i);
    SinglePairEncoding(keys[i], values[i]);
  }

  /** The bits stored for pair `i` read back as `values[i]`. */
  lemma EncodeValueRoundTrip(keys: seq<Usize>, values: seq<ValueType>, e: Encoding, i: nat)
    requires KeyValueEncoding(keys, values) == Ok(e)
    requires i < |values|
    ensures 8 * i + 8 <= |e.bits|
    ensures FromBinary(e.bits[8 * i .. 8 * i + 8]) == values[i]
  {
    EncodeBlock(keys, values, e, i);
    ToBinaryRoundTrip(values[i]);
  }

  /** Keys beyond the last value are never read. */
  lemma {:induction false} ExtraKeysIgnored(keys: seq<Usize>, extra: seq<Usize>, values: seq<ValueType>)
    requires |values| <= |keys|
    ensures KeyValueEncoding(keys + extra, values) == KeyValueEncoding(keys, values)
  {
    if |values| > 0 {
      ExtraKeysIgnored(keys, extra, values[..|values| - 1]);
      assert (keys + extra)[|values| - 1] == keys[|values| - 1];
    }
  }

  /** The worked example of the crate's own test: keys 0 and 1 with values 4 and 7. */
  lemma ConvertExample()
    ensures KeyValueEncoding([0, 1], [4, 7]) == Ok(Encoding(
      [false, false, false, false, false, true, false, false,
       false, false, false, false, false, true, true, true],
      [0, 1, 2, 3, 4, 5, 6, 7, 8, 9, 10, 11, 12, 13, 14, 15]))
  {
    var bits4 := [false, false, false, false, false, true, false, false];
    var bits7 := [false, false, false, false, false, true, true, true];
    BitsOfFour();
    BitsOfSeven();
    ExampleBlocks();
    EncodeTwoPairs(0, 1, 4, 7);
    assert bits4 + bits7 == [false, false, false, false, false, true, false, false,
                             false, false, false, false, false, true, true, true];
    assert IndexBlock(0) + IndexBlock(1) == [0, 1, 2, 3, 4, 5, 6, 7, 8, 9, 10, 11, 12, 13, 14, 15];
  }

  /** The indices that carry a set bit: the elements whose primes a commitment multiplies. */
  function SetIndices(e: Encoding): (r: set<Usize>)
    requires |e.bits| == |e.indices|
    ensures forall x :: x in r <==> exists p | 0 <= p < |e.bits| :: e.bits[p] && e.indices[p] == x
  {
    set p | 0 <= p < |e.bits| && e.bits[p] :: e.indices[p]
  }

  /** In the crate's commit test, keys 0 and 1 with values 4 and 7 set exactly the
      indices 5, 13, 14 and 15, the four elements whose primes the test multiplies. */
  lemma CommitExampleSetIndices()
    ensures KeyValueEncoding([0, 1], [4, 7]).Ok?
    ensures SetIndices(KeyValueEncoding([0, 1], [4, 7]).value) == {5, 13, 14, 15}
  {
    ConvertExample();
    ExampleSetIndices(KeyValueEncoding([0, 1], [4, 7]).value);
  }

  lemma ExampleSetIndices(e: Encoding)
    requires e.bits == [false, false, false, false, false, true, false, false,
                        false, false, false, false, false, true, true, true]
    requires e.indices == [0, 1, 2, 3, 4, 5, 6, 7, 8, 9, 10, 11, 12, 13, 14, 15]
    ensures SetIndices(e) == {5, 13, 14, 15}
  {
    forall x | x in SetIndices(e) ensures x in {5, 13, 14, 15} {
      var p :| 0 <= p < |e.bits| && e.bits[p] && e.indices[p] == x;
      assert e.indices[p] == p;
    }
    assert e.indices[5] == 5 && e.indices[13] == 13 && e.indices[14] == 14 && e.indices[15] == 15;
  }

  lemma BitsOfFour()
    ensures ToBinary(4) == [false, false, false, false, false, true, false, false]
  {
    ToBinaryIsMsbFirst(4);
  }

  lemma BitsOfSeven()
    ensures ToBinary(7) == [false, false, false, false, false, true, true, true]
  {
    ToBinaryIsMsbFirst(7);
  }

  lemma ExampleBlocks()
    ensures IndexBlock(0) == [0, 1, 2, 3, 4, 5, 6, 7]
    ensures IndexBlock(1) == [8, 9, 10, 11, 12, 13, 14, 15]
  {
  }

  lemma EncodeTwoPairs(key0: Usize, key1: Usize, value0: ValueType, value1: ValueType)
    requires IndexFits(key0) && IndexFits(key1)
    ensures KeyValueEncoding([key0, key1], [value0, value1])
         == Ok(Encoding(ToBinary(value0) + ToBinary(value1), IndexBlock(key0) + IndexBlock(key1)))
  {
    var values: seq<ValueType> := [value0, value1];
    assert values[..1] == [value0];
    ExtraKeysIgnored([key0], [key1], [value0]);
    assert [key0] + [key1] == [key0, key1];
    SinglePairEncoding(key0, value0);
  }
}
