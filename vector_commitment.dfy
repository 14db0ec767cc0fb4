/** The protocol operations of vc.rs: `commit`, `open_at_key`, `verify_at_key`, `update`
    and `get_key_value_elem`. Each converts its pairs with `convert_key_value` and hands
    the two vectors to the binary accumulator engine (`crate::binary`), which is not part
    of this model: it is a parameter, `Engine`, holding the five operations the file
    calls. Big integers (`U2048`) are naturals; witnesses are of the type parameter `W`. */
module VectorCommitment {
  import opened Words
  import opened ValueBits
  import opened KeyValue

  /** `binary::commit`, `binary::batch_open`, `binary::batch_verify`, `binary::update`
      and `binary::get_bit_elems`. */
  datatype Engine<!W> = Engine(
    commit: (nat, seq<bool>, seq<Usize>) -> (nat, nat),
    batchOpen: (nat, nat, seq<bool>, seq<Usize>) -> (W, W),
    batchVerify: (nat, nat, seq<bool>, seq<Usize>, W, W) -> bool,
    update: (nat, nat, nat, seq<bool>, seq<Usize>) -> nat,
    getBitElems: (seq<bool>, seq<Usize>) -> (nat, nat))

  /** `commit`: the new accumulator and the product of the committed elements. */
  function Commit<W>(engine: Engine<W>, accumulator: nat, keys: seq<Usize>, values: seq<ValueType>)
    : (r: Result<(nat, nat)>)
    ensures r.Ok? <==> |values| <= |keys| && forall i | 0 <= i < |values| :: IndexFits(keys[i])
    ensures r.Err? ==> r.error.index < |values| && !PairFits(keys, r.error.index)
    ensures KeyValueEncoding(keys, values).Ok? ==> var enc := KeyValueEncoding(keys, values).value;
      r == Ok(engine.commit(accumulator, enc.bits, enc.indices))
  {
    EncodeSucceedsIff(keys, values);
    match KeyValueEncoding(keys, values)
    case Err(e) =>
      EncodeFailsAtFirstBadPair(keys, values);
      Err(e)
    case Ok(enc) => Ok(engine.commit(accumulator, enc.bits, enc.indices))
  }

  /** `open_at_key`: the engine opens the eight bits of `value` at the eight slots of `key`. */
  function OpenAtKey<W>(engine: Engine<W>, oldState: nat, product: nat, key: Usize, value: ValueType)
    : (r: Result<(W, W)>)
    ensures r.Ok? <==> IndexFits(key)
    ensures r.Ok? ==> r.value == engine.batchOpen(oldState, product, ToBinary(value), IndexBlock(key))
  {
    SinglePairEncoding(key, value);
    match KeyValueEncoding([key], [value])
    case Err(e) => Err(e)
    case Ok(enc) => Ok(engine.batchOpen(oldState, product, enc.bits, enc.indices))
  }

  /** `verify_at_key`: the engine checks the witnesses against the eight bits of `value`
      at the eight slots of `key`, re-derived from the pair itself. */
  function VerifyAtKey<W>(engine: Engine<W>, oldState: nat, accumulator: nat, key: Usize,
                          value: ValueType, piI: W, piE: W): (r: Result<bool>)
    ensures r.Ok? <==> IndexFits(key)
    ensures r.Ok? ==> r.value == engine.batchVerify(oldState, accumulator, ToBinary(value), IndexBlock(key), piI, piE)
  {
    SinglePairEncoding(key, value);
    match KeyValueEncoding([key], [value])
    case Err(e) => Err(e)
    case Ok(enc) => Ok(engine.batchVerify(oldState, accumulator, enc.bits, enc.indices, piI, piE))
  }

  /** `update`: the accumulator after the engine sets the given pairs' bits. */
  function Update<W>(engine: Engine<W>, accumulator: nat, oldState: nat, agg: nat,
                     keys: seq<Usize>, values: seq<ValueType>): (r: Result<nat>)
    ensures r.Ok? <==> |values| <= |keys| && forall i | 0 <= i < |values| :: IndexFits(keys[i])
    ensures r.Err? ==> r.error.index < |values| && !PairFits(keys, r.error.index)
    ensures KeyValueEncoding(keys, values).Ok? ==> var enc := KeyValueEncoding(keys, values).value;
      r == Ok(engine.update(accumulator, oldState, agg, enc.bits, enc.indices))
  {
    EncodeSucceedsIff(keys, values);
    match KeyValueEncoding(keys, values)
    case Err(e) =>
      EncodeFailsAtFirstBadPair(keys, values);
      Err(e)
    case Ok(enc) => Ok(engine.update(accumulator, oldState, agg, enc.bits, enc.indices))
  }

  /** `get_key_value_elem`: the first of the two elements the engine derives from one pair. */
  function GetKeyValueElem<W>(engine: Engine<W>, key: Usize, value: ValueType): (r: Result<nat>)
    ensures r.Ok? <==> IndexFits(key)
    ensures r.Ok? ==> r.value == engine.getBitElems(ToBinary(value), IndexBlock(key)).0
  {
    SinglePairEncoding(key, value);
    match KeyValueEncoding([key], [value])
    case Err(e) => Err(e)
    case Ok(enc) => Ok(engine.getBitElems(enc.bits, enc.indices).0)
  }

  /** What the engine promises for honest use: after committing bits at distinct indices,
      opening any contiguous part of them against the product gives witnesses that verify
      against the new accumulator. */
  ghost predicate OpensCommittedSlices<W>(engine: Engine<W>) {
    forall base: nat, bits: seq<bool>, indices: seq<Usize>, lo: nat, hi: nat
      | |bits| == |indices| && lo <= hi <= |bits| && DistinctIndices(indices) ::
      AcceptsOpenedSlice(engine, base, bits, indices, lo, hi, bits[lo..hi], indices[lo..hi])
  }

  /** What the engine promises against substitution: witnesses opened for part of a
      commitment verify against it only for an assignment of the same (index, bit) pairs.
      The order of the pairs is not bound, since the engine multiplies one prime per pair. */
  ghost predicate BindsOpenedAssignment<W>(engine: Engine<W>) {
    forall base: nat, bits: seq<bool>, indices: seq<Usize>, lo: nat, hi: nat,
           bits2: seq<bool>, indices2: seq<Usize>
      | |bits| == |indices| && lo <= hi <= |bits| && DistinctIndices(indices) ::
      AcceptsOpenedSlice(engine, base, bits, indices, lo, hi, bits2, indices2) ==>
        Assignment(bits2, indices2) == Assignment(bits[lo..hi], indices[lo..hi])
  }

  /** Commit `bits` at `indices` onto `base`, open the slice `lo..hi` against the product,
      and ask the engine whether those witnesses verify `bits2` at `indices2`. */
  ghost predicate AcceptsOpenedSlice<W>(engine: Engine<W>, base: nat, bits: seq<bool>,
                                        indices: seq<Usize>, lo: nat, hi: nat,
                                        bits2: seq<bool>, indices2: seq<Usize>)
    requires lo <= hi <= |bits| == |indices|
  {
    var committed := engine.commit(base, bits, indices);
    var witnesses := engine.batchOpen(base, committed.1, bits[lo..hi], indices[lo..hi]);
    engine.batchVerify(base, committed.0, bits2, indices2, witnesses.0, witnesses.1)
  }

  /** An engine that sees only the set of (index, bit) pairs, as one multiplying a prime
      per pair does, and whose witness is that set. */
  function AssignmentEngine(): (r: Engine<set<(Usize, bool)>>)
    ensures OpensCommittedSlices(r) && BindsOpenedAssignment(r)
  {
    Engine(
      (base: nat, bits: seq<bool>, indices: seq<Usize>) => (base, base),
      (oldState: nat, product: nat, bits: seq<bool>, indices: seq<Usize>)
        => (Assignment(bits, indices), {}),
      (oldState: nat, state: nat, bits: seq<bool>, indices: seq<Usize>,
       piI: set<(Usize, bool)>, piE: set<(Usize, bool)>)
        => Assignment(bits, indices) == piI,
      (accumulator: nat, oldState: nat, agg: nat, bits: seq<bool>, indices: seq<Usize>) => accumulator,
      (bits: seq<bool>, indices: seq<Usize>) => (0, 0))
  }

  /** Commit a batch with distinct keys, open one of its pairs, and the opening verifies:
      `open_at_key` and `verify_at_key` re-derive exactly the slice `commit` stored. */
  lemma OpenThenVerifyAccepts<W>(engine: Engine<W>, base: nat, keys: seq<Usize>,
                                 values: seq<ValueType>, i: nat)
    requires OpensCommittedSlices(engine)
    requires Commit(engine, base, keys, values).Ok?
    requires DistinctKeys(keys, |values|)
    requires i < |values|
    ensures i < |keys|
    ensures var (state, product) := Commit(engine, base, keys, values).value;
      && OpenAtKey(engine, base, product, keys[i], values[i]).Ok?
      && var (piI, piE) := OpenAtKey(engine, base, product, keys[i], values[i]).value;
         VerifyAtKey(engine, base, state, keys[i], values[i], piI, piE) == Ok(true)
  {
    var e := KeyValueEncoding(keys, values).value;
    EncodeBlockIsSinglePair(keys, values, e, i);
    SinglePairEncoding(keys[i], values[i]);
    DistinctKeysGiveDistinctIndices(keys, values, e);
    assert AcceptsOpenedSlice(engine, base, e.bits, e.indices, 8 * i, 8 * i + 8,
                              e.bits[8 * i .. 8 * i + 8], e.indices[8 * i .. 8 * i + 8]);
  }

  /** Commit a batch with distinct keys and open pair `i`: the witnesses fail for any
      other key or value, since no other pair assigns the same (index, bit) pairs. */
  lemma VerifyRejectsSubstitution<W>(engine: Engine<W>, base: nat, keys: seq<Usize>,
                                     values: seq<ValueType>, i: nat, key2: Usize, value2: ValueType)
    requires BindsOpenedAssignment(engine)
    requires Commit(engine, base, keys, values).Ok?
    requires DistinctKeys(keys, |values|)
    requires i < |values|
    requires IndexFits(key2)
    requires key2 != keys[i] || value2 != values[i]
    ensures var (state, product) := Commit(engine, base, keys, values).value;
      && OpenAtKey(engine, base, product, keys[i], values[i]).Ok?
      && var (piI, piE) := OpenAtKey(engine, base, product, keys[i], values[i]).value;
         VerifyAtKey(engine, base, state, key2, value2, piI, piE) == Ok(false)
  {
    var e := KeyValueEncoding(keys, values).value;
    EncodeBlockIsSinglePair(keys, values, e, i);
    SinglePairEncoding(keys[i], values[i]);
    SinglePairEncoding(key2, value2);
    DistinctKeysGiveDistinctIndices(keys, values, e);
    if AcceptsOpenedSlice(engine, base, e.bits, e.indices, 8 * i, 8 * i + 8,
                          ToBinary(value2), IndexBlock(key2)) {
      SinglePairAssignmentInjective(keys[i], values[i], key2, value2);
    }
  }

  /** The crate's open-and-verify test: commit keys 0 and 1 with values 4 and 7, open key 1;
      the opening verifies for (1, 7) and fails for (0, 7) and (1, 4). */
  lemma OpenAndVerifyExample<W>(engine: Engine<W>, base: nat)
    requires OpensCommittedSlices(engine) && BindsOpenedAssignment(engine)
    ensures Commit(engine, base, [0, 1], [4, 7]).Ok?
    ensures var (state, product) := Commit(engine, base, [0, 1], [4, 7]).value;
      && OpenAtKey(engine, base, product, 1, 7).Ok?
      && var (piI, piE) := OpenAtKey(engine, base, product, 1, 7).value;
         && VerifyAtKey(engine, base, state, 1, 7, piI, piE) == Ok(true)
         && VerifyAtKey(engine, base, state, 0, 7, piI, piE) == Ok(false)
         && VerifyAtKey(engine, base, state, 1, 4, piI, piE) == Ok(false)
  {
    var keys: seq<Usize>, values: seq<ValueType> := [0, 1], [4, 7];
    assert IndexFits(0) && IndexFits(1);
    OpenThenVerifyAccepts(engine, base, keys, values, 1);
    VerifyRejectsSubstitution(engine, base, keys, values, 1, 0, 7);
    VerifyRejectsSubstitution(engine, base, keys, values, 1, 1, 4);
  }

  /** The encoding half of the crate's `get_key_value_elem` test: pair (0, 5) hands the
      engine `to_binary(5)` at the indices `0..8`, the vectors the test commits directly. */
  lemma GetKeyValueElemExample<W>(engine: Engine<W>)
    ensures GetKeyValueElem(engine, 0, 5)
         == Ok(engine.getBitElems(ToBinary(5), [0, 1, 2, 3, 4, 5, 6, 7]).0)
  {
    ExampleBlocks();
  }
}
