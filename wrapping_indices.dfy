/** `convert_key_value` as a build without overflow checks runs it (Cargo's release
    profile): `keys[i] * offset` and `keys[i] * offset + offset` wrap modulo 2^64, and a
    range whose end is not above its start collects to nothing. Large keys then share
    index slots with small ones, or get no slots at all, so this is the behaviour the
    checked model in `KeyValue` corrects. */
module WrappingIndices {
  import opened Words
  import opened ValueBits
  import opened KeyValue

  /** `(key*8 .. key*8 + 8).collect()` with wrapping arithmetic: either the eight slots
      `key*8 + j` taken modulo 2^64, or nothing when the range end wraps to 0. */
  function WrappingIndexBlock(key: Usize): (r: seq<Usize>)
    ensures |r| == OFFSET || r == []
    ensures forall j | 0 <= j < |r| :: r[j] == (key * 8 + j) % USIZE_MODULUS
  {
    var lo := (key * 8) % USIZE_MODULUS;
    var hi := (lo + 8) % USIZE_MODULUS;
    if lo < hi then seq(hi - lo, j requires 0 <= j < hi - lo => lo + j) else []
  }

  /** `convert_key_value` with wrapping index arithmetic; only a missing key panics. */
  function WrappingKeyValueEncoding(keys: seq<Usize>, values: seq<ValueType>): (r: Result<Encoding>)
    ensures r.Ok? <==> |values| <= |keys|
    ensures r.Err? ==> r.error == MissingKey(|keys|)
    ensures r.Ok? ==> |r.value.bits| == OFFSET * |values| && |r.value.indices| <= |r.value.bits|
  {
    if |values| == 0 then Ok(Encoding([], []))
    else
      var n := |values| - 1;
      match WrappingKeyValueEncoding(keys, values[..n])
      case Err(e) => Err(e)
      case Ok(done) =>
        if n >= |keys| then Err(MissingKey(n))
        else Ok(Encoding(done.bits + ToBinary(values[n]), done.indices + WrappingIndexBlock(keys[n])))
  }

  /** For keys whose slots fit, wrapping never happens and both builds agree. */
  lemma {:induction false} WrappingAgreesWhenIndicesFit(keys: seq<Usize>, values: seq<ValueType>)
    requires forall i | 0 <= i < |values| && i < |keys| :: IndexFits(keys[i])
    ensures WrappingKeyValueEncoding(keys, values) == KeyValueEncoding(keys, values)
  {
    if |values| > 0 {
      var n := |values| - 1;
      WrappingAgreesWhenIndicesFit(keys, values[..n]);
      if n < |keys| {
        WrappingBlockWhenFits(keys[n]);
      }
    }
  }

  lemma WrappingBlockWhenFits(key: Usize)
    requires IndexFits(key)
    ensures WrappingIndexBlock(key) == IndexBlock(key)
  {
    assert (key * 8) % USIZE_MODULUS == key * 8;
    assert (key * 8 + 8) % USIZE_MODULUS == key * 8 + 8;
  }

  /** Key 2^61 wraps onto key 0's slots: committing value 0 under key 0 and value 255
      under key 2^61 assigns both `false` and `true` to index 0. */
  lemma WrappedKeysCollide()
    ensures var keys: seq<Usize> := [0, USIZE_MODULUS / 8];
      var r := WrappingKeyValueEncoding(keys, [0, 255]);
      && keys[0] != keys[1]
      && r.Ok? && |r.value.indices| == |r.value.bits| == 16
      && r.value.indices[0] == r.value.indices[8] == 0
      && r.value.bits[0] != r.value.bits[8]
  {
    WrappedBlocks();
    WrappingTwoPairs(0, USIZE_MODULUS / 8, 0, 255);
    ToBinaryBits(0);
    ToBinaryBits(255);
    assert Pow2(7) == 128;
  }

  lemma WrappingTwoPairs(key0: Usize, key1: Usize, value0: ValueType, value1: ValueType)
    ensures WrappingKeyValueEncoding([key0, key1], [value0, value1])
         == Ok(Encoding(ToBinary(value0) + ToBinary(value1),
                        WrappingIndexBlock(key0) + WrappingIndexBlock(key1)))
  {
    var values: seq<ValueType> := [value0, value1];
    assert values[..1] == [value0] && values[..1][..0] == [];
    assert WrappingKeyValueEncoding([key0, key1], values[..1][..0]) == Ok(Encoding([], []));
    var first := WrappingKeyValueEncoding([key0, key1], values[..1]);
    assert first == Ok(Encoding([] + ToBinary(value0), [] + WrappingIndexBlock(key0)));
    assert [] + ToBinary(value0) == ToBinary(value0);
    assert [] + WrappingIndexBlock(key0) == WrappingIndexBlock(key0);
  }

  lemma WrappedBlocks()
    ensures WrappingIndexBlock(0) == WrappingIndexBlock(USIZE_MODULUS / 8) == [0, 1, 2, 3, 4, 5, 6, 7]
  {
    assert (USIZE_MODULUS / 8 * 8) % USIZE_MODULUS == 0;
  }

  /** Key 2^61 - 1 gets the empty range `2^64 - 8 .. 0`: its eight bits are emitted with no
      index, and every later pair's bits are paired with the wrong indices. */
  lemma WrappedKeyLosesItsSlots(value: ValueType)
    ensures var r := WrappingKeyValueEncoding([USIZE_MODULUS / 8 - 1], [value]);
      r.Ok? && |r.value.bits| == 8 && |r.value.indices| == 0
  {
    assert [value][..0] == [];
    assert WrappingIndexBlock(USIZE_MODULUS / 8 - 1) == [];
  }

  /** The checked conversion refuses both inputs instead. */
  lemma CheckedRejectsWrappingKeys(value: ValueType)
    ensures KeyValueEncoding([0, USIZE_MODULUS / 8], [0, 255]) == Err(IndexOverflow(1))
    ensures KeyValueEncoding([USIZE_MODULUS / 8 - 1], [value]) == Err(IndexOverflow(0))
  {
    var keys: seq<Usize>, values: seq<ValueType> := [0, USIZE_MODULUS / 8], [0, 255];
    assert values[..1] == [0];
    assert [0] + [USIZE_MODULUS / 8] == keys;
    ExtraKeysIgnored([0], [USIZE_MODULUS / 8], [0]);
    SinglePairEncoding(0, 0);
    assert KeyValueEncoding(keys, values[..1]).Ok?;
    assert !IndexFits(USIZE_MODULUS / 8);
    SinglePairEncoding(USIZE_MODULUS / 8 - 1, value);
  }
}
