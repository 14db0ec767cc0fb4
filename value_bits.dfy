/** `to_binary` (vc.rs): a `u8` value becomes its single little-endian byte, and the
    byte becomes eight booleans, most significant bit first, as `BitVec::from_bytes`
    lays a byte out. `FromBinary` reads such bits back as a binary number. */
module ValueBits {
  import opened Words

  /** The low `n` bits of `v`, most significant first. */
  function MsbFirst(v: nat, n: nat): (r: seq<bool>)
    ensures |r| == n
  {
    if n == 0 then [] else MsbFirst(v / 2, n - 1) + [v % 2 == 1]
  }

  /** The number that `bits` spell out, the first bit being the most significant. */
  function FromBinary(bits: seq<bool>): nat {
    if |bits| == 0 then 0
    else 2 * FromBinary(bits[..|bits| - 1]) + (if bits[|bits| - 1] then 1 else 0)
  }

  /** The number whose little-endian base-256 digits are `bytes`. */
  function LittleEndianValue(bytes: seq<ValueType>): nat {
    if |bytes| == 0 then 0 else bytes[0] + 256 * LittleEndianValue(bytes[1..])
  }

  /** `u8::to_le_bytes`: the little-endian bytes of a `u8`, one byte wide. */
  function ToLeBytes(v: ValueType): (r: seq<ValueType>)
    ensures |r| == 1
    ensures LittleEndianValue(r) == v
  {
    assert [v][1..] == [];
    [v]
  }

  /** Iterating `BitVec::from_bytes(bytes)`: each byte in turn, its most significant
      bit first. */
  function FromBytes(bytes: seq<ValueType>): (r: seq<bool>)
    ensures |r| == OFFSET * |bytes|
  {
    if |bytes| == 0 then [] else MsbFirst(bytes[0], 8) + FromBytes(bytes[1..])
  }

  /** `to_binary`: the eight bits of `elem`'s single byte. */
  function ToBinary(elem: ValueType): (r: seq<bool>)
    ensures |r| == OFFSET
  {
    FromBytes(ToLeBytes(elem))
  }

  /** Position `p` of the expanded bytes is bit `7 - p % 8` of byte `p / 8`. */
  lemma {:induction false} FromBytesBits(bytes: seq<ValueType>)
    ensures forall p | 0 <= p < |FromBytes(bytes)| :: FromBytes(bytes)[p] == Bit(bytes[p / 8], 7 - p % 8)
  {
    if |bytes| > 0 {
      FromBytesBits(bytes[1..]);
      forall p | 0 <= p < |FromBytes(bytes)|
        ensures FromBytes(bytes)[p] == Bit(bytes[p / 8], 7 - p % 8)
      {
        if p < 8 {
          MsbFirstAt(bytes[0], 8, p);
        } else {
          assert FromBytes(bytes)[p] == FromBytes(bytes[1..])[p - 8];
          assert (p - 8) / 8 == p / 8 - 1 && (p - 8) % 8 == p % 8;
        }
      }
    }
  }

  /** `to_binary(elem)` is most significant bit first: entry `j` is bit `7 - j` of `elem`. */
  lemma ToBinaryBits(elem: ValueType)
    ensures forall j | 0 <= j < 8 :: ToBinary(elem)[j] == Bit(elem, 7 - j)
  {
    FromBytesBits(ToLeBytes(elem));
  }

  lemma {:induction false} MsbFirstAt(v: nat, n: nat, j: nat)
    requires j < n
    ensures MsbFirst(v, n)[j] == Bit(v, n - 1 - j)
  {
    if j < n - 1 {
      MsbFirstAt(v / 2, n - 1, j);
      HalveThenDivide(v, Pow2(n - 2 - j));
    }
  }

  lemma {:induction false} MsbFirstValue(v: nat, n: nat)
    ensures FromBinary(MsbFirst(v, n)) == v % Pow2(n)
  {
    if n > 0 {
      var bits := MsbFirst(v, n);
      assert bits[..n - 1] == MsbFirst(v / 2, n - 1);
      MsbFirstValue(v / 2, n - 1);
      HalveThenDivide(v, Pow2(n - 1));
    }
  }

  lemma {:induction false} MsbFirstOfValue(bits: seq<bool>)
    ensures FromBinary(bits) < Pow2(|bits|)
    ensures MsbFirst(FromBinary(bits), |bits|) == bits
  {
    if |bits| > 0 {
      var n := |bits|;
      var init := bits[..n - 1];
      MsbFirstOfValue(init);
      assert bits == init + [bits[n - 1]];
    }
  }

  lemma ToBinaryIsMsbFirst(v: ValueType)
    ensures ToBinary(v) == MsbFirst(v, 8)
  {
    assert [v][1..] == [];
    assert FromBytes([v]) == MsbFirst(v, 8) + FromBytes([]);
  }

  /** Reading the bits of `to_binary(v)` back gives `v`. */
  lemma ToBinaryRoundTrip(v: ValueType)
    ensures FromBinary(ToBinary(v)) == v
  {
    ToBinaryIsMsbFirst(v);
    MsbFirstValue(v, 8);
    assert Pow2(8) == 256;
  }

  /** Every vector of eight bits is `to_binary` of exactly the value it spells out. */
  lemma FromBinaryRoundTrip(bits: seq<bool>)
    requires |bits| == OFFSET
    ensures FromBinary(bits) < 256
    ensures ToBinary(FromBinary(bits) as ValueType) == bits
  {
    MsbFirstOfValue(bits);
    assert Pow2(8) == 256;
    ToBinaryIsMsbFirst(FromBinary(bits));
  }

  /** Distinct values have distinct bit vectors. */
  lemma ToBinaryInjective(v: ValueType, w: ValueType)
    requires ToBinary(v) == ToBinary(w)
    ensures v == w
  {
    ToBinaryRoundTrip(v);
    ToBinaryRoundTrip(w);
  }

  /** The worked example of the crate's own test: 6 is 0b0000_0110. */
  lemma ToBinarySix()
    ensures ToBinary(6) == [false, false, false, false, false, true, true, false]
  {
    ToBinaryIsMsbFirst(6);
  }
}
