/** The bit-array macros of src/libstatgrab/tools.h: an array of 32-bit words used as a
    set of indices. Clients use BitSet and see sets only; words and masks stay in here. */
module Bits {

  /** The shift count `bit % BITS_PER_ITEM`, as the five-bit number that it is. */
  function Offset(bit: nat): bv5 {
    (bit % 32) as bv5
  }

  /** `word |= 1 << (bit % 32)` */
  function WithBit(word: bv32, bit: nat): bv32 {
    word | (1 << Offset(bit))
  }

  /** BIT_ISSET */
  predicate IsSet(words: seq<bv32>, bit: nat)
    requires bit / 32 < |words|
  {
    words[bit / 32] & (1 << Offset(bit)) != 0
  }

  /** The words hold exactly the indices in `members`. */
  ghost predicate Represents(words: seq<bv32>, members: set<nat>) {
    forall bit: nat {:trigger IsSet(words, bit)} | bit < 32 * |words| :: IsSet(words, bit) <==> bit in members
  }

  lemma OrShifted(k: bv5, l: bv5, word: bv32)
    ensures (word | (1 << k)) & (1 << l) != 0 <==> k == l || word & (1 << l) != 0
  {}

  lemma FiveBits(a: nat)
    requires a < 32
    ensures (a as bv5) as nat == a
  {}

  lemma OffsetInjective(k: nat, l: nat)
    ensures Offset(k) == Offset(l) <==> k % 32 == l % 32
  {
    FiveBits(k % 32);
    FiveBits(l % 32);
  }

  lemma SetInWord(word: bv32, k: nat, l: nat)
    ensures (word | (1 << Offset(k))) & (1 << Offset(l)) != 0
            <==> k % 32 == l % 32 || word & (1 << Offset(l)) != 0
  {
    OffsetInjective(k, l);
    OrShifted(Offset(k), Offset(l), word);
  }

  lemma SameWord(j: nat, k: nat)
    requires j / 32 == k / 32
    ensures j % 32 == k % 32 <==> j == k
  {}

  /** BIT_SET adds exactly one index, within a word and across words. */
  lemma WithBitRepresents(words: seq<bv32>, members: set<nat>, bit: nat)
    requires Represents(words, members)
    requires bit < 32 * |words|
    ensures Represents(words[bit / 32 := WithBit(words[bit / 32], bit)], members + {bit})
  {
    var after := words[bit / 32 := WithBit(words[bit / 32], bit)];
    forall j: nat | j < 32 * |words| ensures IsSet(after, j) <==> j in members + {bit} {
      assert IsSet(words, j) <==> j in members;
      if j / 32 == bit / 32 {
        SetInWord(words[bit / 32], bit, j);
        SameWord(j, bit);
      }
    }
  }

  /** Zeroed words represent the empty set. */
  lemma ZeroWords(words: seq<bv32>)
    requires forall i | 0 <= i < |words| :: words[i] == 0
    ensures Represents(words, {})
  {}

  /** The stack arrays `matched` and `valid`: `n / 32 + 1` words, zeroed by memset. */
  class BitSet {
    const words: array<bv32>
    ghost var members: set<nat>

    ghost predicate Valid()
      reads this, words
    {
      && Represents(words[..], members)
      && forall m | m in members :: m < 32 * words.Length
    }

    constructor (n: nat)
      ensures Valid() && fresh(words)
      ensures members == {} && n < 32 * words.Length
    {
      words := new bv32[n / 32 + 1](_ => 0);
      members := {};
      new;
      ZeroWords(words[..]);
    }

    /** BIT_SET */
    method Set(bit: nat)
      requires Valid()
      requires bit < 32 * words.Length
      modifies this, words
      ensures Valid() && members == old(members) + {bit}
    {
      ghost var before := words[..];
      WithBitRepresents(before, members, bit);
      var i := bit / 32;
      var word := WithBit(words[i], bit);
      words[i] := word;
      assert words[..] == before[i := word];
      members := members + {bit};
    }

    /** BIT_ISSET */
    method Test(bit: nat) returns (b: bool)
      requires Valid()
      requires bit < 32 * words.Length
      ensures b <==> bit in members
    {
      b := IsSet(words[..], bit);
    }

    /** BIT_SCAN_FWD has no bound of its own: it stops only at a set bit. */
    method ScanForward(from: nat) returns (bit: nat)
      requires Valid()
      requires exists m :: m in members && from <= m
      ensures from <= bit && bit in members
      ensures forall m | m in members && from <= m :: bit <= m
    {
      bit := from;
      ghost var stop :| stop in members && from <= stop;
      var set_ := Test(bit);
      while !set_
        invariant from <= bit <= stop
        invariant set_ <==> bit in members
        invariant forall m | m in members && from <= m :: bit <= m
        decreases stop - bit
      {
        bit := bit + 1;
        set_ := Test(bit);
      }
    }
  }
}
