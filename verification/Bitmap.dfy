/** inode.c: allocation bitmaps, packed 32 bits to a word.

    A word is given by the positions of its one bits, so `|`, `& ~` and `&` with a single
    bit are union, difference and membership. */
module Bitmaps {

  type Word = set<int>

  /** bitmap_test. */
  predicate IsSet(words: seq<Word>, bit: nat)
    requires bit < 32 * |words|
  {
    bit % 32 in words[bit / 32]
  }

  /** bitmap_set: exactly one bit is added. */
  method Set(words: array<Word>, bit: nat)
    requires bit < 32 * words.Length
    modifies words
    ensures forall b: nat :: b < 32 * words.Length ==> (IsSet(words[..], b) <==> b == bit || IsSet(old(words[..]), b))
  {
    words[bit / 32] := words[bit / 32] + {bit % 32};
  }

  /** bitmap_clear: exactly one bit is taken away. */
  method Clear(words: array<Word>, bit: nat)
    requires bit < 32 * words.Length
    modifies words
    ensures forall b: nat :: b < 32 * words.Length ==> (IsSet(words[..], b) <==> b != bit && IsSet(old(words[..]), b))
  {
    words[bit / 32] := words[bit / 32] - {bit % 32};
  }

  /** bitmap_init. */
  method Init(words: array<Word>)
    modifies words
    ensures forall b: nat :: b < 32 * words.Length ==> !IsSet(words[..], b)
  {
    for i := 0 to words.Length
      invariant forall j :: 0 <= j < i ==> words[j] == {}
    {
      words[i] := {};
    }
  }

  /** bitmap_find_free, and the search of block_alloc: the first clear bit from `from` on. */
  method FindFree(words: array<Word>, from: nat, max: nat) returns (bit: int)
    requires from <= max <= 32 * words.Length
    ensures bit == -1 ==> forall b: nat :: from <= b < max ==> IsSet(words[..], b)
    ensures bit != -1 ==> from <= bit < max && !IsSet(words[..], bit)
    ensures bit != -1 ==> forall b: nat :: from <= b < bit ==> IsSet(words[..], b)
  {
    for i := from to max
      invariant forall b: nat :: from <= b < i ==> IsSet(words[..], b)
    {
      if i % 32 !in words[i / 32] { return i; }
    }
    bit := -1;
  }
}
