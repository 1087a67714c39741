/** The bit arithmetic of `utils/bits/bits.go`: `b := 1 << pos`, `old | b`, `old &^ b`. */
module Words {

  // ------------------------------------------------- words and masks

  predicate Has(w: bv32, m: bv32) { w & m != 0 }

  predicate Apart(m: bv32, n: bv32) { m & n == 0 }

  predicate NonZero(m: bv32) { m != 0 }

  function With(w: bv32, m: bv32): bv32 { w | m }

  function Without(w: bv32, m: bv32): bv32 { w & !m }

  lemma WithOther(w: bv32, m: bv32, n: bv32)
    requires Apart(m, n)
    ensures Has(With(w, m), n) == Has(w, n)
  {
    MaskedWith(w, m, n);
    OrZero(w & n, m & n);
  }

  lemma MaskedWith(w: bv32, m: bv32, n: bv32)
    ensures (w | m) & n == (w & n) | (m & n)
  {
  }

  lemma OrZero(x: bv32, k: bv32)
    requires k == 0
    ensures x | k == x
  {
  }

  lemma MaskedWithout(w: bv32, m: bv32, n: bv32)
    ensures (w & !m) & n == w & (n ^ (m & n))
  {
  }

  lemma ZeroXor(w: bv32, n: bv32, k: bv32)
    requires k == 0
    ensures w & (n ^ k) == w & n
  {
  }

  lemma WithoutOther(w: bv32, m: bv32, n: bv32)
    requires Apart(m, n)
    ensures Has(Without(w, m), n) == Has(w, n)
  {
    MaskedWithout(w, m, n);
    ZeroXor(w, n, m & n);
  }

  lemma WithSame(w: bv32, m: bv32)
    requires NonZero(m)
    ensures Has(With(w, m), m) && !Has(Without(w, m), m)
  {
  }

  lemma WithoutAbsent(w: bv32, m: bv32)
    requires !Has(w, m)
    ensures Without(w, m) == w
  {
  }

  lemma WithAfterWithout(w: bv32, m: bv32)
    ensures With(Without(w, m), m) == With(w, m)
  {
    calc {
      With(Without(w, m), m);
      (w & !m) | m;
      w | m;
      With(w, m);
    }
  }

  lemma WithoutAfterWith(w: bv32, m: bv32)
    ensures Without(With(w, m), m) == Without(w, m)
  {
    calc {
      Without(With(w, m), m);
      (w | m) & !m;
      w & !m;
      Without(w, m);
    }
  }

  lemma MaskNonZero(p: bv32)
    requires p < 32
    ensures ((1 as bv32) << p) != 0
  {
  }

  lemma MaskDisjoint(p: bv32, q: bv32)
    requires p < 32 && q < 32 && p != q
    ensures ((1 as bv32) << p) & ((1 as bv32) << q) == 0
  {
  }

  lemma WithPresent(w: bv32, p: bv32)
    requires p < 32 && Has(w, (1 as bv32) << p)
    ensures With(w, (1 as bv32) << p) == w
  {
  }

  // ------------------------------------------------- positions

  function Mask(pos: nat): bv32
    requires pos < 32
  {
    (1 as bv32) << (pos as bv32)
  }

  lemma Widen(p: nat)
    requires p < 32
    ensures (p as bv32) < 32 && (p as bv32) as nat == p
  {
  }

  lemma MasksDisjoint(pos: nat, q: nat)
    requires pos < 32 && q < 32 && pos != q
    ensures Apart(Mask(pos), Mask(q))
  {
    Widen(pos);
    Widen(q);
    MaskDisjoint(pos as bv32, q as bv32);
  }

  lemma MaskSet(pos: nat)
    requires pos < 32
    ensures NonZero(Mask(pos))
  {
    Widen(pos);
    MaskNonZero(pos as bv32);
  }

  predicate Bit(w: bv32, pos: nat)
    requires pos < 32
  {
    Has(w, Mask(pos))
  }

  function SetBit(w: bv32, pos: nat): bv32
    requires pos < 32
  {
    With(w, Mask(pos))
  }

  function ClearBit(w: bv32, pos: nat): bv32
    requires pos < 32
  {
    Without(w, Mask(pos))
  }

  /** Setting or clearing a bit changes that bit only. */
  lemma ChangeOne(w: bv32, pos: nat, q: nat)
    requires pos < 32 && q < 32
    ensures Bit(SetBit(w, pos), q) <==> q == pos || Bit(w, q)
    ensures Bit(ClearBit(w, pos), q) <==> q != pos && Bit(w, q)
  {
    hide Has;
    hide With;
    hide Without;
    hide Apart;
    hide NonZero;
    hide Mask;
    if q == pos {
      MaskSet(pos);
      WithSame(w, Mask(pos));
    } else {
      MasksDisjoint(pos, q);
      WithOther(w, Mask(pos), Mask(q));
      WithoutOther(w, Mask(pos), Mask(q));
    }
  }

  lemma SetPresent(w: bv32, pos: nat)
    requires pos < 32 && Bit(w, pos)
    ensures SetBit(w, pos) == w
  {
    Widen(pos);
    hide Has;
    hide With;
    WithPresent(w, pos as bv32);
  }

  lemma SetAfterClear(w: bv32, pos: nat)
    requires pos < 32
    ensures SetBit(ClearBit(w, pos), pos) == SetBit(w, pos)
    ensures ClearBit(SetBit(w, pos), pos) == ClearBit(w, pos)
    ensures !Bit(w, pos) ==> ClearBit(w, pos) == w
  {
    hide Has;
    hide With;
    hide Without;
    hide Mask;
    WithAfterWithout(w, Mask(pos));
    WithoutAfterWith(w, Mask(pos));
    if !Bit(w, pos) { WithoutAbsent(w, Mask(pos)); }
  }

  /** A compare-and-swap that finds the bit as expected flips it in the word it finds. */
  lemma SwapFlips(word: bv32, loaded: bv32, pos: nat)
    requires pos < 32
    ensures word == ClearBit(loaded, pos) ==> !Bit(word, pos) && SetBit(loaded, pos) == SetBit(word, pos)
    ensures word == SetBit(loaded, pos) ==> Bit(word, pos) && ClearBit(loaded, pos) == ClearBit(word, pos)
  {
    hide SetBit;
    hide ClearBit;
    hide Bit;
    SetAfterClear(loaded, pos);
    ChangeOne(loaded, pos, pos);
  }

  /** What is compared with is the loaded word itself, when the bit was already that way. */
  lemma ExpectsLoaded(loaded: bv32, pos: nat)
    requires pos < 32
    ensures ClearBit(loaded, pos) == loaded <==> !Bit(loaded, pos)
    ensures SetBit(loaded, pos) == loaded <==> Bit(loaded, pos)
  {
    hide SetBit;
    hide ClearBit;
    hide Bit;
    SetAfterClear(loaded, pos);
    ChangeOne(loaded, pos, pos);
    if Bit(loaded, pos) { SetPresent(loaded, pos); }
  }

  // ------------------------------------------------- arrays of words

  /** `ordinalToPos`, and the bit found there. */
  predicate IsSet(words: seq<bv32>, o: nat)
    requires o < 32 * |words|
  {
    Bit(words[o / 32], o % 32)
  }

  lemma UpdateOne(words: seq<bv32>, o: nat, q: nat)
    requires o < 32 * |words| && q < 32 * |words|
    ensures IsSet(words[o / 32 := SetBit(words[o / 32], o % 32)], q) <==> q == o || IsSet(words, q)
    ensures IsSet(words[o / 32 := ClearBit(words[o / 32], o % 32)], q) <==> q != o && IsSet(words, q)
  {
    hide SetBit;
    hide ClearBit;
    hide Bit;
    ChangeOne(words[o / 32], o % 32, q % 32);
    assert q == 32 * (q / 32) + q % 32 && o == 32 * (o / 32) + o % 32;
  }

  lemma ZeroWords(words: seq<bv32>, o: nat)
    requires o < 32 * |words| && words[o / 32] == 0
    ensures !IsSet(words, o)
  {
  }
}
