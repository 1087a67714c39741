/** `utils/bits/bits.go` with no other thread about: the allocator refines a set of ordinals. */
module Bits {
  import opened Words

  newtype int32 = x: int | -0x8000_0000 <= x < 0x8000_0000

  const MAX_INT32: int32 := 0x7fff_ffff

  datatype Allocation = Got(ordinal: int32) | Nil | Panics

  /** Arithmetic on `int32` wraps around. */
  function Wrap(x: int): (r: int)
    ensures -0x8000_0000 <= r < 0x8000_0000
    ensures -0x8000_0000 <= x < 0x8000_0000 ==> r == x
  {
    (x + 0x8000_0000) % 0x1_0000_0000 - 0x8000_0000
  }

  lemma WrapBack(a: int, n: nat)
    requires n <= 0x8000_0000
    ensures Wrap(Wrap(a + n) - a) == Wrap(n)
  {
  }

  class Bits {
    const min: int32
    const max: int32
    const bitmap: array<bv32>

    ghost predicate Valid() {
      && min <= max && max as int - min as int <= MAX_INT32 as int
      && bitmap.Length == (max as int - min as int) / 32 + 1
    }

    /** How many ordinals there are, and how many bits. */
    ghost function Count(): nat
      requires Valid()
    {
      max as int - min as int + 1
    }

    ghost function Capacity(): nat { 32 * bitmap.Length }

    /** The bit an ordinal stands for, wrapping around. */
    ghost function Offset(i: int32): nat { (i as int - min as int) % 0x1_0000_0000 }

    /** Ordinal `i` is handed out when the words are these. */
    ghost predicate Holds(words: seq<bv32>, i: int32)
      requires Valid() && |words| == bitmap.Length && min <= i <= max
    {
      IsSet(words, i as int - min as int)
    }

    ghost function Ordinals(words: seq<bv32>): set<int32>
      requires Valid() && |words| == bitmap.Length
    {
      set i: int32 | min <= i <= max && Holds(words, i)
    }

    /** The ordinals handed out. */
    ghost function Contents(): set<int32>
      requires Valid()
      reads bitmap
    {
      Ordinals(bitmap[..])
    }

    ghost predicate Full()
      requires Valid()
      reads bitmap
    {
      forall i: int32 | min <= i <= max :: i in Contents()
    }

    lemma FullIff()
      requires Valid()
      ensures Full() <==> forall o: nat | o < Count() :: IsSet(bitmap[..], o)
    {
      if Full() {
        forall o: nat | o < Count() ensures IsSet(bitmap[..], o) {
          var i := (min as int + o) as int32;
          assert i in Contents();
        }
      }
    }

    /** `NewBits`; on a wider range `max - min` overflows, and `make` panics or yields too few words. */
    constructor (a: int32, b: int32)
      requires -(MAX_INT32 as int) <= a as int - b as int <= MAX_INT32 as int
      ensures Valid() && fresh(bitmap) && Contents() == {}
      ensures {min, max} == {a, b} && forall o: nat | o < Capacity() :: !IsSet(bitmap[..], o)
    {
      var lo, hi := a, b;
      if hi <= lo {
        lo, hi := hi, lo;
      }
      min, max := lo, hi;
      bitmap := new bv32[((hi - lo) / 32 + 1) as int](_ => 0);
      new;
      forall o: nat | o < Capacity() ensures !IsSet(bitmap[..], o) {
        ZeroWords(bitmap[..], o);
      }
    }

    /** One load and one compare-and-swap at offset `o`, to set the bit or to clear it. */
    method Swap(o: int, set_: bool) returns (ok: bool)
      requires 0 <= o < Capacity()
      modifies bitmap
      ensures ok <==> (IsSet(old(bitmap[..]), o) <==> !set_)
      ensures forall q: nat | q < Capacity() ::
                IsSet(bitmap[..], q) == if ok && q == o then set_ else IsSet(old(bitmap[..]), q)
    {
      hide SetBit;
      hide ClearBit;
      hide Bit;
      var index, pos := o / 32, o % 32;
      ghost var words := bitmap[..];
      var loaded := bitmap[index];
      var expected := if set_ then ClearBit(loaded, pos) else SetBit(loaded, pos);
      ExpectsLoaded(loaded, pos);
      ok := bitmap[index] == expected;
      if ok {
        bitmap[index] := if set_ then SetBit(loaded, pos) else ClearBit(loaded, pos);
        assert bitmap[..] == words[index := if set_ then SetBit(loaded, pos) else ClearBit(loaded, pos)];
        forall q: nat | q < Capacity()
          ensures IsSet(bitmap[..], q) == if q == o then set_ else IsSet(old(bitmap[..]), q)
        {
          UpdateOne(words, o, q);
        }
      }
    }

    /**
     `Allocate`: the least free ordinal, or nil when the range is full. On a full range that ends at the largest
     `int32` the loop counter wraps instead of leaving the loop: the bits that the last word has to spare are
     handed out next, as ordinals outside the range, and after them the index is out of range.
     */
    method Allocate() returns (r: Allocation)
      requires Valid()
      modifies bitmap
      ensures r.Nil? <==> old(Full()) && max < MAX_INT32
      ensures r.Panics? <==>
        old(Full()) && max == MAX_INT32 && forall o: nat | Count() <= o < Capacity() :: IsSet(old(bitmap[..]), o)
      ensures !r.Got? ==> forall o: nat | o < Capacity() :: IsSet(bitmap[..], o) == IsSet(old(bitmap[..]), o)
      ensures r.Got? ==>
        && Offset(r.ordinal) < Capacity() && (forall o: nat | o < Offset(r.ordinal) :: IsSet(old(bitmap[..]), o))
        && (forall o: nat | o < Capacity() ::
              IsSet(bitmap[..], o) == (o == Offset(r.ordinal) || IsSet(old(bitmap[..]), o)))
        && !IsSet(old(bitmap[..]), Offset(r.ordinal))
      ensures r.Got? ==> (old(Full()) <==> !(min <= r.ordinal <= max))
      ensures r.Got? && !old(Full()) ==>
        && Contents() == old(Contents()) + {r.ordinal} && r.ordinal !in old(Contents())
        && forall j: int32 | min <= j < r.ordinal :: j in old(Contents())
      ensures !r.Got? || old(Full()) ==> Contents() == old(Contents())
    {
      FullIff();
      hide IsSet;
      ghost var words := bitmap[..];
      ghost var n;
      r, n := Scan();
      if r.Got? { OrdinalOf(n, r.ordinal); }
      Handed(words, bitmap[..], r, n);
    }

    /** What a scan that stopped at `n` means for the ordinals handed out. */
    lemma Handed(before: seq<bv32>, after: seq<bv32>, r: Allocation, n: nat)
      requires Valid() && |before| == |after| == bitmap.Length && n <= Capacity()
      requires forall o: nat | o < n :: IsSet(before, o)
      requires forall o: nat | o < Capacity() :: IsSet(after, o) == (IsSet(before, o) || (r.Got? && o == n))
      requires r.Got? ==> Offset(r.ordinal) == n && (min <= r.ordinal <= max <==> n < Count())
      ensures Ordinals(after) == if r.Got? && n < Count() then Ordinals(before) + {r.ordinal} else Ordinals(before)
      ensures forall j: int32 | min <= j <= max && j as int - min as int < n :: j in Ordinals(before)
      ensures r.Got? && n < Count() && !IsSet(before, n) ==> r.ordinal !in Ordinals(before)
    {
      hide IsSet;
      forall j: int32 | min <= j <= max
        ensures Holds(after, j) <==> Holds(before, j) || (r.Got? && j == r.ordinal)
        ensures j as int - min as int < n ==> Holds(before, j)
      {
        OrdinalAt(j);
      }
      if r.Got? && n < Count() { OrdinalAt(r.ordinal); }
    }

    /** The ordinal the counter stands at after `n` steps. */
    lemma OrdinalOf(n: nat, i: int32)
      requires Valid() && n < Capacity() && i as int == Wrap(min as int + n) && (n >= Count() ==> max == MAX_INT32)
      ensures Offset(i) == n && (min <= i <= max <==> n < Count())
    {
    }

    lemma OrdinalAt(j: int32)
      requires Valid() && min <= j <= max
      ensures Offset(j) == j as int - min as int < Count()
    {
    }

    /** The loop of `Allocate`, which tries offset after offset; `n` is the one it stopped at. */
    method Scan() returns (r: Allocation, ghost n: nat)
      requires Valid()
      modifies bitmap
      ensures n <= Capacity() && forall o: nat | o < n :: IsSet(old(bitmap[..]), o)
      ensures r.Nil? <==> n == Count() && max < MAX_INT32
      ensures r.Panics? ==> n == Capacity() && max == MAX_INT32
      ensures r.Got? ==>
              && n < Capacity() && !IsSet(old(bitmap[..]), n) && r.ordinal as int == Wrap(min as int + n)
              && (n >= Count() ==> max == MAX_INT32)
      ensures forall o: nat | o < Capacity() ::
                IsSet(bitmap[..], o) == (IsSet(old(bitmap[..]), o) || (r.Got? && o == n))
    {
      hide IsSet;
      var i := min;
      n := 0;
      while i <= max
        invariant n <= Capacity() && n <= 0x8000_0000 && i as int == Wrap(min as int + n)
        invariant n > Count() ==> max == MAX_INT32
        invariant forall o: nat | o < Capacity() :: IsSet(bitmap[..], o) == IsSet(old(bitmap[..]), o)
        invariant forall o: nat | o < n :: IsSet(old(bitmap[..]), o)
        decreases Capacity() - n
      {
        WrapBack(min as int, n);
        var o := Wrap(i as int - min as int);
        if o < 0 || o / 32 >= bitmap.Length { return Panics, n; }
        var ok := Swap(o, true);
        if ok { return Got(i), n; }
        i := if i == MAX_INT32 then -0x8000_0000 else i + 1;
        n := n + 1;
      }
      return Nil, n;
    }

    /** `Allocated`, which despite its name claims the ordinal. */
    method Allocated(i: int32) returns (ok: bool)
      requires Valid()
      modifies bitmap
      ensures ok <==> min <= i <= max && i !in old(Contents())
      ensures Contents() == if ok then old(Contents()) + {i} else old(Contents())
    {
      if i < min || i > max { return false; }
      ok := Swap(i as int - min as int, true);
    }

    method Revoke(i: int32) returns (ok: bool)
      requires Valid()
      modifies bitmap
      ensures ok <==> i in old(Contents())
      ensures Contents() == if ok then old(Contents()) - {i} else old(Contents())
    {
      if i < min || i > max { return false; }
      ok := Swap(i as int - min as int, false);
    }
  }
}
