/** A counting Bloom filter with 4096 eight-bit counters and two slots per hash.
    Counters stick at 255: a full counter is never changed again. */
module BloomFilter {

  newtype u8 = x: int | 0 <= x < 256

  const BLOOM_HASH_MASK: bv32 := 0x00ffffff
  const ARRAY_SIZE: nat := 4096

  function Hash1(hash: bv32): (r: nat)
    ensures r < ARRAY_SIZE
  {
    (hash & 0xfff) as nat
  }

  function Hash2(hash: bv32): (r: nat)
    ensures r < ARRAY_SIZE
  {
    ((hash >> 12) & 0xfff) as nat
  }

  /** The filter does not look at the top eight bits of a hash. */
  lemma SlotsIgnoreTopByte(hash: bv32)
    ensures Hash1(hash & BLOOM_HASH_MASK) == Hash1(hash)
    ensures Hash2(hash & BLOOM_HASH_MASK) == Hash2(hash)
  {
    MaskedBits(hash);
  }

  lemma MaskedBits(hash: bv32)
    ensures (hash & 0x00ffffff) & 0xfff == hash & 0xfff
    ensures ((hash & 0x00ffffff) >> 12) & 0xfff == (hash >> 12) & 0xfff
  {
  }

  /** Nor does it look at anything less: no two hashes that differ in the other bits share
      both slots. */
  lemma SlotsTellHashesApart(a: bv32, b: bv32)
    requires Hash1(a) == Hash1(b) && Hash2(a) == Hash2(b)
    ensures a & BLOOM_HASH_MASK == b & BLOOM_HASH_MASK
  {
    FirstSlotBits(a, b);
    SecondSlotBits(a, b);
    BitsInTwo(a, b);
  }

  lemma FirstSlotBits(a: bv32, b: bv32)
    requires Hash1(a) == Hash1(b)
    ensures a & 0xfff == b & 0xfff
  {
    SameNumberSameBits(a & 0xfff, b & 0xfff);
  }

  lemma SecondSlotBits(a: bv32, b: bv32)
    requires Hash2(a) == Hash2(b)
    ensures (a >> 12) & 0xfff == (b >> 12) & 0xfff
  {
    SameNumberSameBits((a >> 12) & 0xfff, (b >> 12) & 0xfff);
  }

  lemma SameNumberSameBits(x: bv32, y: bv32)
    requires x as nat == y as nat
    ensures x == y
  {
    assert (x as nat) as bv32 == x && (y as nat) as bv32 == y;
  }

  lemma BitsInTwo(a: bv32, b: bv32)
    requires a & 0xfff == b & 0xfff && (a >> 12) & 0xfff == (b >> 12) & 0xfff
    ensures a & 0x00ffffff == b & 0x00ffffff
  {
  }

  /** How often one hash hits a slot: both of its slots may be the same. */
  function HitsOf(hash: bv32, slot: nat): nat {
    SlotHits(Hash1(hash), Hash2(hash), slot)
  }

  function SlotHits(first: nat, second: nat, slot: nat): nat {
    (if first == slot then 1 else 0) + (if second == slot then 1 else 0)
  }

  function Hits(held: seq<bv32>, slot: nat): nat {
    if |held| == 0 then 0 else Hits(held[..|held| - 1], slot) + HitsOf(held[|held| - 1], slot)
  }

  lemma {:induction false} HitsOfConcat(a: seq<bv32>, b: seq<bv32>, slot: nat)
    ensures Hits(a + b, slot) == Hits(a, slot) + Hits(b, slot)
  {
    if b == [] {
      assert a + b == a;
    } else {
      HitsOfConcat(a, b[..|b| - 1], slot);
      assert (a + b)[..|a + b| - 1] == a + b[..|b| - 1];
    }
  }

  function Without(held: seq<bv32>, at: nat): seq<bv32>
    requires at < |held|
  {
    held[..at] + held[at + 1..]
  }

  lemma HitsWithout(held: seq<bv32>, at: nat, slot: nat)
    requires at < |held|
    ensures Hits(Without(held, at), slot) + HitsOf(held[at], slot) == Hits(held, slot)
  {
    HitsOfConcat(held[..at], held[at + 1..], slot);
    HitsOfConcat(held[..at], [held[at]], slot);
    HitsOfConcat(held[..at] + [held[at]], held[at + 1..], slot);
    assert held == held[..at] + [held[at]] + held[at + 1..];
  }

  lemma HeldHashHits(held: seq<bv32>, at: nat)
    requires at < |held|
    ensures Hits(held, Hash1(held[at])) > 0 && Hits(held, Hash2(held[at])) > 0
  {
    HitsWithout(held, at, Hash1(held[at]));
    HitsWithout(held, at, Hash2(held[at]));
  }

  lemma {:induction false} HitsHaveSource(held: seq<bv32>, slot: nat)
    ensures Hits(held, slot) > 0 <==> exists i | 0 <= i < |held| :: HitsOf(held[i], slot) > 0
  {
    if held != [] {
      var most, last := held[..|held| - 1], held[|held| - 1];
      HitsHaveSource(most, slot);
      assert forall i | 0 <= i < |most| :: most[i] == held[i];
    }
  }

  /** A counter after `n` increments. */
  function Bumped(v: u8, n: nat): u8 {
    if n >= 255 - v as int then 255 else v + n as u8
  }

  class CountingBloomFilter {
    var counters: array<u8>
    /** The hashes inserted and not removed, in insertion order. */
    ghost var held: seq<bv32>

    ghost predicate Valid()
      reads this, counters
    {
      counters.Length == ARRAY_SIZE && Counts(counters[..], held)
    }

    /** Each slot is stuck, or counts exactly the hits of what is held. */
    static ghost predicate Counts(c: seq<u8>, held: seq<bv32>)
      requires |c| == ARRAY_SIZE
    {
      forall k | 0 <= k < ARRAY_SIZE :: c[k] == 255 || c[k] as int == Hits(held, k)
    }

    constructor ()
      ensures Valid() && fresh(counters) && held == []
      ensures forall k | 0 <= k < ARRAY_SIZE :: counters[k] == 0
    {
      counters := new u8[ARRAY_SIZE](_ => 0);
      held := [];
    }

    method Clear()
      modifies this
      ensures Valid() && fresh(counters) && held == []
      ensures forall k | 0 <= k < ARRAY_SIZE :: counters[k] == 0
    {
      counters := new u8[ARRAY_SIZE](_ => 0);
      held := [];
    }

    method AdjustSlot(index: nat, increment: bool)
      requires index < counters.Length
      requires !increment ==> counters[index] > 0
      modifies counters
      ensures counters[..] == old(counters[..])[index := Adjusted(old(counters[index]), increment)]
    {
      if counters[index] != 0xff {
        if increment {
          counters[index] := counters[index] + 1;
        } else {
          counters[index] := counters[index] - 1;
        }
      }
    }

    static function Adjusted(v: u8, increment: bool): u8
      requires !increment ==> v > 0
    {
      if v == 255 then 255 else if increment then v + 1 else v - 1
    }

    method IncrementSlots(first: nat, second: nat)
      requires first < counters.Length && second < counters.Length
      modifies counters
      ensures forall k | 0 <= k < counters.Length :: counters[k] == Bumped(old(counters[k]), SlotHits(first, second, k))
    {
      AdjustSlot(first, true);
      AdjustSlot(second, true);
    }

    method DecrementSlots(first: nat, second: nat)
      requires first < counters.Length && second < counters.Length
      requires forall k | 0 <= k < counters.Length ::
                 counters[k] == 255 || SlotHits(first, second, k) <= counters[k] as int
      modifies counters
      ensures forall k | 0 <= k < counters.Length ::
                counters[k] as int
                == if old(counters[k]) == 255 then 255 else old(counters[k]) as int - SlotHits(first, second, k)
    {
      assert SlotHits(first, second, first) > 0 && SlotHits(first, second, second) > 0;
      AdjustSlot(first, false);
      AdjustSlot(second, false);
    }

    method InsertHash(hash: bv32)
      requires Valid()
      modifies this`held, counters
      ensures Valid() && held == old(held) + [hash] && counters == old(counters)
      ensures forall k | 0 <= k < ARRAY_SIZE :: counters[k] == Bumped(old(counters[k]), HitsOf(hash, k))
      ensures forall k | 0 <= k < ARRAY_SIZE :: counters[k] == 255 <==> old(counters[k]) as int + HitsOf(hash, k) >= 255
    {
      IncrementSlots(Hash1(hash), Hash2(hash));
      held := held + [hash];
      assert held[..|held| - 1] == old(held);
    }

    /** Undoes one earlier insertion, whichever it is.  No counter underflows. */
    method RemoveHash(hash: bv32, ghost at: nat)
      requires Valid() && at < |held| && held[at] == hash
      modifies this`held, counters
      ensures Valid() && held == Without(old(held), at) && counters == old(counters)
      ensures forall k | 0 <= k < ARRAY_SIZE ::
                counters[k] as int == if old(counters[k]) == 255 then 255 else old(counters[k]) as int - HitsOf(hash, k)
    {
      forall k | 0 <= k < ARRAY_SIZE
        ensures Hits(Without(held, at), k) + HitsOf(hash, k) == Hits(held, k)
      {
        HitsWithout(held, at, k);
      }
      DecrementSlots(Hash1(hash), Hash2(hash));
      held := Without(held, at);
    }

    predicate MightContainHash(hash: bv32)
      requires counters.Length == ARRAY_SIZE
      reads this, counters
    {
      counters[Hash1(hash)] != 0 && counters[Hash2(hash)] != 0
    }

    predicate IsZeroed()
      reads this, counters
    {
      forall k | 0 <= k < counters.Length :: counters[k] == 0
    }

    /** Never a false negative, also for a hash that was masked before the lookup. */
    lemma NeverMisses(hash: bv32)
      requires Valid() && hash in held
      ensures MightContainHash(hash) && MightContainHash(hash & BLOOM_HASH_MASK)
    {
      var at :| 0 <= at < |held| && held[at] == hash;
      HeldHashHits(held, at);
      SlotsIgnoreTopByte(hash);
    }

    /** It says no unless each of the two slots is hit by something held, or stuck. */
    lemma AnswersBySlots(hash: bv32)
      requires Valid()
      ensures MightContainHash(hash)
              <==> forall slot | slot == Hash1(hash) || slot == Hash2(hash) ::
                     counters[slot] == 255 || exists i | 0 <= i < |held| :: HitsOf(held[i], slot) > 0
    {
      SlotAnswers(Hash1(hash));
      SlotAnswers(Hash2(hash));
    }

    lemma SlotAnswers(slot: nat)
      requires Valid() && slot < ARRAY_SIZE
      ensures counters[slot] != 0
              <==> counters[slot] == 255 || exists i | 0 <= i < |held| :: HitsOf(held[i], slot) > 0
    {
      HitsHaveSource(held, slot);
      assert counters[..][slot] == counters[slot];
    }

    /** A filter that holds nothing is zeroed exactly when no counter is stuck. */
    lemma EmptyIsZeroedUnlessStuck()
      requires Valid() && held == []
      ensures IsZeroed() <==> forall k | 0 <= k < ARRAY_SIZE :: counters[k] != 255
    {
      assert forall k :: Hits([], k) == 0;
    }
  }
}
