/** The probe sequence of the realtime map, src/store/realtime_delta.cc. */
module Probing {
  import opened Basics

  /** hash + probe wraps at 64 bits; for a power of two, masking with capacity - 1 is the remainder. */
  function ProbeSlot(hash: u64, probe: nat, capacity: nat): (i: nat)
    requires capacity > 0
    ensures i < capacity
  {
    (hash + probe) % TWO_64 % capacity
  }

  ghost predicate Reaches(hash: u64, capacity: nat, slot: nat)
    requires capacity > 0
  {
    exists probe :: 0 <= probe < capacity && ProbeSlot(hash, probe, capacity) == slot
  }

  ghost predicate ReachesAll(capacity: nat)
    requires capacity > 0
  {
    forall hash: u64, slot: nat :: slot < capacity ==> Reaches(hash, capacity, slot)
  }

  /** With a capacity that divides 2^64 the first `capacity` probes reach every slot. */
  lemma {:induction false} ProbesCover(hash: u64, capacity: nat, slot: nat) returns (probe: nat)
    requires 0 < capacity && TWO_64 % capacity == 0 && slot < capacity
    ensures probe < capacity && ProbeSlot(hash, probe, capacity) == slot
  {
    var first, lap := hash % capacity, hash / capacity;
    if slot >= first {
      probe := slot - first;
      ModUnique(hash + probe, capacity, lap, slot);
    } else {
      probe := slot + capacity - first;
      assert (lap + 1) * capacity == lap * capacity + capacity;
      ModUnique(hash + probe, capacity, lap + 1, slot);
    }
    ModOfMod(hash + probe, TWO_64, TWO_64 / capacity, capacity);
  }

  lemma {:induction false} PowerOfTwoCovers(capacity: nat)
    requires IsPowerOfTwo(capacity) && capacity <= TWO_64
    ensures TWO_64 % capacity == 0
  {
    TwoTo64IsPowerOfTwo();
    PowerOfTwoDivides(capacity, TWO_64);
    var q :| q > 0 && TWO_64 == q * capacity;
    ModUnique(TWO_64, capacity, q, 0);
  }

  /** Otherwise a key hashing to 2^64 - 1 wraps early and never reaches the last slot. */
  lemma {:induction false} LastSlotLost(capacity: nat)
    requires 0 < capacity <= TWO_64 && TWO_64 % capacity != 0
    ensures !Reaches(TWO_64 - 1, capacity, capacity - 1)
  {
    if Reaches(TWO_64 - 1, capacity, capacity - 1) {
      var probe :| 0 <= probe < capacity && ProbeSlot(TWO_64 - 1, probe, capacity) == capacity - 1;
      if probe == 0 {
        LastRemainder(TWO_64, capacity);
      } else {
        WrapsToStart(probe, capacity);
      }
    }
  }

  lemma {:induction false} WrapsToStart(probe: nat, capacity: nat)
    requires 0 < probe < capacity <= TWO_64
    ensures ProbeSlot(TWO_64 - 1, probe, capacity) == probe - 1
  {
    ModUnique(TWO_64 - 1 + probe, TWO_64, 1, probe - 1);
    ModUnique(probe - 1, capacity, 0, probe - 1);
  }

  lemma {:induction false} LastRemainder(n: nat, m: nat)
    requires 0 < m && 0 < n && (n - 1) % m == m - 1
    ensures n % m == 0
  {
    ModUnique(n, m, (n - 1) / m + 1, 0);
  }

  /** The probe sequence covers the table for every hash exactly when the capacity divides 2^64. */
  lemma {:induction false} CoversIffDivides(capacity: nat)
    requires 0 < capacity <= TWO_64
    ensures ReachesAll(capacity) <==> TWO_64 % capacity == 0
  {
    if TWO_64 % capacity == 0 {
      forall hash: u64, slot: nat | slot < capacity
        ensures Reaches(hash, capacity, slot)
      {
        var probe := ProbesCover(hash, capacity, slot);
      }
    } else {
      LastSlotLost(capacity);
    }
  }
}
