/**
  Slot numbers of the lock and the free-slot rule of the ledger.

  The lock keeps PIN codes in numbered slots 1 .. MaxSlot.  The ledger maps
  user names to slots; a new name gets the smallest slot number that no name
  uses yet.  This module states that rule as a recursive scan, proves the scan
  finds exactly the smallest free slot, and relates "every slot is taken" to
  the number of names in a well-formed ledger.
*/
module Slots {

  datatype Option<T> = None | Some(value: T)

  /** The highest slot the ledger hands out (the scan runs over 1 .. 254). */
  const MaxSlot: int := 254

  predicate InRange(s: int) {
    1 <= s <= MaxSlot
  }

  /** `s` is free in `used` and every lower slot is taken. */
  predicate IsSmallestFree(used: set<int>, s: int) {
    InRange(s) && s !in used && forall t :: 1 <= t < s ==> t in used
  }

  /** Every slot of the lock is taken. */
  predicate AllUsed(used: set<int>) {
    forall t :: 1 <= t <= MaxSlot ==> t in used
  }

  /** No two names share a slot. */
  predicate Injective(m: map<string, int>) {
    forall a, b :: a in m && b in m && a != b ==> m[a] != m[b]
  }

  /** The ledger invariant: slots are pairwise distinct and within 1 .. MaxSlot. */
  predicate ValidSlots(m: map<string, int>) {
    Injective(m) && forall n :: n in m ==> InRange(m[n])
  }

  /** The ascending scan for a slot not in `used`, starting at `from`. */
  function FirstFreeFrom(used: set<int>, from: int): Option<int>
    requires 1 <= from <= MaxSlot + 1
    decreases MaxSlot + 1 - from
  {
    if from > MaxSlot then None
    else if from !in used then Some(from)
    else FirstFreeFrom(used, from + 1)
  }

  /** The slot a new name receives, or None when the lock is full. */
  function NextFree(used: set<int>): Option<int> {
    FirstFreeFrom(used, 1)
  }

  lemma {:induction false} FirstFreeFromCorrect(used: set<int>, from: int)
    requires 1 <= from <= MaxSlot + 1
    requires forall t :: 1 <= t < from ==> t in used
    ensures FirstFreeFrom(used, from).Some? ==> IsSmallestFree(used, FirstFreeFrom(used, from).value)
    ensures FirstFreeFrom(used, from).None? ==> AllUsed(used)
    decreases MaxSlot + 1 - from
  {
    if from <= MaxSlot && from in used {
      FirstFreeFromCorrect(used, from + 1);
    }
  }

  /** At most one slot is the smallest free one. */
  lemma SmallestFreeUnique(used: set<int>, s: int, s': int)
    requires IsSmallestFree(used, s) && IsSmallestFree(used, s')
    ensures s == s'
  {
  }

  /**
    The scan returns exactly the smallest free slot, and fails exactly when
    every slot in 1 .. MaxSlot is taken.
  */
  lemma NextFreeCorrect(used: set<int>)
    ensures forall s :: NextFree(used) == Some(s) <==> IsSmallestFree(used, s)
    ensures NextFree(used).None? <==> AllUsed(used)
  {
    FirstFreeFromCorrect(used, 1);
    forall s | IsSmallestFree(used, s)
      ensures NextFree(used) == Some(s)
    {
      if NextFree(used).Some? {
        SmallestFreeUnique(used, s, NextFree(used).value);
      }
    }
  }

  /** The slot numbers 1 .. hi. */
  function SlotRange(hi: nat): (r: set<int>)
    ensures forall t :: t in r <==> 1 <= t <= hi
    ensures |r| == hi
  {
    if hi == 0 then {} else SlotRange(hi - 1) + {hi}
  }

  /** A map has no more distinct values than keys, and as many when it is injective. */
  lemma {:induction false} ValuesSize(m: map<string, int>)
    ensures |m.Values| <= |m|
    ensures Injective(m) ==> |m.Values| == |m|
    decreases |m|
  {
    if m != map[] {
      var k :| k in m;
      var r := m - {k};
      ValuesSize(r);
      assert |r| == |m| - 1 by {
        assert r.Keys == m.Keys - {k};
      }
      assert m.Values == r.Values + {m[k]} by {
        forall v | v in m.Values ensures v in r.Values + {m[k]} {
          var n :| n in m && m[n] == v;
          if n != k {
            assert n in r;
          }
        }
        forall v | v in r.Values ensures v in m.Values {
          var n :| n in r && r[n] == v;
          assert n in m;
        }
      }
      if Injective(m) {
        assert Injective(r);
        assert m[k] !in r.Values;
      }
    } else {
      assert m.Values == {};
    }
  }

  lemma SubsetSize(a: set<int>, b: set<int>)
    requires a <= b
    ensures |a| <= |b|
    ensures |a| == |b| ==> a == b
  {
    assert b == a + (b - a);
    if |a| == |b| {
      assert |b - a| == 0;
    }
  }

  /**
    In a well-formed ledger there are at most MaxSlot names, and every slot is
    taken exactly when there are MaxSlot names.
  */
  lemma FullIffCapacity(m: map<string, int>)
    requires ValidSlots(m)
    ensures |m| <= MaxSlot
    ensures AllUsed(m.Values) <==> |m| == MaxSlot
  {
    var all := SlotRange(MaxSlot);
    ValuesSize(m);
    assert m.Values <= all;
    SubsetSize(m.Values, all);
    if AllUsed(m.Values) {
      assert all <= m.Values;
      SubsetSize(all, m.Values);
    }
    if |m| == MaxSlot {
      assert m.Values == all;
    }
  }

  /** Whatever the ledger holds, fewer than MaxSlot names leave a slot free. */
  lemma FreeSlotBelowCapacity(m: map<string, int>)
    requires |m| < MaxSlot
    ensures NextFree(m.Values).Some?
  {
    NextFreeCorrect(m.Values);
    if AllUsed(m.Values) {
      var all := SlotRange(MaxSlot);
      ValuesSize(m);
      assert all <= m.Values;
      SubsetSize(all, m.Values);
    }
  }
}
