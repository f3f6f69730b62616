/** Among as many slots as table entries, the entries other than one leave a slot free. */
module Pigeonhole {
  ghost function Values(f: seq<int>, skip: nat): set<int> {
    if f == [] then {}
    else
      var n := |f| - 1;
      Values(f[..n], skip) + if n == skip then {} else {f[n]}
  }

  lemma {:induction false} ValuesHold(f: seq<int>, skip: nat, k: nat)
    requires k < |f| && k != skip
    ensures f[k] in Values(f, skip)
  {
    if k < |f| - 1 {
      ValuesHold(f[..|f| - 1], skip, k);
    }
  }

  lemma {:induction false} FewValues(f: seq<int>, skip: nat)
    ensures |Values(f, skip)| <= if skip < |f| then |f| - 1 else |f|
  {
    if f != [] {
      FewValues(f[..|f| - 1], skip);
    }
  }

  lemma {:induction false} Cover(s: set<int>, n: nat)
    requires forall j | 0 <= j < n :: j in s
    ensures |s| >= n
  {
    if n > 0 {
      Cover(s - {n - 1}, n - 1);
    }
  }

  /** If f[k] is the slot of entry k, the entries other than `skip` leave some slot. */
  lemma SlotLeft(f: seq<int>, skip: nat) returns (slot: nat)
    requires skip < |f|
    ensures slot < |f| && forall k | 0 <= k < |f| && k != skip :: f[k] != slot
  {
    FewValues(f, skip);
    assert exists j: nat :: j < |f| && j !in Values(f, skip) by {
      if forall j: nat | j < |f| :: j in Values(f, skip) {
        Cover(Values(f, skip), |f|);
      }
    }
    slot :| slot < |f| && slot !in Values(f, skip);
    forall k | 0 <= k < |f| && k != skip ensures f[k] != slot {
      ValuesHold(f, skip, k);
    }
  }
}
