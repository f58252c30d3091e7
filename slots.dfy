/**
 * Queue-slot bookkeeping of a DPDK device: a growable vector of booleans in
 * which slot i is true once some element has claimed queue i.
 */
module Slots {

  function Max(a: nat, b: nat): nat { if a < b then b else a }

  /** Slot `id` exists in `v` and is already claimed. */
  predicate Taken(v: seq<bool>, id: nat) {
    id < |v| && v[id]
  }

  /**
   * `Vector<bool>::resize(n, false)`: the vector keeps its first n cells and,
   * when it grows, the new cells are false.
   */
  function Resize(v: seq<bool>, n: nat): (r: seq<bool>)
    ensures |r| == n
    ensures forall k :: 0 <= k < n ==> r[k] == (k < |v| && v[k])
  {
    if n <= |v| then v[..n] else v + seq(n - |v|, _ => false)
  }

  /** The lowest unclaimed slot of `v`, or `|v|` when every slot is claimed. */
  function FirstFree(v: seq<bool>): (i: nat)
    ensures i <= |v|
    ensures forall k :: 0 <= k < i ==> v[k]
    ensures i < |v| ==> !v[i]
  {
    if |v| == 0 || !v[0] then 0 else 1 + FirstFree(v[1..])
  }

  /**
   * The vector after slot `id` has been claimed: it is grown to hold `id`,
   * slot `id` is set, and every other cell keeps its old value (new cells
   * being false).
   */
  function Claim(v: seq<bool>, id: nat): (r: seq<bool>)
    ensures |r| == Max(|v|, id + 1)
    ensures r[id]
    ensures forall k :: 0 <= k < |r| && k != id ==> r[k] == (k < |v| && v[k])
  {
    Resize(v, Max(|v|, id + 1))[id := true]
  }

  /**
   * `set_slot(v, id)`: a nonzero `id` asks for that exact slot, `id == 0`
   * for the first free one. Returns the vector afterwards, the id that was
   * looked at (the caller's `id` is passed by reference) and whether the
   * claim succeeded; it fails exactly when the slot was already taken, and
   * then nothing changes.
   */
  method SetSlot(v: seq<bool>, id: nat) returns (v': seq<bool>, id': nat, ok: bool)
    ensures id > 0 ==> id' == id
    ensures id == 0 ==> id' == FirstFree(v) && ok
    ensures ok == !Taken(v, id')
    ensures v' == if ok then Claim(v, id') else v
  {
    v', id' := v, id;
    if id' <= 0 {
      var i := 0;
      while i < |v'|
        invariant i <= |v'|
        invariant forall k :: 0 <= k < i ==> v'[k]
      {
        if !v'[i] {
          break;
        }
        i := i + 1;
      }
      id' := i;
      if id' >= |v'| {
        v' := Resize(v', id' + 1);
      }
    }
    if id' >= |v'| {
      v' := Resize(v', id' + 1);
    }
    if v'[id'] {
      return v', id', false;
    }
    v' := v'[id' := true];
    ok := true;
  }

  /** Two explicit claims of different slots can be made in either order. */
  lemma {:induction false} ClaimsCommute(v: seq<bool>, a: nat, b: nat)
    ensures Claim(Claim(v, a), b) == Claim(Claim(v, b), a)
  {
    var x, y := Claim(Claim(v, a), b), Claim(Claim(v, b), a);
    assert |x| == |y|;
    forall k | 0 <= k < |x| ensures x[k] == y[k] {
    }
  }

  /** Once a slot is claimed, every later claim of it is refused. */
  lemma {:induction false} ClaimedStaysTaken(v: seq<bool>, id: nat, other: nat)
    ensures Taken(Claim(v, id), id)
    ensures Taken(v, other) ==> Taken(Claim(v, id), other)
  {
  }

  /**
   * Successive automatic assignments hand out strictly increasing, hence
   * distinct, slots.
   */
  lemma {:induction false} AutoSlotsIncrease(v: seq<bool>)
    ensures FirstFree(Claim(v, FirstFree(v))) > FirstFree(v)
  {
  }
}
