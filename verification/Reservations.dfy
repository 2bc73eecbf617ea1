/** The device reservation table of the I2C driver (src/drivers/i2c_driver.cc):
    the slot array, the generation word and the four sections that run under
    the reservation lock.

    Each section exists twice: as a function on the sequence of slots, which the
    interleaving model in BusProtocol uses as an atomic step, and as a method of
    ReservationTable, which works in place on an array as the driver does and is
    proved to compute that function. */
module Reservations {
  import opened Wrappers

  const TWO_32 := 0x1_0000_0000
  const TWO_64 := 0x1_0000_0000_0000_0000
  const MAX_RESERVATIONS := 4

  /** The 64-bit tick counter and the 32-bit futex word. */
  type Tick = t: int | 0 <= t < TWO_64
  type Word = w: int | 0 <= w < TWO_32
  type Address = a: int | 0 <= a < 256

  datatype Slot = Slot(active: bool, address: Address, owner: nat, deadline: Tick, isLease: bool)

  /** What one pass of the reserve loop decides. */
  datatype Decision =
    | Claimed(slot: nat)    // a free slot was taken
    | Reentrant(slot: nat)  // the caller already owns the address
    | Blocked(slot: nat)    // somebody else owns the address
    | Full                  // no entry for the address and no free slot

  predicate Stale(s: Slot, now: Tick) {
    s.active && now >= s.deadline
  }

  predicate Holds(s: Slot, address: Address) {
    s.active && s.address == address
  }

  function Bump(gen: Word): Word {
    (gen + 1) % TWO_32
  }

  /** The deadline of a claim made at `now`, in the 64-bit arithmetic of the driver. */
  function Deadline(now: Tick, holdTicks: nat): (r: Tick)
    ensures now + holdTicks < TWO_64 ==> r == now + holdTicks
    ensures (now + holdTicks - r) % TWO_64 == 0
  {
    (now + holdTicks) % TWO_64
  }

  /** The slot is what a claim made at `since` for `term` ticks is due: neither shorter
      nor longer, as long as the tick counter does not wrap. */
  predicate GrantedInFull(slot: Slot, me: nat, address: Address, since: Tick, term: nat, isLease: bool) {
    Holds(slot, address) && slot.owner == me && slot.isLease == isLease &&
    (since + term < TWO_64 ==> slot.deadline == since + term)
  }

  predicate AnyStale(slots: seq<Slot>, now: Tick) {
    exists i :: 0 <= i < |slots| && Stale(slots[i], now)
  }

  function Expire(slots: seq<Slot>, now: Tick): (r: seq<Slot>)
    ensures |r| == |slots|
    ensures forall i :: 0 <= i < |slots| ==>
      r[i] == if Stale(slots[i], now) then slots[i].(active := false) else slots[i]
  {
    seq(|slots|, i requires 0 <= i < |slots| =>
      if Stale(slots[i], now) then slots[i].(active := false) else slots[i])
  }

  /** The first active slot for `address`. */
  function Find(slots: seq<Slot>, address: Address, from: nat := 0): (r: Option<nat>)
    requires from <= |slots|
    ensures r.None? ==> forall i :: from <= i < |slots| ==> !Holds(slots[i], address)
    ensures r.Some? ==> from <= r.value < |slots| && Holds(slots[r.value], address)
    ensures r.Some? ==> forall i :: from <= i < r.value ==> !Holds(slots[i], address)
    decreases |slots| - from
  {
    if from == |slots| then None
    else if Holds(slots[from], address) then Some(from)
    else Find(slots, address, from + 1)
  }

  /** The first free slot. */
  function FindFree(slots: seq<Slot>, from: nat := 0): (r: Option<nat>)
    requires from <= |slots|
    ensures r.None? ==> forall i :: from <= i < |slots| ==> slots[i].active
    ensures r.Some? ==> from <= r.value < |slots| && !slots[r.value].active
    ensures r.Some? ==> forall i :: from <= i < r.value ==> slots[i].active
    decreases |slots| - from
  {
    if from == |slots| then None
    else if !slots[from].active then Some(from)
    else FindFree(slots, from + 1)
  }

  /** One pass of the reserve loop on a table that has just been swept. */
  function Decide(slots: seq<Slot>, address: Address, me: nat): (d: Decision)
    ensures d.Claimed? ==> d.slot < |slots| && !slots[d.slot].active
    ensures d.Reentrant? ==> d.slot < |slots| && Holds(slots[d.slot], address) && slots[d.slot].owner == me
    ensures d.Blocked? ==> d.slot < |slots| && Holds(slots[d.slot], address) && slots[d.slot].owner != me
    ensures d.Full? ==> forall i :: 0 <= i < |slots| ==> slots[i].active
    ensures d.Claimed? || d.Full? <==> forall i :: 0 <= i < |slots| ==> !Holds(slots[i], address)
  {
    match Find(slots, address)
    case Some(i) => if slots[i].owner == me then Reentrant(i) else Blocked(i)
    case None =>
      match FindFree(slots)
      case Some(i) => Claimed(i)
      case None => Full
  }

  /** Whether the ownership check of a batch step passes on a swept table. */
  predicate Owned(slots: seq<Slot>, address: Address, me: nat) {
    var r := Find(slots, address);
    r.Some? && slots[r.value].owner == me
  }

  /** Whether the slot found for `address`, whoever owns it, is a lease. */
  predicate LeaseAt(slots: seq<Slot>, address: Address) {
    var r := Find(slots, address);
    r.Some? && slots[r.value].isLease
  }

  /** The slot that release_device lets go, if any. */
  function Released(slots: seq<Slot>, address: Address, me: nat): (r: Option<nat>)
    ensures r.Some? ==> r.value < |slots| && Holds(slots[r.value], address) && slots[r.value].owner == me
  {
    if Owned(slots, address, me) then Find(slots, address) else None
  }

  function Dropped(slots: seq<Slot>, r: Option<nat>): (d: seq<Slot>)
    requires r.Some? ==> r.value < |slots|
    ensures |d| == |slots|
    ensures forall i :: 0 <= i < |d| ==>
      d[i] == if r == Some(i) then slots[i].(active := false) else slots[i]
  {
    match r
    case None => slots
    case Some(i) => slots[i := slots[i].(active := false)]
  }

  /** Active slots have pairwise different addresses. */
  predicate Unambiguous(slots: seq<Slot>) {
    forall i, j | 0 <= i < |slots| && 0 <= j < |slots| && slots[i].active && slots[j].active
      :: slots[i].address == slots[j].address ==> i == j
  }

  /** On an unambiguous table the ownership check is about the one slot of the
      address, so the scan order of find_locked does not matter. */
  lemma OwnedMeans(slots: seq<Slot>, address: Address, me: nat)
    requires Unambiguous(slots)
    ensures Owned(slots, address, me) <==>
      exists i :: 0 <= i < |slots| && Holds(slots[i], address) && slots[i].owner == me
  {
    if i :| 0 <= i < |slots| && Holds(slots[i], address) && slots[i].owner == me {
      assert Find(slots, address).Some?;
      assert Find(slots, address).value == i;
    }
  }

  /** The slots and the futex word, updated in place under the reservation lock. */
  class ReservationTable {
    const slots: array<Slot>
    var gen: Word
    ghost var wakes: nat  // calls of futex_wake so far

    ghost predicate Valid()
      reads this
    {
      slots.Length == MAX_RESERVATIONS
    }

    constructor ()
      ensures Valid() && fresh(slots) && gen == 0 && wakes == 0
      ensures forall i :: 0 <= i < slots.Length ==> !slots[i].active
    {
      slots := new Slot[MAX_RESERVATIONS](i => Slot(false, 0, 0, 0, false));
      gen, wakes := 0, 0;
    }

    method BumpAndWake()
      modifies this`gen, this`wakes
      ensures gen == Bump(old(gen)) && wakes == old(wakes) + 1
    {
      gen := Bump(gen);
      wakes := wakes + 1;
    }

    method ExpireLocked(now: Tick)
      requires Valid()
      modifies this`gen, this`wakes, slots
      ensures Valid() && slots[..] == Expire(old(slots[..]), now)
      ensures gen == if AnyStale(old(slots[..]), now) then Bump(old(gen)) else old(gen)
      ensures wakes == old(wakes) + if AnyStale(old(slots[..]), now) then 1 else 0
    {
      ghost var was := slots[..];
      var changed := false;
      var i := 0;
      while i < slots.Length
        invariant 0 <= i <= slots.Length
        invariant forall k :: 0 <= k < i ==> slots[k] == Expire(was, now)[k]
        invariant forall k :: i <= k < slots.Length ==> slots[k] == was[k]
        invariant gen == old(gen) && wakes == old(wakes)
        invariant changed <==> exists k :: 0 <= k < i && Stale(was[k], now)
      {
        if slots[i].active && now >= slots[i].deadline {
          slots[i] := slots[i].(active := false);
          changed := true;
        }
        i := i + 1;
      }
      if changed {
        BumpAndWake();
      }
    }

    method FindLocked(address: Address) returns (r: Option<nat>)
      requires Valid()
      ensures r == Find(slots[..], address)
    {
      var i := 0;
      while i < slots.Length
        invariant 0 <= i <= slots.Length
        invariant Find(slots[..], address) == Find(slots[..], address, i)
      {
        if slots[i].active && slots[i].address == address {
          return Some(i);
        }
        i := i + 1;
      }
      return None;
    }

    /** The locked section of one pass of reserve_device. */
    method ReserveLocked(address: Address, me: nat, holdTicks: nat, isLease: bool, now: Tick)
      returns (d: Decision, snapshot: Word)
      requires Valid()
      modifies this`gen, this`wakes, slots
      ensures Valid()
      ensures d == Decide(Expire(old(slots[..]), now), address, me)
      ensures slots[..] ==
        if d.Claimed? then
          Expire(old(slots[..]), now)[d.slot := Slot(true, address, me, Deadline(now, holdTicks), isLease)]
        else Expire(old(slots[..]), now)
      ensures gen == if AnyStale(old(slots[..]), now) then Bump(old(gen)) else old(gen)
      ensures snapshot == gen
    {
      ExpireLocked(now);
      ghost var swept := slots[..];
      snapshot := gen;
      var r := FindLocked(address);
      match r {
        case None =>
          var i := 0;
          while i < slots.Length
            invariant 0 <= i <= slots.Length
            invariant slots[..] == swept
            invariant FindFree(swept) == FindFree(swept, i)
          {
            if !slots[i].active {
              slots[i] := Slot(true, address, me, Deadline(now, holdTicks), isLease);
              return Claimed(i), snapshot;
            }
            i := i + 1;
          }
          d := Full;
        case Some(i) =>
          d := if slots[i].owner == me then Reentrant(i) else Blocked(i);
      }
    }

    method ReleaseDevice(address: Address, me: nat)
      requires Valid()
      modifies this`gen, this`wakes, slots
      ensures Valid()
      ensures slots[..] == Dropped(old(slots[..]), Released(old(slots[..]), address, me))
      ensures Released(old(slots[..]), address, me).Some? ==>
        gen == Bump(old(gen)) && wakes == old(wakes) + 1
      ensures Released(old(slots[..]), address, me).None? ==> gen == old(gen) && wakes == old(wakes)
    {
      var r := FindLocked(address);
      match r {
        case Some(i) =>
          if slots[i].owner == me {
            slots[i] := slots[i].(active := false);
            BumpAndWake();
          }
        case None =>
      }
    }

    /** The ownership check in front of every transfer of a batch. */
    method CheckLocked(address: Address, me: nat, now: Tick) returns (ok: bool)
      requires Valid()
      modifies this`gen, this`wakes, slots
      ensures Valid()
      ensures slots[..] == Expire(old(slots[..]), now)
      ensures gen == if AnyStale(old(slots[..]), now) then Bump(old(gen)) else old(gen)
      ensures ok == Owned(Expire(old(slots[..]), now), address, me)
    {
      ExpireLocked(now);
      var r := FindLocked(address);
      match r {
        case Some(i) => ok := slots[i].owner == me;
        case None => ok := false;
      }
    }

    /** The look-up behind weHoldLease. It sweeps nothing and ignores the owner. */
    method LeaseLookup(address: Address) returns (leased: bool)
      requires Valid()
      ensures leased == LeaseAt(slots[..], address)
    {
      var r := FindLocked(address);
      match r {
        case Some(i) => leased := slots[i].isLease;
        case None => leased := false;
      }
    }
  }
}
