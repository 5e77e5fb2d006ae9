/** Slots, epochs and wall-clock time (timeprovider.go). Times are nanoseconds since the Unix epoch. */
module TimeProvider {
  import opened Words

  const NANOSECONDS: int := 1_000_000_000

  /** The largest time.Duration; the difference of two times saturates there. */
  const MAX_DURATION: int := 0x7FFF_FFFF_FFFF_FFFF

  /** The immutable fields set by NewTimeProvider. */
  datatype TimeProvider = TimeProvider(
    genesisSlot: uint32,
    genesisUnixTime: int,
    slotDurationSeconds: int,
    slotsPerEpochExponent: nat)
  {
    /** A positive slot duration, and every slot's start and end fit into 64-bit Unix seconds. */
    ghost predicate Valid() {
      && slotDurationSeconds >= 1
      && -MAX_DURATION <= genesisUnixTime
      && genesisUnixTime + TWO_TO_THE_32 * slotDurationSeconds <= MAX_DURATION
    }

    function GenesisTime(): int {
      genesisUnixTime * NANOSECONDS
    }

    /** The length of a slot in nanoseconds. */
    function SlotNanoseconds(): int {
      NANOSECONDS * slotDurationSeconds
    }

    /** 2^slotsPerEpochExponent: shifting by the exponent multiplies or divides by it. */
    function SlotsPerEpoch(): int {
      Pow2(slotsPerEpochExponent)
    }

    function SlotFromTime(targetTime: int): uint32
      requires Valid()
    {
      var difference := targetTime - GenesisTime();
      if difference < 0 then genesisSlot
      else
        var elapsed := if difference > MAX_DURATION then MAX_DURATION else difference;
        (genesisSlot + elapsed / NANOSECONDS / slotDurationSeconds % TWO_TO_THE_32 + 1) % TWO_TO_THE_32
    }

    function SlotStartTime(slot: uint32): int
      requires Valid()
    {
      if slot <= genesisSlot then GenesisTime() - 1
      else (genesisUnixTime + (slot - genesisSlot - 1) * slotDurationSeconds) * NANOSECONDS
    }

    function SlotEndTime(slot: uint32): int
      requires Valid()
    {
      if slot <= genesisSlot then GenesisTime() - 1
      else (genesisUnixTime + (slot - genesisSlot) * slotDurationSeconds) * NANOSECONDS - 1
    }

    function EpochFromSlot(slot: uint32): (e: uint32)
    {
      if slot <= genesisSlot then 0
      else
        DivBounds(slot - genesisSlot, SlotsPerEpoch());
        (slot - genesisSlot) / SlotsPerEpoch()
    }

    function EpochStart(epoch: uint32): uint32 {
      (genesisSlot + epoch * SlotsPerEpoch() % TWO_TO_THE_32) % TWO_TO_THE_32
    }

    function EpochEnd(epoch: uint32): uint32 {
      (genesisSlot + ((epoch + 1) % TWO_TO_THE_32 * SlotsPerEpoch() - 1) % TWO_TO_THE_32) % TWO_TO_THE_32
    }

    function SlotsBeforeNextEpoch(slot: uint32): uint32 {
      if slot < genesisSlot then 0
      else (genesisSlot + EpochStart((EpochFromSlot(slot) + 1) % TWO_TO_THE_32) - slot) % TWO_TO_THE_32
    }

    function SlotsSinceEpochStart(slot: uint32): uint32 {
      if slot < genesisSlot then 0
      else (genesisSlot + slot - EpochStart(EpochFromSlot(slot))) % TWO_TO_THE_32
    }

    /** The slot, counted without any bound, in which a time at or after the genesis lies. */
    ghost function TrueSlot(time: int): int
      requires Valid() && time >= GenesisTime()
    {
      genesisSlot + 1 + (time - GenesisTime()) / SlotNanoseconds()
    }
  }

  // ---------- 32-bit arithmetic ----------

  /** Reducing a term of a sum first does not change the sum modulo 2^32. */
  lemma ReducedTerm(x: int, y: int)
    ensures (x + y % TWO_TO_THE_32) % TWO_TO_THE_32 == (x + y) % TWO_TO_THE_32
    ensures (x - y % TWO_TO_THE_32) % TWO_TO_THE_32 == (x - y) % TWO_TO_THE_32
  {
    var q, r := y / TWO_TO_THE_32, y % TWO_TO_THE_32;
    assert y == q * TWO_TO_THE_32 + r;
    AddedMultiple(q, x + r);
    AddedMultiple(-q, x - r);
  }

  lemma AddedMultiple(q: int, x: int)
    ensures (q * TWO_TO_THE_32 + x) % TWO_TO_THE_32 == x % TWO_TO_THE_32
  {
  }

  // ---------- Slots and time ----------

  /** The slot's start and end times bracket exactly the times of the slot. */
  lemma SlotBracketsItsTimes(p: TimeProvider, slot: uint32, time: int)
    requires p.Valid() && slot > p.genesisSlot && time >= p.GenesisTime()
    ensures p.TrueSlot(time) == slot <==> p.SlotStartTime(slot) <= time <= p.SlotEndTime(slot)
  {
    var d, k, x := p.SlotNanoseconds(), slot - p.genesisSlot - 1, time - p.GenesisTime();
    assert p.SlotStartTime(slot) == p.GenesisTime() + k * d;
    assert p.SlotEndTime(slot) == p.GenesisTime() + (k * d + d) - 1;
    DivBounds(x, d);
    if k * d <= x < k * d + d {
      DivUnique(x, d, k);
    }
  }

  /** The time since the genesis, as far as a duration can represent it. */
  ghost function Elapsed(p: TimeProvider, time: int): int {
    if time - p.GenesisTime() > MAX_DURATION then MAX_DURATION else time - p.GenesisTime()
  }

  lemma ElapsedSlots(elapsed: nat, x: nat, duration: int)
    requires duration >= 1 && elapsed <= x
    ensures elapsed / NANOSECONDS / duration == elapsed / (NANOSECONDS * duration)
    ensures 0 <= elapsed / (NANOSECONDS * duration) <= x / (NANOSECONDS * duration)
  {
    DivDiv(elapsed, NANOSECONDS, duration);
    DivMonotone(elapsed, x, NANOSECONDS * duration);
    DivBounds(elapsed, NANOSECONDS * duration);
  }

  /** What is found is the genesis slot and the slots elapsed, modulo 2^32. */
  lemma SlotFromElapsed(p: TimeProvider, time: int)
    requires p.Valid() && time >= p.GenesisTime()
    ensures 0 <= Elapsed(p, time) / p.SlotNanoseconds() <= (time - p.GenesisTime()) / p.SlotNanoseconds()
    ensures p.SlotFromTime(time) == (p.genesisSlot + 1 + Elapsed(p, time) / p.SlotNanoseconds()) % TWO_TO_THE_32
  {
    ElapsedSlots(Elapsed(p, time), time - p.GenesisTime(), p.slotDurationSeconds);
    var slots := Elapsed(p, time) / NANOSECONDS / p.slotDurationSeconds;
    ReducedTerm(p.genesisSlot + 1, slots);
    assert p.SlotFromTime(time) == (p.genesisSlot + slots % TWO_TO_THE_32 + 1) % TWO_TO_THE_32;
  }

  /** The true slot of the time fits 32 bits and lies no later than the last slot that can be reached
      before the difference to the genesis saturates (292 years). */
  ghost predicate Reachable(p: TimeProvider, time: int)
    requires p.Valid() && time >= p.GenesisTime()
  {
    p.TrueSlot(time) < TWO_TO_THE_32 && p.TrueSlot(time) <= p.TrueSlot(p.GenesisTime() + MAX_DURATION)
  }

  /** The slot found for a time from the genesis on is the true one exactly while it is reachable. */
  lemma SlotFromTimeRightIff(p: TimeProvider, time: int)
    requires p.Valid() && time >= p.GenesisTime()
    ensures p.SlotFromTime(time) == p.TrueSlot(time) <==> Reachable(p, time)
  {
    SlotFromElapsed(p, time);
    ElapsedReaches(p, time);
    hide Elapsed;
    SmallModulo(p.genesisSlot + 1 + Elapsed(p, time) / p.SlotNanoseconds());
  }

  /** The slots elapsed are the true ones exactly up to the last slot that can be reached. */
  lemma ElapsedReaches(p: TimeProvider, time: int)
    requires p.Valid() && time >= p.GenesisTime()
    ensures Elapsed(p, time) / p.SlotNanoseconds() == (time - p.GenesisTime()) / p.SlotNanoseconds()
       <==> p.TrueSlot(time) <= p.TrueSlot(p.GenesisTime() + MAX_DURATION)
  {
    if time - p.GenesisTime() <= MAX_DURATION {
      DivMonotone(time - p.GenesisTime(), MAX_DURATION, p.SlotNanoseconds());
    } else {
      DivMonotone(MAX_DURATION, time - p.GenesisTime(), p.SlotNanoseconds());
    }
  }

  lemma SmallModulo(x: nat)
    ensures x % TWO_TO_THE_32 <= x
    ensures x % TWO_TO_THE_32 == x <==> x < TWO_TO_THE_32
  {
  }

  /** For times before the genesis and times with a reachable slot, a slot after the genesis is found
      for exactly the times between its start and its end. */
  lemma SlotFromTimeInverse(p: TimeProvider, slot: uint32, time: int)
    requires p.Valid() && slot > p.genesisSlot
    requires time >= p.GenesisTime() ==> Reachable(p, time)
    ensures p.SlotFromTime(time) == slot <==> p.SlotStartTime(slot) <= time <= p.SlotEndTime(slot)
  {
    hide Reachable;
    if time >= p.GenesisTime() {
      SlotFromTimeRightIff(p, time);
      SlotBracketsItsTimes(p, slot, time);
    } else {
      StartsAfterGenesis(p, slot);
    }
  }

  lemma StartsAfterGenesis(p: TimeProvider, slot: uint32)
    requires p.Valid() && slot > p.genesisSlot
    ensures p.SlotStartTime(slot) >= p.GenesisTime()
  {
    MulMonotone(0, slot - p.genesisSlot - 1, p.slotDurationSeconds);
  }

  /** With ten-second slots, the start of slot 2^30 is not recognised as being in that slot. */
  lemma SlotFromTimeSaturates()
    ensures var p := TimeProvider(0, 0, 10, 13);
            p.Valid() && p.SlotFromTime(p.SlotStartTime(0x4000_0000)) == 922_337_204
  {
  }

  /** Times before the genesis belong to the genesis slot, which ends a nanosecond before the genesis and
      has no other time of its own, as any earlier slot. */
  lemma BeforeGenesis(p: TimeProvider, slot: uint32, time: int)
    requires p.Valid() && slot <= p.genesisSlot
    ensures time < p.genesisUnixTime * 1_000_000_000 ==> p.SlotFromTime(time) == p.genesisSlot
    ensures p.SlotStartTime(slot) == p.SlotEndTime(slot) == p.genesisUnixTime * 1_000_000_000 - 1
    ensures p.SlotFromTime(p.SlotEndTime(slot)) == p.genesisSlot
  {
  }

  /** From the genesis on, every slot lasts the slot duration and starts where the one before it ended. */
  lemma SlotsAdjoin(p: TimeProvider, slot: uint32)
    requires p.Valid() && p.genesisSlot < slot
    ensures p.SlotStartTime(p.genesisSlot + 1) == p.genesisUnixTime * 1_000_000_000
    ensures p.SlotEndTime(slot) - p.SlotStartTime(slot) + 1 == p.slotDurationSeconds * 1_000_000_000
    ensures p.SlotStartTime(slot) == p.SlotEndTime(slot - 1) + 1
  {
    var k, d := slot - p.genesisSlot, p.slotDurationSeconds;
    assert k * d == (k - 1) * d + d;
  }

  // ---------- Slots and epochs ----------

  /** No 32-bit operation on the bounds of this epoch wraps. */
  ghost predicate EpochInRange(p: TimeProvider, epoch: nat) {
    epoch + 1 < TWO_TO_THE_32 && p.genesisSlot + (epoch + 1) * p.SlotsPerEpoch() <= TWO_TO_THE_32
  }

  lemma Unwrapped(x: int)
    requires 0 <= x < TWO_TO_THE_32
    ensures x % TWO_TO_THE_32 == x
  {
  }

  lemma EpochStartUnwrapped(p: TimeProvider, epoch: uint32)
    requires 0 <= epoch * p.SlotsPerEpoch() && p.genesisSlot + epoch * p.SlotsPerEpoch() < TWO_TO_THE_32
    ensures p.EpochStart(epoch) == p.genesisSlot + epoch * p.SlotsPerEpoch()
  {
    Unwrapped(epoch * p.SlotsPerEpoch());
    Unwrapped(p.genesisSlot + epoch * p.SlotsPerEpoch());
  }

  lemma NextMultiple(epoch: nat, n: int)
    requires n >= 1
    ensures (epoch + 1) * n == epoch * n + n
    ensures 0 <= epoch * n
  {
  }

  lemma EpochBounds(p: TimeProvider, epoch: uint32)
    requires EpochInRange(p, epoch)
    ensures p.EpochStart(epoch) == p.genesisSlot + epoch * p.SlotsPerEpoch()
    ensures p.EpochEnd(epoch) == p.genesisSlot + (epoch + 1) * p.SlotsPerEpoch() - 1
    ensures p.EpochEnd(epoch) == p.EpochStart(epoch) + p.SlotsPerEpoch() - 1
  {
    NextMultiple(epoch, p.SlotsPerEpoch());
    EpochStartUnwrapped(p, epoch);
    var last: nat := (epoch + 1) * p.SlotsPerEpoch() - 1;
    assert p.EpochEnd(epoch) == (p.genesisSlot + last % TWO_TO_THE_32) % TWO_TO_THE_32 by {
      Unwrapped(epoch + 1);
    }
    Unwrapped(last);
    Unwrapped(p.genesisSlot + last);
  }

  /** EpochStart and EpochEnd bracket exactly the slots of an epoch. */
  lemma EpochBracketsItsSlots(p: TimeProvider, epoch: uint32, slot: uint32)
    requires EpochInRange(p, epoch) && slot >= p.genesisSlot
    ensures p.EpochFromSlot(slot) == epoch <==> p.EpochStart(epoch) <= slot <= p.EpochEnd(epoch)
  {
    EpochBounds(p, epoch);
    var n, x: nat := p.SlotsPerEpoch(), slot - p.genesisSlot;
    NextMultiple(epoch, n);
    DivBounds(x, n);
    assert p.EpochFromSlot(slot) == x / n;
    if epoch * n <= x < epoch * n + n {
      DivUnique(x, n, epoch);
    }
  }

  /** Slots up to the genesis slot are in epoch 0, and those before it are at no distance from epochs. */
  lemma EpochOfEarlySlots(p: TimeProvider, slot: uint32)
    requires slot <= p.genesisSlot
    ensures p.EpochFromSlot(slot) == 0
    ensures slot < p.genesisSlot ==> p.SlotsBeforeNextEpoch(slot) == 0 && p.SlotsSinceEpochStart(slot) == 0
  {
  }

  /** With 8192 slots in an epoch, the epoch changes between slots 8191 and 8192. */
  lemma EpochOf8192Slots()
    ensures var p := TimeProvider(0, 0, 10, 13);
            && p.SlotsPerEpoch() == 8192
            && p.EpochFromSlot(8191) == 0 && p.EpochFromSlot(8192) == 1
            && p.EpochStart(1) == 8192 && p.EpochEnd(1) == 16383
            && p.SlotsBeforeNextEpoch(8190) == 2 && p.SlotsSinceEpochStart(8194) == 2
  {
    assert Pow2(13) == 8192 by {
      Pow2Add(8, 5);
      assert Pow2(8) == 256 && Pow2(5) == 32;
    }
  }

  /** The distances the two functions are documented to return, over the integers. */
  ghost function TrueSlotsBeforeNextEpoch(p: TimeProvider, slot: uint32): int {
    p.genesisSlot + (p.EpochFromSlot(slot) + 1) * p.SlotsPerEpoch() - slot
  }

  ghost function TrueSlotsSinceEpochStart(p: TimeProvider, slot: uint32): int {
    slot - (p.genesisSlot + p.EpochFromSlot(slot) * p.SlotsPerEpoch())
  }

  /** The start of an epoch, in the machine's arithmetic. */
  lemma EpochStartModulo(p: TimeProvider, epoch: nat)
    ensures p.EpochStart(epoch % TWO_TO_THE_32) == (p.genesisSlot + epoch * p.SlotsPerEpoch()) % TWO_TO_THE_32
  {
    var n, q := p.SlotsPerEpoch(), epoch / TWO_TO_THE_32;
    var e: nat := epoch % TWO_TO_THE_32;
    assert epoch == q * TWO_TO_THE_32 + e;
    Distributes(q * TWO_TO_THE_32, e, n);
    assert epoch * n == (q * n) * TWO_TO_THE_32 + e * n by {
      MulShuffle(q, TWO_TO_THE_32, n);
    }
    AddedMultiple(q * n, e * n);
    ReducedTerm(p.genesisSlot, e * n);
    ReducedTerm(p.genesisSlot, epoch * n);
  }

  /** The end of an epoch is the slot before the next epoch's start, in the machine's arithmetic. */
  lemma EpochEndModulo(p: TimeProvider, epoch: uint32)
    ensures p.EpochEnd(epoch) == (p.EpochStart((epoch + 1) % TWO_TO_THE_32) - 1) % TWO_TO_THE_32
    ensures p.EpochEnd(epoch) == (p.genesisSlot + (epoch + 1) * p.SlotsPerEpoch() - 1) % TWO_TO_THE_32
  {
    EpochStartModulo(p, epoch + 1);
    var x := (epoch + 1) % TWO_TO_THE_32 * p.SlotsPerEpoch();
    ReducedTerm(p.genesisSlot, x - 1);
    ReducedTerm(p.genesisSlot, x);
    ReducedTerm(-1, p.genesisSlot + x);
    ReducedTerm(-1, p.genesisSlot + (epoch + 1) * p.SlotsPerEpoch());
  }

  lemma Distributes(x: int, y: int, n: int)
    ensures (x + y) * n == x * n + y * n
  {
  }

  lemma MulShuffle(x: int, y: int, z: int)
    ensures x * y * z == x * z * y
  {
  }

  /** From the genesis slot on, each distance function returns the distance plus the genesis slot in
      32-bit arithmetic, so it is right, also modulo 2^32, exactly when the genesis slot is 0. */
  lemma DistancesRightIff(p: TimeProvider, slot: uint32)
    requires slot >= p.genesisSlot
    ensures p.SlotsBeforeNextEpoch(slot) == (TrueSlotsBeforeNextEpoch(p, slot) + p.genesisSlot) % TWO_TO_THE_32
    ensures p.SlotsSinceEpochStart(slot) == (TrueSlotsSinceEpochStart(p, slot) + p.genesisSlot) % TWO_TO_THE_32
    ensures p.SlotsBeforeNextEpoch(slot) == TrueSlotsBeforeNextEpoch(p, slot) % TWO_TO_THE_32 <==> p.genesisSlot == 0
    ensures p.SlotsSinceEpochStart(slot) == TrueSlotsSinceEpochStart(p, slot) % TWO_TO_THE_32 <==> p.genesisSlot == 0
  {
    BeforeNextIs(p, slot);
    SinceStartIs(p, slot);
    ShiftedNever(TrueSlotsBeforeNextEpoch(p, slot), p.genesisSlot);
    ShiftedNever(TrueSlotsSinceEpochStart(p, slot), p.genesisSlot);
  }

  lemma BeforeNextIs(p: TimeProvider, slot: uint32)
    requires slot >= p.genesisSlot
    ensures p.SlotsBeforeNextEpoch(slot) == (TrueSlotsBeforeNextEpoch(p, slot) + p.genesisSlot) % TWO_TO_THE_32
  {
    var e: nat, n := p.EpochFromSlot(slot), p.SlotsPerEpoch();
    EpochStartModulo(p, e + 1);
    BeforeModulo(p.genesisSlot, slot, p.genesisSlot + (e + 1) * n);
  }

  lemma SinceStartIs(p: TimeProvider, slot: uint32)
    requires slot >= p.genesisSlot
    ensures p.SlotsSinceEpochStart(slot) == (TrueSlotsSinceEpochStart(p, slot) + p.genesisSlot) % TWO_TO_THE_32
  {
    var e: nat, n := p.EpochFromSlot(slot), p.SlotsPerEpoch();
    EpochStartModulo(p, e);
    Unwrapped(e);
    SinceModulo(p.genesisSlot, slot, p.genesisSlot + e * n);
  }

  lemma BeforeModulo(g: int, slot: int, start: int)
    ensures (g + start % TWO_TO_THE_32 - slot) % TWO_TO_THE_32 == (start - slot + g) % TWO_TO_THE_32
  {
    ReducedTerm(g - slot, start);
  }

  lemma SinceModulo(g: int, slot: int, start: int)
    ensures (g + slot - start % TWO_TO_THE_32) % TWO_TO_THE_32 == (slot - start + g) % TWO_TO_THE_32
  {
    ReducedTerm(g + slot, start);
  }

  lemma ShiftedNever(x: int, g: uint32)
    ensures (x + g) % TWO_TO_THE_32 == x % TWO_TO_THE_32 <==> g == 0
  {
  }

  /** Up to the next epoch after a slot, if a slot of a later epoch exists, nothing wraps. */
  lemma DistancesUnwrapped(p: TimeProvider, creation: uint32, target: uint32)
    requires creation >= p.genesisSlot
    requires p.EpochFromSlot(creation) < p.EpochFromSlot(target)
    ensures 0 <= TrueSlotsBeforeNextEpoch(p, creation) + p.genesisSlot < TWO_TO_THE_32
    ensures 0 <= TrueSlotsSinceEpochStart(p, target) + p.genesisSlot < TWO_TO_THE_32
  {
    var c, t, n := p.EpochFromSlot(creation), p.EpochFromSlot(target), p.SlotsPerEpoch();
    DivBounds(creation - p.genesisSlot, n);
    DivBounds(target - p.genesisSlot, n);
    MulMonotone(c + 1, t, n);
    NextMultiple(c, n);
    NextMultiple(t, n);
  }

  /** The slots before the next epoch, the slots of the whole epochs in between and the slots since
      the start of the last epoch add up to the distance between two slots of different epochs
      exactly when the genesis slot is 0. */
  lemma DistanceAddsUpIff(p: TimeProvider, creation: uint32, target: uint32)
    requires creation >= p.genesisSlot
    requires p.EpochFromSlot(creation) < p.EpochFromSlot(target)
    ensures p.SlotsBeforeNextEpoch(creation)
            + (p.EpochFromSlot(target) - p.EpochFromSlot(creation) - 1) * p.SlotsPerEpoch()
            + p.SlotsSinceEpochStart(target)
            == target - creation
       <==> p.genesisSlot == 0
  {
    var c, t, n := p.EpochFromSlot(creation), p.EpochFromSlot(target), p.SlotsPerEpoch();
    assert target >= p.genesisSlot;
    var before, since := TrueSlotsBeforeNextEpoch(p, creation), TrueSlotsSinceEpochStart(p, target);
    DistancesUnwrapped(p, creation, target);
    assert p.SlotsBeforeNextEpoch(creation) == before + p.genesisSlot by {
      BeforeNextIs(p, creation);
      Unwrapped(before + p.genesisSlot);
    }
    assert p.SlotsSinceEpochStart(target) == since + p.genesisSlot by {
      SinceStartIs(p, target);
      Unwrapped(since + p.genesisSlot);
    }
    assert before + (t - c - 1) * n + since == target - creation by {
      MulSubtract(t, c + 1, n);
    }
  }

  lemma MulSubtract(a: int, b: int, n: int)
    ensures (a - b) * n == a * n - b * n
  {
  }
}
