/** The identifier generator. An identifier is the instance's prefix (a machine
    tag followed by the process id as 3 base-62 digits) followed by a counter as
    8 base-62 digits. The counter is seeded once, lazily, from the number of
    quarter seconds since a fixed epoch times 62^2, and every request adds one. */
module IdGen {
  import opened Base62

  /** Milliseconds per tick (a quarter second). */
  const TickMs: nat := 250

  /** Counter values reserved per tick: two base-62 digits, 62^2. */
  const SlotsPerTick: nat := 3844

  /** Width of the process id field and of the counter field. */
  const PidWidth: nat := 3
  const CounterWidth: nat := 8

  /** Whole ticks elapsed since the epoch (the floor of elapsedMs / 250). */
  function Ticks(elapsedMs: nat): nat {
    elapsedMs / TickMs
  }

  /** The seed the documentation promises: ticks shifted left by two base-62 digits. */
  function SeedAt(elapsedMs: nat): nat {
    Ticks(elapsedMs) * SlotsPerTick
  }

  /** The identifier whose counter is c. */
  function IdFor(prefix: string, c: nat): string {
    prefix + ToBase62(c, CounterWidth)
  }

  /** The first n identifiers an instance issues after seeding with seed:
      counters seed + 1, ..., seed + n. */
  function Ids(prefix: string, seed: nat, n: nat): (ids: seq<string>)
    ensures |ids| == n
  {
    if n == 0 then [] else Ids(prefix, seed, n - 1) + [IdFor(prefix, seed + n)]
  }

  /** The i-th issued identifier has counter seed + i + 1. */
  lemma {:induction false} IdsAt(prefix: string, seed: nat, n: nat, i: nat)
    requires i < n
    ensures Ids(prefix, seed, n)[i] == IdFor(prefix, seed + i + 1)
  {
    if i < n - 1 {
      IdsAt(prefix, seed, n - 1, i);
    }
  }

  /** Shape of every issued identifier: it starts with the prefix, its trailing
      part is made of alphabet characters and decodes to its counter
      seed + i + 1, and it is prefix length + 8 long exactly when that counter
      is below 62^8. */
  lemma {:induction false} IdShape(prefix: string, seed: nat, n: nat, i: nat)
    requires i < n
    ensures var id := Ids(prefix, seed, n)[i];
      && |id| >= |prefix| + CounterWidth
      && id[..|prefix|] == prefix
      && FromBase62(id[|prefix|..]) == Ok(seed + i + 1)
      && (forall p :: |prefix| <= p < |id| ==> IsDigitChar(id[p]))
      && (|id| == |prefix| + CounterWidth <==> seed + i + 1 < Pow(CounterWidth))
  {
    IdsAt(prefix, seed, n, i);
    var id := Ids(prefix, seed, n)[i];
    assert id[|prefix|..] == ToBase62(seed + i + 1, CounterWidth);
    RoundTrip(seed + i + 1, CounterWidth);
    FixedWidth(seed + i + 1, CounterWidth);
    EncodingAlphabet(seed + i + 1, CounterWidth);
    forall p | |prefix| <= p < |id|
      ensures IsDigitChar(id[p])
    {
      assert id[p] == ToBase62(seed + i + 1, CounterWidth)[p - |prefix|];
    }
  }

  /** The trailing part of an identifier decodes to its counter. */
  lemma {:induction false} IdForDecodes(prefix: string, c: nat)
    ensures FromBase62(IdFor(prefix, c)[|prefix|..]) == Ok(c)
  {
    assert IdFor(prefix, c)[|prefix|..] == ToBase62(c, CounterWidth);
    RoundTrip(c, CounterWidth);
  }

  /** Identifiers with one prefix and different counters differ. */
  lemma {:induction false} IdForDistinct(prefix: string, c: nat, d: nat)
    requires c != d
    ensures IdFor(prefix, c) != IdFor(prefix, d)
  {
    IdForDecodes(prefix, c);
    IdForDecodes(prefix, d);
  }

  /** Identifiers of two runs with one prefix differ when their counters do. */
  lemma {:induction false} IdsDiffer(prefix: string, s1: nat, n1: nat, i: nat, s2: nat, n2: nat, j: nat)
    requires i < n1 && j < n2
    requires s1 + i != s2 + j
    ensures Ids(prefix, s1, n1)[i] != Ids(prefix, s2, n2)[j]
  {
    var c, d := s1 + i + 1, s2 + j + 1;
    IdForDistinct(prefix, c, d);
    IdsAt(prefix, s1, n1, i);
    assert Ids(prefix, s1, n1)[i] == IdFor(prefix, c);
    IdsAt(prefix, s2, n2, j);
    assert Ids(prefix, s2, n2)[j] == IdFor(prefix, d);
  }

  /** The identifiers of one run are pairwise distinct. */
  lemma {:induction false} IdsDistinct(prefix: string, seed: nat, n: nat)
    ensures forall i, j :: 0 <= i < j < n ==> Ids(prefix, seed, n)[i] != Ids(prefix, seed, n)[j]
  {
    forall i, j | 0 <= i < j < n
      ensures Ids(prefix, seed, n)[i] != Ids(prefix, seed, n)[j]
    {
      IdsDiffer(prefix, seed, n, i, seed, n, j);
    }
  }

  /** The next identifier of a run differs from each of its earlier ones. */
  lemma {:induction false} NextIdFresh(prefix: string, seed: nat, n: nat)
    ensures IdFor(prefix, seed + n + 1) !in Ids(prefix, seed, n)
  {
    forall k | 0 <= k < n
      ensures Ids(prefix, seed, n)[k] != IdFor(prefix, seed + n + 1)
    {
      IdsAt(prefix, seed, n, k);
      IdForDistinct(prefix, seed + k + 1, seed + n + 1);
    }
  }

  /** Seeding at one tick and issuing fewer than 3844 identifiers for each
      tick that passes before a later seeding keeps the counter strictly below
      the later tick's seed. */
  lemma TickCapacity(earlierMs: nat, laterMs: nat, k: nat)
    requires Ticks(earlierMs) < Ticks(laterMs)
    requires k < SlotsPerTick * (Ticks(laterMs) - Ticks(earlierMs))
    ensures SeedAt(earlierMs) + k < SeedAt(laterMs)
  {
  }

  /** A process seeded at one tick that issues at most 3844 identifiers for
      each tick that passes, and a process with the same prefix seeded at that
      later tick, never issue the same identifier. */
  lemma {:induction false} RestartDisjoint(prefix: string, earlierMs: nat, k: nat, laterMs: nat, m: nat)
    requires Ticks(earlierMs) < Ticks(laterMs)
    requires k <= SlotsPerTick * (Ticks(laterMs) - Ticks(earlierMs))
    ensures forall i, j :: 0 <= i < k && 0 <= j < m ==>
              Ids(prefix, SeedAt(earlierMs), k)[i] != Ids(prefix, SeedAt(laterMs), m)[j]
  {
    forall i, j | 0 <= i < k && 0 <= j < m
      ensures Ids(prefix, SeedAt(earlierMs), k)[i] != Ids(prefix, SeedAt(laterMs), m)[j]
    {
      IdsDiffer(prefix, SeedAt(earlierMs), k, i, SeedAt(laterMs), m, j);
    }
  }

  /** The bound "more than 3844 identifiers in one quarter second" is not what
      keeps a restart safe. The smallest case: a process seeded at 10 ms issues
      one identifier, and a process with the same prefix restarted at 200 ms,
      in the same quarter second, issues the same one first. Across ticks: a
      process seeded in tick 0 that issues 3844 identifiers in tick 0 and 3844
      more in tick 1 never exceeds 3844 in any quarter second, yet a process
      with the same prefix restarted in tick 1 (250 ms) issues as its first
      identifier the earlier run's 3845th. */
  lemma {:induction false} PerTickRateCollides(prefix: string)
    ensures Ids(prefix, SeedAt(10), 1)[0] == Ids(prefix, SeedAt(200), 1)[0]
    ensures Ids(prefix, SeedAt(0), 2 * SlotsPerTick)[SlotsPerTick] == Ids(prefix, SeedAt(250), 1)[0]
  {
    IdsAt(prefix, SeedAt(0), 2 * SlotsPerTick, SlotsPerTick);
    IdsAt(prefix, SeedAt(250), 1, 0);
  }

  /** One generator per process. The wall clock and the process id are
      parameters: elapsedMs is the clock reading minus the epoch, pid the
      process id. */
  class IdGen {
    /** Machine tag followed by the process id as 3 digits; fixed at construction. */
    const prefix: string
    /** The counter: None until seeded. */
    var lastIdInt: Option<nat>

    /** The value the counter was last seeded with. */
    ghost var seed: nat
    /** The identifiers returned since the counter was last seeded, in order. */
    ghost var issued: seq<string>

    ghost predicate Valid()
      reads this
    {
      match lastIdInt
      case None => issued == []
      case Some(c) => c == seed + |issued| && issued == Ids(prefix, seed, |issued|)
    }

    /** The source's `!self.lastIdInt`: true while unset, and also for a counter of 0. */
    predicate Unseeded()
      reads this
    {
      lastIdInt.None? || lastIdInt.value == 0
    }

    constructor (machineTag: string, pid: nat)
      requires pid < Pow(PidWidth)
      ensures Valid()
      ensures prefix == machineTag + ToBase62(pid, PidWidth)
      ensures |prefix| == |machineTag| + PidWidth
      ensures FromBase62(prefix[|machineTag|..]) == Ok(pid)
      ensures lastIdInt == None && issued == []
    {
      FixedWidth(pid, PidWidth);
      RoundTrip(pid, PidWidth);
      assert (machineTag + ToBase62(pid, PidWidth))[|machineTag|..] == ToBase62(pid, PidWidth);
      prefix := machineTag + ToBase62(pid, PidWidth);
      lastIdInt := None;
      seed := 0;
      issued := [];
    }

    /** Seeds the counter: the tick count as 6 digits with "00" appended, decoded. */
    method InitLastIdInt(elapsedMs: nat)
      modifies this
      ensures Valid()
      ensures lastIdInt == Some(SeedAt(elapsedMs))
      ensures seed == SeedAt(elapsedMs) && issued == []
    {
      var quarterSecondsSince := elapsedMs / TickMs;
      ShiftByTwoDigits(quarterSecondsSince);
      var decoded := FromBase62(ToBase62(quarterSecondsSince, 6) + "00");
      lastIdInt := Some(decoded.value);
      seed := decoded.value;
      issued := [];
    }

    /** Seeds the counter if it is unset, adds one and returns the identifier.
        elapsedMs is read only when seeding. */
    method Next(elapsedMs: nat) returns (id: string)
      requires Valid()
      modifies this
      ensures Valid()
      ensures old(Unseeded()) ==>
                lastIdInt == Some(SeedAt(elapsedMs) + 1) && seed == SeedAt(elapsedMs) && issued == [id]
      ensures !old(Unseeded()) ==>
                lastIdInt == Some(old(lastIdInt).value + 1) && seed == old(seed) && issued == old(issued) + [id]
      ensures lastIdInt.Some? && lastIdInt.value >= 1
      ensures id == IdFor(prefix, lastIdInt.value)
      ensures id !in old(issued)
    {
      if Unseeded() {
        InitLastIdInt(elapsedMs);
      }
      var c := lastIdInt.value + 1;
      lastIdInt := Some(c);
      id := prefix + ToBase62(c, CounterWidth);
      NextIdFresh(prefix, seed, |issued|);
      issued := issued + [id];
    }
  }
}
