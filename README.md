# IdGen: a verified model of a process-local identifier generator

The generator hands out short printable identifiers without any coordination
between machines or processes. An identifier has three parts:

- a machine tag supplied by the caller;
- the process id written as 3 base-62 digits;
- a counter written as 8 base-62 digits.

The counter is seeded once, on the first request, with the number of quarter
seconds since a fixed epoch times 62^2 = 3844. Every request then adds one to
it. So a process that issues at most 3844 identifiers for each quarter second
that has passed since its seeding never passes the seed of any later tick,
and a restart seeded at that tick hands out counters above its seed. A
restart with the same prefix then cannot repeat one of its identifiers. The
bound is cumulative: staying under 3844 in every single quarter second is not
enough (see "## Findings").

The project has two modules:

- `Base62` (`base62.dfy`) is an assumed model of the base-62 codec that the
  generator requires. The codec's own source is not part of this model. Its
  alphabet is a choice made here: `0`-`9` are the values 0-9, `a`-`z` are
  10-35 and `A`-`Z` are 36-61. `ToBase62(n, w)` writes the remainders of
  repeated division by 62, most significant first, and fills the positions up
  to `w` that `n` does not need with `0`. It never truncates.
  `FromBase62(s)` reads `s` left to right and fails with `InvalidArgument` on
  the first character outside the alphabet.
- `IdGen` (`idgen.dfy`) holds the class `IdGen` with the fields of the
  original object. `prefix` is a `const` set by the constructor. `lastIdInt`
  is an `Option<nat>` that the methods update. Two ghost fields record the
  last seed and the identifiers issued since then; `Valid()` ties them to the
  pure function `Ids(prefix, seed, n)`. The lemmas about identifiers are
  stated over that function. `initLastIdInt` is public in the original, so a
  caller can reseed at any time; the record of issued identifiers then starts
  again, and freshness is promised only since the last seeding.

The wall clock and the process id are parameters. `elapsedMs` is the clock
reading minus the epoch, in milliseconds. `pid` is the process id.
`Next(elapsedMs)` uses `elapsedMs` only when it seeds.

The guard `!self.lastIdInt` treats an unset counter and a counter of 0 alike.
The model keeps both cases in `IdGen.IdGen.Unseeded`, the guard that
`IdGen.IdGen.Next` tests; the `Next` row covers it. `Next` ensures that the
counter is at least 1 afterwards, so no later `Next` call reseeds.

The comment at compiled/IdGen.js:9 describes the machine tag as one base-62
digit. The constructor accepts any string and does not check it, and the
model follows the constructor.

## Model

| member | source | states |
|---|---|---|
| `Base62.DigitValue` | compiled/IdGen.js:3 | A character has a digit value exactly when it is in the alphabet, and that value is below 62. |
| `Base62.DigitChar` | compiled/IdGen.js:3 | Every digit value below 62 is written by an alphabet character that decodes back to it. |
| `Base62.ToBase62` | compiled/IdGen.js:44 | The encoding is never empty and never shorter than the requested width. |
| `Base62.FromBase62` | compiled/IdGen.js:36 | A decoding error always names a character outside the alphabet. |
| `Base62.EncodingAlphabet` | compiled/IdGen.js:44 | Every character of an encoding is in `[0-9a-zA-Z]`. |
| `Base62.DecodeFails` | compiled/IdGen.js:36 | Decoding fails if and only if some character is outside the alphabet, and the error names a character of the input. |
| `Base62.RoundTrip` | compiled/IdGen.js:36 | `FromBase62(ToBase62(n, w)) == Ok(n)` for every `n` and every width `w`, so no value is truncated. |
| `Base62.EncodeInjective` | compiled/IdGen.js:44 | Two values with the same encoding at one width are equal. |
| `Base62.FixedWidth` | compiled/IdGen.js:9-11 | For `w >= 1` the encoding is exactly `w` characters long if and only if `n < 62^w`. |
| `Base62.PadsWithZero` | compiled/IdGen.js:29 | For a value that fits in `w >= 1` digits, the encoding at width `w + 1` is `'0'` followed by the encoding at width `w`. |
| `Base62.AppendTwoZeros` | compiled/IdGen.js:36 | Appending `"00"` to a valid string multiplies its value by 62^2; an invalid string keeps its error. |
| `Base62.ShiftByTwoDigits` | compiled/IdGen.js:36 | The tick count written as 6 digits with `"00"` appended decodes to ticks times 3844, for every tick count. |
| `IdGen.Ids` | compiled/IdGen.js:43-44 | The run after seeding with `seed` holds exactly `n` identifiers, the `n` that `n` calls of `next` return; the lemmas below and the class invariant are stated over it. |
| `IdGen.IdsAt` | compiled/IdGen.js:43-44 | The i-th identifier issued after seeding with `seed` is the prefix followed by the 8-digit encoding of `seed + i + 1`. |
| `IdGen.IdShape` | compiled/IdGen.js:9-14 | Every issued identifier starts with the prefix. Its trailing part is in the alphabet and decodes to its counter. Its length is prefix length + 8 exactly when the counter is below 62^8. |
| `IdGen.IdForDecodes` | compiled/IdGen.js:44 | The part of an identifier after the prefix decodes to its counter. |
| `IdGen.IdForDistinct` | compiled/IdGen.js:44 | Identifiers with one prefix and different counters are different strings. |
| `IdGen.IdsDiffer` | compiled/IdGen.js:43-44 | Identifiers from runs with one prefix differ whenever their counters differ. |
| `IdGen.IdsDistinct` | compiled/IdGen.js:14 | The identifiers of one run are pairwise distinct. |
| `IdGen.NextIdFresh` | compiled/IdGen.js:43-44 | The identifier for the next counter value is not among those already issued in the run. |
| `IdGen.TickCapacity` | compiled/IdGen.js:16-18 | After seeding at one tick, fewer than 3844 increments per elapsed tick keep the counter strictly below the seed of any later tick. |
| `IdGen.RestartDisjoint` | compiled/IdGen.js:16-18 | A run that issues at most 3844 identifiers per tick elapsed before a restart, and the restarted run with the same prefix seeded at that later tick, share no identifier. |
| `IdGen.PerTickRateCollides` | compiled/IdGen.js:17-18 | One identifier issued and a same-prefix restart in the same quarter second repeat it. A run that issues 3844 identifiers in tick 0 and 3844 in tick 1, never more than 3844 in one quarter second, shares an identifier with a restart in tick 1. |
| `IdGen.IdGen.constructor` | compiled/IdGen.js:28-30 | The prefix is the machine tag followed by the pid as 3 digits, so it is 3 characters longer than the tag and its tail decodes to the pid; the counter is unset. |
| `IdGen.IdGen.InitLastIdInt` | compiled/IdGen.js:33-37 | Running the encode, append `"00"`, decode steps on the tick count sets the counter to ticks times 3844. |
| `IdGen.IdGen.Next` | compiled/IdGen.js:39-45 | The counter is seeded only if it is unset or 0. The counter rises by exactly 1 and nothing else changes. The result is the prefix plus the new counter as 8 digits. The result differs from every identifier issued since seeding. |

## Left out

- Reading the wall clock and the process id: both are parameters (`elapsedMs`, `pid`).
- The epoch `Date(2011, 7, 1)` in local time: the model only sees the elapsed milliseconds, which are a `nat`, so a clock before the epoch is excluded.
- JavaScript `Number` arithmetic: the counter is an unbounded `nat`, and `Math.floor` of the division by 250 is integer division of a non-negative number. Rounding above 2^53 is not modelled.
- The real alphabet and code of the base-62 module: `Base62` is an assumed model with its own documented alphabet, so nothing here claims that identifiers compare lexicographically in counter order.
- Base62.ToBase62: negative input is excluded by the `nat` parameter type instead of being reported as an error.
- IdGen.IdGen.constructor: requires `pid < 62^3`; the source does not check this and would then write the pid with more than 3 digits.
- A counter holding `NaN` or another non-number: the model only holds unset or a natural number.
- Concurrency, and uniqueness across machines or after clock adjustments: the source only documents these risks. `RestartDisjoint` covers the same-prefix restart that the comment at compiled/IdGen.js:16-18 discusses.

## Findings

| source | as written | input that shows it | evidently intended | confidence | as-written member | corrected member |
|---|---|---|---|---|---|---|
| compiled/IdGen.js:17-18 | The comment says a collision could only occur if the process generated more than 3844 IDs in a quarter second, stopped, and restarted with the same PID. | Smallest: seed at 10 ms, issue one ID, restart with the same prefix at 200 ms (same tick, same seed); both runs' first ID has counter 1. Across ticks: seed in tick 0 (counter 0). Issue 3844 IDs in tick 0 and 3844 in tick 1, so no quarter second exceeds 3844. Restart with the same prefix at 250 ms (tick 1, seed 3844). The restarted run's first ID has counter 3845, which equals the earlier run's 3845th ID. | Repeats are impossible when the earlier run issued at most 3844 IDs per tick elapsed between its seeding and the restart, a cumulative bound. | not executed; the counterexample is a proved lemma | `IdGen.PerTickRateCollides` | `IdGen.RestartDisjoint` |
