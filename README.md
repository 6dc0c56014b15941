# virosology epidemic engine in Dafny

The repository simulates an epidemic with agents. A population of persons is
placed at random on a bounded grid. Each tick, every person tries one random
step. A step that meets another person can pass the disease on, or the
infected may die. The simulation stops when nobody is infected. The
repository holds two engines:

- **The terminal engine** (`main.go`, module `Terminal`).
  - Persons live on the grid of cells `[1,maxX] x [1,maxY]`.
  - A step moves one cell.
  - Contact infects without any chance draw.
  - Nobody dies.
- **The browser engine** (`web/script.js`).
  - Module `BrowserChance` holds `randomToN` and `wouldOccurWithChance`.
  - Module `Browser` holds the persons, `positionTakenBy`, `newPopulation` and `movePopulation`.
  - Module `BrowserStats` holds the counting of the main loop and `displayStats`.
  - Persons live on the canvas `[0,maxX) x [0,maxY)` and step 20 units.
  - "Occupied" means someone is within 10 units on both axes.
  - Transmission from an infected mover succeeds with a chance.
  - An infected person may die on one fixed day of the illness.

Module `Optional` holds the `Option` type both engines use for lookups.

Every random draw of the source is an input to the model:

- The terminal engine's placement takes one `Attempt` per pass of its retry loop: `rand.Intn(maxX)` and `rand.Intn(maxY)` for the candidate cell, and `rand.Intn(100)` for the isolation decision. The source draws the last one only on the pass that is accepted, so on a turned-down pass it is ignored.
- The terminal engine's tick takes one `Roll` per person: two `rand.Intn(100)` values.
- The browser engine's placement takes one `Attempt` per pass: three `Math.random()` reals, each in `[0,1)`, for x, for y and for the isolation decision. The source draws the isolation value only on the pass that is accepted, so on a turned-down pass it is ignored.
- The browser engine's tick takes one `Draws` per person: four `Math.random()` reals, for death, axis, direction and transmission.

The retry loops of both `newPopulation` functions run until a free place
turns up, which may never happen. Here they consume the supplied attempts,
and both `NewPopulation` methods promise rejection sampling exactly:

- each accepted attempt is the first one after the previous slot's whose place is free;
- every attempt in between was turned down because its place was taken (`TurnedDownOnlyWhenTaken`);
- the result is incomplete (`complete == false`) only when every attempt after the last accepted one was turned down (`RanOutOfAttempts`).

So a run is complete, with exactly `populationSize` persons, unless the attempts run out.

Each tick is specified by pure functions on sequences:

- `MoveOne` is one person's turn.
- `Moved(s, n, ...)` is the population after the first `n` turns.

The in-place `MovePopulation` methods are proved equal to `Moved` over the
whole array. The properties of a tick are lemmas about `Moved`.

Some behaviours of the code are easy to miss when reading it. The lemmas
named with them state them:

- **Cells are not exclusive after a tick in the terminal engine.** `movePopulation` (main.go:125-139) commits the step into an occupied cell whenever neither contact rule applies. See `Terminal.MoveOneEntersOccupiedCell` and `Terminal.SharedCellAfterTick`. Exclusivity holds only right after placement (`Terminal.NewPopulation`).
- **The browser engine keeps its exclusion at all times.** Only the mover changes place, and only onto a target nobody is near (web/script.js:195-212). So the pairwise apartness that `newPopulation` sets up holds after every turn and every tick (`Browser.MoveOneKeepsApart`, `Browser.MovedKeepsApart`).
- **The terminal engine can lose an infection.** An infected mover meeting a susceptible occupant writes the infection to a copy (main.go:94-101, 125-130). The occupant stays susceptible and the mover stays put (`Terminal.MoveOneLosesInfection`). Because of this, the terminal engine only spreads disease when a susceptible person walks into an infected one.
- **In the browser engine, infection of the mover needs no draw.** A susceptible mover that meets an infected occupant is always infected (web/script.js:206-208). So a transmission chance of 0 does not keep the disease within the initially infected: it still spreads whenever a susceptible person walks into an infected one (`Browser.SpreadsWithChanceZero`).
- **The canvas is 0-indexed in the browser engine** (web/script.js:127-128, 191), while the terminal grid starts at 1 (main.go:72-73, 121).
- **Reinfection on the gap day.** In the terminal engine the day `infectedAt + daysToRecover` is neither infected nor immune. A person can be infected again on that day (`Terminal.GapDay`, `Terminal.GapDayReinfection`). The browser engine uses `>=` for immunity, so it has no gap and nobody is infected twice (`Browser.MovedInfectsOnce`).
- **Neither engine keeps per-day history records.** The browser engine counts the infected each frame and shows two totals at the end, and that is what is modelled.

## Model

| member | source | states |
|---|---|---|
| Terminal.Person.IsInfected | main.go:53-55 | infected while fewer than `daysToRecover` days have passed since a nonzero `infectedAt` |
| Terminal.Person.IsImmune | main.go:57-59 | immune once more than `daysToRecover` days have passed since a nonzero `infectedAt` |
| Terminal.Target | main.go:108-119 | the cell one step away along the axis and in the direction the two rolls pick |
| Terminal.Placed | main.go:76-85 | the person a slot receives: the candidate cell, infected on day 1 below `initialInfectedCount`, isolated when the roll is below the percentage |
| Terminal.StatusExclusive | main.go:53-59 | nobody is infected and immune on the same day |
| Terminal.GapDay | main.go:53-59 | on day `infectedAt + daysToRecover` an infected-once person is neither infected nor immune |
| Terminal.ThreeDayCourse | main.go:53-59 | infected on day 1 with 3 days to recover: infected exactly on days 1-3, immune exactly from day 5, in the gap on day 4 |
| Terminal.Occupant | main.go:94-101 | the copy of the first person on the cell that `positionTaken` hands back, or none |
| Terminal.FirstAt | main.go:94-101 | the index found holds `pos` and every earlier index does not; `None` exactly when nobody stands on `pos` |
| Terminal.PositionTaken | main.go:94-101 | the loop returns a copy of the first person on `pos`; it returns a person exactly when someone stands on `pos`, and that person stands on `pos` |
| Terminal.ZeroPerson | main.go:69 | the zero value `make` puts in every slot: at (0,0), never infected, not isolated |
| Terminal.CandidateOf | main.go:72-74 | the candidate cell `rand.Intn(maxX) + 1`, `rand.Intn(maxY) + 1` of an attempt |
| Terminal.UnplacedSlotsNeverMatch | main.go:69-75 | zero-valued slots at (0,0) never match a candidate, so searching the whole slice finds only already-placed persons |
| Terminal.RetryUntilFree | main.go:71-75 | the attempt accepted is the first from `start` whose cell is free among placed persons; every skipped attempt hit an occupied cell; running out of attempts is reported |
| Terminal.NewPopulation | main.go:61-92 | slot `i` gets the person of its accepted attempt; the first `initialInfectedCount` slots are infected on day 1; isolation is `roll < isolationPercent`; positions lie in the grid and are pairwise distinct; slots left unfilled stay zero; accepted attempts strictly increase; every attempt turned down for slot `i` hit a cell among the first `i` slots; the result is incomplete only if every attempt after the last accepted one was turned down |
| Terminal.SlotKeepsRejections | main.go:70-87 | filling slot `i` from the first free attempt keeps "every turned-down attempt hit a filled cell" for all slots up to `i` |
| Terminal.MoveOne | main.go:104-139 | a turn changes only the mover's element |
| Terminal.Moved | main.go:104-140 | a partial tick keeps the population's length |
| Terminal.MovePopulation | main.go:103-141 | the in-place loop leaves exactly `Moved(old population, all turns)` |
| Terminal.MoveOneStep | main.go:105-139 | the mover stays put or steps exactly one cell, inside the grid, and only if not isolated; isolation and course length never change; a target outside the grid or an isolated mover leaves everything unchanged; a non-isolated mover whose in-grid target is empty enters it and nothing else changes |
| Terminal.MoveOneInfectsOnlySusceptible | main.go:125-135 | a turn changes the mover's `infectedAt` only when the mover is not isolated and susceptible, and then to today |
| Terminal.MoveOneInfectsMover | main.go:132-135 | a susceptible mover whose target holds an infected person is infected today and does not move |
| Terminal.MoveOneLosesInfection | main.go:125-130 | an infected mover meeting a susceptible occupant changes nothing at all |
| Terminal.MoveOneEntersOccupiedCell | main.go:125-139 | with an occupant and neither contact rule applying, the mover still enters the target and shares it with another person |
| Terminal.MovedOwnTurn | main.go:104-140 | after the tick, person `k` is exactly what its own turn made of it |
| Terminal.MovedKeepsIsolated | main.go:105-107 | an isolated person is unchanged by a tick |
| Terminal.MovedStaysInGrid | main.go:121-123 | a tick keeps everyone inside the grid |
| Terminal.MovedInfectsToday | main.go:125-135 | a tick sets `infectedAt` to today or leaves it as it was |
| Terminal.MovedInfectsOnlySusceptible | main.go:104-140 | a tick changes `infectedAt` only for persons not isolated and susceptible at its start, so nobody infected or immune is infected again |
| Terminal.SharedCellAfterTick | main.go:125-139 | a concrete tick after which two persons stand on one cell |
| Terminal.GapDayReinfection | main.go:53-59 | a concrete tick that reinfects a recovered person on the gap day |
| BrowserChance.RandomToN | web/script.js:90-92 | `Math.random() * n` truncated toward zero, then reduced to a signed 32-bit integer by the bitwise or with 0 |
| BrowserChance.WouldOccurWithChance | web/script.js:165-167 | a whole draw from `[0, 100)` below `chance * 100` |
| BrowserChance.ToInt32 | web/script.js:90-92 | the bitwise-or-with-zero conversion yields a signed 32-bit value congruent to its input modulo 2^32, and is the identity on that range |
| BrowserChance.RandomToNInRange | web/script.js:90-92 | for `0 < n <= 2^31`, `randomToN(n)` lies in `[0, n)` |
| BrowserChance.ScaledBelow | web/script.js:90-92 | `Math.random() * n` lies in `[0, n)` |
| BrowserChance.NeverWithChanceZero | web/script.js:165-167 | a chance of 0 or less never occurs |
| BrowserChance.AlwaysWithChanceOne | web/script.js:165-167 | a chance of 1 or more always occurs |
| BrowserChance.ChanceIsThreshold | web/script.js:165-167 | for a whole-percent chance the event occurs exactly when the draw is below the chance |
| BrowserChance.ChanceMonotone | web/script.js:165-167 | whenever a chance occurs, every larger chance occurs on the same draw |
| Browser.Person.IsInfected | web/script.js:103-106 | alive, with fewer than `daysToRecover` days since a nonzero `infectedAt` |
| Browser.Person.IsImmune | web/script.js:108-110 | alive, with at least `daysToRecover` days since a nonzero `infectedAt` |
| Browser.Person.DaysInfected | web/script.js:112-114 | the days since `infectedAt` |
| Browser.Near | web/script.js:155-158 | strictly within 10 units of the occupied position on both axes |
| Browser.Placed | web/script.js:132-142 | the person a slot receives: the candidate, infected on day 1 below `initialInfectedCount`, isolated by a chance draw, alive |
| Browser.Target | web/script.js:178-189 | the position 20 units away along the axis and in the direction the two chance draws pick |
| Browser.DiesToday | web/script.js:174 | infected, the death draw succeeds, and today is day `daysUntilDeath` of the illness |
| Browser.StatusPartition | web/script.js:103-114 | a living, once-infected person is infected or immune but not both; the dead and the never infected are neither |
| Browser.NearSymmetric | web/script.js:155-158 | the proximity box test is symmetric |
| Browser.FirstNear | web/script.js:152-163 | the index found is near `pos` and every earlier one is not; `None` exactly when nobody is near |
| Browser.PositionTakenBy | web/script.js:152-163 | the loop returns the first person near `position`, or none |
| Browser.CandidateOf | web/script.js:127-129 | the candidate `randomToN(maxX)`, `randomToN(maxY)` of an attempt |
| Browser.CandidateOnCanvas | web/script.js:127-129 | on a canvas of at most 2^31 per side, every candidate lies on the canvas |
| Browser.RetryUntilFree | web/script.js:126-131 | the attempt accepted is the first from `start` whose candidate nobody is near; every skipped attempt was near someone |
| Browser.AppendKeepsApart | web/script.js:130-142 | pushing a person nobody is near keeps the population pairwise apart |
| Browser.NewPopulation | web/script.js:117-150 | at most the size (none when it is negative), and exactly the size when complete; each person from its accepted attempt, alive, with the first `initialInfectedCount` infected on day 1; pairwise not near; on the canvas when it is drawable; every attempt turned down for person `i` was near one of the first `i`; the result is incomplete only if every attempt after the last accepted one was turned down |
| Browser.SlotKeepsRejections | web/script.js:125-145 | pushing the person of the first free attempt keeps "every turned-down attempt was near a placed person" for all persons up to it |
| Browser.PushKeepsPlacedSoFar | web/script.js:125-145 | one pass of the outer loop keeps the whole placement state: accepted attempts, placed persons, apartness, canvas bounds and rejections |
| Browser.PlacedFields | web/script.js:132-142 | every placed person is alive, has the given course length, and is infected on day 1 exactly when its index is below `initialInfectedCount` |
| Browser.MoveOne | web/script.js:170-213 | besides the mover, a turn changes only the first person near the target, only when that person is alive and susceptible, the mover is infected, not isolated, not dying and the transmission draw succeeds, and only by infecting it today |
| Browser.Moved | web/script.js:170-213 | a partial tick keeps the population's length |
| Browser.TakeTurn | web/script.js:171-212 | one pass of the loop body leaves exactly `MoveOne` of the old population |
| Browser.MovePopulation | web/script.js:169-214 | the in-place loop leaves exactly `Moved(old population, all turns)` |
| Browser.MoveOneDeath | web/script.js:171-177 | a person dies in its turn exactly when it is alive, not isolated, infected, its draw succeeds and today is day `daysUntilDeath`; death changes nothing else; nobody revives |
| Browser.CertainDeath | web/script.js:174-176 | at chance of death 1 an infected mover on day `daysUntilDeath` dies |
| Browser.MoveOneKeepsDead | web/script.js:171-198 | a turn never changes a dead person |
| Browser.TargetNotNearSelf | web/script.js:184-189 | the target is 20 units away on one axis, so the mover is never near it |
| Browser.MoveOnePosition | web/script.js:184-212 | only the mover's position changes, and only to the 20-unit target, on the canvas, when nobody is near it and the mover is alive, not isolated and not dying; conversely such a mover with a free target on the canvas moves there and nothing else changes |
| Browser.MoveOneKeepsApart | web/script.js:195-212 | a turn keeps the population pairwise apart |
| Browser.MoveOneTransmits | web/script.js:200-205 | an infected mover meeting a living susceptible occupant infects it today exactly when the transmission draw succeeds, and does not move |
| Browser.MoveOneInfectsMover | web/script.js:206-209 | a susceptible mover meeting an infected occupant is infected today, whatever the draws, and does not move |
| Browser.SpreadsWithChanceZero | web/script.js:206-208 | a concrete tick at transmission chance 0 that infects a susceptible person |
| Browser.MovedKeepsDead | web/script.js:171-176 | a tick leaves the dead unchanged and revives nobody |
| Browser.MovedOwnTurn | web/script.js:170-213 | position and life of person `k` after the tick are those its own turn gave it |
| Browser.MovedKeepsIsolation | web/script.js:170-213 | a tick changes nobody's isolation or course length |
| Browser.MovedKeepsIsolatedInPlace | web/script.js:171-173 | an isolated person neither moves nor dies during a tick |
| Browser.MovedKeepsApart | web/script.js:169-214 | a tick keeps the population pairwise apart: no two persons are ever near each other |
| Browser.MovedStaysOnCanvas | web/script.js:191-193 | a tick keeps everyone on the canvas |
| Browser.MovedInfectsOnce | web/script.js:200-208 | a tick sets `infectedAt` only to today and never changes one already set |
| Browser.MovedKeepsDeadWereInfected | web/script.js:174-175 | "every dead person was infected" survives a tick |
| BrowserStats.CountEverInfected | web/script.js:66-69 | the count is at most the size; it is 0 exactly when nobody was infected and the size exactly when everybody was |
| BrowserStats.CountDead | web/script.js:70-72 | the count is at most the size; it is 0 exactly when all live and the size exactly when all are dead |
| BrowserStats.CountInfected | web/script.js:29-34 | the count is at most the size and is 0 exactly when nobody is infected today |
| BrowserStats.InfectedToday | web/script.js:29-35 | the frame's count is the infected-today count, and the loop stops exactly when nobody is infected today |
| BrowserStats.DisplayStats | web/script.js:64-75 | the loop's totals are the ever-infected count and the dead count |
| BrowserStats.DeadAmongInfected | web/script.js:64-75 | when every dead person was infected, the dead total is at most the infected total |
| BrowserStats.EverInfectedGrows | web/script.js:66-69 | the ever-infected count does not fall when nobody loses `infectedAt` |
| BrowserStats.DeadGrows | web/script.js:70-72 | the dead count does not fall when nobody revives |
| BrowserStats.TickKeepsTotals | web/script.js:169-214 | neither total falls during a tick |

## Left out

- Rendering is not modelled. This covers the terminal drawing through `goterm`, the canvas and emoji drawing, the DOM form reading and the stop button. These are I/O.
- The main loops' timing, `setInterval` and `time.Sleep`, is not modelled. The same holds for the terminal engine's endless `for` loop, because Go's `main` has no stop test.
- The random number generators and their seeding are not modelled. Every draw is an input, and the model says nothing about distributions beyond `BrowserChance.ChanceIsThreshold`.
- Floating point is not modelled. `Math.random()` values, chances and `Math.random() * n` are exact reals. In the terminal engine, `int(isolationLevel*100)` of a `float32` is taken as the given integer `isolationPercent`.
- params.go's constants are not part of this model. The terminal engine's parameters are arguments.
- Terminal.NewPopulation: the source's retry loop never ends when no free cell exists. Here it ends with `complete == false` once the supplied attempts run out.
- Terminal.NewPopulation: a negative `populationSize`, a panic in `make`, is excluded by the parameter's type `nat`.
- Terminal.NewPopulation: a non-positive grid side, a panic in `rand.Intn`, is accepted by the model. No attempt can then be drawn for the grid, so the run ends with `complete == false` where the source panics.
- Browser.NewPopulation: the source's retry loop never ends when no free place exists. Here it ends with `complete == false` once the supplied attempts run out.
- Browser.NewPopulation: the source assigns the globals `population` and `i`, and `displayStats` the global `p`. Those leaks are not modelled.
- In the browser engine, persons are objects reached only through the population array. The model keeps them as values in an array updated by index. Aliasing and object identity are not modelled; the source creates none beyond the array.
- Per-day history records and infected/recovered/healthy/dead category counts are not part of this model, because neither engine keeps them.
