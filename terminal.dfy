/** The terminal engine: persons on the grid [1,maxX] x [1,maxY], a one-cell
    lattice random walk per tick, and infection on contact with no chance draw.

    Every random draw of the source (`rand.Intn`) is an explicit input here:
    an `Attempt` per iteration of the placement retry loop, and a `Roll` per
    person per tick. */
module Terminal {
  import opened Optional

  datatype Position = Position(x: int, y: int)

  datatype Person = Person(position: Position, infectedAt: int, isIsolated: bool, daysToRecover: int)
  {
    /** Infected for the first `daysToRecover` days, counting the day of infection. */
    predicate IsInfected(currentDay: int) {
      infectedAt != 0 && currentDay - infectedAt < daysToRecover
    }

    /** Immune strictly after `daysToRecover` days: day `infectedAt + daysToRecover`
        itself is neither infected nor immune. */
    predicate IsImmune(currentDay: int) {
      infectedAt != 0 && currentDay - infectedAt > daysToRecover
    }
  }

  /** Go's zero value of `person`, which `make` puts in every slot of a new slice. */
  const ZeroPerson := Person(Position(0, 0), 0, false, 0)

  /** Neither infected nor immune, the condition both contact rules test. */
  predicate Susceptible(p: Person, currentDay: int) {
    !p.IsInfected(currentDay) && !p.IsImmune(currentDay)
  }

  predicate InGrid(pos: Position, maxX: int, maxY: int) {
    1 <= pos.x <= maxX && 1 <= pos.y <= maxY
  }

  /** `a` and `b` differ by exactly one along exactly one axis. */
  predicate OneCellApart(a: Position, b: Position) {
    (a.y == b.y && (b.x == a.x + 1 || b.x == a.x - 1)) ||
    (a.x == b.x && (b.y == a.y + 1 || b.y == a.y - 1))
  }

  // ---------------------------------------------------------------------------
  // Status windows

  lemma StatusExclusive(p: Person, currentDay: int)
    ensures !(p.IsInfected(currentDay) && p.IsImmune(currentDay))
  {
  }

  /** The day exactly `daysToRecover` after infection falls between the windows. */
  lemma GapDay(p: Person, currentDay: int)
    requires p.infectedAt != 0 && currentDay - p.infectedAt == p.daysToRecover
    ensures Susceptible(p, currentDay)
  {
  }

  /** A person infected on day 1 with three days to recover is infected on days
      1 to 3, in the gap on day 4 and immune from day 5 on. */
  lemma ThreeDayCourse(p: Person, currentDay: int)
    requires p.infectedAt == 1 && p.daysToRecover == 3 && currentDay >= 1
    ensures p.IsInfected(currentDay) <==> currentDay <= 3
    ensures p.IsImmune(currentDay) <==> currentDay >= 5
    ensures currentDay == 4 ==> Susceptible(p, currentDay)
  {
  }

  // ---------------------------------------------------------------------------
  // Exact-cell lookup

  /** Index of the first person standing exactly on `pos`. */
  function FirstAt(s: seq<Person>, pos: Position): (r: Option<nat>)
    ensures r.Some? ==> r.value < |s| && s[r.value].position == pos
    ensures r.Some? ==> forall j :: 0 <= j < r.value ==> s[j].position != pos
    ensures r.None? <==> forall j :: 0 <= j < |s| ==> s[j].position != pos
  {
    if |s| == 0 then None
    else if s[0].position == pos then Some(0)
    else match FirstAt(s[1..], pos)
      case None => None
      case Some(k) => Some(k + 1)
  }

  /** What `positionTaken` hands back: a copy of the first person on `pos`. */
  function Occupant(s: seq<Person>, pos: Position): Option<Person> {
    match FirstAt(s, pos)
    case None => None
    case Some(k) => Some(s[k])
  }

  /** The linear search of `positionTaken`. The result is a copy of the
      element (Go's `&p` points at the range variable), so writing to it does
      not reach the slice. */
  method PositionTaken(pos: Position, pop: seq<Person>) returns (found: Option<Person>)
    ensures found == Occupant(pop, pos)
    ensures found.Some? <==> exists j :: 0 <= j < |pop| && pop[j].position == pos
    ensures found.Some? ==> found.value.position == pos
  {
    var k := 0;
    while k < |pop|
      invariant 0 <= k <= |pop|
      invariant forall j :: 0 <= j < k ==> pop[j].position != pos
    {
      if pop[k].position == pos {
        return Some(pop[k]);
      }
      k := k + 1;
    }
    return None;
  }

  // ---------------------------------------------------------------------------
  // Placement

  /** One pass of the retry loop: `rand.Intn(maxX)`, `rand.Intn(maxY)` and, if
      the cell is free, `rand.Intn(100)` for the isolation decision. */
  datatype Attempt = Attempt(rx: int, ry: int, isolationRoll: int)

  /** The ranges `rand.Intn` draws from. */
  predicate DrawnFor(a: Attempt, maxX: int, maxY: int) {
    0 <= a.rx < maxX && 0 <= a.ry < maxY && 0 <= a.isolationRoll < 100
  }

  function CandidateOf(a: Attempt): Position {
    Position(a.rx + 1, a.ry + 1)
  }

  /** Some person in `s` stands exactly on `pos`. */
  predicate TakenIn(s: seq<Person>, pos: Position) {
    exists j :: 0 <= j < |s| && s[j].position == pos
  }

  /** First attempt index that may serve slot `i`: just after the attempt
      accepted for slot `i - 1`. */
  function SlotStart(accepted: seq<nat>, i: nat): nat
    requires i <= |accepted|
  {
    if i == 0 then 0 else accepted[i - 1] + 1
  }

  /** The person that slot `i` receives from attempt `a`: the first
      `initialInfectedCount` slots are infected as of day 1. */
  function Placed(i: nat, a: Attempt, initialInfectedCount: int, isolationPercent: int, daysToRecover: int): Person {
    Person(CandidateOf(a), if i < initialInfectedCount then 1 else 0, a.isolationRoll < isolationPercent, daysToRecover)
  }

  /** Zero slots stand on (0,0), which no candidate of the grid can equal, so a
      hit in the whole slice is a hit among the slots already filled. */
  lemma UnplacedSlotsNeverMatch(s: seq<Person>, i: nat, pos: Position)
    requires i <= |s| && pos.x >= 1
    requires forall k :: i <= k < |s| ==> s[k] == ZeroPerson
    requires TakenIn(s, pos)
    ensures TakenIn(s[..i], pos)
  {
    var j :| 0 <= j < |s| && s[j].position == pos;
    assert s[..i][j].position == pos;
  }

  /** The retry loop of `newPopulation` for slot `i`: draws attempts from
      `start` on until the candidate cell is free in the whole slice `pop`,
      whose slots from `i` on still hold the zero value. */
  method RetryUntilFree(pop: seq<Person>, i: nat, attempts: seq<Attempt>, start: nat)
    returns (next: nat, found: bool)
    requires i <= |pop| && start <= |attempts|
    requires forall k :: i <= k < |pop| ==> pop[k] == ZeroPerson
    requires forall k :: 0 <= k < |attempts| ==> attempts[k].rx >= 0
    ensures start <= next <= |attempts| && (found <==> next < |attempts|)
    ensures found ==> !TakenIn(pop[..i], CandidateOf(attempts[next]))
    ensures forall a :: start <= a < next ==> TakenIn(pop[..i], CandidateOf(attempts[a]))
  {
    next := start;
    while true
      invariant start <= next <= |attempts|
      invariant forall a :: start <= a < next ==> TakenIn(pop[..i], CandidateOf(attempts[a]))
      decreases |attempts| - next
    {
      if next == |attempts| {
        return next, false;
      }
      var taken := PositionTaken(CandidateOf(attempts[next]), pop);
      if taken.None? {
        assert forall j :: 0 <= j < i ==> pop[..i][j] == pop[j];
        return next, true;
      }
      UnplacedSlotsNeverMatch(pop, i, CandidateOf(attempts[next]));
      next := next + 1;
    }
  }

  /** Rejection sampling, slot by slot: every attempt between the one accepted
      for slot `k - 1` and the one accepted for slot `k` was turned down because
      its cell was already filled by one of the first `k` slots of `s`. */
  ghost predicate TurnedDownOnlyWhenTaken(s: seq<Person>, attempts: seq<Attempt>, accepted: seq<nat>) {
    |accepted| <= |s| && (forall k :: 0 <= k < |accepted| ==> accepted[k] < |attempts|) &&
    forall k, a :: SkippedFor(accepted, k, a) ==> TakenIn(s[..k], CandidateOf(attempts[a]))
  }

  /** Attempt `a` was drawn for slot `k` and turned down: it comes after the
      attempt accepted for slot `k - 1` and before the one accepted for `k`. */
  predicate SkippedFor(accepted: seq<nat>, k: int, a: int) {
    0 <= k < |accepted| && 0 <= a < accepted[k] && (k == 0 || accepted[k - 1] < a)
  }

  /** No attempt after the last accepted one found a free cell for the next slot. */
  ghost predicate RanOutOfAttempts(s: seq<Person>, attempts: seq<Attempt>, accepted: seq<nat>) {
    |accepted| <= |s| &&
    forall a :: 0 <= a < |attempts| && (|accepted| == 0 || accepted[|accepted| - 1] < a) ==>
      TakenIn(s[..|accepted|], CandidateOf(attempts[a]))
  }

  /** Filling slot `i` from attempt `next`, the first free one from the start of
      the slot, extends rejection sampling by one slot. */
  lemma SlotKeepsRejections(before: seq<Person>, i: nat, person: Person, attempts: seq<Attempt>,
                            accepted: seq<nat>, next: nat)
    requires i == |accepted| && i < |before| && next < |attempts|
    requires forall k :: 0 <= k < i ==> accepted[k] < next
    requires TurnedDownOnlyWhenTaken(before, attempts, accepted)
    requires forall a :: SlotStart(accepted, i) <= a < next ==> TakenIn(before[..i], CandidateOf(attempts[a]))
    ensures TurnedDownOnlyWhenTaken(before[i := person], attempts, accepted + [next])
  {
    var acc, after := accepted + [next], before[i := person];
    forall k | 0 <= k < |acc|
      ensures acc[k] < |attempts|
    {
      if k < i {
        assert acc[k] == accepted[k];
      }
    }
    forall k, a | SkippedFor(acc, k, a)
      ensures TakenIn(after[..k], CandidateOf(attempts[a]))
    {
      assert after[..k] == before[..k];
      if k < i {
        assert acc[k] == accepted[k];
        assert k == 0 || acc[k - 1] == accepted[k - 1];
        assert SkippedFor(accepted, k, a);
      } else {
        assert k == 0 || acc[k - 1] == accepted[k - 1];
        assert SlotStart(accepted, i) <= a < next;
        assert TakenIn(before[..k], CandidateOf(attempts[a]));
      }
    }
    assert |acc| <= |after|;
    assert TurnedDownOnlyWhenTaken(after, attempts, acc);
  }

  /** `newPopulation`: fills a zero-initialised slice slot by slot, retrying a
      slot until its candidate cell is free. The isolation percentage is the
      integer `int(isolationLevel*100)` of the source. The source loops forever
      when no free cell turns up; here that shows as `complete == false` once the
      supplied attempts run out. `accepted[i]` is the attempt that filled slot `i`. */
  method NewPopulation(populationSize: nat, initialInfectedCount: int, daysToRecover: int,
                       isolationPercent: int, maxX: int, maxY: int, attempts: seq<Attempt>)
    returns (population: array<Person>, complete: bool, ghost accepted: seq<nat>)
    requires forall k :: 0 <= k < |attempts| ==> DrawnFor(attempts[k], maxX, maxY)
    ensures fresh(population) && population.Length == populationSize
    ensures |accepted| <= populationSize && (complete <==> |accepted| == populationSize)
    ensures forall i :: 0 <= i < |accepted| ==> accepted[i] < |attempts|
    ensures forall i, j :: 0 <= i < j < |accepted| ==> accepted[i] < accepted[j]
    ensures forall i :: 0 <= i < |accepted| ==>
      population[i] == Placed(i, attempts[accepted[i]], initialInfectedCount, isolationPercent, daysToRecover)
    ensures forall i :: |accepted| <= i < populationSize ==> population[i] == ZeroPerson
    ensures forall i :: 0 <= i < |accepted| ==> InGrid(population[i].position, maxX, maxY)
    ensures forall i, j :: 0 <= i < j < |accepted| ==> population[i].position != population[j].position
    ensures TurnedDownOnlyWhenTaken(population[..], attempts, accepted)
    ensures !complete ==> RanOutOfAttempts(population[..], attempts, accepted)
  {
    population := new Person[populationSize](_ => ZeroPerson);
    accepted := [];
    complete := true;
    var next := 0;
    for i := 0 to populationSize
      invariant |accepted| == i && next == SlotStart(accepted, i) <= |attempts|
      invariant forall k :: 0 <= k < i ==> accepted[k] < next
      invariant forall k, j :: 0 <= k < j < i ==> accepted[k] < accepted[j]
      invariant forall k :: 0 <= k < i ==>
        population[k] == Placed(k, attempts[accepted[k]], initialInfectedCount, isolationPercent, daysToRecover)
      invariant forall k :: i <= k < populationSize ==> population[k] == ZeroPerson
      invariant forall k :: 0 <= k < i ==> InGrid(population[k].position, maxX, maxY)
      invariant forall k, j :: 0 <= k < j < i ==> population[k].position != population[j].position
      invariant TurnedDownOnlyWhenTaken(population[..], attempts, accepted)
    {
      ghost var before := population[..];
      var found;
      next, found := RetryUntilFree(population[..], i, attempts, next);
      assert population[..] == before;
      if !found {
        complete := false;
        return;
      }
      var candidatePosition := CandidateOf(attempts[next]);
      // the cell is free among the slots already filled
      assert forall k :: 0 <= k < i ==> population[..i][k] == population[k];
      var infectedAt := 0;
      if i < initialInfectedCount {
        infectedAt := 1;
      }
      var person := Person(candidatePosition, infectedAt,
                           attempts[next].isolationRoll < isolationPercent, daysToRecover);
      SlotKeepsRejections(before, i, person, attempts, accepted, next);
      population[i] := person;
      assert population[..] == before[i := person];
      accepted := accepted + [next];
      next := next + 1;
    }
  }

  // ---------------------------------------------------------------------------
  // One tick of movement

  /** The two `rand.Intn(100)` draws of a person's turn: below 50 on the first
      picks the x axis, below 50 on the second picks direction -1. */
  datatype Roll = Roll(axisRoll: int, directionRoll: int)

  /** The cell one step away that the person tries to enter. */
  function Target(pos: Position, r: Roll): Position {
    var direction := if r.directionRoll < 50 then -1 else 1;
    if r.axisRoll < 50 then pos.(x := pos.x + direction) else pos.(y := pos.y + direction)
  }

  /** Turn `i` of `movePopulation` on the population `s`. */
  function MoveOne(s: seq<Person>, i: nat, maxX: int, maxY: int, currentDay: int, r: Roll): (t: seq<Person>)
    requires i < |s|
    ensures |t| == |s|
    ensures forall k :: 0 <= k < |s| && k != i ==> t[k] == s[k]
  {
    var me := s[i];
    var target := Target(me.position, r);
    if me.isIsolated || !InGrid(target, maxX, maxY) then s
    else match Occupant(s, target)
      case Some(occupant) =>
        if me.IsInfected(currentDay) && Susceptible(occupant, currentDay) then
          s  // the infection is written to a copy and lost
        else if occupant.IsInfected(currentDay) && Susceptible(me, currentDay) then
          s[i := me.(infectedAt := currentDay)]
        else
          s[i := me.(position := target)]
      case None =>
        s[i := me.(position := target)]
  }

  /** The population after the first `n` persons have taken their turn. */
  function Moved(s: seq<Person>, n: nat, maxX: int, maxY: int, currentDay: int, rolls: seq<Roll>): (t: seq<Person>)
    requires n <= |s| && n <= |rolls|
    ensures |t| == |s|
  {
    if n == 0 then s
    else MoveOne(Moved(s, n - 1, maxX, maxY, currentDay, rolls), n - 1, maxX, maxY, currentDay, rolls[n - 1])
  }

  /** `movePopulation`: every person in slice order takes one turn, in place.
      `rolls[i]` holds person `i`'s draws (ignored when the person is isolated). */
  method MovePopulation(population: array<Person>, maxX: int, maxY: int, currentDay: int, rolls: seq<Roll>)
    requires |rolls| == population.Length
    modifies population
    ensures population[..] == Moved(old(population[..]), population.Length, maxX, maxY, currentDay, rolls)
  {
    for i := 0 to population.Length
      invariant population[..] == Moved(old(population[..]), i, maxX, maxY, currentDay, rolls)
    {
      if population[i].isIsolated {
        continue;
      }
      var xOrY := rolls[i].axisRoll < 50;
      var minusOrPlus := rolls[i].directionRoll < 50;
      var direction := 1;
      if minusOrPlus {
        direction := -1;
      }
      var candidatePosition := population[i].position;
      if xOrY {
        candidatePosition := candidatePosition.(x := candidatePosition.x + direction);
      } else {
        candidatePosition := candidatePosition.(y := candidatePosition.y + direction);
      }
      if candidatePosition.x < 1 || candidatePosition.y < 1 || candidatePosition.x > maxX || candidatePosition.y > maxY {
        continue;
      }
      var taken := PositionTaken(candidatePosition, population[..]);
      if taken.Some? {
        var p := taken.value;
        if population[i].IsInfected(currentDay) && !p.IsInfected(currentDay) && !p.IsImmune(currentDay) {
          p := p.(infectedAt := currentDay);  // a copy: the slice does not see it
          continue;
        }
        if p.IsInfected(currentDay) && !population[i].IsInfected(currentDay) && !population[i].IsImmune(currentDay) {
          population[i] := population[i].(infectedAt := currentDay);
          continue;
        }
      }
      population[i] := population[i].(position := candidatePosition);
    }
  }

  // ---------------------------------------------------------------------------
  // What one turn does

  /** A turn moves the person by one cell inside the grid, or not at all. */
  lemma MoveOneStep(s: seq<Person>, i: nat, maxX: int, maxY: int, currentDay: int, r: Roll)
    requires i < |s|
    ensures var t := MoveOne(s, i, maxX, maxY, currentDay, r);
      t[i].position == s[i].position ||
      (!s[i].isIsolated && OneCellApart(s[i].position, t[i].position) && InGrid(t[i].position, maxX, maxY))
    ensures var t := MoveOne(s, i, maxX, maxY, currentDay, r);
      t[i].isIsolated == s[i].isIsolated && t[i].daysToRecover == s[i].daysToRecover
    ensures !InGrid(Target(s[i].position, r), maxX, maxY) ==> MoveOne(s, i, maxX, maxY, currentDay, r) == s
    ensures s[i].isIsolated ==> MoveOne(s, i, maxX, maxY, currentDay, r) == s
    ensures var target := Target(s[i].position, r);
      !s[i].isIsolated && InGrid(target, maxX, maxY) && Occupant(s, target).None? ==>
        MoveOne(s, i, maxX, maxY, currentDay, r) == s[i := s[i].(position := target)]
  {
  }

  /** A turn changes the mover's `infectedAt` only when the mover is not
      isolated and susceptible, and then to today. */
  lemma MoveOneInfectsOnlySusceptible(s: seq<Person>, i: nat, maxX: int, maxY: int, currentDay: int, r: Roll)
    requires i < |s|
    ensures var t := MoveOne(s, i, maxX, maxY, currentDay, r);
      t[i].infectedAt != s[i].infectedAt ==>
        !s[i].isIsolated && Susceptible(s[i], currentDay) && t[i].infectedAt == currentDay
  {
  }

  /** A susceptible mover whose target holds an infected person catches the
      disease today and stays where it is. */
  lemma MoveOneInfectsMover(s: seq<Person>, i: nat, maxX: int, maxY: int, currentDay: int, r: Roll)
    requires i < |s| && !s[i].isIsolated
    requires Susceptible(s[i], currentDay)
    requires InGrid(Target(s[i].position, r), maxX, maxY)
    requires Occupant(s, Target(s[i].position, r)).Some?
    requires Occupant(s, Target(s[i].position, r)).value.IsInfected(currentDay)
    ensures MoveOne(s, i, maxX, maxY, currentDay, r) == s[i := s[i].(infectedAt := currentDay)]
  {
  }

  /** An infected mover whose target holds a susceptible person changes
      nothing: it stays put and the occupant's infection is lost. */
  lemma MoveOneLosesInfection(s: seq<Person>, i: nat, maxX: int, maxY: int, currentDay: int, r: Roll)
    requires i < |s| && !s[i].isIsolated
    requires s[i].IsInfected(currentDay)
    requires InGrid(Target(s[i].position, r), maxX, maxY)
    requires Occupant(s, Target(s[i].position, r)).Some?
    requires Susceptible(Occupant(s, Target(s[i].position, r)).value, currentDay)
    ensures MoveOne(s, i, maxX, maxY, currentDay, r) == s
  {
  }

  /** With an occupant and no infection pairing the move is still made, so
      afterwards two persons share the target cell. */
  lemma MoveOneEntersOccupiedCell(s: seq<Person>, i: nat, maxX: int, maxY: int, currentDay: int, r: Roll)
    requires i < |s| && !s[i].isIsolated
    requires InGrid(Target(s[i].position, r), maxX, maxY)
    requires Occupant(s, Target(s[i].position, r)).Some?
    requires var o := Occupant(s, Target(s[i].position, r)).value;
      !(s[i].IsInfected(currentDay) && Susceptible(o, currentDay)) &&
      !(o.IsInfected(currentDay) && Susceptible(s[i], currentDay))
    ensures var t := MoveOne(s, i, maxX, maxY, currentDay, r);
      t[i].position == Target(s[i].position, r) &&
      exists j :: 0 <= j < |t| && j != i && t[j].position == t[i].position
  {
    var target := Target(s[i].position, r);
    var j := FirstAt(s, target).value;
    assert s[j].position == target != s[i].position by {
      assert OneCellApart(s[i].position, target);
    }
    var t := MoveOne(s, i, maxX, maxY, currentDay, r);
    assert t[j].position == t[i].position;
  }

  // ---------------------------------------------------------------------------
  // What a whole tick does

  /** Turn `k` touches only person `k`: after the tick person `k` is exactly
      as its own turn left it. */
  lemma {:induction false} MovedOwnTurn(s: seq<Person>, n: nat, k: nat, maxX: int, maxY: int, currentDay: int, rolls: seq<Roll>)
    requires n <= |s| && n <= |rolls| && k < |s|
    ensures k >= n ==> Moved(s, n, maxX, maxY, currentDay, rolls)[k] == s[k]
    ensures k < n ==> (Moved(s, n, maxX, maxY, currentDay, rolls)[k] ==
      MoveOne(Moved(s, k, maxX, maxY, currentDay, rolls), k, maxX, maxY, currentDay, rolls[k])[k])
  {
    if n > 0 {
      MovedOwnTurn(s, n - 1, k, maxX, maxY, currentDay, rolls);
    }
  }

  /** Isolated persons are never changed by a tick. */
  lemma {:induction false} MovedKeepsIsolated(s: seq<Person>, n: nat, k: nat, maxX: int, maxY: int, currentDay: int, rolls: seq<Roll>)
    requires n <= |s| && n <= |rolls| && k < |s| && s[k].isIsolated
    ensures Moved(s, n, maxX, maxY, currentDay, rolls)[k] == s[k]
  {
    MovedOwnTurn(s, n, k, maxX, maxY, currentDay, rolls);
    if k < n {
      MovedOwnTurn(s, k, k, maxX, maxY, currentDay, rolls);
    }
  }

  /** A tick keeps everyone inside the grid. */
  lemma {:induction false} MovedStaysInGrid(s: seq<Person>, n: nat, maxX: int, maxY: int, currentDay: int, rolls: seq<Roll>)
    requires n <= |s| && n <= |rolls|
    requires forall k :: 0 <= k < |s| ==> InGrid(s[k].position, maxX, maxY)
    ensures forall k :: 0 <= k < |s| ==> InGrid(Moved(s, n, maxX, maxY, currentDay, rolls)[k].position, maxX, maxY)
  {
    if n > 0 {
      MovedStaysInGrid(s, n - 1, maxX, maxY, currentDay, rolls);
      var before := Moved(s, n - 1, maxX, maxY, currentDay, rolls);
      MoveOneStep(before, n - 1, maxX, maxY, currentDay, rolls[n - 1]);
    }
  }

  /** A tick changes an `infectedAt` only to the current day. */
  lemma {:induction false} MovedInfectsToday(s: seq<Person>, n: nat, maxX: int, maxY: int, currentDay: int, rolls: seq<Roll>)
    requires n <= |s| && n <= |rolls|
    ensures forall k :: 0 <= k < |s| ==>
      Moved(s, n, maxX, maxY, currentDay, rolls)[k].infectedAt in {s[k].infectedAt, currentDay}
  {
    if n > 0 {
      MovedInfectsToday(s, n - 1, maxX, maxY, currentDay, rolls);
    }
  }

  /** A tick changes `infectedAt` only for persons that are not isolated and
      are susceptible at the start of the tick: somebody infected or immune is
      never infected again, so the gap day is the only way to a second infection. */
  lemma MovedInfectsOnlySusceptible(s: seq<Person>, n: nat, maxX: int, maxY: int, currentDay: int, rolls: seq<Roll>)
    requires n <= |s| && n <= |rolls|
    ensures forall k :: 0 <= k < |s| && Moved(s, n, maxX, maxY, currentDay, rolls)[k].infectedAt != s[k].infectedAt ==>
      !s[k].isIsolated && Susceptible(s[k], currentDay)
  {
    forall k | 0 <= k < |s|
      ensures Moved(s, n, maxX, maxY, currentDay, rolls)[k].infectedAt != s[k].infectedAt ==>
        !s[k].isIsolated && Susceptible(s[k], currentDay)
    {
      MovedOwnTurn(s, n, k, maxX, maxY, currentDay, rolls);
      if k < n {
        MovedOwnTurn(s, k, k, maxX, maxY, currentDay, rolls);
        MoveOneInfectsOnlySusceptible(Moved(s, k, maxX, maxY, currentDay, rolls), k, maxX, maxY, currentDay, rolls[k]);
      }
    }
  }

  /** The cell exclusivity the placement establishes is not kept by a tick:
      two susceptible neighbours, the second isolated, end up on one cell. */
  lemma SharedCellAfterTick()
    ensures var s := [Person(Position(1, 1), 0, false, 10), Person(Position(2, 1), 0, true, 10)];
      var t := Moved(s, 2, 5, 5, 2, [Roll(0, 99), Roll(0, 0)]);
      t[0].position == t[1].position == Position(2, 1)
  {
  }

  /** On the gap day a recovered person is susceptible again and can be
      reinfected by contact. */
  lemma GapDayReinfection()
    ensures var s := [Person(Position(1, 1), 1, false, 3), Person(Position(2, 1), 4, true, 3)];
      var t := Moved(s, 2, 5, 5, 4, [Roll(0, 99), Roll(0, 0)]);
      t[0].infectedAt == 4 && t[0].position == Position(1, 1)
  {
  }
}
