/** The browser engine: persons on the canvas [0,maxX) x [0,maxY), steps of
    20 units, a proximity box instead of an exact cell, a transmission chance,
    and death on a fixed day of the illness.

    The population is an array of `Person` records updated by index. Each
    random draw is an input: an `Attempt` per pass of the placement retry loop
    and a `Draws` record per person per tick. */
module Browser {
  import opened Optional
  import opened BrowserChance

  datatype Position = Position(x: int, y: int)

  datatype Person = Person(position: Position, infectedAt: int, isIsolated: bool, isAlive: bool, daysToRecover: int)
  {
    predicate IsInfected(currentDay: int) {
      isAlive && infectedAt != 0 && currentDay - infectedAt < daysToRecover
    }

    predicate IsImmune(currentDay: int) {
      isAlive && infectedAt != 0 && currentDay - infectedAt >= daysToRecover
    }

    function DaysInfected(currentDay: int): int {
      currentDay - infectedAt
    }
  }

  /** Neither infected nor immune, the condition both contact rules test. */
  predicate Susceptible(p: Person, currentDay: int) {
    !p.IsInfected(currentDay) && !p.IsImmune(currentDay)
  }

  /** A living person who was ever infected is either infected or immune (there
      is no gap day); a dead person is neither. */
  lemma StatusPartition(p: Person, currentDay: int)
    ensures p.isAlive && p.infectedAt != 0 ==> (p.IsInfected(currentDay) <==> !p.IsImmune(currentDay))
    ensures !p.isAlive ==> Susceptible(p, currentDay)
    ensures p.infectedAt == 0 ==> Susceptible(p, currentDay)
  {
  }

  predicate OnCanvas(pos: Position, maxX: int, maxY: int) {
    0 <= pos.x < maxX && 0 <= pos.y < maxY
  }

  /** The canvas sizes for which `randomToN` stays in range. */
  predicate DrawableSize(n: int) {
    0 < n <= Two31
  }

  // ---------------------------------------------------------------------------
  // Proximity lookup

  /** The test of `positionTakenBy`: `pos` lies strictly within 10 units of
      `occupied` on both axes. */
  predicate Near(occupied: Position, pos: Position) {
    occupied.x - 10 < pos.x < occupied.x + 10 && occupied.y - 10 < pos.y < occupied.y + 10
  }

  lemma NearSymmetric(a: Position, b: Position)
    ensures Near(a, b) <==> Near(b, a)
  {
  }

  /** Index of the first person close enough to `pos`. */
  function FirstNear(s: seq<Person>, pos: Position): (r: Option<nat>)
    ensures r.Some? ==> r.value < |s| && Near(s[r.value].position, pos)
    ensures r.Some? ==> forall j :: 0 <= j < r.value ==> !Near(s[j].position, pos)
    ensures r.None? <==> forall j :: 0 <= j < |s| ==> !Near(s[j].position, pos)
  {
    if |s| == 0 then None
    else if Near(s[0].position, pos) then Some(0)
    else match FirstNear(s[1..], pos)
      case None => None
      case Some(k) => Some(k + 1)
  }

  /** `positionTakenBy`: the linear search, giving the index of the person the
      source returns (or `None` for `null`). */
  method PositionTakenBy(position: Position, population: seq<Person>) returns (takenBy: Option<nat>)
    ensures takenBy == FirstNear(population, position)
  {
    var k := 0;
    while k < |population|
      invariant 0 <= k <= |population|
      invariant forall j :: 0 <= j < k ==> !Near(population[j].position, position)
    {
      if Near(population[k].position, position) {
        return Some(k);
      }
      k := k + 1;
    }
    return None;
  }

  // ---------------------------------------------------------------------------
  // Placement

  /** One pass of the retry loop: `Math.random()` for x, for y and, when the
      place is free, for the isolation decision. */
  datatype Attempt = Attempt(ux: real, uy: real, uIsolation: real)

  predicate AttemptDrawn(a: Attempt) {
    0.0 <= a.ux < 1.0 && 0.0 <= a.uy < 1.0 && 0.0 <= a.uIsolation < 1.0
  }

  function CandidateOf(a: Attempt, maxX: int, maxY: int): Position
    requires AttemptDrawn(a)
  {
    Position(RandomToN(a.ux, maxX), RandomToN(a.uy, maxY))
  }

  /** On a drawable canvas every candidate lies on the canvas. */
  lemma CandidateOnCanvas(a: Attempt, maxX: int, maxY: int)
    requires AttemptDrawn(a) && DrawableSize(maxX) && DrawableSize(maxY)
    ensures OnCanvas(CandidateOf(a, maxX, maxY), maxX, maxY)
  {
    RandomToNInRange(a.ux, maxX);
    RandomToNInRange(a.uy, maxY);
  }

  /** The person that slot `i` receives from attempt `a`. */
  function Placed(i: nat, a: Attempt, initialInfectedCount: int, daysToRecover: int,
                  isolationLevel: real, maxX: int, maxY: int): Person
    requires AttemptDrawn(a)
  {
    Person(CandidateOf(a, maxX, maxY), if i < initialInfectedCount then 1 else 0,
           WouldOccurWithChance(a.uIsolation, isolationLevel), true, daysToRecover)
  }

  /** The retry loop of `newPopulation` for one slot: draws attempts from
      `start` on until no placed person is near the candidate. */
  method RetryUntilFree(population: seq<Person>, attempts: seq<Attempt>, start: nat, maxX: int, maxY: int)
    returns (next: nat, found: bool)
    requires start <= |attempts| && forall k :: 0 <= k < |attempts| ==> AttemptDrawn(attempts[k])
    ensures start <= next <= |attempts| && (found <==> next < |attempts|)
    ensures found ==> FirstNear(population, CandidateOf(attempts[next], maxX, maxY)).None?
    ensures forall a :: start <= a < next ==> FirstNear(population, CandidateOf(attempts[a], maxX, maxY)).Some?
  {
    next := start;
    while true
      invariant start <= next <= |attempts|
      invariant forall a :: start <= a < next ==> FirstNear(population, CandidateOf(attempts[a], maxX, maxY)).Some?
      decreases |attempts| - next
    {
      if next == |attempts| {
        return next, false;
      }
      var takenBy := PositionTakenBy(CandidateOf(attempts[next], maxX, maxY), population);
      if takenBy.None? {
        return next, true;
      }
      next := next + 1;
    }
  }

  /** Positions that are pairwise not near each other. */
  predicate Apart(s: seq<Person>) {
    forall k, j :: 0 <= k < |s| && 0 <= j < |s| && k != j ==> !Near(s[k].position, s[j].position)
  }

  /** Pushing a person that nobody placed is near keeps the population apart. */
  lemma AppendKeepsApart(s: seq<Person>, p: Person)
    requires Apart(s) && FirstNear(s, p.position).None?
    ensures Apart(s + [p])
  {
    forall k | 0 <= k < |s|
      ensures !Near(p.position, s[k].position)
    {
      NearSymmetric(s[k].position, p.position);
    }
  }

  /** Rejection sampling, person by person: every attempt between the one
      accepted for person `k - 1` and the one accepted for person `k` was turned
      down because its candidate was near one of the first `k` persons of `s`. */
  ghost predicate TurnedDownOnlyWhenTaken(s: seq<Person>, attempts: seq<Attempt>, accepted: seq<nat>, maxX: int, maxY: int)
    requires forall j :: 0 <= j < |attempts| ==> AttemptDrawn(attempts[j])
  {
    |accepted| <= |s| && (forall k :: 0 <= k < |accepted| ==> accepted[k] < |attempts|) &&
    forall k, a :: SkippedFor(accepted, k, a) ==> FirstNear(s[..k], CandidateOf(attempts[a], maxX, maxY)).Some?
  }

  /** Attempt `a` was drawn for person `k` and turned down: it comes after the
      attempt accepted for person `k - 1` and before the one accepted for `k`. */
  predicate SkippedFor(accepted: seq<nat>, k: int, a: int) {
    0 <= k < |accepted| && 0 <= a < accepted[k] && (k == 0 || accepted[k - 1] < a)
  }

  /** No attempt after the last accepted one found a free place for the next person. */
  ghost predicate RanOutOfAttempts(s: seq<Person>, attempts: seq<Attempt>, accepted: seq<nat>, maxX: int, maxY: int)
    requires forall j :: 0 <= j < |attempts| ==> AttemptDrawn(attempts[j])
  {
    |accepted| <= |s| &&
    forall a :: 0 <= a < |attempts| && (|accepted| == 0 || accepted[|accepted| - 1] < a) ==>
      FirstNear(s[..|accepted|], CandidateOf(attempts[a], maxX, maxY)).Some?
  }

  /** Pushing the person of attempt `next`, the first free one from `start`,
      extends rejection sampling by one person. */
  lemma SlotKeepsRejections(before: seq<Person>, person: Person, attempts: seq<Attempt>,
                            accepted: seq<nat>, start: nat, next: nat, maxX: int, maxY: int)
    requires forall j :: 0 <= j < |attempts| ==> AttemptDrawn(attempts[j])
    requires |accepted| == |before| && start <= next < |attempts|
    requires |accepted| == 0 ==> start == 0
    requires |accepted| > 0 ==> start == accepted[|accepted| - 1] + 1
    requires forall k :: 0 <= k < |accepted| ==> accepted[k] < start
    requires TurnedDownOnlyWhenTaken(before, attempts, accepted, maxX, maxY)
    requires forall a :: start <= a < next ==> FirstNear(before, CandidateOf(attempts[a], maxX, maxY)).Some?
    ensures TurnedDownOnlyWhenTaken(before + [person], attempts, accepted + [next], maxX, maxY)
  {
    var i := |accepted|;
    var acc := accepted + [next];
    var after := before + [person];
    assert forall k :: 0 <= k < |acc| ==> acc[k] < |attempts| by {
      forall k | 0 <= k < |acc|
        ensures acc[k] < |attempts|
      {
        if k < i {
          assert acc[k] == accepted[k];
        }
      }
    }
    forall k, a | SkippedFor(acc, k, a)
      ensures FirstNear(after[..k], CandidateOf(attempts[a], maxX, maxY)).Some?
    {
      assert after[..k] == before[..k];
      assert k == 0 || acc[k - 1] == accepted[k - 1];
      if k < i {
        assert acc[k] == accepted[k];
        assert SkippedFor(accepted, k, a);
      } else {
        assert before[..k] == before;
        assert start <= a < next;
      }
    }
    assert |acc| <= |after|;
    assert TurnedDownOnlyWhenTaken(after, attempts, acc, maxX, maxY);
  }

  /** Every placed person starts alive with the given course length, and only
      the first `initialInfectedCount` start infected, on day 1. */
  lemma PlacedFields(population: seq<Person>, attempts: seq<Attempt>, accepted: seq<nat>, initialInfectedCount: int,
                     daysToRecover: int, isolationLevel: real, maxX: int, maxY: int)
    requires forall k :: 0 <= k < |attempts| ==> AttemptDrawn(attempts[k])
    requires |accepted| == |population| && forall i :: 0 <= i < |accepted| ==> accepted[i] < |attempts|
    requires forall i :: 0 <= i < |population| ==>
      population[i] == Placed(i, attempts[accepted[i]], initialInfectedCount, daysToRecover, isolationLevel, maxX, maxY)
    ensures forall i :: 0 <= i < |population| ==>
      population[i].isAlive && population[i].daysToRecover == daysToRecover &&
      population[i].infectedAt == (if i < initialInfectedCount then 1 else 0)
  {
  }

  /** The state of `newPopulation` once `|population|` persons are placed and
      `next` is the next attempt to draw. */
  ghost predicate PlacedSoFar(population: seq<Person>, accepted: seq<nat>, next: nat, attempts: seq<Attempt>,
                        initialInfectedCount: int, daysToRecover: int, isolationLevel: real, maxX: int, maxY: int)
    requires forall k :: 0 <= k < |attempts| ==> AttemptDrawn(attempts[k])
  {
    |accepted| == |population| && next <= |attempts| &&
    (forall k :: 0 <= k < |accepted| ==> accepted[k] < next) &&
    (if |accepted| == 0 then next == 0 else next == accepted[|accepted| - 1] + 1) &&
    (forall k, j :: 0 <= k < j < |accepted| ==> accepted[k] < accepted[j]) &&
    (forall k :: 0 <= k < |population| ==>
      population[k] == Placed(k, attempts[accepted[k]], initialInfectedCount, daysToRecover, isolationLevel, maxX, maxY)) &&
    Apart(population) &&
    (DrawableSize(maxX) && DrawableSize(maxY) ==>
      forall k :: 0 <= k < |population| ==> OnCanvas(population[k].position, maxX, maxY)) &&
    TurnedDownOnlyWhenTaken(population, attempts, accepted, maxX, maxY)
  }

  /** Pushing the person of attempt `next`, the first attempt from `start` whose
      candidate nobody is near, keeps the placement state. */
  lemma PushKeepsPlacedSoFar(population: seq<Person>, accepted: seq<nat>, start: nat, next: nat, person: Person,
                             attempts: seq<Attempt>, initialInfectedCount: int, daysToRecover: int,
                             isolationLevel: real, maxX: int, maxY: int)
    requires forall k :: 0 <= k < |attempts| ==> AttemptDrawn(attempts[k])
    requires PlacedSoFar(population, accepted, start, attempts, initialInfectedCount, daysToRecover, isolationLevel, maxX, maxY)
    requires start <= next < |attempts|
    requires FirstNear(population, CandidateOf(attempts[next], maxX, maxY)).None?
    requires forall a :: start <= a < next ==> FirstNear(population, CandidateOf(attempts[a], maxX, maxY)).Some?
    requires person == Placed(|population|, attempts[next], initialInfectedCount, daysToRecover, isolationLevel, maxX, maxY)
    ensures PlacedSoFar(population + [person], accepted + [next], next + 1, attempts,
                        initialInfectedCount, daysToRecover, isolationLevel, maxX, maxY)
  {
    AppendKeepsApart(population, person);
    SlotKeepsRejections(population, person, attempts, accepted, start, next, maxX, maxY);
    if DrawableSize(maxX) && DrawableSize(maxY) {
      CandidateOnCanvas(attempts[next], maxX, maxY);
    }
  }

  /** `newPopulation`: pushes one person per slot, retrying a slot until its
      candidate is not near anyone already placed. The source loops forever
      when no such place turns up; here that shows as `complete == false` once
      the supplied attempts run out. `accepted[i]` is the attempt that placed
      person `i`. */
  method NewPopulation(populationSize: int, initialInfectedCount: int, daysToRecover: int,
                       isolationLevel: real, maxX: int, maxY: int, attempts: seq<Attempt>)
    returns (population: seq<Person>, complete: bool, ghost accepted: seq<nat>)
    requires forall k :: 0 <= k < |attempts| ==> AttemptDrawn(attempts[k])
    ensures |accepted| == |population| <= (if populationSize < 0 then 0 else populationSize)
    ensures complete <==> |population| == (if populationSize < 0 then 0 else populationSize)
    ensures forall i :: 0 <= i < |accepted| ==> accepted[i] < |attempts|
    ensures forall i, j :: 0 <= i < j < |accepted| ==> accepted[i] < accepted[j]
    ensures forall i :: 0 <= i < |population| ==>
      population[i] == Placed(i, attempts[accepted[i]], initialInfectedCount, daysToRecover, isolationLevel, maxX, maxY)
    ensures forall i :: 0 <= i < |population| ==>
      population[i].isAlive && population[i].daysToRecover == daysToRecover &&
      population[i].infectedAt == (if i < initialInfectedCount then 1 else 0)
    ensures Apart(population)
    ensures DrawableSize(maxX) && DrawableSize(maxY) ==>
      forall i :: 0 <= i < |population| ==> OnCanvas(population[i].position, maxX, maxY)
    ensures TurnedDownOnlyWhenTaken(population, attempts, accepted, maxX, maxY)
    ensures !complete ==> RanOutOfAttempts(population, attempts, accepted, maxX, maxY)
  {
    population := [];
    accepted := [];
    complete := true;
    var next := 0;
    var i := 0;
    while i < populationSize
      invariant 0 <= i == |population| && (populationSize >= 0 ==> i <= populationSize)
      invariant i > 0 ==> populationSize > 0
      invariant PlacedSoFar(population, accepted, next, attempts, initialInfectedCount, daysToRecover, isolationLevel, maxX, maxY)
    {
      var found;
      ghost var start := next;
      next, found := RetryUntilFree(population, attempts, next, maxX, maxY);
      if !found {
        complete := false;
        assert population[..|accepted|] == population;
        break;
      }
      var candidatePosition := CandidateOf(attempts[next], maxX, maxY);
      var infectedAt := 0;
      if i < initialInfectedCount {
        infectedAt := 1;
      }
      var person := Person(candidatePosition, infectedAt,
                           WouldOccurWithChance(attempts[next].uIsolation, isolationLevel),
                           true, daysToRecover);
      PushKeepsPlacedSoFar(population, accepted, start, next, person, attempts,
                           initialInfectedCount, daysToRecover, isolationLevel, maxX, maxY);
      population := population + [person];
      accepted := accepted + [next];
      next := next + 1;
      i := i + 1;
    }
    PlacedFields(population, attempts, accepted, initialInfectedCount, daysToRecover, isolationLevel, maxX, maxY);
  }

  // ---------------------------------------------------------------------------
  // One tick of movement

  /** A person's `Math.random()` draws for one tick: the death chance, the axis,
      the direction and the transmission chance. A draw the branch taken does
      not make is ignored. */
  datatype Draws = Draws(death: real, axis: real, direction: real, transmission: real)

  predicate DrawsValid(d: Draws) {
    0.0 <= d.death < 1.0 && 0.0 <= d.axis < 1.0 && 0.0 <= d.direction < 1.0 && 0.0 <= d.transmission < 1.0
  }

  /** The arguments of `movePopulation` besides the population. */
  datatype Rules = Rules(chanceOfTransmission: real, chanceOfDeath: real, maxX: int, maxY: int,
                         currentDay: int, daysUntilDeath: int)

  /** The place 20 units away that the person tries to reach. */
  function Target(pos: Position, d: Draws): Position
    requires DrawsValid(d)
  {
    var direction := if WouldOccurWithChance(d.direction, 0.5) then -1 else 1;
    if WouldOccurWithChance(d.axis, 0.5) then pos.(x := pos.x + direction * 20)
    else pos.(y := pos.y + direction * 20)
  }

  /** The death test, in the source's order of evaluation. */
  predicate DiesToday(p: Person, rules: Rules, d: Draws)
    requires DrawsValid(d)
  {
    p.IsInfected(rules.currentDay) && WouldOccurWithChance(d.death, rules.chanceOfDeath) &&
    p.DaysInfected(rules.currentDay) == rules.daysUntilDeath
  }

  /** `a` and `b` differ by exactly 20 along exactly one axis. */
  predicate TwentyApart(a: Position, b: Position) {
    (a.y == b.y && (b.x == a.x + 20 || b.x == a.x - 20)) ||
    (a.x == b.x && (b.y == a.y + 20 || b.y == a.y - 20))
  }

  /** Turn `i` of `movePopulation`. Besides the mover, only a living
      susceptible occupant can change, and only by being infected today. */
  function MoveOne(s: seq<Person>, i: nat, rules: Rules, d: Draws): (t: seq<Person>)
    requires i < |s| && DrawsValid(d)
    ensures |t| == |s|
    ensures forall k :: 0 <= k < |s| && k != i ==>
      t[k] == s[k] ||
      (s[k].isAlive && Susceptible(s[k], rules.currentDay) && t[k] == s[k].(infectedAt := rules.currentDay) &&
       FirstNear(s, Target(s[i].position, d)) == Some(k) &&
       !s[i].isIsolated && !DiesToday(s[i], rules, d) && s[i].IsInfected(rules.currentDay) &&
       WouldOccurWithChance(d.transmission, rules.chanceOfTransmission))
  {
    var p := s[i];
    var day := rules.currentDay;
    if p.isIsolated || !p.isAlive then s
    else if DiesToday(p, rules, d) then s[i := p.(isAlive := false)]
    else
      var target := Target(p.position, d);
      if !OnCanvas(target, rules.maxX, rules.maxY) then s
      else match FirstNear(s, target)
        case None => s[i := p.(position := target)]
        case Some(j) =>
          var q := s[j];
          if !q.isAlive then s
          else if p.IsInfected(day) && Susceptible(q, day) then
            if WouldOccurWithChance(d.transmission, rules.chanceOfTransmission) then s[j := q.(infectedAt := day)] else s
          else if q.IsInfected(day) && Susceptible(p, day) then s[i := p.(infectedAt := day)]
          else s
  }

  /** The population after the first `n` persons have taken their turn. */
  function Moved(s: seq<Person>, n: nat, rules: Rules, draws: seq<Draws>): (t: seq<Person>)
    requires n <= |s| && n <= |draws| && forall k :: 0 <= k < |draws| ==> DrawsValid(draws[k])
    ensures |t| == |s|
  {
    if n == 0 then s
    else MoveOne(Moved(s, n - 1, rules, draws), n - 1, rules, draws[n - 1])
  }

  /** `movePopulation`: every person in array order takes one turn, in place.
      `draws[i]` holds person `i`'s draws. */
  method MovePopulation(population: array<Person>, chanceOfTransmission: real, chanceOfDeath: real,
                        maxX: int, maxY: int, currentDay: int, daysUntilDeath: int, draws: seq<Draws>)
    requires |draws| == population.Length && forall k :: 0 <= k < |draws| ==> DrawsValid(draws[k])
    modifies population
    ensures population[..] == Moved(old(population[..]), population.Length,
                                    Rules(chanceOfTransmission, chanceOfDeath, maxX, maxY, currentDay, daysUntilDeath), draws)
  {
    var rules := Rules(chanceOfTransmission, chanceOfDeath, maxX, maxY, currentDay, daysUntilDeath);
    for i := 0 to population.Length
      invariant population[..] == Moved(old(population[..]), i, rules, draws)
    {
      TakeTurn(population, i, rules, draws[i]);
    }
  }

  /** The body of the loop in `movePopulation` for person `i`. */
  method TakeTurn(population: array<Person>, i: nat, rules: Rules, d: Draws)
    requires i < population.Length && DrawsValid(d)
    modifies population
    ensures population[..] == MoveOne(old(population[..]), i, rules, d)
  {
    ghost var s := population[..];
    var currentDay := rules.currentDay;
    var p := population[i];
    if p.isIsolated || !p.isAlive {
      assert s == MoveOne(s, i, rules, d);
      return;
    }
    if p.IsInfected(currentDay) && WouldOccurWithChance(d.death, rules.chanceOfDeath) &&
       p.DaysInfected(currentDay) == rules.daysUntilDeath {
      population[i] := p.(isAlive := false);
      assert population[..] == s[i := p.(isAlive := false)] == MoveOne(s, i, rules, d);
      return;
    }
    var xOrY := WouldOccurWithChance(d.axis, 0.5);
    var minusOrPlus := WouldOccurWithChance(d.direction, 0.5);
    var direction := 1;
    if minusOrPlus {
      direction := -1;
    }
    var candidatePosition := p.position;
    if xOrY {
      candidatePosition := candidatePosition.(x := candidatePosition.x + direction * 20);
    } else {
      candidatePosition := candidatePosition.(y := candidatePosition.y + direction * 20);
    }
    assert candidatePosition == Target(p.position, d);
    if candidatePosition.x < 0 || candidatePosition.y < 0 || candidatePosition.x >= rules.maxX || candidatePosition.y >= rules.maxY {
      assert s == MoveOne(s, i, rules, d);
      return;
    }
    var takenBy := PositionTakenBy(candidatePosition, population[..]);
    if takenBy.Some? {
      var j := takenBy.value;
      var q := population[j];
      if !q.isAlive {
        assert s == MoveOne(s, i, rules, d);
        return;
      }
      if p.IsInfected(currentDay) && !q.IsInfected(currentDay) && !q.IsImmune(currentDay) {
        if WouldOccurWithChance(d.transmission, rules.chanceOfTransmission) {
          population[j] := q.(infectedAt := currentDay);
          assert population[..] == s[j := q.(infectedAt := currentDay)] == MoveOne(s, i, rules, d);
        } else {
          assert s == MoveOne(s, i, rules, d);
        }
        return;
      }
      if q.IsInfected(currentDay) && !p.IsInfected(currentDay) && !p.IsImmune(currentDay) {
        population[i] := p.(infectedAt := currentDay);
        assert population[..] == s[i := p.(infectedAt := currentDay)] == MoveOne(s, i, rules, d);
      } else {
        assert s == MoveOne(s, i, rules, d);
      }
      return;
    }
    population[i] := p.(position := candidatePosition);
    assert population[..] == s[i := p.(position := candidatePosition)] == MoveOne(s, i, rules, d);
  }

  // ---------------------------------------------------------------------------
  // What one turn does

  /** A person dies in its own turn exactly when it is alive, not isolated,
      infected, its death draw succeeds and today is day `daysUntilDeath` of
      the illness; dying changes nothing else, the person does not move. */
  lemma MoveOneDeath(s: seq<Person>, i: nat, rules: Rules, d: Draws)
    requires i < |s| && DrawsValid(d)
    ensures var t := MoveOne(s, i, rules, d);
      (s[i].isAlive && !t[i].isAlive) <==> (s[i].isAlive && !s[i].isIsolated && DiesToday(s[i], rules, d))
    ensures var t := MoveOne(s, i, rules, d);
      s[i].isAlive && !t[i].isAlive ==> t == s[i := s[i].(isAlive := false)]
    ensures forall k :: 0 <= k < |s| ==> (MoveOne(s, i, rules, d)[k].isAlive ==> s[k].isAlive)
  {
  }

  /** With a chance of death of 1 an infected mover on day `daysUntilDeath` of
      its illness dies. */
  lemma CertainDeath(s: seq<Person>, i: nat, rules: Rules, d: Draws)
    requires i < |s| && DrawsValid(d) && rules.chanceOfDeath >= 1.0
    requires s[i].isAlive && !s[i].isIsolated && s[i].IsInfected(rules.currentDay)
    requires s[i].DaysInfected(rules.currentDay) == rules.daysUntilDeath
    ensures !MoveOne(s, i, rules, d)[i].isAlive
  {
    AlwaysWithChanceOne(d.death, rules.chanceOfDeath);
  }

  /** Dead persons are skipped as movers and are never changed as occupants. */
  lemma MoveOneKeepsDead(s: seq<Person>, i: nat, rules: Rules, d: Draws)
    requires i < |s| && DrawsValid(d)
    ensures forall k :: 0 <= k < |s| && !s[k].isAlive ==> MoveOne(s, i, rules, d)[k] == s[k]
  {
  }

  /** The original position differs from the target by 20 on one axis, so it
      is never `Near` the target: the mover never finds itself. */
  lemma TargetNotNearSelf(pos: Position, d: Draws)
    requires DrawsValid(d)
    ensures TwentyApart(pos, Target(pos, d)) && !Near(pos, Target(pos, d))
  {
  }

  /** A position changes only in the mover's own turn, by exactly 20 along one
      axis, onto the canvas, and only when nobody is near the target. */
  lemma MoveOnePosition(s: seq<Person>, i: nat, rules: Rules, d: Draws)
    requires i < |s| && DrawsValid(d)
    ensures forall k :: 0 <= k < |s| && k != i ==> MoveOne(s, i, rules, d)[k].position == s[k].position
    ensures var t := MoveOne(s, i, rules, d);
      t[i].position != s[i].position ==>
        s[i].isAlive && !s[i].isIsolated && !DiesToday(s[i], rules, d) &&

        t[i].position == Target(s[i].position, d) && TwentyApart(s[i].position, t[i].position) &&
        OnCanvas(t[i].position, rules.maxX, rules.maxY) &&
        FirstNear(s, t[i].position).None? && t == s[i := s[i].(position := t[i].position)]
    ensures var target := Target(s[i].position, d);
      s[i].isAlive && !s[i].isIsolated && !DiesToday(s[i], rules, d) &&
      OnCanvas(target, rules.maxX, rules.maxY) && FirstNear(s, target).None? ==>
        MoveOne(s, i, rules, d) == s[i := s[i].(position := target)]
  {
    TargetNotNearSelf(s[i].position, d);
  }

  /** A turn keeps the population apart: the mover only enters a place nobody
      is near. */
  lemma MoveOneKeepsApart(s: seq<Person>, i: nat, rules: Rules, d: Draws)
    requires i < |s| && DrawsValid(d) && Apart(s)
    ensures Apart(MoveOne(s, i, rules, d))
  {
    var t := MoveOne(s, i, rules, d);
    MoveOnePosition(s, i, rules, d);
    forall k, j | 0 <= k < |t| && 0 <= j < |t| && k != j
      ensures !Near(t[k].position, t[j].position)
    {
      if t[i].position != s[i].position && (k == i || j == i) {
        var other := if k == i then j else k;
        assert !Near(s[other].position, t[i].position);
        NearSymmetric(s[other].position, t[i].position);
      }
    }
  }

  /** Infected mover, living susceptible occupant: the occupant is infected today
      exactly when the transmission draw succeeds; the mover stays put. */
  lemma MoveOneTransmits(s: seq<Person>, i: nat, rules: Rules, d: Draws)
    requires i < |s| && DrawsValid(d)
    requires s[i].isAlive && !s[i].isIsolated && !DiesToday(s[i], rules, d)
    requires OnCanvas(Target(s[i].position, d), rules.maxX, rules.maxY)
    requires FirstNear(s, Target(s[i].position, d)).Some?
    requires var j := FirstNear(s, Target(s[i].position, d)).value;
      s[j].isAlive && s[i].IsInfected(rules.currentDay) && Susceptible(s[j], rules.currentDay)
    ensures var j := FirstNear(s, Target(s[i].position, d)).value;
      MoveOne(s, i, rules, d) ==
        if WouldOccurWithChance(d.transmission, rules.chanceOfTransmission)
        then s[j := s[j].(infectedAt := rules.currentDay)] else s
  {
  }

  /** Susceptible mover, living infected occupant: the mover is infected today
      whatever the transmission draw, and stays put. */
  lemma MoveOneInfectsMover(s: seq<Person>, i: nat, rules: Rules, d: Draws)
    requires i < |s| && DrawsValid(d)
    requires s[i].isAlive && !s[i].isIsolated && !DiesToday(s[i], rules, d)
    requires OnCanvas(Target(s[i].position, d), rules.maxX, rules.maxY)
    requires FirstNear(s, Target(s[i].position, d)).Some?
    requires var j := FirstNear(s, Target(s[i].position, d)).value;
      s[j].IsInfected(rules.currentDay) && Susceptible(s[i], rules.currentDay)
    ensures MoveOne(s, i, rules, d) == s[i := s[i].(infectedAt := rules.currentDay)]
  {
  }

  /** Even with a transmission chance of 0, a susceptible person walking into an
      infected one catches the disease. */
  lemma SpreadsWithChanceZero()
    ensures var s := [Person(Position(0, 0), 0, false, true, 10), Person(Position(25, 0), 1, true, true, 10)];
      var t := Moved(s, 2, Rules(0.0, 0.0, 100, 100, 1, 5), [Draws(0.0, 0.0, 0.9, 0.0), Draws(0.0, 0.0, 0.0, 0.0)]);
      t[0].infectedAt == 1 && t[0].position == Position(0, 0)
  {
    var s := [Person(Position(0, 0), 0, false, true, 10), Person(Position(25, 0), 1, true, true, 10)];
    var rules := Rules(0.0, 0.0, 100, 100, 1, 5);
    var d := Draws(0.0, 0.0, 0.9, 0.0);
    assert RandomToN(0.0, 100) == 0;
    assert RandomToN(0.9, 100) == 90;
    assert Target(Position(0, 0), d) == Position(20, 0);
    assert FirstNear(s, Position(20, 0)) == Some(1);
  }

  // ---------------------------------------------------------------------------
  // What a whole tick does

  /** The dead are never changed by a tick, and nobody comes back to life. */
  lemma {:induction false} MovedKeepsDead(s: seq<Person>, n: nat, rules: Rules, draws: seq<Draws>, k: nat)
    requires n <= |s| && n <= |draws| && forall j :: 0 <= j < |draws| ==> DrawsValid(draws[j])
    requires k < |s|
    ensures !s[k].isAlive ==> Moved(s, n, rules, draws)[k] == s[k]
    ensures Moved(s, n, rules, draws)[k].isAlive ==> s[k].isAlive
  {
    if n > 0 {
      MovedKeepsDead(s, n - 1, rules, draws, k);
      var before := Moved(s, n - 1, rules, draws);
      MoveOneDeath(before, n - 1, rules, draws[n - 1]);
      MoveOneKeepsDead(before, n - 1, rules, draws[n - 1]);
    }
  }

  /** Position and life of person `k` are decided in its own turn: the other
      turns can only infect it. */
  lemma {:induction false} MovedOwnTurn(s: seq<Person>, n: nat, rules: Rules, draws: seq<Draws>, k: nat)
    requires n <= |s| && n <= |draws| && forall j :: 0 <= j < |draws| ==> DrawsValid(draws[j])
    requires k < |s|
    ensures var t := Moved(s, n, rules, draws);
      k >= n ==> t[k].position == s[k].position && t[k].isAlive == s[k].isAlive
    ensures k < n ==>
      var own := MoveOne(Moved(s, k, rules, draws), k, rules, draws[k]);
      Moved(s, n, rules, draws)[k].position == own[k].position && Moved(s, n, rules, draws)[k].isAlive == own[k].isAlive
  {
    if n > 0 {
      MovedOwnTurn(s, n - 1, rules, draws, k);
      var before := Moved(s, n - 1, rules, draws);
      MoveOnePosition(before, n - 1, rules, draws[n - 1]);
    }
  }

  /** Nobody's isolation or course length changes during a tick. */
  lemma {:induction false} MovedKeepsIsolation(s: seq<Person>, n: nat, rules: Rules, draws: seq<Draws>, k: nat)
    requires n <= |s| && n <= |draws| && forall j :: 0 <= j < |draws| ==> DrawsValid(draws[j])
    requires k < |s|
    ensures Moved(s, n, rules, draws)[k].isIsolated == s[k].isIsolated
    ensures Moved(s, n, rules, draws)[k].daysToRecover == s[k].daysToRecover
  {
    if n > 0 {
      MovedKeepsIsolation(s, n - 1, rules, draws, k);
    }
  }

  /** Isolated persons never move and never die. */
  lemma MovedKeepsIsolatedInPlace(s: seq<Person>, n: nat, rules: Rules, draws: seq<Draws>, k: nat)
    requires n <= |s| && n <= |draws| && forall j :: 0 <= j < |draws| ==> DrawsValid(draws[j])
    requires k < |s| && s[k].isIsolated
    ensures Moved(s, n, rules, draws)[k].position == s[k].position
    ensures Moved(s, n, rules, draws)[k].isAlive == s[k].isAlive
  {
    MovedOwnTurn(s, n, rules, draws, k);
    if k < n {
      MovedOwnTurn(s, k, rules, draws, k);
      MovedKeepsIsolation(s, k, rules, draws, k);
    }
  }

  /** A tick keeps everyone on the canvas. */
  lemma {:induction false} MovedStaysOnCanvas(s: seq<Person>, n: nat, rules: Rules, draws: seq<Draws>)
    requires n <= |s| && n <= |draws| && forall j :: 0 <= j < |draws| ==> DrawsValid(draws[j])
    requires forall k :: 0 <= k < |s| ==> OnCanvas(s[k].position, rules.maxX, rules.maxY)
    ensures forall k :: 0 <= k < |s| ==> OnCanvas(Moved(s, n, rules, draws)[k].position, rules.maxX, rules.maxY)
  {
    if n > 0 {
      MovedStaysOnCanvas(s, n - 1, rules, draws);
      MoveOnePosition(Moved(s, n - 1, rules, draws), n - 1, rules, draws[n - 1]);
    }
  }

  /** A tick changes an `infectedAt` only to the current day, and never one that
      is already set: with no gap day nobody is infected twice. */
  lemma {:induction false} MovedInfectsOnce(s: seq<Person>, n: nat, rules: Rules, draws: seq<Draws>)
    requires n <= |s| && n <= |draws| && forall j :: 0 <= j < |draws| ==> DrawsValid(draws[j])
    ensures forall k :: 0 <= k < |s| ==>
      Moved(s, n, rules, draws)[k].infectedAt in {s[k].infectedAt, rules.currentDay}
    ensures forall k :: 0 <= k < |s| && s[k].infectedAt != 0 ==>
      Moved(s, n, rules, draws)[k].infectedAt == s[k].infectedAt
  {
    if n > 0 {
      MovedInfectsOnce(s, n - 1, rules, draws);
      var before := Moved(s, n - 1, rules, draws);
      forall k | 0 <= k < |s| && before[k].infectedAt != 0
        ensures MoveOne(before, n - 1, rules, draws[n - 1])[k].infectedAt == before[k].infectedAt
      {
        StatusPartition(before[k], rules.currentDay);
      }
    }
  }

  /** No two persons are ever near each other: the apartness that the
      placement establishes survives every tick. */
  lemma {:induction false} MovedKeepsApart(s: seq<Person>, n: nat, rules: Rules, draws: seq<Draws>)
    requires n <= |s| && n <= |draws| && forall j :: 0 <= j < |draws| ==> DrawsValid(draws[j])
    requires Apart(s)
    ensures Apart(Moved(s, n, rules, draws))
  {
    if n > 0 {
      MovedKeepsApart(s, n - 1, rules, draws);
      MoveOneKeepsApart(Moved(s, n - 1, rules, draws), n - 1, rules, draws[n - 1]);
    }
  }

  /** Only the infected die, so "every dead person was infected" holds for
      every placed population and survives every tick. */
  predicate DeadWereInfected(s: seq<Person>) {
    forall k :: 0 <= k < |s| && !s[k].isAlive ==> s[k].infectedAt != 0
  }

  lemma {:induction false} MovedKeepsDeadWereInfected(s: seq<Person>, n: nat, rules: Rules, draws: seq<Draws>)
    requires n <= |s| && n <= |draws| && forall j :: 0 <= j < |draws| ==> DrawsValid(draws[j])
    requires DeadWereInfected(s)
    ensures DeadWereInfected(Moved(s, n, rules, draws))
  {
    if n > 0 {
      MovedKeepsDeadWereInfected(s, n - 1, rules, draws);
      var before := Moved(s, n - 1, rules, draws);
      MoveOneDeath(before, n - 1, rules, draws[n - 1]);
    }
  }
}
