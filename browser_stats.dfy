/** The counts the browser engine reports: the number infected today, whose
    zero ends the simulation, and the totals shown at the end. */
module BrowserStats {
  import opened Browser

  /** Persons ever infected: `infectedAt` is set. */
  function CountEverInfected(s: seq<Person>): (n: nat)
    ensures n <= |s|
    ensures n == 0 <==> forall k :: 0 <= k < |s| ==> s[k].infectedAt == 0
    ensures n == |s| <==> forall k :: 0 <= k < |s| ==> s[k].infectedAt != 0
  {
    if |s| == 0 then 0
    else CountEverInfected(s[..|s| - 1]) + (if s[|s| - 1].infectedAt != 0 then 1 else 0)
  }

  /** Persons no longer alive. */
  function CountDead(s: seq<Person>): (n: nat)
    ensures n <= |s|
    ensures n == 0 <==> forall k :: 0 <= k < |s| ==> s[k].isAlive
    ensures n == |s| <==> forall k :: 0 <= k < |s| ==> !s[k].isAlive
  {
    if |s| == 0 then 0
    else CountDead(s[..|s| - 1]) + (if !s[|s| - 1].isAlive then 1 else 0)
  }

  /** Persons infected on `currentDay`. */
  function CountInfected(s: seq<Person>, currentDay: int): (n: nat)
    ensures n <= |s|
    ensures n == 0 <==> forall k :: 0 <= k < |s| ==> !s[k].IsInfected(currentDay)
  {
    if |s| == 0 then 0
    else CountInfected(s[..|s| - 1], currentDay) + (if s[|s| - 1].IsInfected(currentDay) then 1 else 0)
  }

  /** The per-frame count of the main loop and its stop test: the simulation
      ends exactly when nobody is infected today. */
  method InfectedToday(population: seq<Person>, currentDay: int) returns (infectedCount: nat, stop: bool)
    ensures infectedCount == CountInfected(population, currentDay)
    ensures stop <==> forall k :: 0 <= k < |population| ==> !population[k].IsInfected(currentDay)
  {
    infectedCount := 0;
    var k := 0;
    while k < |population|
      invariant 0 <= k <= |population|
      invariant infectedCount == CountInfected(population[..k], currentDay)
    {
      assert population[..k + 1][..k] == population[..k];
      if population[k].IsInfected(currentDay) {
        infectedCount := infectedCount + 1;
      }
      k := k + 1;
    }
    assert population[..k] == population;
    stop := infectedCount == 0;
  }

  /** `displayStats`: the two totals shown when the simulation ends. */
  method DisplayStats(population: seq<Person>) returns (totalInfected: nat, totalDead: nat)
    ensures totalInfected == CountEverInfected(population)
    ensures totalDead == CountDead(population)
  {
    totalInfected, totalDead := 0, 0;
    var k := 0;
    while k < |population|
      invariant 0 <= k <= |population|
      invariant totalInfected == CountEverInfected(population[..k])
      invariant totalDead == CountDead(population[..k])
    {
      assert population[..k + 1][..k] == population[..k];
      if population[k].infectedAt != 0 {
        totalInfected := totalInfected + 1;
      }
      if !population[k].isAlive {
        totalDead := totalDead + 1;
      }
      k := k + 1;
    }
    assert population[..k] == population;
  }

  /** As long as only the infected die, the dead are among the ever infected. */
  lemma {:induction false} DeadAmongInfected(s: seq<Person>)
    requires DeadWereInfected(s)
    ensures CountDead(s) <= CountEverInfected(s)
  {
    if |s| > 0 {
      var front := s[..|s| - 1];
      assert DeadWereInfected(front) by {
        forall k | 0 <= k < |front| && !front[k].isAlive
          ensures front[k].infectedAt != 0
        {
          assert front[k] == s[k];
        }
      }
      DeadAmongInfected(front);
    }
  }

  /** The ever-infected count does not fall when nobody loses `infectedAt`. */
  lemma {:induction false} EverInfectedGrows(s: seq<Person>, t: seq<Person>)
    requires |s| == |t|
    requires forall k :: 0 <= k < |s| && s[k].infectedAt != 0 ==> t[k].infectedAt != 0
    ensures CountEverInfected(s) <= CountEverInfected(t)
  {
    if |s| > 0 {
      var n := |s| - 1;
      EverInfectedGrows(s[..n], t[..n]);
    }
  }

  /** The dead count does not fall when nobody comes back to life. */
  lemma {:induction false} DeadGrows(s: seq<Person>, t: seq<Person>)
    requires |s| == |t|
    requires forall k :: 0 <= k < |s| && !s[k].isAlive ==> !t[k].isAlive
    ensures CountDead(s) <= CountDead(t)
  {
    if |s| > 0 {
      var n := |s| - 1;
      DeadGrows(s[..n], t[..n]);
    }
  }

  /** Neither total can fall during a tick: nobody is cured of having been
      infected and nobody comes back to life. */
  lemma TickKeepsTotals(s: seq<Person>, rules: Rules, draws: seq<Draws>)
    requires |draws| == |s| && forall j :: 0 <= j < |draws| ==> DrawsValid(draws[j])
    ensures CountEverInfected(s) <= CountEverInfected(Moved(s, |s|, rules, draws))
    ensures CountDead(s) <= CountDead(Moved(s, |s|, rules, draws))
  {
    var t := Moved(s, |s|, rules, draws);
    MovedInfectsOnce(s, |s|, rules, draws);
    EverInfectedGrows(s, t);
    forall k | 0 <= k < |s| && !s[k].isAlive
      ensures !t[k].isAlive
    {
      MovedKeepsDead(s, |s|, rules, draws, k);
    }
    DeadGrows(s, t);
  }
}
