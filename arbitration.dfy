/** Sequences of first-blood attempts: the handler of module FirstBlood run
    once per solve, one solve after another, against the same database. This
    is the sequential reading of many teams solving challenges; which of two
    truly concurrent solves the database orders first is not modelled. */
module Arbitration {
  import opened FirstBlood

  /** One call of the handler: the challenge solved and the session's team. */
  datatype Solve = Solve(chal: Challenge, teamId: int)

  /** The awards table after all the solves, and how each call ended. */
  datatype Trace = Trace(awards: seq<Award>, results: seq<HandlerResult>)

  /** The rows a run's calls inserted, by their rowcounts; a call that raised
      inserted none. */
  function Inserted(results: seq<HandlerResult>): nat
  {
    if results == [] then 0
    else (if results[0].Executed? then results[0].rowcount else 0) + Inserted(results[1..])
  }

  /** The solves handled in order. No existing row is ever changed or removed,
      exactly the solves whose award name is not ASCII raise, every rowcount
      is at most one, and the rows appended over the run are exactly as many
      as the rowcounts add up to. */
  function Replay(awards: seq<Award>, challenges: seq<Challenge>, solves: seq<Solve>,
                  cfg: AwardConfig): (t: Trace)
    ensures |t.results| == |solves|
    ensures |awards| <= |t.awards| <= |awards| + |solves|
    ensures t.awards[..|awards|] == awards
    ensures forall i | 0 <= i < |solves| ::
              t.results[i].UnicodeEncodeError? <==> !Formattable(solves[i].chal)
    ensures forall i | 0 <= i < |t.results| :: t.results[i].Executed? ==> t.results[i].rowcount <= 1
    ensures |t.awards| == |awards| + Inserted(t.results)
    decreases |solves|
  {
    if solves == [] then Trace(awards, [])
    else
      var h := HandlePreSolve(awards, challenges, solves[0].chal, solves[0].teamId, cfg);
      var rest := Replay(h.awards, challenges, solves[1..], cfg);
      assert rest.awards[..|awards|] == rest.awards[..|h.awards|][..|awards|];
      assert ([h.result] + rest.results)[1..] == rest.results;
      assert forall i | 1 <= i < |solves| :: solves[i] == solves[1..][i - 1];
      Trace(rest.awards, [h.result] + rest.results)
  }

  /** No run of solves, however the teams and challenges interleave, ever
      creates a second first-blood award for a name. */
  lemma {:induction false} ReplayPreservesUniqueness(awards: seq<Award>, challenges: seq<Challenge>,
                                                     solves: seq<Solve>, cfg: AwardConfig)
    requires UniqueFirstBlood(awards)
    ensures UniqueFirstBlood(Replay(awards, challenges, solves, cfg).awards)
    decreases |solves|
  {
    if solves != [] {
      var h := HandlePreSolve(awards, challenges, solves[0].chal, solves[0].teamId, cfg);
      UniquenessPreserved(awards, challenges, solves[0].chal, solves[0].teamId, cfg);
      ReplayPreservesUniqueness(h.awards, challenges, solves[1..], cfg);
    }
  }

  /** A first-blood award, once present, stays present. */
  lemma HasFirstBloodKept(prefix: seq<Award>, awards: seq<Award>, name: string)
    requires |prefix| <= |awards| && awards[..|prefix|] == prefix
    requires HasFirstBlood(prefix, name)
    ensures HasFirstBlood(awards, name)
  {
  }

  /** Once a first-blood award for `name` exists, every later solve of a
      challenge with that name inserts nothing and the table is left
      unchanged: each call reports rowcount 0, or raises if the name is not
      ASCII. */
  lemma {:induction false} AlreadyAwarded(awards: seq<Award>, challenges: seq<Challenge>,
                                          solves: seq<Solve>, cfg: AwardConfig, name: string)
    requires HasFirstBlood(awards, name)
    requires forall i | 0 <= i < |solves| :: AwardName(solves[i].chal) == name
    ensures var t := Replay(awards, challenges, solves, cfg);
            t.awards == awards
            && forall i | 0 <= i < |t.results| ::
                 t.results[i] == if IsAscii(name) then Executed(0) else UnicodeEncodeError
    decreases |solves|
  {
    if solves != [] {
      FormattableIffAsciiName(solves[0].chal);
      AlreadyAwarded(awards, challenges, solves[1..], cfg, name);
    }
  }

  /** Many teams solving challenges that share one ASCII award name, with no
      such award yet and a non-empty challenges table: the first solve wins
      the award for its team and every other call reports a zero rowcount. */
  lemma FirstSolveWins(awards: seq<Award>, challenges: seq<Challenge>,
                       solves: seq<Solve>, cfg: AwardConfig, name: string)
    requires challenges != [] && !HasFirstBlood(awards, name) && IsAscii(name)
    requires solves != []
    requires forall i | 0 <= i < |solves| :: AwardName(solves[i].chal) == name
    ensures var t := Replay(awards, challenges, solves, cfg);
            t.awards == awards + [AwardRow(solves[0].teamId, solves[0].chal, cfg)]
            && t.results[0] == Executed(1)
            && forall i | 1 <= i < |t.results| :: t.results[i] == Executed(0)
  {
    var h := HandlePreSolve(awards, challenges, solves[0].chal, solves[0].teamId, cfg);
    FormattableIffAsciiName(solves[0].chal);
    AwardedAfterSolve(awards, challenges, solves[0].chal, solves[0].teamId, cfg);
    AlreadyAwarded(h.awards, challenges, solves[1..], cfg, name);
  }

  /** A name that is not ASCII is never awarded: every solve of a challenge
      with that name raises, and no other solve appends a row with it. */
  lemma {:induction false} NonAsciiNeverAwarded(awards: seq<Award>, challenges: seq<Challenge>,
                                                solves: seq<Solve>, cfg: AwardConfig, name: string)
    requires !IsAscii(name) && !HasFirstBlood(awards, name)
    ensures !HasFirstBlood(Replay(awards, challenges, solves, cfg).awards, name)
    decreases |solves|
  {
    if solves != [] {
      var s := solves[0];
      var h := HandlePreSolve(awards, challenges, s.chal, s.teamId, cfg);
      if h.result == Executed(1) {
        FormattableIffAsciiName(s.chal);
        HasFirstBloodAppend(awards, AwardRow(s.teamId, s.chal, cfg), name);
      }
      NonAsciiNeverAwarded(h.awards, challenges, solves[1..], cfg, name);
    }
  }

  /** With a non-empty challenges table, every challenge solved in the run
      whose award name is ASCII has a first-blood award at its end. */
  lemma {:induction false} EverySolvedNameAwarded(awards: seq<Award>, challenges: seq<Challenge>,
                                                  solves: seq<Solve>, cfg: AwardConfig)
    requires challenges != []
    ensures var t := Replay(awards, challenges, solves, cfg);
            forall i | 0 <= i < |solves| && Formattable(solves[i].chal) ::
              HasFirstBlood(t.awards, AwardName(solves[i].chal))
    decreases |solves|
  {
    if solves != [] {
      var h := HandlePreSolve(awards, challenges, solves[0].chal, solves[0].teamId, cfg);
      var t := Replay(awards, challenges, solves, cfg);
      if Formattable(solves[0].chal) {
        AwardedAfterSolve(awards, challenges, solves[0].chal, solves[0].teamId, cfg);
        HasFirstBloodKept(h.awards, t.awards, AwardName(solves[0].chal));
      }
      EverySolvedNameAwarded(h.awards, challenges, solves[1..], cfg);
      forall i | 1 <= i < |solves| && Formattable(solves[i].chal)
        ensures HasFirstBlood(t.awards, AwardName(solves[i].chal))
      {
        assert solves[i] == solves[1..][i - 1];
      }
    }
  }

  /** With an empty challenges table the SELECT yields no row, so no solve
      inserts anything even when no award exists. */
  lemma {:induction false} EmptyChallengesAwardNothing(awards: seq<Award>, solves: seq<Solve>,
                                                       cfg: AwardConfig)
    ensures var t := Replay(awards, [], solves, cfg);
            t.awards == awards
            && forall i | 0 <= i < |t.results| :: t.results[i].Executed? ==> t.results[i].rowcount == 0
    decreases |solves|
  {
    if solves != [] {
      EmptyChallengesAwardNothing(awards, solves[1..], cfg);
    }
  }

  /** Award names pairwise different across a run of solves. */
  predicate DistinctNames(solves: seq<Solve>)
  {
    forall i, j | 0 <= i < j < |solves| :: AwardName(solves[i].chal) != AwardName(solves[j].chal)
  }

  /** Every solve of the run has an ASCII award name and no first-blood award
      in `awards` yet. */
  predicate NoneAwarded(awards: seq<Award>, solves: seq<Solve>)
  {
    forall i | 0 <= i < |solves| ::
      Formattable(solves[i].chal) && !HasFirstBlood(awards, AwardName(solves[i].chal))
  }

  /** The first solve of such a run inserts its own award row, and the rest
      of the run still has pairwise different ASCII names, none of them awarded. */
  lemma DistinctFirstStep(awards: seq<Award>, challenges: seq<Challenge>, solves: seq<Solve>,
                          cfg: AwardConfig)
    requires challenges != [] && solves != []
    requires DistinctNames(solves) && NoneAwarded(awards, solves)
    ensures var row := AwardRow(solves[0].teamId, solves[0].chal, cfg);
            HandlePreSolve(awards, challenges, solves[0].chal, solves[0].teamId, cfg)
              == Handled(awards + [row], Executed(1))
            && DistinctNames(solves[1..]) && NoneAwarded(awards + [row], solves[1..])
  {
    var row := AwardRow(solves[0].teamId, solves[0].chal, cfg);
    var tail := solves[1..];
    forall j | 0 <= j < |tail|
      ensures Formattable(tail[j].chal) && !HasFirstBlood(awards + [row], AwardName(tail[j].chal))
    {
      assert tail[j] == solves[j + 1];
      HasFirstBloodAppend(awards, row, AwardName(tail[j].chal));
    }
  }

  /** The award rows of a run's solves, one per solve, in order. */
  function AwardRows(solves: seq<Solve>, cfg: AwardConfig): (r: seq<Award>)
    ensures |r| == |solves|
  {
    if solves == [] then []
    else [AwardRow(solves[0].teamId, solves[0].chal, cfg)] + AwardRows(solves[1..], cfg)
  }

  /** Position i of the award rows is the award row of solve i. */
  lemma {:induction false} AwardRowsAt(solves: seq<Solve>, cfg: AwardConfig, i: nat)
    requires i < |solves|
    ensures AwardRows(solves, cfg)[i] == AwardRow(solves[i].teamId, solves[i].chal, cfg)
  {
    if i > 0 {
      AwardRowsAt(solves[1..], cfg, i - 1);
    }
  }

  /** Solves whose award names are pairwise different, ASCII and not yet
      awarded do not interfere: with a non-empty challenges table each one
      appends its own team's award row, in the order solved, and reports
      rowcount 1. */
  lemma {:induction false} DistinctNamesIndependent(awards: seq<Award>, challenges: seq<Challenge>,
                                                    solves: seq<Solve>, cfg: AwardConfig)
    requires challenges != []
    requires DistinctNames(solves)
    requires NoneAwarded(awards, solves)
    ensures var t := Replay(awards, challenges, solves, cfg);
            t.awards == awards + AwardRows(solves, cfg)
            && forall i | 0 <= i < |t.results| :: t.results[i] == Executed(1)
    decreases |solves|
  {
    if solves == [] {
      assert awards + AwardRows(solves, cfg) == awards;
    } else {
      var row := AwardRow(solves[0].teamId, solves[0].chal, cfg);
      DistinctFirstStep(awards, challenges, solves, cfg);
      ReplayFirst(awards, challenges, solves, cfg);
      DistinctNamesIndependent(awards + [row], challenges, solves[1..], cfg);
      var rest := Replay(awards + [row], challenges, solves[1..], cfg);
      AwardRowsStep(awards, rest.awards, solves, cfg);
      AllOnesStep(rest.results);
    }
  }

  /** Replay unfolded once: the first solve's result, then the rest of the
      run from the table it left. */
  lemma ReplayFirst(awards: seq<Award>, challenges: seq<Challenge>, solves: seq<Solve>,
                    cfg: AwardConfig)
    requires solves != []
    ensures var h := HandlePreSolve(awards, challenges, solves[0].chal, solves[0].teamId, cfg);
            var rest := Replay(h.awards, challenges, solves[1..], cfg);
            Replay(awards, challenges, solves, cfg) == Trace(rest.awards, [h.result] + rest.results)
  {
  }

  /** The award rows of a run are the first solve's row followed by the
      award rows of the rest of the run. */
  lemma AwardRowsStep(awards: seq<Award>, rest: seq<Award>, solves: seq<Solve>, cfg: AwardConfig)
    requires solves != []
    requires rest == awards + [AwardRow(solves[0].teamId, solves[0].chal, cfg)] + AwardRows(solves[1..], cfg)
    ensures rest == awards + AwardRows(solves, cfg)
  {
  }

  /** A result of rowcount 1 followed by results of rowcount 1 are all of
      rowcount 1. */
  lemma AllOnesStep(rest: seq<HandlerResult>)
    requires forall i | 0 <= i < |rest| :: rest[i] == Executed(1)
    ensures forall i | 0 <= i < |rest| + 1 :: ([Executed(1)] + rest)[i] == Executed(1)
  {
    forall i | 0 <= i < |rest| + 1 ensures ([Executed(1)] + rest)[i] == Executed(1) {
      if i > 0 {
        assert ([Executed(1)] + rest)[i] == rest[i - 1];
      }
    }
  }
}
