/** The first-blood handler of the CTFd plugin: when a team is about to solve a
    challenge, one SQL statement appends a "First Blood" award for that
    challenge unless such an award already exists.

    The statement is
      INSERT INTO awards (teamid, name, description, value, category, icon)
      SELECT <six literals> FROM challenges
      WHERE NOT EXISTS (SELECT * FROM awards WHERE name = <name> AND category = 'FirstBlood')
      LIMIT 1
    and is modelled here on sequences of rows: the awards table is a sequence
    of Award rows that the statement can only extend at its end.
 */
module FirstBlood {

  /** The challenge being solved; only its category and name are read. */
  datatype Challenge = Challenge(category: string, name: string)

  /** One row of the awards table, restricted to the columns the handler
      writes (the id and the date are filled in by the database). */
  datatype Award = Award(teamId: int, name: string, description: string,
                         value: int, category: string, icon: string)

  /** The three configured constants copied into every first-blood award. */
  datatype AwardConfig = AwardConfig(description: string, value: int, icon: string)

  /** What one execution of the statement leaves behind: the new awards table
      and the affected-row count the driver reports. */
  datatype Outcome = Outcome(awards: seq<Award>, rowcount: nat)

  /** What one call of the handler ends in: the statement ran and reported a
      rowcount, or formatting the award name raised UnicodeEncodeError before
      any statement was built. */
  datatype HandlerResult = Executed(rowcount: nat) | UnicodeEncodeError

  /** The awards table after one call of the handler, and how the call ended. */
  datatype Handled = Handled(awards: seq<Award>, result: HandlerResult)

  const NamePrefix: string := "First Blood for "
  const FirstBloodCategory: string := "FirstBlood"

  /** The award name, "First Blood for <category>/<name>". It reads back as
      its three parts: the prefix, the category, a slash and the name. */
  function AwardName(chal: Challenge): (r: string)
    ensures |r| == |NamePrefix| + |chal.category| + 1 + |chal.name|
    ensures r[..|NamePrefix|] == NamePrefix
    ensures r[|NamePrefix|..|NamePrefix| + |chal.category|] == chal.category
    ensures r[|NamePrefix| + |chal.category|] == '/'
    ensures r[|NamePrefix| + |chal.category| + 1..] == chal.name
  {
    NamePrefix + chal.category + "/" + chal.name
  }

  /** Every character lies in the ASCII range. */
  predicate IsAscii(s: string)
  {
    forall k | 0 <= k < |s| :: s[k] as int < 128
  }

  /** Whether the handler can format the award name. The plugin runs on
      Python 2, where the template is a byte string: a category or name that
      holds a non-ASCII character makes the formatting raise
      UnicodeEncodeError. */
  predicate Formattable(chal: Challenge)
  {
    IsAscii(chal.category) && IsAscii(chal.name)
  }

  /** A challenge can be formatted exactly when its award name is ASCII, so
      challenges sharing an award name are formattable alike. */
  lemma FormattableIffAsciiName(chal: Challenge)
    ensures Formattable(chal) <==> IsAscii(AwardName(chal))
  {
    assert IsAscii(NamePrefix) && IsAscii("/");
    AsciiConcat(NamePrefix, chal.category);
    AsciiConcat(NamePrefix + chal.category, "/");
    AsciiConcat(NamePrefix + chal.category + "/", chal.name);
  }

  /** A concatenation is ASCII exactly when both parts are. */
  lemma AsciiConcat(a: string, b: string)
    ensures IsAscii(a + b) <==> IsAscii(a) && IsAscii(b)
  {
    if IsAscii(a + b) {
      forall k | 0 <= k < |a| ensures a[k] as int < 128 {
        assert a[k] == (a + b)[k];
      }
      forall k | 0 <= k < |b| ensures b[k] as int < 128 {
        assert b[k] == (a + b)[|a| + k];
      }
    }
  }

  /** The row the statement would insert: the session's team, the derived
      name, the configured description, value and icon, and the first-blood
      category. It is exactly a row the NOT EXISTS subquery looks for. */
  function AwardRow(teamId: int, chal: Challenge, cfg: AwardConfig): (r: Award)
    ensures IsFirstBloodFor(r, AwardName(chal))
    ensures r.teamId == teamId
    ensures r.description == cfg.description && r.value == cfg.value && r.icon == cfg.icon
  {
    Award(teamId, AwardName(chal), cfg.description, cfg.value, FirstBloodCategory, cfg.icon)
  }

  /** The WHERE clause of the subquery: same name and category "FirstBlood". */
  predicate IsFirstBloodFor(a: Award, name: string)
  {
    a.name == name && a.category == FirstBloodCategory
  }

  /** The EXISTS subquery: some row of the table is a first-blood award with this name. */
  predicate HasFirstBlood(awards: seq<Award>, name: string)
  {
    exists i | 0 <= i < |awards| :: IsFirstBloodFor(awards[i], name)
  }

  /** The number of first-blood awards with this name. */
  function FirstBloodCount(awards: seq<Award>, name: string): nat
  {
    if awards == [] then 0
    else (if IsFirstBloodFor(awards[0], name) then 1 else 0) + FirstBloodCount(awards[1..], name)
  }

  /** The invariant the plugin exists for: at most one first-blood award per name. */
  ghost predicate UniqueFirstBlood(awards: seq<Award>)
  {
    forall name :: FirstBloodCount(awards, name) <= 1
  }

  /** The SELECT of the statement: one copy of the literal row per row of the
      challenges table, kept only when no first-blood award with this name
      exists, then cut to at most one row by LIMIT 1. */
  function SelectLiterals(row: Award, challenges: seq<Challenge>, awards: seq<Award>, name: string)
    : (r: seq<Award>)
    ensures |r| <= 1
    ensures r != [] <==> challenges != [] && !HasFirstBlood(awards, name)
    ensures forall k | 0 <= k < |r| :: r[k] == row
  {
    var projected := seq(|challenges|, _ => row);
    var filtered := if HasFirstBlood(awards, name) then [] else projected;
    if |filtered| <= 1 then filtered else filtered[..1]
  }

  /** One execution of the statement for a solve of `chal` by `teamId`: the
      selected rows are appended and their number is the rowcount. */
  function PreSolve(awards: seq<Award>, challenges: seq<Challenge>, chal: Challenge,
                    teamId: int, cfg: AwardConfig): (o: Outcome)
    ensures |awards| <= |o.awards| && o.awards[..|awards|] == awards
    ensures o.rowcount == |o.awards| - |awards| && o.rowcount <= 1
    ensures o.rowcount != 0 <==> challenges != [] && !HasFirstBlood(awards, AwardName(chal))
    ensures o.rowcount != 0 ==> o.awards == awards + [AwardRow(teamId, chal, cfg)]
    ensures o.rowcount == 0 ==> o.awards == awards
  {
    var selected := SelectLiterals(AwardRow(teamId, chal, cfg), challenges, awards, AwardName(chal));
    assert (awards + selected)[..|awards|] == awards;
    Outcome(awards + selected, |selected|)
  }

  /** One call of the handler on the tables: if the award name cannot be
      formatted the call raises and the table is unchanged; otherwise the
      statement runs and the call reports its rowcount. */
  function HandlePreSolve(awards: seq<Award>, challenges: seq<Challenge>, chal: Challenge,
                          teamId: int, cfg: AwardConfig): (h: Handled)
    ensures h.result.UnicodeEncodeError? <==> !Formattable(chal)
    ensures h.result.UnicodeEncodeError? ==> h.awards == awards
    ensures h.result.Executed? ==> var o := PreSolve(awards, challenges, chal, teamId, cfg);
                                   h.awards == o.awards && h.result.rowcount == o.rowcount
  {
    FormattableIffAsciiName(chal);
    if !Formattable(chal) then Handled(awards, UnicodeEncodeError)
    else
      var o := PreSolve(awards, challenges, chal, teamId, cfg);
      Handled(o.awards, Executed(o.rowcount))
  }

  /** Appending one row adds one to the count exactly when the row matches. */
  lemma {:induction false} CountAppend(awards: seq<Award>, a: Award, name: string)
    ensures FirstBloodCount(awards + [a], name)
         == FirstBloodCount(awards, name) + (if IsFirstBloodFor(a, name) then 1 else 0)
  {
    if awards == [] {
      assert awards + [a] == [a];
    } else {
      assert (awards + [a])[1..] == awards[1..] + [a];
      CountAppend(awards[1..], a, name);
    }
  }

  /** The count is positive exactly when the EXISTS subquery is true. */
  lemma {:induction false} CountPositiveIff(awards: seq<Award>, name: string)
    ensures FirstBloodCount(awards, name) > 0 <==> HasFirstBlood(awards, name)
  {
    if awards != [] {
      CountPositiveIff(awards[1..], name);
      if HasFirstBlood(awards[1..], name) {
        var i :| 0 <= i < |awards| - 1 && IsFirstBloodFor(awards[1..][i], name);
        assert IsFirstBloodFor(awards[i + 1], name);
      }
      if HasFirstBlood(awards, name) && !IsFirstBloodFor(awards[0], name) {
        var i :| 0 <= i < |awards| && IsFirstBloodFor(awards[i], name);
        assert IsFirstBloodFor(awards[1..][i - 1], name);
      }
    }
  }

  /** Appending a row makes the EXISTS subquery true for a name exactly when
      it was true before or the row itself is a first-blood award for it. */
  lemma HasFirstBloodAppend(awards: seq<Award>, a: Award, name: string)
    ensures HasFirstBlood(awards + [a], name) <==> HasFirstBlood(awards, name) || IsFirstBloodFor(a, name)
  {
    CountAppend(awards, a, name);
    CountPositiveIff(awards, name);
    CountPositiveIff(awards + [a], name);
  }

  /** If the table held at most one first-blood award per name before the
      statement, it still does afterwards. */
  lemma UniquenessPreserved(awards: seq<Award>, challenges: seq<Challenge>, chal: Challenge,
                            teamId: int, cfg: AwardConfig)
    requires UniqueFirstBlood(awards)
    ensures UniqueFirstBlood(PreSolve(awards, challenges, chal, teamId, cfg).awards)
  {
    var o := PreSolve(awards, challenges, chal, teamId, cfg);
    if o.rowcount != 0 {
      var row := AwardRow(teamId, chal, cfg);
      forall name ensures FirstBloodCount(o.awards, name) <= 1 {
        CountAppend(awards, row, name);
        CountPositiveIff(awards, name);
      }
    }
  }

  /** After a solve, a first-blood award for the challenge's name exists
      exactly when the challenges table is non-empty or one existed before. */
  lemma AwardedAfterSolve(awards: seq<Award>, challenges: seq<Challenge>, chal: Challenge,
                          teamId: int, cfg: AwardConfig)
    ensures HasFirstBlood(PreSolve(awards, challenges, chal, teamId, cfg).awards, AwardName(chal))
        <==> challenges != [] || HasFirstBlood(awards, AwardName(chal))
  {
    var o := PreSolve(awards, challenges, chal, teamId, cfg);
    if o.rowcount != 0 {
      assert IsFirstBloodFor(o.awards[|awards|], AwardName(chal));
    }
  }

  /** A second solve of any challenge whose name formats to the same string
      inserts nothing and leaves the table as the first solve left it. */
  lemma SecondSolveInsertsNothing(awards: seq<Award>, challenges: seq<Challenge>,
                                  first: Challenge, firstTeam: int,
                                  second: Challenge, secondTeam: int, cfg: AwardConfig)
    requires AwardName(first) == AwardName(second)
    ensures var o1 := PreSolve(awards, challenges, first, firstTeam, cfg);
            var o2 := PreSolve(o1.awards, challenges, second, secondTeam, cfg);
            o2.rowcount == 0 && o2.awards == o1.awards
  {
    AwardedAfterSolve(awards, challenges, first, firstTeam, cfg);
  }

  /** Deduplication is on the formatted string, not on the (category, name)
      pair: the challenges "web/a" / "b" and "web" / "a/b" are different but
      share one award, so whichever is solved second gets none. */
  lemma NameCollision(awards: seq<Award>, challenges: seq<Challenge>,
                      firstTeam: int, secondTeam: int, cfg: AwardConfig)
    ensures var first := Challenge("web/a", "b");
            var second := Challenge("web", "a/b");
            var o1 := PreSolve(awards, challenges, first, firstTeam, cfg);
            first != second && AwardName(first) == AwardName(second)
            && PreSolve(o1.awards, challenges, second, secondTeam, cfg).rowcount == 0
  {
    var first := Challenge("web/a", "b");
    var second := Challenge("web", "a/b");
    assert AwardName(first) == AwardName(second) == "First Blood for web/a/b";
    SecondSolveInsertsNothing(awards, challenges, first, firstTeam, second, secondTeam, cfg);
  }

  /** When no category contains a slash, the name determines the challenge:
      two challenges share an award name exactly when they are equal. */
  lemma AwardNameInjective(c1: Challenge, c2: Challenge)
    requires '/' !in c1.category && '/' !in c2.category
    ensures AwardName(c1) == AwardName(c2) <==> c1 == c2
  {
  }

  /** An award with the same name but another category does not block the
      insert: adding such a row to the table changes nothing about the outcome. */
  lemma OtherCategoryDoesNotBlock(awards: seq<Award>, other: Award, challenges: seq<Challenge>,
                                  chal: Challenge, teamId: int, cfg: AwardConfig)
    requires other.category != FirstBloodCategory
    ensures PreSolve(awards + [other], challenges, chal, teamId, cfg).rowcount
         == PreSolve(awards, challenges, chal, teamId, cfg).rowcount
  {
    var name := AwardName(chal);
    CountAppend(awards, other, name);
    CountPositiveIff(awards, name);
    CountPositiveIff(awards + [other], name);
  }

  /** The database the handler writes to: the awards table, which the
      statement appends to, and the challenges table, which it only reads. */
  class Database {
    var awards: seq<Award>
    var challenges: seq<Challenge>

    constructor (awards: seq<Award>, challenges: seq<Challenge>)
      ensures this.awards == awards && this.challenges == challenges
    {
      this.awards := awards;
      this.challenges := challenges;
    }

    /** Executes an INSERT ... SELECT whose SELECT produced `rows`: the rows
        are appended in one step and their number is the rowcount. */
    method InsertFromSelect(rows: seq<Award>) returns (rowcount: nat)
      modifies this`awards
      ensures awards == old(awards) + rows
      ensures rowcount == |rows|
    {
      awards := awards + rows;
      rowcount := |rows|;
    }
  }

  /** The handler run before a solve: formats the award name, builds the
      award row for the session's team, executes the conditional insert and
      returns the rowcount that the source tests. A name that cannot be
      formatted raises before anything is executed and leaves the table as it
      was. Otherwise the existing rows are kept as they were, at most one row
      is appended, and uniqueness per name is preserved. */
  method OnChallengePreSolve(db: Database, chal: Challenge, teamId: int, cfg: AwardConfig)
    returns (result: HandlerResult)
    modifies db`awards
    ensures var h := HandlePreSolve(old(db.awards), db.challenges, chal, teamId, cfg);
            db.awards == h.awards && result == h.result
    ensures result.UnicodeEncodeError? <==> !Formattable(chal)
    ensures result.UnicodeEncodeError? ==> db.awards == old(db.awards)
    ensures result.Executed? ==>
              (result.rowcount != 0 <==> db.challenges != [] && !old(HasFirstBlood(db.awards, AwardName(chal))))
    ensures result == Executed(1) ==> db.awards == old(db.awards) + [AwardRow(teamId, chal, cfg)]
    ensures result == Executed(0) ==> db.awards == old(db.awards)
    ensures old(UniqueFirstBlood(db.awards)) ==> UniqueFirstBlood(db.awards)
  {
    FormattableIffAsciiName(chal);
    if !Formattable(chal) {
      result := UnicodeEncodeError;
      return;
    }
    var name := AwardName(chal);
    var row := AwardRow(teamId, chal, cfg);
    var selected := SelectLiterals(row, db.challenges, db.awards, name);
    var rowcount := db.InsertFromSelect(selected);
    result := Executed(rowcount);
    if old(UniqueFirstBlood(db.awards)) {
      UniquenessPreserved(old(db.awards), db.challenges, chal, teamId, cfg);
    }
  }
}
