/**
 * The in-place side of `getScores` (index.mjs lines 26-104): a `Map` of
 * team scores that the row loop, the merge loop and the padding loop
 * update step by step. Each method is proved to leave the map equal to the
 * function of module Scores that gives the step's meaning.
 */
module Aggregate {
  import opened Wrappers
  import opened JsText
  import opened Extract
  import opened TeamName
  import opened Scores

  /** The `Map` of team scores: keys in insertion order, and the `{ total, rounds }` under each. */
  class ScoreMap {
    var order: seq<string>
    var teams: map<string, TeamScore>

    function Value(): Board
      reads this
    {
      Board(order, teams)
    }

    /** `new Map()`. */
    constructor ()
      ensures Value() == Empty
    {
      order := [];
      teams := map[];
    }

    /** The `forEach` body at lines 48-68 for one row of the table at position `index`. */
    method ScoreRow(row: Record, index: nat) returns (err: Option<ScoreError>)
      modifies this
      ensures Scores.AddRow(old(Value()), row, index) == if err.None? then Success(Value()) else Failure(err.value)
      ensures err.Some? ==> Value() == old(Value())
    {
      if TeamNameKey !in row {
        return Some(MissingTeamName);
      }
      var key := Normalise(row[TeamNameKey]);
      if key == "CENTAUR RODEO" && ScoreText(row) == Some("32") {
        return None;
      }
      var score := ScoreOf(row);
      if key in teams {
        var t := teams[key];
        teams := teams[key := TeamScore(Plus(t.total, score), SetSlot(t.rounds, index, score))];
      } else {
        teams := teams[key := TeamScore(score, SetSlot([], index, score))];
        order := order + [key];
      }
      return None;
    }

    /** The `reduce` at lines 47-70: every row of every table, table `i` being round `i`. */
    method ScoreTables(tables: seq<seq<Record>>) returns (err: Option<ScoreError>)
      modifies this
      ensures Scores.AddTables(old(Value()), tables, 0) == if err.None? then Success(Value()) else Failure(err.value)
    {
      var i := 0;
      while i < |tables|
        invariant 0 <= i <= |tables|
        invariant Scores.AddTables(old(Value()), tables, 0) == Scores.AddTables(Value(), tables, i)
      {
        ghost var start := Value();
        var rows := tables[i];
        var j := 0;
        while j < |rows|
          invariant 0 <= j <= |rows|
          invariant Scores.AddRows(start, rows, i) == Scores.AddRows(Value(), rows[j..], i)
        {
          assert rows[j..][0] == rows[j] && rows[j..][1..] == rows[j + 1..];
          err := ScoreRow(rows[j], i);
          if err.Some? {
            return;
          }
          j := j + 1;
        }
        assert rows[j..] == [];
        i := i + 1;
      }
      err := None;
    }

    /** Lines 76-84: fold the later pages' map into this one, key by key in its insertion order. */
    method FoldIn(next: ScoreMap)
      requires next != this
      requires WellKeyed(Value()) && WellKeyed(next.Value())
      modifies this
      ensures Value() == Merge(old(Value()), next.Value())
    {
      var i := 0;
      while i < |next.order|
        invariant 0 <= i <= |next.order|
        invariant MergeKeys(old(Value()), next.order, next.teams) == MergeKeys(Value(), next.order[i..], next.teams)
      {
        var key := next.order[i];
        var value := next.teams[key];
        assert next.order[i..][0] == key && next.order[i..][1..] == next.order[i + 1..];
        if key in teams {
          var t := teams[key];
          teams := teams[key := TeamScore(Plus(t.total, value.total), t.rounds + value.rounds)];
        } else {
          teams := teams[key := value];
          order := order + [key];
        }
        i := i + 1;
      }
    }

    /** Lines 86-101: find `total_rounds`, then set every falsy slot below it to 0, team by team. */
    method PadRounds()
      requires WellKeyed(Value())
      modifies this
      ensures Value() == Pad(old(Value()))
    {
      var totalRounds := TotalRounds(Value());
      ghost var before := teams;
      var i := 0;
      while i < |order|
        invariant 0 <= i <= |order|
        invariant order == old(order) && teams.Keys == before.Keys
        invariant forall k :: k in teams ==>
                    teams[k] == if k in order[..i] then TeamScore(before[k].total, PadSlots(before[k].rounds, totalRounds)) else before[k]
      {
        var key := order[i];
        assert key !in order[..i];
        assert order[..i + 1] == order[..i] + [key];
        PadTeamAt(key, totalRounds);
        i := i + 1;
      }
      assert order[..i] == order;
    }

    /** Lines 95-100 for the team under `key`. */
    method PadTeamAt(key: string, n: nat)
      requires key in teams
      modifies this
      ensures order == old(order)
      ensures teams == old(teams)[key := TeamScore(old(teams)[key].total, PadSlots(old(teams)[key].rounds, n))]
    {
      var t := teams[key];
      var rounds := PadTeam(t.rounds, n);
      teams := teams[key := TeamScore(t.total, rounds)];
    }

    /** Lines 76-101 for one level of the page chain. */
    method Combine(next: ScoreMap)
      requires next != this
      requires WellKeyed(Value()) && WellKeyed(next.Value())
      modifies this
      ensures Value() == Pad(Merge(old(Value()), next.Value()))
    {
      FoldIn(next);
      PadRounds();
    }
  }

  /** Lines 95-100 for one team: every falsy slot below `n` becomes 0, growing the array as needed. */
  method PadTeam(rounds: seq<Slot>, n: nat) returns (r: seq<Slot>)
    ensures r == PadSlots(rounds, n)
  {
    r := rounds;
    var j := 0;
    while j < n
      invariant 0 <= j <= n
      invariant r == PadSlots(rounds, j)
    {
      PadSlotsStep(rounds, j);
      if Falsy(r, j) {
        r := SetSlot(r, j, Int(0));
      }
      j := j + 1;
    }
  }

  /** One more turn of the padding loop pads one more slot. */
  lemma PadSlotsStep(rounds: seq<Slot>, j: nat)
    ensures Falsy(PadSlots(rounds, j), j) == Falsy(rounds, j)
    ensures PadSlots(rounds, j + 1) ==
              if Falsy(rounds, j) then SetSlot(PadSlots(rounds, j), j, Int(0)) else PadSlots(rounds, j)
  {
  }

  /** Lines 46-70: a fresh map holding the scores of one page's tables, or the first row error. */
  method ScorePage(tables: seq<seq<Record>>) returns (err: Option<ScoreError>, scores: ScoreMap)
    ensures fresh(scores)
    ensures AddTables(Empty, tables, 0) == if err.None? then Success(scores.Value()) else Failure(err.value)
  {
    scores := new ScoreMap();
    err := scores.ScoreTables(tables);
  }
}
