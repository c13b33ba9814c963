/**
 * The value-level meaning of `getScores` (index.mjs lines 26-104): how one
 * row, one table, one page and the chain of pages change the `Map` of team
 * scores. The in-place code that performs these steps is in module
 * Aggregate and is proved to compute exactly these functions.
 */
module Scores {
  import opened Wrappers
  import opened JsText
  import opened Extract
  import opened TeamName

  /** One element of a JavaScript array that may have holes. */
  datatype Slot = Hole | Val(n: Num)

  /** The `{ total, rounds }` object kept for each team. */
  datatype TeamScore = TeamScore(total: Num, rounds: seq<Slot>)

  /** The `Map` of team scores: its keys in insertion order, and the entry under each key. */
  datatype Board = Board(order: seq<string>, teams: map<string, TeamScore>)

  /** `new Map()`. */
  const Empty := Board([], map[])

  /** The insertion order lists every key once and nothing else. */
  predicate WellKeyed(b: Board) {
    && (forall k :: k in b.order ==> k in b.teams)
    && (forall k :: k in b.teams ==> k in b.order)
    && Distinct(b.order)
  }

  /** No key occurs twice. */
  predicate Distinct(keys: seq<string>) {
    forall i, j :: 0 <= i < j < |keys| ==> keys[i] != keys[j]
  }


  /** Why `getScores` throws. */
  datatype ScoreError =
    | Extraction(cause: ExtractError)   // a table the extractor cannot read
    | MissingTeamName                    // `row.get('Team Name')` is undefined at line 49

  function Holes(n: nat): (r: seq<Slot>)
    ensures |r| == n && forall i :: 0 <= i < n ==> r[i] == Hole
  {
    seq(n, _ => Hole)
  }

  /**
   * `rounds[i] = v` on a JavaScript array: slot `i` holds `v`, the length
   * grows to `i + 1` if it was shorter, the new slots in between are holes,
   * and no other slot changes.
   */
  function SetSlot(rounds: seq<Slot>, i: nat, v: Num): (r: seq<Slot>)
    ensures |r| == if i < |rounds| then |rounds| else i + 1
    ensures r[i] == Val(v)
    ensures forall j :: 0 <= j < |r| && j != i ==> r[j] == if j < |rounds| then rounds[j] else Hole
  {
    if i < |rounds| then rounds[i := Val(v)] else rounds + Holes(i - |rounds|) + [Val(v)]
  }

  const TeamNameKey: Option<string> := Some("Team Name")
  const ScoreKey: Option<string> := Some("Score")

  /** `row.get('Score')`: the raw score text, or `undefined`. */
  function ScoreText(row: Record): Option<string> {
    if ScoreKey in row then Some(row[ScoreKey]) else None
  }

  /** `parseInt(row.get('Score'))`; `parseInt(undefined)` reads the text "undefined", which is NaN. */
  function ScoreOf(row: Record): Num {
    match ScoreText(row)
    case Some(t) => ParseInt(t)
    case None => NaN
  }

  /** Lines 51-54: the one row the source drops, as a known duplicate. */
  predicate IsDroppedDuplicate(key: string, row: Record) {
    key == "CENTAUR RODEO" && ScoreText(row) == Some("32")
  }

  /**
   * Lines 56-67: file score `s` for round `index` under `key`. An existing
   * team gets `s` added to its total and slot `index` overwritten; a new
   * team is appended to the key order with total `s` and `s` alone at slot
   * `index`. No other team changes.
   */
  function Credit(b: Board, key: string, s: Num, index: nat): (r: Board)
    ensures WellKeyed(b) ==> WellKeyed(r)
    ensures key in r.teams
    ensures key in b.teams ==>
              (r.order == b.order &&
               r.teams[key] == TeamScore(Plus(b.teams[key].total, s), SetSlot(b.teams[key].rounds, index, s)))
    ensures key !in b.teams ==>
              (r.order == b.order + [key] && r.teams[key] == TeamScore(s, SetSlot([], index, s)))
    ensures forall k :: k != key ==> (k in r.teams <==> k in b.teams)
    ensures forall k :: k != key && k in b.teams ==> r.teams[k] == b.teams[k]
  {
    if key in b.teams then
      var t := b.teams[key];
      Board(b.order, b.teams[key := TeamScore(Plus(t.total, s), SetSlot(t.rounds, index, s))])
    else
      Board(b.order + [key], b.teams[key := TeamScore(s, SetSlot([], index, s))])
  }

  /** The key a row is credited under, or None when the row is dropped or has no team name. */
  function RowKey(row: Record): Option<string> {
    if TeamNameKey !in row then None
    else
      var key := Normalise(row[TeamNameKey]);
      if IsDroppedDuplicate(key, row) then None else Some(key)
  }

  /** The body of `table.forEach` at lines 48-68 for one row of the table at position `index`. */
  function AddRow(b: Board, row: Record, index: nat): (r: Result<Board, ScoreError>)
    ensures r.Failure? <==> TeamNameKey !in row
    ensures r.Failure? ==> r.error == MissingTeamName
    ensures r.Success? && RowKey(row).None? ==> r.value == b
    ensures r.Success? && RowKey(row).Some? ==> r.value == Credit(b, RowKey(row).value, ScoreOf(row), index)
  {
    if TeamNameKey !in row then Failure(MissingTeamName)
    else
      var key := Normalise(row[TeamNameKey]);
      if IsDroppedDuplicate(key, row) then Success(b)
      else Success(Credit(b, key, ScoreOf(row), index))
  }

  /** `table.forEach` at lines 48-68: the rows in order, stopping at the first that throws. */
  function AddRows(b: Board, rows: seq<Record>, index: nat): (r: Result<Board, ScoreError>)
    ensures r.Failure? ==> r.error == MissingTeamName
    ensures r.Success? && WellKeyed(b) ==> WellKeyed(r.value)
    decreases |rows|
  {
    if rows == [] then Success(b)
    else
      match AddRow(b, rows[0], index)
      case Failure(e) => Failure(e)
      case Success(b') => AddRows(b', rows[1..], index)
  }

  /** A table's rows fail exactly when one of them has no `Team Name`. */
  lemma {:induction false} AddRowsFails(b: Board, rows: seq<Record>, index: nat)
    ensures AddRows(b, rows, index).Failure? <==> exists i :: 0 <= i < |rows| && TeamNameKey !in rows[i]
    decreases |rows|
  {
    if rows != [] {
      assert forall i :: 0 < i < |rows| ==> rows[i] == rows[1..][i - 1];
      if TeamNameKey in rows[0] {
        AddRowsFails(AddRow(b, rows[0], index).value, rows[1..], index);
        if exists i :: 0 <= i < |rows| && TeamNameKey !in rows[i] {
          var i :| 0 <= i < |rows| && TeamNameKey !in rows[i];
          assert i > 0 && TeamNameKey !in rows[1..][i - 1];
        }
      }
    }
  }

  /**
   * The `reduce` at lines 47-70 from table `i` on: table `i` is round
   * `i`, counted within this page only.
   */
  function AddTables(b: Board, tables: seq<seq<Record>>, i: nat): (r: Result<Board, ScoreError>)
    requires i <= |tables|
    ensures r.Success? && WellKeyed(b) ==> WellKeyed(r.value)
    ensures r.Failure? ==> r.error == MissingTeamName
    decreases |tables| - i
  {
    if i == |tables| then Success(b)
    else
      match AddRows(b, tables[i], i)
      case Failure(e) => Failure(e)
      case Success(b') => AddTables(b', tables, i + 1)
  }

  /** Row `j` is the last row of `rows` credited under `k`. */
  predicate LastCredited(rows: seq<Record>, j: nat, k: string) {
    && j < |rows| && RowKey(rows[j]) == Some(k)
    && forall j' :: j < j' < |rows| ==> RowKey(rows[j']) != Some(k)
  }

  /** Rows credited under other keys leave the entry under `k` as it was. */
  lemma {:induction false} AddRowsElsewhere(b: Board, rows: seq<Record>, index: nat, k: string)
    requires forall j :: 0 <= j < |rows| ==> RowKey(rows[j]) != Some(k)
    requires AddRows(b, rows, index).Success?
    ensures var r := AddRows(b, rows, index).value;
      && (k in r.teams <==> k in b.teams)
      && (k in b.teams ==> r.teams[k] == b.teams[k])
    decreases |rows|
  {
    if rows != [] {
      var tail := rows[1..];
      assert forall j :: 0 <= j < |tail| ==> tail[j] == rows[j + 1];
      AddRowsElsewhere(AddRow(b, rows[0], index).value, tail, index, k);
    }
  }

  /**
   * Line 59 over a whole table: slot `index` of `k`'s rounds holds the
   * score of the last row credited under `k`; an earlier row for the same
   * team is overwritten.
   */
  lemma AddRowsSlot(b: Board, rows: seq<Record>, index: nat, j: nat, k: string)
    requires LastCredited(rows, j, k) && AddRows(b, rows, index).Success?
    ensures var r := AddRows(b, rows, index).value;
      k in r.teams && index < |r.teams[k].rounds| && r.teams[k].rounds[index] == Val(ScoreOf(rows[j]))
  {
    LastCreditedRest(rows, j, k);
    SplitAt(rows, j);
    AddRowsSlotAfter(b, rows[..j], rows[j..], index, k);
  }

  lemma SplitAt(rows: seq<Record>, j: nat)
    requires j <= |rows|
    ensures rows[..j] + rows[j..] == rows
  {
  }

  /** Rows ahead of the last row credited under `k` do not change what that row leaves in slot `index`. */
  lemma AddRowsSlotAfter(b: Board, pre: seq<Record>, rest: seq<Record>, index: nat, k: string)
    requires rest != [] && RowKey(rest[0]) == Some(k)
    requires forall i :: 0 < i < |rest| ==> RowKey(rest[i]) != Some(k)
    requires AddRows(b, pre + rest, index).Success?
    ensures var r := AddRows(b, pre + rest, index).value;
      k in r.teams && index < |r.teams[k].rounds| && r.teams[k].rounds[index] == Val(ScoreOf(rest[0]))
  {
    AddRowsAppend(b, pre, rest, index);
    AddRowsSlotFirst(AddRows(b, pre, index).value, rest, index, k);
  }

  /** From the last row credited under `k` on, only that first row is credited under `k`. */
  lemma LastCreditedRest(rows: seq<Record>, j: nat, k: string)
    requires LastCredited(rows, j, k)
    ensures rows[j..] != [] && rows[j..][0] == rows[j] && RowKey(rows[j..][0]) == Some(k)
    ensures forall i :: 0 < i < |rows[j..]| ==> RowKey(rows[j..][i]) != Some(k)
  {
    LastFromHere(rows, RowKey, j, k);
  }

  /** The suffix from position `j` keeps its first element and what held of every element after `j`. */
  lemma LastFromHere(rows: seq<Record>, key: Record -> Option<string>, j: nat, k: string)
    requires j < |rows| && key(rows[j]) == Some(k)
    requires forall j' :: j < j' < |rows| ==> key(rows[j']) != Some(k)
    ensures rows[j..] != [] && rows[j..][0] == rows[j] && key(rows[j..][0]) == Some(k)
    ensures forall i :: 0 < i < |rows[j..]| ==> key(rows[j..][i]) != Some(k)
  {
    var rest := rows[j..];
    forall i | 0 < i < |rest| ensures key(rest[i]) != Some(k) {
      assert rest[i] == rows[j + i];
    }
  }

  /** The rows of one table split anywhere: the second part goes on from the board the first part leaves. */
  lemma {:induction false} AddRowsAppend(b: Board, xs: seq<Record>, ys: seq<Record>, index: nat)
    requires AddRows(b, xs + ys, index).Success?
    ensures AddRows(b, xs, index).Success?
    ensures AddRows(b, xs + ys, index) == AddRows(AddRows(b, xs, index).value, ys, index)
    decreases |xs|
  {
    if xs == [] {
      assert xs + ys == ys;
    } else {
      assert (xs + ys)[0] == xs[0] && (xs + ys)[1..] == xs[1..] + ys;
      AddRowsAppend(AddRow(b, xs[0], index).value, xs[1..], ys, index);
    }
  }

  /** The first row is the last one credited under `k`: its score stays in slot `index`. */
  lemma AddRowsSlotFirst(b: Board, rows: seq<Record>, index: nat, k: string)
    requires rows != [] && RowKey(rows[0]) == Some(k)
    requires forall j' :: 0 < j' < |rows| ==> RowKey(rows[j']) != Some(k)
    requires AddRows(b, rows, index).Success?
    ensures var r := AddRows(b, rows, index).value;
      k in r.teams && index < |r.teams[k].rounds| && r.teams[k].rounds[index] == Val(ScoreOf(rows[0]))
  {
    FirstRowStep(b, rows, index);
    LaterRowsElsewhere(rows, 0, k);
    AddRowsElsewhere(AddRow(b, rows[0], index).value, rows[1..], index, k);
  }

  /** No row after position `j` is credited under `k`, counted again once the first row is dropped. */
  lemma LaterRowsElsewhere(rows: seq<Record>, j: nat, k: string)
    requires forall j' :: j < j' < |rows| ==> RowKey(rows[j']) != Some(k)
    ensures forall i :: j <= i < |rows| - 1 ==> RowKey(rows[1..][i]) != Some(k)
  {
    forall i | j <= i < |rows| - 1 ensures RowKey(rows[1..][i]) != Some(k) {
      assert rows[1..][i] == rows[i + 1];
    }
  }

  /**
   * A table that scores goes on from the board its first row leaves, and
   * that row's team then has its score at slot `index`.
   */
  lemma FirstRowStep(b: Board, rows: seq<Record>, index: nat)
    requires rows != [] && AddRows(b, rows, index).Success?
    ensures AddRow(b, rows[0], index).Success?
    ensures AddRows(b, rows, index) == AddRows(AddRow(b, rows[0], index).value, rows[1..], index)
    ensures RowKey(rows[0]).Some? ==>
              var b', k := AddRow(b, rows[0], index).value, RowKey(rows[0]).value;
              k in b'.teams && index < |b'.teams[k].rounds| && b'.teams[k].rounds[index] == Val(ScoreOf(rows[0]))
  {
  }

  /** The rows of round `index` leave every other filled slot of every team as it was. */
  lemma {:induction false} AddRowsKeepsSlot(b: Board, rows: seq<Record>, index: nat, k: string, t: nat)
    requires t != index && k in b.teams && t < |b.teams[k].rounds| && AddRows(b, rows, index).Success?
    ensures var r := AddRows(b, rows, index).value;
      k in r.teams && t < |r.teams[k].rounds| && r.teams[k].rounds[t] == b.teams[k].rounds[t]
    decreases |rows|
  {
    if rows != [] {
      AddRowsKeepsSlot(AddRow(b, rows[0], index).value, rows[1..], index, k, t);
    }
  }

  /** Tables from `i` on fill slots `i` and later, so an earlier filled slot stays as it was. */
  lemma {:induction false} AddTablesKeepsSlot(b: Board, tables: seq<seq<Record>>, i: nat, k: string, t: nat)
    requires i <= |tables| && t < i && k in b.teams && t < |b.teams[k].rounds|
    requires AddTables(b, tables, i).Success?
    ensures var r := AddTables(b, tables, i).value;
      k in r.teams && t < |r.teams[k].rounds| && r.teams[k].rounds[t] == b.teams[k].rounds[t]
    decreases |tables| - i
  {
    if i < |tables| {
      AddRowsKeepsSlot(b, tables[i], i, k, t);
      AddTablesKeepsSlot(AddRows(b, tables[i], i).value, tables, i + 1, k, t);
    }
  }

  /**
   * Lines 47-70: table `t` is round `t`. Slot `t` of `k`'s rounds holds
   * the score of the last row of table `t` credited under `k`, whatever
   * the later tables hold.
   */
  lemma {:induction false} AddTablesSlot(b: Board, tables: seq<seq<Record>>, i: nat, t: nat, j: nat, k: string)
    requires i <= t < |tables| && LastCredited(tables[t], j, k) && AddTables(b, tables, i).Success?
    ensures var r := AddTables(b, tables, i).value;
      k in r.teams && t < |r.teams[k].rounds| && r.teams[k].rounds[t] == Val(ScoreOf(tables[t][j]))
    decreases |tables| - i
  {
    var b' := AddRows(b, tables[i], i).value;
    if i < t {
      AddTablesSlot(b', tables, i + 1, t, j, k);
    } else {
      AddRowsSlot(b, tables[t], t, j, k);
      AddTablesKeepsSlot(b', tables, t + 1, k, t);
    }
  }

  /** Lines 80 and 82 for one key of the later board. */
  function MergeEntry(b: Board, key: string, v: TeamScore): (r: Board) {
    if key in b.teams then
      var t := b.teams[key];
      Board(b.order, b.teams[key := TeamScore(Plus(t.total, v.total), t.rounds + v.rounds)])
    else
      Board(b.order + [key], b.teams[key := v])
  }

  /** `next_page_scores_map.forEach` at lines 76-84, over the given keys in order. */
  function MergeKeys(b: Board, keys: seq<string>, later: map<string, TeamScore>): Board
    requires forall k :: k in keys ==> k in later
    decreases |keys|
  {
    if keys == [] then b
    else MergeKeys(MergeEntry(b, keys[0], later[keys[0]]), keys[1..], later)
  }

  /** The keys of `keys` that `present` lacks, in order. */
  function Unseen(keys: seq<string>, present: set<string>): (r: seq<string>)
    ensures forall k :: k in r <==> k in keys && k !in present
  {
    if keys == [] then []
    else (if keys[0] in present then [] else [keys[0]]) + Unseen(keys[1..], present)
  }

  lemma {:induction false} UnseenIgnores(keys: seq<string>, present: set<string>, x: string)
    requires x !in keys
    ensures Unseen(keys, present + {x}) == Unseen(keys, present)
  {
    if keys != [] {
      UnseenIgnores(keys[1..], present, x);
    }
  }

  lemma {:induction false} UnseenDistinct(keys: seq<string>, present: set<string>)
    requires Distinct(keys)
    ensures Distinct(Unseen(keys, present))
  {
    if keys != [] {
      assert forall i, j :: 0 <= i < j < |keys[1..]| ==> keys[1..][i] == keys[i + 1] && keys[1..][j] == keys[j + 1];
      UnseenDistinct(keys[1..], present);
      assert keys[0] !in keys[1..];
      var rest := Unseen(keys[1..], present);
      assert keys[0] !in rest;
      var u := Unseen(keys, present);
      if keys[0] !in present {
        assert u == [keys[0]] + rest;
        forall i, j | 0 <= i < j < |u| ensures u[i] != u[j] {
          if i == 0 { assert u[j] == rest[j - 1]; } else { assert u[i] == rest[i - 1] && u[j] == rest[j - 1]; }
        }
      } else {
        assert u == rest;
      }
    }
  }

  /** The entry a key ends with after the later board is folded in. */
  function Combined(cur: TeamScore, later: TeamScore): TeamScore {
    TeamScore(Plus(cur.total, later.total), cur.rounds + later.rounds)
  }

  lemma DistinctTail(keys: seq<string>)
    requires keys != [] && Distinct(keys)
    ensures Distinct(keys[1..]) && keys[0] !in keys[1..]
  {
    assert forall i, j :: 0 <= i < j < |keys[1..]| ==> keys[1..][i] == keys[i + 1] && keys[1..][j] == keys[j + 1];
  }

  lemma {:induction false} MergeKeysOrder(b: Board, keys: seq<string>, later: map<string, TeamScore>)
    requires forall k :: k in keys ==> k in later
    requires Distinct(keys)
    ensures MergeKeys(b, keys, later).order == b.order + Unseen(keys, b.teams.Keys)
    decreases |keys|
  {
    if keys != [] {
      var k0 := keys[0];
      var b' := MergeEntry(b, k0, later[k0]);
      DistinctTail(keys);
      MergeKeysOrder(b', keys[1..], later);
      var rest := Unseen(keys[1..], b.teams.Keys);
      if k0 !in b.teams {
        assert b'.teams.Keys == b.teams.Keys + {k0};
        UnseenIgnores(keys[1..], b.teams.Keys, k0);
        assert Unseen(keys, b.teams.Keys) == [k0] + rest;
        assert b'.order + rest == b.order + ([k0] + rest);
      } else {
        assert b'.teams.Keys == b.teams.Keys;
        assert Unseen(keys, b.teams.Keys) == rest;
      }
    }
  }

  lemma {:induction false} MergeKeysKeys(b: Board, keys: seq<string>, later: map<string, TeamScore>)
    requires forall k :: k in keys ==> k in later
    ensures forall k :: k in MergeKeys(b, keys, later).teams <==> k in b.teams || k in keys
    decreases |keys|
  {
    if keys != [] {
      MergeKeysKeys(MergeEntry(b, keys[0], later[keys[0]]), keys[1..], later);
    }
  }

  lemma {:induction false} MergeKeysTeams(b: Board, keys: seq<string>, later: map<string, TeamScore>)
    requires forall k :: k in keys ==> k in later
    requires Distinct(keys)
    ensures var r := MergeKeys(b, keys, later);
      && (forall k :: k in r.teams <==> k in b.teams || k in keys)
      && (forall k :: k in keys && k in b.teams ==> r.teams[k] == Combined(b.teams[k], later[k]))
      && (forall k :: k in keys && k !in b.teams ==> r.teams[k] == later[k])
      && (forall k :: k !in keys && k in b.teams ==> r.teams[k] == b.teams[k])
    decreases |keys|
  {
    if keys != [] {
      var k0 := keys[0];
      var b' := MergeEntry(b, k0, later[k0]);
      DistinctTail(keys);
      MergeKeysTeams(b', keys[1..], later);
    }
  }

  /** Joining two key lists without a key in common keeps the keys distinct. */
  lemma DistinctConcat(a: seq<string>, u: seq<string>)
    requires Distinct(a) && Distinct(u)
    requires forall k :: k in u ==> k !in a
    ensures Distinct(a + u)
  {
    var r := a + u;
    forall i, j | 0 <= i < j < |r| ensures r[i] != r[j] {
      if j < |a| {
        assert r[i] == a[i] && r[j] == a[j];
      } else if i >= |a| {
        assert r[i] == u[i - |a|] && r[j] == u[j - |a|];
      } else {
        assert r[i] == a[i] && r[j] == u[j - |a|] && u[j - |a|] in u;
      }
    }
  }

  lemma MergeWellKeyed(cur: Board, later: Board)
    requires WellKeyed(cur) && WellKeyed(later)
    ensures var r := MergeKeys(cur, later.order, later.teams); WellKeyed(r)
  {
    MergeKeysOrder(cur, later.order, later.teams);
    MergeKeysKeys(cur, later.order, later.teams);
    UnseenDistinct(later.order, cur.teams.Keys);
    DistinctConcat(cur.order, Unseen(later.order, cur.teams.Keys));
  }

  /**
   * Lines 76-84: fold the later pages' board into this page's. A team in
   * both gets the totals added and the rounds of this page followed by the
   * later rounds; a team only in the later board is inserted unchanged and
   * appended to the key order; a team only in this page's board is untouched.
   */
  function Merge(cur: Board, later: Board): (r: Board)
    requires WellKeyed(cur) && WellKeyed(later)
    ensures WellKeyed(r)
  {
    MergeWellKeyed(cur, later);
    MergeKeys(cur, later.order, later.teams)
  }

  /**
   * What `Merge` leaves: this page's keys followed by the later keys it
   * lacked, in their order; the union of the teams; summed totals and
   * joined rounds for a team in both, the one entry for a team in one.
   */
  lemma MergeContents(cur: Board, later: Board)
    requires WellKeyed(cur) && WellKeyed(later)
    ensures var r := Merge(cur, later);
      && r.order == cur.order + Unseen(later.order, cur.teams.Keys)
      && r.teams.Keys == cur.teams.Keys + later.teams.Keys
      && (forall k :: k in cur.teams && k in later.teams ==> r.teams[k] == Combined(cur.teams[k], later.teams[k]))
      && (forall k :: k !in cur.teams && k in later.teams ==> r.teams[k] == later.teams[k])
      && (forall k :: k in cur.teams && k !in later.teams ==> r.teams[k] == cur.teams[k])
  {
    MergeKeysOrder(cur, later.order, later.teams);
    MergeKeysTeams(cur, later.order, later.teams);
  }

  /**
   * Lines 87-92 over the given keys: the largest `rounds` length, 0 when
   * there are no keys.
   */
  function MaxLength(teams: map<string, TeamScore>, keys: seq<string>): nat
    requires forall k :: k in keys ==> k in teams
    decreases |keys|
  {
    if keys == [] then 0
    else
      var front := keys[..|keys| - 1];
      var last := keys[|keys| - 1];
      assert forall k :: k in front ==> k in keys;
      var m := MaxLength(teams, front);
      if |teams[last].rounds| > m then |teams[last].rounds| else m
  }

  /** `MaxLength` is the length of the longest `rounds` among the keys, and 0 for no keys. */
  lemma {:induction false} MaxLengthIsMax(teams: map<string, TeamScore>, keys: seq<string>)
    requires forall k :: k in keys ==> k in teams
    ensures forall k :: k in keys ==> |teams[k].rounds| <= MaxLength(teams, keys)
    ensures keys == [] ==> MaxLength(teams, keys) == 0
    ensures keys != [] ==> exists k :: k in keys && |teams[k].rounds| == MaxLength(teams, keys)
    decreases |keys|
  {
    if keys != [] {
      var front := keys[..|keys| - 1];
      var last := keys[|keys| - 1];
      assert forall k :: k in keys ==> k in front || k == last;
      assert forall k :: k in front ==> k in keys;
      MaxLengthIsMax(teams, front);
      var m := MaxLength(teams, front);
      if |teams[last].rounds| <= m && front != [] {
        var k :| k in front && |teams[k].rounds| == m;
        assert k in keys;
      }
    }
  }

  /** `total_rounds` (lines 87-92): the most rounds any team has. */
  function TotalRounds(b: Board): nat
    requires WellKeyed(b)
  {
    MaxLength(b.teams, b.order)
  }

  /** `total_rounds` bounds every team's rounds and is reached by one of them; it is 0 for an empty map. */
  lemma TotalRoundsIsMax(b: Board)
    requires WellKeyed(b)
    ensures forall k :: k in b.teams ==> |b.teams[k].rounds| <= TotalRounds(b)
    ensures b.teams == map[] ==> TotalRounds(b) == 0
    ensures b.teams != map[] ==> exists k :: k in b.teams && |b.teams[k].rounds| == TotalRounds(b)
  {
    OrderCoversTeams(b);
    MaxLengthIsMax(b.teams, b.order);
  }

  lemma OrderCoversTeams(b: Board)
    requires WellKeyed(b)
    ensures b.teams != map[] ==> b.order != []
  {
    if b.teams != map[] {
      var k :| k in b.teams;
      assert k in b.order;
    }
  }

  /** `!rounds[i]`: slot `i` is past the end, a hole, 0 or NaN. */
  predicate Falsy(rounds: seq<Slot>, i: nat) {
    i >= |rounds| || rounds[i] == Hole || rounds[i] == Val(Int(0)) || rounds[i] == Val(NaN)
  }

  /** The slots below `n` after `if (!rounds[i]) rounds[i] = 0` has run for every `i < n`. */
  function PadSlots(rounds: seq<Slot>, n: nat): (r: seq<Slot>) {
    seq(if n > |rounds| then n else |rounds|,
        i requires 0 <= i < (if n > |rounds| then n else |rounds|) =>
          if i < n && Falsy(rounds, i) then Val(Int(0)) else rounds[i])
  }

  /** Lines 94-101: every team's rounds padded up to `total_rounds`. */
  function Pad(b: Board): (r: Board)
    requires WellKeyed(b)
    ensures r.order == b.order && r.teams.Keys == b.teams.Keys && WellKeyed(r)
  {
    var n := TotalRounds(b);
    Board(b.order, map k | k in b.teams :: TeamScore(b.teams[k].total, PadSlots(b.teams[k].rounds, n)))
  }

  /** A team's rounds after padding hold only numbers. */
  predicate AllNumbers(rounds: seq<Slot>) {
    forall i :: 0 <= i < |rounds| ==> rounds[i].Val? && rounds[i].n.Int?
  }

  /**
   * Padding keeps the keys, their order and the totals; afterwards every
   * team has exactly `total_rounds` slots, every slot that was truthy is
   * unchanged, every hole, 0 or NaN below `total_rounds` is 0, and so every
   * slot is a number.
   */
  lemma PadEqualizes(b: Board)
    requires WellKeyed(b)
    ensures var r := Pad(b);
      && WellKeyed(r) && r.order == b.order && r.teams.Keys == b.teams.Keys
      && (forall k :: k in b.teams ==> r.teams[k].total == b.teams[k].total)
      && (forall k :: k in b.teams ==> |r.teams[k].rounds| == TotalRounds(b))
      && (forall k, i :: k in b.teams && 0 <= i < TotalRounds(b) && !Falsy(b.teams[k].rounds, i)
            ==> r.teams[k].rounds[i] == b.teams[k].rounds[i])
      && (forall k, i :: k in b.teams && 0 <= i < TotalRounds(b) && Falsy(b.teams[k].rounds, i)
            ==> r.teams[k].rounds[i] == Val(Int(0)))
      && (forall k :: k in b.teams ==> AllNumbers(r.teams[k].rounds))
  {
    TotalRoundsIsMax(b);
    var r := Pad(b);
    forall k | k in b.teams ensures AllNumbers(r.teams[k].rounds) {
      var old_ := b.teams[k].rounds;
      forall i | 0 <= i < |r.teams[k].rounds| ensures r.teams[k].rounds[i].Val? && r.teams[k].rounds[i].n.Int? {
        if !Falsy(old_, i) {
          assert old_[i] != Hole && old_[i] != Val(NaN);
        }
      }
    }
  }

  /**
   * A filled slot of this page's map survives the merge and the padding
   * at its place, a 0 or NaN in it reading as 0 afterwards.
   */
  lemma MergePadKeepsSlot(mine: Board, later: Board, k: string, t: nat)
    requires WellKeyed(mine) && WellKeyed(later)
    requires k in mine.teams && t < |mine.teams[k].rounds| && mine.teams[k].rounds[t].Val?
    ensures var r := Pad(Merge(mine, later));
      var s := mine.teams[k].rounds[t].n;
      k in r.teams && t < |r.teams[k].rounds| && r.teams[k].rounds[t] == Val(if s.Int? then s else Int(0))
  {
    var m := Merge(mine, later);
    MergeKeepsSlot(mine, later, k, t);
    PadKeepsSlot(m, k, t);
  }

  lemma MergeKeepsSlot(mine: Board, later: Board, k: string, t: nat)
    requires WellKeyed(mine) && WellKeyed(later)
    requires k in mine.teams && t < |mine.teams[k].rounds|
    ensures var m := Merge(mine, later);
      k in m.teams && t < |m.teams[k].rounds| && m.teams[k].rounds[t] == mine.teams[k].rounds[t]
  {
    MergeContents(mine, later);
  }

  lemma PadKeepsSlot(m: Board, k: string, t: nat)
    requires WellKeyed(m) && k in m.teams && t < |m.teams[k].rounds| && m.teams[k].rounds[t].Val?
    ensures var r, s := Pad(m), m.teams[k].rounds[t].n;
      k in r.teams && t < |r.teams[k].rounds| && r.teams[k].rounds[t] == Val(if s.Int? then s else Int(0))
  {
    TotalRoundsIsMax(m);
    var rounds := m.teams[k].rounds;
    assert Pad(m).teams[k].rounds == PadSlots(rounds, TotalRounds(m));
    assert PadSlots(rounds, TotalRounds(m))[t] == if Falsy(rounds, t) then Val(Int(0)) else rounds[t];
  }

  /** The page the injected upstream returns for `page`: past the end of the list, a page with no tables. */
  function FetchPage(pages: seq<Page>, page: nat): (p: Page)
    ensures page < 1 || page > |pages| ==> p == []
  {
    if 1 <= page <= |pages| then pages[page - 1] else []
  }

  /**
   * `getScores(page)` (lines 26-104) with the upstream as a list of pages:
   * extract the page's tables, fold them into a fresh board, fetch and
   * fold in the later pages only if this page had a table, then pad.
   */
  function GetScores(pages: seq<Page>, page: nat): (r: Result<Board, ScoreError>)
    requires page >= 1
    ensures r.Success? ==> WellKeyed(r.value)
    decreases |pages| + 1 - page
  {
    match ExtractPage(FetchPage(pages, page))
    case Failure(e) => Failure(Extraction(e))
    case Success(tables) =>
      match AddTables(Empty, tables, 0)
      case Failure(e) => Failure(e)
      case Success(scores) =>
        var later := if |tables| > 0 then GetScores(pages, page + 1) else Success(Empty);
        match later
        case Failure(e) => Failure(e)
        case Success(next) => Success(Pad(Merge(scores, next)))
  }

  /** The tables page `page` yields, if it can be read. */
  function TablesOf(pages: seq<Page>, page: nat): Result<seq<seq<Record>>, ExtractError> {
    ExtractPage(FetchPage(pages, page))
  }

  /** Whether `getScores(page)` goes on to request `page + 1` (line 73). */
  predicate RequestsNext(pages: seq<Page>, page: nat) {
    var t := TablesOf(pages, page);
    t.Success? && |t.value| > 0 && AddTables(Empty, t.value, 0).Success?
  }

  /** The page numbers `getScores(page)` fetches, in order. */
  function Fetched(pages: seq<Page>, page: nat): seq<nat>
    requires page >= 1
    decreases |pages| + 1 - page
  {
    [page] + if RequestsNext(pages, page) then Fetched(pages, page + 1) else []
  }

  /** Past the end of the list every page reads as a page without tables. */
  lemma TablesPastEnd(pages: seq<Page>, page: nat)
    ensures page > |pages| ==> TablesOf(pages, page) == Success([])
  {
    ExtractPageTables([]);
  }

  /** A chain that succeeds read and scored its first page. */
  lemma GetScoresScored(pages: seq<Page>, page: nat)
    requires page >= 1
    ensures GetScores(pages, page).Success? ==>
              TablesOf(pages, page).Success? && AddTables(Empty, TablesOf(pages, page).value, 0).Success?
  {
  }

  /** A page that cannot be read ends the chain with its error, and nothing more is fetched. */
  lemma GetScoresUnreadable(pages: seq<Page>, page: nat)
    requires page >= 1 && TablesOf(pages, page).Failure?
    ensures GetScores(pages, page) == Failure(Extraction(TablesOf(pages, page).error))
    ensures Fetched(pages, page) == [page]
  {
  }

  /** A page whose rows cannot be scored ends the chain with that error, and nothing more is fetched. */
  lemma GetScoresUnscorable(pages: seq<Page>, page: nat, tables: seq<seq<Record>>, e: ScoreError)
    requires page >= 1 && TablesOf(pages, page) == Success(tables)
    requires AddTables(Empty, tables, 0) == Failure(e)
    ensures GetScores(pages, page) == Failure(e)
    ensures Fetched(pages, page) == [page]
  {
  }

  /** A page without tables is the last one: its own scores, padded. */
  lemma GetScoresLastPage(pages: seq<Page>, page: nat, mine: Board)
    requires page >= 1 && TablesOf(pages, page) == Success([])
    requires AddTables(Empty, [], 0) == Success(mine)
    ensures WellKeyed(mine)
    ensures GetScores(pages, page) == Success(Pad(Merge(mine, Empty)))
    ensures Fetched(pages, page) == [page]
  {
  }

  /** A page with tables goes on to the next one and merges what that returns. */
  lemma GetScoresNextPage(pages: seq<Page>, page: nat, tables: seq<seq<Record>>, mine: Board)
    requires page >= 1 && TablesOf(pages, page) == Success(tables) && |tables| > 0
    requires AddTables(Empty, tables, 0) == Success(mine)
    ensures WellKeyed(mine)
    ensures Fetched(pages, page) == [page] + Fetched(pages, page + 1)
    ensures GetScores(pages, page + 1).Failure? ==> GetScores(pages, page) == GetScores(pages, page + 1)
    ensures GetScores(pages, page + 1).Success? ==>
              GetScores(pages, page) == Success(Pad(Merge(mine, GetScores(pages, page + 1).value)))
  {
    assert WellKeyed(Empty);
  }
}
