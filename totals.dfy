/**
 * When every credited score is a number and no team is credited twice in
 * one table, each team's `total` equals the sum of its `rounds` — through
 * the row loop, the merge of later pages, the padding and the whole page
 * chain of `getScores` (index.mjs lines 26-104).
 */
module Totals {
  import opened Wrappers
  import opened JsText
  import opened Extract
  import opened Scores

  /** What a slot adds to a sum: its number, and nothing for a hole. */
  function SlotValue(s: Slot): int {
    match s
    case Val(Int(v)) => v
    case _ => 0
  }

  function SumSlots(rounds: seq<Slot>): int
    decreases |rounds|
  {
    if rounds == [] then 0 else SlotValue(rounds[0]) + SumSlots(rounds[1..])
  }

  predicate NoNaN(rounds: seq<Slot>) {
    forall i :: 0 <= i < |rounds| ==> rounds[i] != Val(NaN)
  }

  /** A team's total is the number its rounds add up to, and no round is NaN. */
  predicate Balanced(t: TeamScore) {
    t.total == Int(SumSlots(t.rounds)) && NoNaN(t.rounds)
  }

  predicate AllBalanced(b: Board) {
    forall k :: k in b.teams ==> Balanced(b.teams[k])
  }

  /** No team has played round `n` or a later one yet. */
  predicate Below(b: Board, n: nat) {
    forall k :: k in b.teams ==> |b.teams[k].rounds| <= n
  }

  /** The team under `key`, if any, has no slot at `index` yet. */
  predicate Unplayed(b: Board, key: string, index: nat) {
    key in b.teams ==> |b.teams[key].rounds| <= index
  }

  /** Every row of the table that is credited has a numeric score, and no team is credited twice. */
  predicate Consistent(rows: seq<Record>) {
    && (forall i :: 0 <= i < |rows| && RowKey(rows[i]).Some? ==> ScoreOf(rows[i]).Int?)
    && (forall i, j :: 0 <= i < j < |rows| && RowKey(rows[i]).Some? ==> RowKey(rows[i]) != RowKey(rows[j]))
  }

  predicate AllConsistent(tables: seq<seq<Record>>) {
    forall j :: 0 <= j < |tables| ==> Consistent(tables[j])
  }

  /** Every page of the upstream that can be read has consistent tables. */
  predicate PagesConsistent(pages: seq<Page>) {
    forall i :: 0 <= i < |pages| && ExtractPage(pages[i]).Success? ==> AllConsistent(ExtractPage(pages[i]).value)
  }

  lemma {:induction false} SumAppend(a: seq<Slot>, c: seq<Slot>)
    ensures SumSlots(a + c) == SumSlots(a) + SumSlots(c)
    decreases |a|
  {
    if a == [] {
      assert a + c == c;
    } else {
      assert (a + c)[1..] == a[1..] + c;
      SumAppend(a[1..], c);
    }
  }

  lemma {:induction false} SumZeros(c: seq<Slot>)
    requires forall i :: 0 <= i < |c| ==> SlotValue(c[i]) == 0
    ensures SumSlots(c) == 0
    decreases |c|
  {
    if c != [] {
      assert forall i :: 0 <= i < |c| - 1 ==> c[1..][i] == c[i + 1];
      SumZeros(c[1..]);
    }
  }

  lemma {:induction false} SumPointwise(a: seq<Slot>, c: seq<Slot>)
    requires |a| == |c|
    requires forall i :: 0 <= i < |a| ==> SlotValue(a[i]) == SlotValue(c[i])
    ensures SumSlots(a) == SumSlots(c)
    decreases |a|
  {
    if a != [] {
      assert forall i :: 0 <= i < |a| - 1 ==> a[1..][i] == a[i + 1] && c[1..][i] == c[i + 1];
      SumPointwise(a[1..], c[1..]);
    }
  }

  /** Writing `v` past the end adds `v` to the sum: the holes in between add nothing. */
  lemma SumSetPast(rounds: seq<Slot>, index: nat, v: int)
    requires |rounds| <= index && NoNaN(rounds)
    ensures SumSlots(SetSlot(rounds, index, Int(v))) == SumSlots(rounds) + v
    ensures NoNaN(SetSlot(rounds, index, Int(v)))
    ensures |SetSlot(rounds, index, Int(v))| == index + 1
  {
    var holes := Holes(index - |rounds|);
    assert SetSlot(rounds, index, Int(v)) == (rounds + holes) + [Val(Int(v))];
    SumAppend(rounds + holes, [Val(Int(v))]);
    SumAppend(rounds, holes);
    SumZeros(holes);
    assert [Val(Int(v))][1..] == [];
  }

  /**
   * Crediting a numeric score to a team that has not played round `index`
   * keeps every total equal to its rounds' sum, and the team has then
   * played exactly `index + 1` rounds.
   */
  lemma CreditBalanced(b: Board, key: string, v: int, index: nat)
    requires AllBalanced(b) && Unplayed(b, key, index)
    ensures AllBalanced(Credit(b, key, Int(v), index))
    ensures |Credit(b, key, Int(v), index).teams[key].rounds| == index + 1
  {
    if key in b.teams {
      SumSetPast(b.teams[key].rounds, index, v);
    } else {
      SumSetPast([], index, v);
    }
  }

  /** One row of a consistent table keeps the totals balanced and leaves the other teams' rounds as they were. */
  lemma AddRowBalanced(b: Board, row: Record, index: nat)
    requires AllBalanced(b) && Below(b, index + 1) && TeamNameKey in row
    requires RowKey(row).Some? ==> ScoreOf(row).Int? && Unplayed(b, RowKey(row).value, index)
    ensures var b' := AddRow(b, row, index).value;
      && AllBalanced(b') && Below(b', index + 1)
      && (forall k :: Some(k) != RowKey(row) && Unplayed(b, k, index) ==> Unplayed(b', k, index))
      && (forall k :: Some(k) != RowKey(row) ==> (k in b'.teams <==> k in b.teams))
      && (forall k :: Some(k) != RowKey(row) && k in b.teams ==> b'.teams[k] == b.teams[k])
  {
    if RowKey(row).Some? {
      CreditBalanced(b, RowKey(row).value, ScoreOf(row).value, index);
    }
  }

  /** The rest of a consistent table is consistent and credits no team its first row credits. */
  lemma ConsistentTail(rows: seq<Record>)
    requires rows != [] && Consistent(rows)
    ensures Consistent(rows[1..])
    ensures forall i :: 0 <= i < |rows| - 1 && RowKey(rows[1..][i]).Some? ==> RowKey(rows[1..][i]) != RowKey(rows[0])
  {
    var tail := rows[1..];
    assert forall i :: 0 <= i < |tail| ==> tail[i] == rows[i + 1];
  }

  /** The row loop of one table keeps the totals balanced when the table is consistent. */
  lemma {:induction false} AddRowsBalanced(b: Board, rows: seq<Record>, index: nat)
    requires AllBalanced(b) && Below(b, index + 1) && Consistent(rows)
    requires forall i :: 0 <= i < |rows| && RowKey(rows[i]).Some? ==> Unplayed(b, RowKey(rows[i]).value, index)
    ensures AddRows(b, rows, index).Success? ==>
              AllBalanced(AddRows(b, rows, index).value) && Below(AddRows(b, rows, index).value, index + 1)
    decreases |rows|
  {
    if rows != [] && TeamNameKey in rows[0] {
      AddRowBalanced(b, rows[0], index);
      ConsistentTail(rows);
      AddRowsBalanced(AddRow(b, rows[0], index).value, rows[1..], index);
    }
  }

  /** The `reduce` over a page's tables keeps the totals balanced when every table is consistent. */
  lemma {:induction false} AddTablesBalanced(b: Board, tables: seq<seq<Record>>, i: nat)
    requires i <= |tables| && AllBalanced(b) && Below(b, i)
    requires forall j :: i <= j < |tables| ==> Consistent(tables[j])
    ensures AddTables(b, tables, i).Success? ==> AllBalanced(AddTables(b, tables, i).value)
    decreases |tables| - i
  {
    if i < |tables| {
      AddRowsBalanced(b, tables[i], i);
      var r := AddRows(b, tables[i], i);
      if r.Success? {
        AddTablesBalanced(r.value, tables, i + 1);
      }
    }
  }

  lemma CombinedBalanced(cur: TeamScore, later: TeamScore)
    requires Balanced(cur) && Balanced(later)
    ensures Balanced(Combined(cur, later))
  {
    SumAppend(cur.rounds, later.rounds);
  }

  /** A board whose entries are those of two balanced boards, or their combinations, is balanced. */
  lemma MergedBalanced(cur: Board, later: Board, r: Board)
    requires AllBalanced(cur) && AllBalanced(later)
    requires r.teams.Keys == cur.teams.Keys + later.teams.Keys
    requires forall k :: k in cur.teams && k in later.teams ==> r.teams[k] == Combined(cur.teams[k], later.teams[k])
    requires forall k :: k !in cur.teams && k in later.teams ==> r.teams[k] == later.teams[k]
    requires forall k :: k in cur.teams && k !in later.teams ==> r.teams[k] == cur.teams[k]
    ensures AllBalanced(r)
  {
    forall k | k in r.teams ensures Balanced(r.teams[k]) {
      if k in cur.teams && k in later.teams {
        CombinedBalanced(cur.teams[k], later.teams[k]);
      }
    }
  }

  /** Merging two balanced boards gives a balanced board: sums and concatenations agree. */
  lemma MergeBalanced(cur: Board, later: Board)
    requires WellKeyed(cur) && WellKeyed(later) && AllBalanced(cur) && AllBalanced(later)
    ensures AllBalanced(Merge(cur, later))
  {
    MergeContents(cur, later);
    MergedBalanced(cur, later, Merge(cur, later));
  }

  /** Padding only turns holes (worth nothing) and zeros into zeros, so sums are unchanged. */
  lemma SumPadSlots(rounds: seq<Slot>, n: nat)
    requires NoNaN(rounds)
    ensures SumSlots(PadSlots(rounds, n)) == SumSlots(rounds)
    ensures NoNaN(PadSlots(rounds, n))
  {
    var p := PadSlots(rounds, n);
    var head := p[..|rounds|];
    assert p == head + p[|rounds|..];
    SumPointwise(rounds, head);
    SumZeros(p[|rounds|..]);
    SumAppend(head, p[|rounds|..]);
  }

  lemma PadBalanced(b: Board)
    requires WellKeyed(b) && AllBalanced(b)
    ensures AllBalanced(Pad(b))
  {
    var n := TotalRounds(b);
    forall k | k in b.teams ensures Balanced(Pad(b).teams[k]) {
      SumPadSlots(b.teams[k].rounds, n);
    }
  }

  /** One level of the page chain: merge, then pad. */
  lemma StepBalanced(mine: Board, next: Board)
    requires WellKeyed(mine) && WellKeyed(next) && AllBalanced(mine) && AllBalanced(next)
    ensures AllBalanced(Pad(Merge(mine, next)))
  {
    MergeBalanced(mine, next);
    PadBalanced(Merge(mine, next));
  }

  /** The tables of any page `getScores` can read are consistent, pages past the list included. */
  lemma TablesConsistent(pages: seq<Page>, page: nat)
    requires PagesConsistent(pages) && TablesOf(pages, page).Success?
    ensures AllConsistent(TablesOf(pages, page).value)
  {
    if 1 <= page <= |pages| {
      assert FetchPage(pages, page) == pages[page - 1];
    } else {
      ExtractPageTables([]);
    }
  }

  /** A page with tables: its balanced board merged with the balanced result of the later pages. */
  lemma NextPageBalanced(pages: seq<Page>, page: nat, tables: seq<seq<Record>>, mine: Board)
    requires page >= 1 && TablesOf(pages, page) == Success(tables) && |tables| > 0
    requires AddTables(Empty, tables, 0) == Success(mine) && AllBalanced(mine)
    requires GetScores(pages, page + 1).Success? ==> AllBalanced(GetScores(pages, page + 1).value)
    ensures GetScores(pages, page).Success? ==> AllBalanced(GetScores(pages, page).value)
  {
    GetScoresNextPage(pages, page, tables, mine);
    var next := GetScores(pages, page + 1);
    if next.Success? {
      StepBalanced(mine, next.value);
    }
  }

  /**
   * Whatever `getScores(page)` returns for an upstream whose readable pages
   * all have consistent tables has every team's total equal to the sum of
   * its rounds, and no NaN round.
   */
  lemma {:induction false} GetScoresBalanced(pages: seq<Page>, page: nat)
    requires page >= 1 && PagesConsistent(pages)
    ensures GetScores(pages, page).Success? ==> AllBalanced(GetScores(pages, page).value)
    decreases |pages| + 1 - page
  {
    var t := TablesOf(pages, page);
    if t.Failure? {
      GetScoresUnreadable(pages, page);
    } else {
      TablesConsistent(pages, page);
      assert AllBalanced(Empty) && Below(Empty, 0);
      AddTablesBalanced(Empty, t.value, 0);
      var a := AddTables(Empty, t.value, 0);
      if a.Failure? {
        GetScoresUnscorable(pages, page, t.value, a.error);
      } else if |t.value| == 0 {
        GetScoresLastPage(pages, page, a.value);
        StepBalanced(a.value, Empty);
      } else {
        TablesPastEnd(pages, page);
        GetScoresBalanced(pages, page + 1);
        NextPageBalanced(pages, page, t.value, a.value);
      }
    }
  }
}
