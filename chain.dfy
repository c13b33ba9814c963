/**
 * Properties of the whole page chain of `getScores` (index.mjs lines
 * 26-104): which pages it fetches, when it succeeds, that every level
 * returns a padded board, and that the one known duplicate row never
 * changes the result wherever it appears.
 */
module Chain {
  import opened Wrappers
  import opened Extract
  import opened TeamName
  import opened JsText
  import opened Scores

  /** Page `p` can be read and its rows scored. */
  predicate Scorable(pages: seq<Page>, p: nat) {
    var t := TablesOf(pages, p);
    t.Success? && AddTables(Empty, t.value, 0).Success?
  }

  /** `RequestsNext` and `Scorable` as predicates on page numbers. */
  function Requests(pages: seq<Page>): nat -> bool {
    (p: nat) => RequestsNext(pages, p)
  }

  function ScorableIn(pages: seq<Page>): nat -> bool {
    (p: nat) => Scorable(pages, p)
  }

  /**
   * `f` lists consecutive pages from `page`; every page but the last
   * satisfies `next`, the last does not, and the last is no later than
   * `bound`.
   */
  predicate ChainOf(next: nat -> bool, page: nat, bound: nat, f: seq<nat>) {
    && |f| >= 1
    && (forall i :: 0 <= i < |f| ==> f[i] == page + i)
    && (forall i :: 0 <= i < |f| - 1 ==> next(f[i]))
    && !next(f[|f| - 1])
    && f[|f| - 1] <= bound
  }

  lemma ChainOfCons(next: nat -> bool, page: nat, bound: nat, rest: seq<nat>)
    requires next(page) && ChainOf(next, page + 1, bound, rest)
    ensures ChainOf(next, page, bound, [page] + rest)
  {
    var f := [page] + rest;
    forall i | 1 <= i < |f| ensures f[i] == rest[i - 1] == page + i {
    }
    forall i | 0 <= i < |f| - 1 ensures next(f[i]) {
      if i > 0 {
        assert f[i] == rest[i - 1];
      }
    }
    assert f[|f| - 1] == if |rest| == 0 then page else rest[|rest| - 1];
  }

  lemma ChainOfOne(next: nat -> bool, page: nat, bound: nat)
    requires !next(page) && page <= bound
    ensures ChainOf(next, page, bound, [page])
  {
  }

  lemma FetchedNext(pages: seq<Page>, page: nat)
    requires page >= 1 && RequestsNext(pages, page)
    ensures Fetched(pages, page) == [page] + Fetched(pages, page + 1)
  {
  }

  lemma FetchedLast(pages: seq<Page>, page: nat)
    requires page >= 1 && !RequestsNext(pages, page)
    ensures Fetched(pages, page) == [page]
  {
  }

  /** The last page `getScores(page)` can fetch: the first page past the list, or `page` if that is later. */
  function LastPossible(pages: seq<Page>, page: nat): nat {
    if page > |pages| then page else |pages| + 1
  }

  /** Only a page of the list can request another. */
  lemma RequestsWithin(pages: seq<Page>, page: nat)
    requires RequestsNext(pages, page)
    ensures page <= |pages| && LastPossible(pages, page + 1) == LastPossible(pages, page)
  {
    TablesPastEnd(pages, page);
  }

  /**
   * A chain built one page at a time: while `next` holds, `fetch(p)` is `p`
   * followed by `fetch(p + 1)` and `p` is below `bound`; where `next` fails,
   * `fetch(p)` is `p` alone.
   */
  lemma {:induction false} ChainBySteps(next: nat -> bool, fetch: nat -> seq<nat>, page: nat, bound: nat)
    requires page <= bound
    requires forall p :: page <= p && next(p) ==> p < bound && fetch(p) == [p] + fetch(p + 1)
    requires forall p :: page <= p && !next(p) ==> fetch(p) == [p]
    ensures ChainOf(next, page, bound, fetch(page))
    decreases bound - page
  {
    if next(page) {
      ChainBySteps(next, fetch, page + 1, bound);
      ChainOfCons(next, page, bound, fetch(page + 1));
    } else {
      ChainOfOne(next, page, bound);
    }
  }

  /**
   * Line 73: `getScores(page)` fetches consecutive pages from `page`; every
   * page but the last requested the next one, the last did not, and the
   * chain ends at the first page past the list at the latest.
   */
  lemma FetchedConsecutive(pages: seq<Page>, page: nat)
    requires page >= 1
    ensures ChainOf(Requests(pages), page, LastPossible(pages, page), Fetched(pages, page))
  {
    var bound := LastPossible(pages, page);
    var fetch := (p: nat) => if p >= 1 then Fetched(pages, p) else [];
    forall p | page <= p && Requests(pages)(p)
      ensures p < bound && fetch(p) == [p] + fetch(p + 1)
    {
      RequestsWithin(pages, p);
      FetchedNext(pages, p);
    }
    forall p | page <= p && !Requests(pages)(p)
      ensures fetch(p) == [p]
    {
      FetchedLast(pages, p);
    }
    ChainBySteps(Requests(pages), fetch, page, bound);
  }

  /** Every page in `f` satisfies `ok`. */
  predicate AllOf(ok: nat -> bool, f: seq<nat>) {
    forall i :: 0 <= i < |f| ==> ok(f[i])
  }

  lemma AllOfCons(ok: nat -> bool, page: nat, rest: seq<nat>)
    ensures AllOf(ok, [page] + rest) <==> ok(page) && AllOf(ok, rest)
  {
    var f := [page] + rest;
    assert f[0] == page;
    if AllOf(ok, f) {
      forall j | 0 <= j < |rest| ensures ok(rest[j]) {
        assert rest[j] == f[j + 1];
      }
    }
    if ok(page) && AllOf(ok, rest) {
      forall i | 0 <= i < |f| ensures ok(f[i]) {
        if i > 0 {
          assert f[i] == rest[i - 1];
        }
      }
    }
  }

  /** A page with tables succeeds exactly when it and every page the rest of the chain fetches succeed. */
  lemma NextPageSucceeds(pages: seq<Page>, page: nat)
    requires page >= 1 && RequestsNext(pages, page)
    requires GetScores(pages, page + 1).Success? <==> AllOf(ScorableIn(pages), Fetched(pages, page + 1))
    ensures GetScores(pages, page).Success? <==> AllOf(ScorableIn(pages), Fetched(pages, page))
  {
    var t := TablesOf(pages, page);
    GetScoresNextPage(pages, page, t.value, AddTables(Empty, t.value, 0).value);
    AllOfCons(ScorableIn(pages), page, Fetched(pages, page + 1));
  }

  /** A page that ends the chain succeeds exactly when it can be read and scored. */
  lemma LastPageSucceeds(pages: seq<Page>, page: nat)
    requires page >= 1 && !RequestsNext(pages, page)
    ensures GetScores(pages, page).Success? <==> AllOf(ScorableIn(pages), Fetched(pages, page))
  {
    AllOfCons(ScorableIn(pages), page, []);
    assert Fetched(pages, page) == [page] + [];
    var t := TablesOf(pages, page);
    if t.Failure? {
      GetScoresUnreadable(pages, page);
    } else if AddTables(Empty, t.value, 0).Failure? {
      GetScoresUnscorable(pages, page, t.value, AddTables(Empty, t.value, 0).error);
    } else {
      GetScoresLastPage(pages, page, AddTables(Empty, t.value, 0).value);
    }
  }

  /** `getScores(page)` succeeds exactly when every page it fetches can be read and scored. */
  lemma {:induction false} GetScoresSucceeds(pages: seq<Page>, page: nat)
    requires page >= 1
    ensures GetScores(pages, page).Success? <==> AllOf(ScorableIn(pages), Fetched(pages, page))
    decreases |pages| + 1 - page
  {
    if RequestsNext(pages, page) {
      RequestsWithin(pages, page);
      GetScoresSucceeds(pages, page + 1);
      NextPageSucceeds(pages, page);
    } else {
      LastPageSucceeds(pages, page);
    }
  }

  /**
   * Lines 86-101 run at every level of the chain: whatever `getScores`
   * returns has the same number of rounds for every team, each of them a
   * number.
   */
  lemma GetScoresPadded(pages: seq<Page>, page: nat)
    requires page >= 1 && GetScores(pages, page).Success?
    ensures var r := GetScores(pages, page).value;
      && (forall k, k' :: k in r.teams && k' in r.teams ==> |r.teams[k].rounds| == |r.teams[k'].rounds|)
      && (forall k :: k in r.teams ==> AllNumbers(r.teams[k].rounds))
  {
    var t := TablesOf(pages, page);
    var mine := AddTables(Empty, t.value, 0).value;
    if |t.value| == 0 {
      GetScoresLastPage(pages, page, mine);
      PadEqualizes(Merge(mine, Empty));
    } else {
      GetScoresNextPage(pages, page, t.value, mine);
      PadEqualizes(Merge(mine, GetScores(pages, page + 1).value));
    }
  }

  /**
   * Line 73: `getScores(page)` looks at no page outside `Fetched`. Two
   * upstreams that agree on the pages it fetches give the same result.
   */
  lemma {:induction false} ReadsOnlyFetched(pages: seq<Page>, pages': seq<Page>, page: nat)
    requires page >= 1
    requires forall p :: p in Fetched(pages, page) ==> TablesOf(pages', p) == TablesOf(pages, p)
    ensures GetScores(pages', page) == GetScores(pages, page)
    decreases |pages| + 1 - page
  {
    AgreeHead(pages, pages', page);
    if RequestsNext(pages, page) {
      RequestsWithin(pages, page);
      AgreeTail(pages, pages', page);
      ReadsOnlyFetched(pages, pages', page + 1);
      SameNextPage(pages, pages', page);
    } else {
      SameLastPage(pages, pages', page);
    }
  }

  lemma AgreeHead(pages: seq<Page>, pages': seq<Page>, page: nat)
    requires page >= 1
    requires forall p :: p in Fetched(pages, page) ==> TablesOf(pages', p) == TablesOf(pages, p)
    ensures TablesOf(pages', page) == TablesOf(pages, page)
  {
    assert Fetched(pages, page)[0] == page;
  }

  lemma AgreeTail(pages: seq<Page>, pages': seq<Page>, page: nat)
    requires page >= 1 && RequestsNext(pages, page)
    requires forall p :: p in Fetched(pages, page) ==> TablesOf(pages', p) == TablesOf(pages, p)
    ensures forall p :: p in Fetched(pages, page + 1) ==> TablesOf(pages', p) == TablesOf(pages, p)
  {
    FetchedNext(pages, page);
    forall p | p in Fetched(pages, page + 1) ensures TablesOf(pages', p) == TablesOf(pages, p) {
      assert p in Fetched(pages, page);
    }
  }

  /** Two upstreams that agree on a page that ends the chain agree on its result. */
  lemma SameLastPage(pages: seq<Page>, pages': seq<Page>, page: nat)
    requires page >= 1 && TablesOf(pages', page) == TablesOf(pages, page) && !RequestsNext(pages, page)
    ensures GetScores(pages', page) == GetScores(pages, page)
  {
    var t := TablesOf(pages, page);
    if t.Failure? {
      GetScoresUnreadable(pages, page);
      GetScoresUnreadable(pages', page);
    } else if AddTables(Empty, t.value, 0).Failure? {
      GetScoresUnscorable(pages, page, t.value, AddTables(Empty, t.value, 0).error);
      GetScoresUnscorable(pages', page, t.value, AddTables(Empty, t.value, 0).error);
    } else {
      GetScoresLastPage(pages, page, AddTables(Empty, t.value, 0).value);
      GetScoresLastPage(pages', page, AddTables(Empty, t.value, 0).value);
    }
  }

  /** Two upstreams that agree on a page and on the rest of the chain agree on the page's result. */
  lemma SameNextPage(pages: seq<Page>, pages': seq<Page>, page: nat)
    requires page >= 1 && TablesOf(pages', page) == TablesOf(pages, page) && RequestsNext(pages, page)
    requires GetScores(pages', page + 1) == GetScores(pages, page + 1)
    ensures GetScores(pages', page) == GetScores(pages, page)
  {
    var t := TablesOf(pages, page);
    var mine := AddTables(Empty, t.value, 0).value;
    GetScoresNextPage(pages, page, t.value, mine);
    GetScoresNextPage(pages', page, t.value, mine);
  }

  /**
   * Lines 47-103: each page counts its rounds from 0, so the rounds
   * `getScores(page)` returns begin with that page's own tables. Round `t`
   * of team `k` is the score of the last row for `k` in table `t`, with a
   * NaN read as 0 by the padding.
   */
  lemma GetScoresFirstRounds(pages: seq<Page>, page: nat, t: nat, j: nat, k: string)
    requires page >= 1 && GetScores(pages, page).Success?
    requires TablesOf(pages, page).Success? && t < |TablesOf(pages, page).value|
    requires LastCredited(TablesOf(pages, page).value[t], j, k)
    ensures var r := GetScores(pages, page).value;
      var s := ScoreOf(TablesOf(pages, page).value[t][j]);
      k in r.teams && t < |r.teams[k].rounds| && r.teams[k].rounds[t] == Val(if s.Int? then s else Int(0))
  {
    var tables := TablesOf(pages, page).value;
    GetScoresScored(pages, page);
    var mine := AddTables(Empty, tables, 0).value;
    AddTablesSlot(Empty, tables, 0, t, j, k);
    GetScoresNextPage(pages, page, tables, mine);
    MergePadKeepsSlot(mine, GetScores(pages, page + 1).value, k, t);
  }

  /** The known duplicate: a row with a team name that normalises to `CENTAUR RODEO` and score text "32". */
  predicate Dropped(row: Record) {
    TeamNameKey in row && IsDroppedDuplicate(Normalise(row[TeamNameKey]), row)
  }

  /** `rows` with `row` inserted before position `i`. */
  function InsertAt(rows: seq<Record>, i: nat, row: Record): (r: seq<Record>)
    requires i <= |rows|
    ensures |r| == |rows| + 1 && r[i] == row
    ensures r[..i] == rows[..i] && r[i + 1..] == rows[i..]
  {
    rows[..i] + [row] + rows[i..]
  }

  /** Lines 51-54: the duplicate row, inserted anywhere in a table, changes nothing. */
  lemma {:induction false} DropInRows(b: Board, rows: seq<Record>, i: nat, dup: Record, index: nat)
    requires i <= |rows| && Dropped(dup)
    ensures AddRows(b, InsertAt(rows, i, dup), index) == AddRows(b, rows, index)
    decreases i
  {
    var r := InsertAt(rows, i, dup);
    if i == 0 {
      assert r[1..] == rows;
    } else {
      assert r[0] == rows[0];
      assert r[1..] == InsertAt(rows[1..], i - 1, dup);
      var step := AddRow(b, rows[0], index);
      if step.Success? {
        DropInRows(step.value, rows[1..], i - 1, dup, index);
      }
    }
  }

  /** Two lists of tables of one length score alike when each table scores alike from every board. */
  lemma {:induction false} AddTablesAlike(b: Board, tables: seq<seq<Record>>, tables': seq<seq<Record>>, k: nat)
    requires k <= |tables| == |tables'|
    requires forall j, c :: k <= j < |tables| ==> AddRows(c, tables'[j], j) == AddRows(c, tables[j], j)
    ensures AddTables(b, tables', k) == AddTables(b, tables, k)
    decreases |tables| - k
  {
    if k < |tables| {
      assert AddRows(b, tables'[k], k) == AddRows(b, tables[k], k);
      var step := AddRows(b, tables[k], k);
      if step.Success? {
        AddTablesAlike(step.value, tables, tables', k + 1);
      }
    }
  }

  /** The duplicate row, inserted anywhere in any table of a page, leaves the page's scores as they were. */
  lemma DropInTables(b: Board, tables: seq<seq<Record>>, t: nat, i: nat, dup: Record)
    requires t < |tables| && i <= |tables[t]| && Dropped(dup)
    ensures AddTables(b, tables[t := InsertAt(tables[t], i, dup)], 0) == AddTables(b, tables, 0)
  {
    var tables' := tables[t := InsertAt(tables[t], i, dup)];
    forall j, c | 0 <= j < |tables| ensures AddRows(c, tables'[j], j) == AddRows(c, tables[j], j) {
      if j == t {
        DropInRows(c, tables[t], i, dup, j);
      }
    }
    AddTablesAlike(b, tables, tables', 0);
  }

  /**
   * Page `p` reads alike under both upstreams: it fails with the same
   * error, or it has as many tables and they score to the same board or
   * the same error.
   */
  predicate SameOutcome(pages: seq<Page>, pages': seq<Page>, p: nat) {
    var t1 := TablesOf(pages, p);
    var t2 := TablesOf(pages', p);
    && t1.Success? == t2.Success?
    && (t1.Failure? ==> t1.error == t2.error)
    && (t1.Success? ==> |t1.value| == |t2.value| && AddTables(Empty, t1.value, 0) == AddTables(Empty, t2.value, 0))
  }

  /**
   * `getScores` sees a page only through whether it can be read, whether it
   * has a table, and the board (or error) its tables score to.
   */
  lemma {:induction false} GetScoresAlike(pages: seq<Page>, pages': seq<Page>, page: nat)
    requires page >= 1
    requires forall p :: SameOutcome(pages, pages', p)
    ensures GetScores(pages', page) == GetScores(pages, page)
    decreases |pages| + 1 - page
  {
    assert SameOutcome(pages, pages', page);
    var t1 := TablesOf(pages, page);
    var t2 := TablesOf(pages', page);
    if t1.Failure? {
      GetScoresUnreadable(pages, page);
      GetScoresUnreadable(pages', page);
    } else {
      var a := AddTables(Empty, t1.value, 0);
      if a.Failure? {
        GetScoresUnscorable(pages, page, t1.value, a.error);
        GetScoresUnscorable(pages', page, t2.value, a.error);
      } else if |t1.value| == 0 {
        GetScoresLastPage(pages, page, a.value);
        GetScoresLastPage(pages', page, a.value);
      } else {
        TablesPastEnd(pages, page);
        GetScoresAlike(pages, pages', page + 1);
        GetScoresNextPage(pages, page, t1.value, a.value);
        GetScoresNextPage(pages', page, t2.value, a.value);
      }
    }
  }

  /**
   * Lines 51-54 on every page: the duplicate row, inserted anywhere in any
   * table of page `q`, leaves the result of `getScores(page)` as it was,
   * for every starting page.
   */
  lemma GetScoresIgnoresDuplicate(pages: seq<Page>, pages': seq<Page>, q: nat,
                                  tables: seq<seq<Record>>, t: nat, i: nat, dup: Record, page: nat)
    requires page >= 1 && Dropped(dup)
    requires TablesOf(pages, q) == Success(tables) && t < |tables| && i <= |tables[t]|
    requires TablesOf(pages', q) == Success(tables[t := InsertAt(tables[t], i, dup)])
    requires forall p :: p != q ==> TablesOf(pages', p) == TablesOf(pages, p)
    ensures GetScores(pages', page) == GetScores(pages, page)
  {
    forall p ensures SameOutcome(pages, pages', p) {
      if p == q {
        DropInTables(Empty, tables, t, i, dup);
      }
    }
    GetScoresAlike(pages, pages', page);
  }
}
