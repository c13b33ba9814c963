/**
 * The ordering `formatScores` gives the leaderboard (index.mjs lines
 * 108-109): the map's entries in insertion order, sorted by
 * `(a, b) => b[1].total - a[1].total`. `Array.prototype.sort` is stable, so
 * teams with equal totals keep their insertion order; the sort is modelled
 * as a stable insertion sort driven by that comparator.
 */
module Ranking {
  import opened JsText
  import opened Scores

  /** One `[team, results]` pair of `scores_object.entries()`. */
  datatype Standing = Standing(team: string, score: TeamScore)

  /** `[...scores_object.entries()]`: one pair per key, in insertion order. */
  function Entries(b: Board): (r: seq<Standing>)
    requires WellKeyed(b)
  {
    seq(|b.order|, i requires 0 <= i < |b.order| => Standing(b.order[i], b.teams[b.order[i]]))
  }

  /** JavaScript `-` on two such numbers: NaN is absorbing. */
  function Minus(a: Num, b: Num): (r: Num)
    ensures r.Int? <==> a.Int? && b.Int?
    ensures r.Int? ==> r.value + b.value == a.value
  {
    if a.Int? && b.Int? then Int(a.value - b.value) else NaN
  }

  /** The comparator of line 109: negative when `x` belongs before `y`. */
  function Compare(x: Standing, y: Standing): Num {
    Minus(y.score.total, x.score.total)
  }

  /**
   * Whether the sort keeps `x` ahead of `y` when `x` came first: the
   * comparator is not positive. A NaN result counts as 0, as in
   * `Array.prototype.sort`.
   */
  predicate KeepsAhead(x: Standing, y: Standing) {
    var c := Compare(x, y);
    c.NaN? || c.value <= 0
  }

  /** `x` placed before the first element of `sorted` it may precede. */
  function Insert(x: Standing, sorted: seq<Standing>): (r: seq<Standing>)
    decreases |sorted|
  {
    if sorted == [] || KeepsAhead(x, sorted[0]) then [x] + sorted
    else [sorted[0]] + Insert(x, sorted[1..])
  }

  /** Line 109: a stable sort of the entries by the comparator. */
  function Sort(xs: seq<Standing>): (r: seq<Standing>)
    decreases |xs|
  {
    if xs == [] then [] else Insert(xs[0], Sort(xs[1..]))
  }

  /** Lines 108-109: the rows of the leaderboard, before they are rendered. */
  function Ranked(b: Board): seq<Standing>
    requires WellKeyed(b)
  {
    Sort(Entries(b))
  }

  predicate NumericTotals(xs: seq<Standing>) {
    forall i :: 0 <= i < |xs| ==> xs[i].score.total.Int?
  }

  /** Non-increasing totals. */
  predicate Descending(xs: seq<Standing>)
    requires NumericTotals(xs)
  {
    forall i, j :: 0 <= i < j < |xs| ==> xs[j].score.total.value <= xs[i].score.total.value
  }

  /** The elements of `xs` whose total is `v`, in their order. */
  function WithTotal(xs: seq<Standing>, v: Num): (r: seq<Standing>)
    decreases |xs|
  {
    if xs == [] then []
    else (if xs[0].score.total == v then [xs[0]] else []) + WithTotal(xs[1..], v)
  }

  lemma {:induction false} InsertPermutes(x: Standing, s: seq<Standing>)
    ensures multiset(Insert(x, s)) == multiset(s) + multiset{x}
    decreases |s|
  {
    if s != [] && !KeepsAhead(x, s[0]) {
      InsertPermutes(x, s[1..]);
      assert s == [s[0]] + s[1..];
    }
  }

  /** The sorted entries are a permutation of the input. */
  lemma {:induction false} SortPermutes(xs: seq<Standing>)
    ensures multiset(Sort(xs)) == multiset(xs)
    decreases |xs|
  {
    if xs != [] {
      SortPermutes(xs[1..]);
      InsertPermutes(xs[0], Sort(xs[1..]));
      assert xs == [xs[0]] + xs[1..];
    }
  }

  /** Every total in `s` is a number no greater than `m`. */
  predicate AtMost(s: seq<Standing>, m: int) {
    forall i :: 0 <= i < |s| ==> s[i].score.total.Int? && s[i].score.total.value <= m
  }

  lemma {:induction false} InsertAtMost(x: Standing, s: seq<Standing>, m: int)
    requires AtMost(s, m) && x.score.total.Int? && x.score.total.value <= m
    ensures AtMost(Insert(x, s), m)
    decreases |s|
  {
    if s != [] && !KeepsAhead(x, s[0]) {
      var tail := s[1..];
      assert forall i :: 0 <= i < |tail| ==> tail[i] == s[i + 1];
      InsertAtMost(x, tail, m);
      var r := Insert(x, s);
      assert forall i :: 1 <= i < |r| ==> r[i] == Insert(x, tail)[i - 1];
    }
  }

  /** A number at the head of a descending sequence of no greater numbers keeps it descending. */
  lemma DescendingCons(h: Standing, t: seq<Standing>)
    requires h.score.total.Int? && AtMost(t, h.score.total.value) && NumericTotals(t) && Descending(t)
    ensures NumericTotals([h] + t) && Descending([h] + t)
  {
    var r := [h] + t;
    assert forall i :: 1 <= i < |r| ==> r[i] == t[i - 1];
  }

  lemma DescendingAtMost(s: seq<Standing>)
    requires s != [] && NumericTotals(s) && Descending(s)
    ensures AtMost(s[1..], s[0].score.total.value) && NumericTotals(s[1..]) && Descending(s[1..])
  {
    var tail := s[1..];
    assert forall i :: 0 <= i < |tail| ==> tail[i] == s[i + 1];
  }

  lemma {:induction false} InsertDescending(x: Standing, s: seq<Standing>)
    requires x.score.total.Int? && NumericTotals(s) && Descending(s)
    ensures NumericTotals(Insert(x, s)) && Descending(Insert(x, s))
    decreases |s|
  {
    if s == [] {
      assert Insert(x, s) == [x];
    } else {
      DescendingAtMost(s);
      var tail := s[1..];
      if KeepsAhead(x, s[0]) {
        assert s == [s[0]] + tail;
        assert AtMost([s[0]] + tail, x.score.total.value) by {
          var u := [s[0]] + tail;
          assert forall i :: 1 <= i < |u| ==> u[i] == tail[i - 1];
        }
        DescendingCons(x, s);
      } else {
        InsertDescending(x, tail);
        InsertAtMost(x, tail, s[0].score.total.value);
        DescendingCons(s[0], Insert(x, tail));
      }
    }
  }

  /** Line 109: with numeric totals the rows come out by non-increasing total. */
  lemma {:induction false} SortDescending(xs: seq<Standing>)
    requires NumericTotals(xs)
    ensures NumericTotals(Sort(xs)) && Descending(Sort(xs))
    decreases |xs|
  {
    if xs != [] {
      var tail := xs[1..];
      assert NumericTotals(tail) by {
        assert forall i :: 0 <= i < |tail| ==> tail[i] == xs[i + 1];
      }
      SortDescending(tail);
      InsertDescending(xs[0], Sort(tail));
    }
  }

  lemma {:induction false} InsertStable(x: Standing, s: seq<Standing>, v: Num)
    ensures WithTotal(Insert(x, s), v) == (if x.score.total == v then [x] else []) + WithTotal(s, v)
    decreases |s|
  {
    if s == [] || KeepsAhead(x, s[0]) {
      assert ([x] + s)[1..] == s;
    } else {
      InsertStable(x, s[1..], v);
      assert ([s[0]] + Insert(x, s[1..]))[1..] == Insert(x, s[1..]);
      assert x.score.total != s[0].score.total;
    }
  }

  /**
   * The sort is stable: for every total, the entries with that total come
   * out in the order they went in.
   */
  lemma {:induction false} SortStable(xs: seq<Standing>, v: Num)
    ensures WithTotal(Sort(xs), v) == WithTotal(xs, v)
    decreases |xs|
  {
    if xs != [] {
      SortStable(xs[1..], v);
      InsertStable(xs[0], Sort(xs[1..]), v);
    }
  }

  /** No entry of `s` is for `team`. */
  predicate Without(s: seq<Standing>, team: string) {
    forall i :: 0 <= i < |s| ==> s[i].team != team
  }

  /** No team has two entries. */
  predicate DistinctTeams(s: seq<Standing>) {
    forall i, j :: 0 <= i < j < |s| ==> s[i].team != s[j].team
  }

  lemma {:induction false} InsertWithout(x: Standing, s: seq<Standing>, team: string)
    requires Without(s, team) && x.team != team
    ensures Without(Insert(x, s), team)
    decreases |s|
  {
    if s != [] && !KeepsAhead(x, s[0]) {
      var tail := s[1..];
      assert forall i :: 0 <= i < |tail| ==> tail[i] == s[i + 1];
      InsertWithout(x, tail, team);
      var r := Insert(x, s);
      assert forall i :: 1 <= i < |r| ==> r[i] == Insert(x, tail)[i - 1];
    }
  }

  lemma {:induction false} SortWithout(xs: seq<Standing>, team: string)
    requires Without(xs, team)
    ensures Without(Sort(xs), team)
    decreases |xs|
  {
    if xs != [] {
      var tail := xs[1..];
      assert forall i :: 0 <= i < |tail| ==> tail[i] == xs[i + 1];
      SortWithout(tail, team);
      InsertWithout(xs[0], Sort(tail), team);
    }
  }

  lemma DistinctCons(h: Standing, t: seq<Standing>)
    requires Without(t, h.team) && DistinctTeams(t)
    ensures DistinctTeams([h] + t)
  {
    var r := [h] + t;
    assert forall i :: 1 <= i < |r| ==> r[i] == t[i - 1];
  }

  lemma DistinctTail(s: seq<Standing>)
    requires s != [] && DistinctTeams(s)
    ensures Without(s[1..], s[0].team) && DistinctTeams(s[1..])
  {
    var tail := s[1..];
    assert forall i :: 0 <= i < |tail| ==> tail[i] == s[i + 1];
  }

  lemma {:induction false} InsertDistinct(x: Standing, s: seq<Standing>)
    requires Without(s, x.team) && DistinctTeams(s)
    ensures DistinctTeams(Insert(x, s))
    decreases |s|
  {
    if s == [] || KeepsAhead(x, s[0]) {
      DistinctCons(x, s);
    } else {
      DistinctTail(s);
      var tail := s[1..];
      assert Without(tail, x.team) by {
        assert forall i :: 0 <= i < |tail| ==> tail[i] == s[i + 1];
      }
      InsertDistinct(x, tail);
      InsertWithout(x, tail, s[0].team);
      DistinctCons(s[0], Insert(x, tail));
    }
  }

  /** Sorting never puts a team on two rows that was on one. */
  lemma {:induction false} SortDistinct(xs: seq<Standing>)
    requires DistinctTeams(xs)
    ensures DistinctTeams(Sort(xs))
    decreases |xs|
  {
    if xs != [] {
      DistinctTail(xs);
      SortDistinct(xs[1..]);
      SortWithout(xs[1..], xs[0].team);
      InsertDistinct(xs[0], Sort(xs[1..]));
    }
  }

  /** A permutation has the same elements. */
  lemma SameMembers(r: seq<Standing>, e: seq<Standing>)
    requires multiset(r) == multiset(e)
    ensures forall x :: x in r <==> x in e
  {
    forall x ensures x in r <==> x in e {
      assert x in r <==> x in multiset(r);
      assert x in e <==> x in multiset(e);
    }
  }

  /**
   * The entries hold one pair per key of the map, with that key's scores,
   * and no key twice.
   */
  lemma EntriesOnePerTeam(b: Board)
    requires WellKeyed(b)
    ensures var e := Entries(b);
      && (forall k :: k in b.teams <==> exists i :: 0 <= i < |e| && e[i].team == k)
      && (forall i :: 0 <= i < |e| ==> e[i].team in b.teams && e[i].score == b.teams[e[i].team])
      && DistinctTeams(e)
  {
    var e := Entries(b);
    forall k | k in b.teams ensures exists i :: 0 <= i < |e| && e[i].team == k {
      var i :| 0 <= i < |b.order| && b.order[i] == k;
      assert e[i].team == k;
    }
  }

  /**
   * Lines 108-110: the leaderboard has exactly one row per team of the map,
   * carrying that team's scores; the rows are the entries reordered.
   */
  lemma RankedRows(b: Board)
    requires WellKeyed(b)
    ensures var r := Ranked(b);
      && multiset(r) == multiset(Entries(b))
      && (forall k :: k in b.teams <==> exists i :: 0 <= i < |r| && r[i].team == k)
      && (forall i :: 0 <= i < |r| ==> r[i].team in b.teams && r[i].score == b.teams[r[i].team])
      && DistinctTeams(r)
  {
    var e := Entries(b);
    var r := Ranked(b);
    EntriesOnePerTeam(b);
    SortPermutes(e);
    SameMembers(r, e);
    SortDistinct(e);
    forall k | k in b.teams ensures exists i :: 0 <= i < |r| && r[i].team == k {
      var i :| 0 <= i < |e| && e[i].team == k;
      assert e[i] in r;
    }
    forall i | 0 <= i < |r| ensures r[i].team in b.teams && r[i].score == b.teams[r[i].team] {
      assert r[i] in e;
    }
  }

  /**
   * Line 109: when every total is a number the rows come out by
   * non-increasing total, and teams with equal totals keep their insertion
   * order.
   */
  lemma RankedOrder(b: Board)
    requires WellKeyed(b)
    ensures forall v :: WithTotal(Ranked(b), v) == WithTotal(Entries(b), v)
    ensures NumericTotals(Entries(b)) ==> NumericTotals(Ranked(b)) && Descending(Ranked(b))
  {
    var e := Entries(b);
    forall v ensures WithTotal(Sort(e), v) == WithTotal(e, v) {
      SortStable(e, v);
    }
    if NumericTotals(e) {
      SortDescending(e);
    }
  }
}
