/**
 * The table extractor of `getScores` (index.mjs lines 31-44), over HTML that
 * is already split into its `<table>`, `<tr>`, `<th>` and `<td>` spans.
 * A page is the list of its table spans in document order; a table is the
 * list of its row spans; a row carries the raw text of its header-cell spans
 * and of its data-cell spans. An empty cell list stands for a regular
 * expression `match` that found nothing and so returned `null`.
 */
module Extract {
  import opened Wrappers
  import opened JsText

  datatype Row = Row(headerCells: seq<string>, dataCells: seq<string>)
  type Table = seq<Row>
  type Page = seq<Table>

  /**
   * One data row as the JavaScript `Map` the source builds: header text to
   * cell text. The key `None` is JavaScript's `undefined`, under which a
   * cell past the last header is stored.
   */
  type Record = map<Option<string>, string>

  /** Why extracting a table throws a `TypeError` in the source. */
  datatype ExtractError =
    | TableWithoutRows     // no `<tr>` span: `rows` is null
    | HeaderRowWithoutTh   // the first row has no `<th>` span
    | DataRowWithoutTd     // a later row has no `<td>` span

  /**
   * `replace(/<.*?>/g, '')`: every `<` that has a `>` after it starts a tag
   * reaching to the first such `>`, and the tag is deleted. A `<` with no `>`
   * after it cannot start a tag, and neither can anything after it.
   * What is left never has a `<` before a `>`.
   */
  function StripTags(s: string): (r: string)
    ensures |r| <= |s|
    ensures forall i, j :: 0 <= i < j < |r| && r[i] == '<' ==> r[j] != '>'
    decreases |s|
  {
    if s == [] then []
    else if s[0] == '<' then
      match IndexOf(s[1..], '>')
      case Some(j) => StripTags(s[j + 2..])
      case None => s
    else [s[0]] + StripTags(s[1..])
  }

  /** Text with no `<` passes through unchanged. */
  lemma {:induction false} StripTagsPlainText(s: string)
    requires '<' !in s
    ensures StripTags(s) == s
  {
    if s != [] {
      assert s[0] != '<' && '<' !in s[1..];
      StripTagsPlainText(s[1..]);
    }
  }

  /** Text with no tag left in it passes through unchanged, so stripping twice is stripping once. */
  lemma {:induction false} StripTagsFixedPoint(s: string)
    requires forall i, j :: 0 <= i < j < |s| && s[i] == '<' ==> s[j] != '>'
    ensures StripTags(s) == s
  {
    if s != [] {
      if s[0] == '<' {
        assert forall j :: 0 <= j < |s[1..]| ==> s[1..][j] == s[j + 1];
        assert IndexOf(s[1..], '>').None?;
      } else {
        assert forall i, j :: 0 <= i < j < |s[1..]| ==> s[1..][i] == s[i + 1] && s[1..][j] == s[j + 1];
        StripTagsFixedPoint(s[1..]);
      }
    }
  }

  lemma StripTagsIdempotent(s: string)
    ensures StripTags(StripTags(s)) == StripTags(s)
  {
    StripTagsFixedPoint(StripTags(s));
  }

  /** A tag is deleted whole, and the text before it is kept. */
  lemma {:induction false} StripTagsDeletesTag(pre: string, tag: string, post: string)
    requires '<' !in pre && '>' !in tag
    ensures StripTags(pre + ['<'] + tag + ['>'] + post) == pre + StripTags(post)
  {
    var s := pre + ['<'] + tag + ['>'] + post;
    if pre == [] {
      assert s == ['<'] + tag + ['>'] + post;
      assert s[1..] == tag + ['>'] + post;
      IndexOfAfter(tag, '>', post);
      assert s[|tag| + 2..] == post;
    } else {
      assert s[0] == pre[0] && pre[0] != '<';
      assert s[1..] == pre[1..] + ['<'] + tag + ['>'] + post;
      StripTagsDeletesTag(pre[1..], tag, post);
    }
  }

  /** The key a cell at position `i` is stored under: its header, or `undefined` past the last header. */
  function HeaderAt(headers: seq<string>, i: nat): Option<string> {
    if i < |headers| then Some(headers[i]) else None
  }

  /**
   * The `reduce` at lines 38-41: cell `i` is set under header `i`, in order,
   * so a header that occurs twice keeps its later cell.
   */
  function RecordOf(headers: seq<string>, cells: seq<string>): (m: Record)
    decreases |cells|
  {
    if cells == [] then map[]
    else
      var n := |cells| - 1;
      RecordOf(headers, cells[..n])[HeaderAt(headers, n) := StripTags(cells[n])]
  }

  /** Cell `i` is the last one stored under its key. */
  ghost predicate LastUnderItsKey(headers: seq<string>, cells: seq<string>, i: nat) {
    i < |cells| && forall j :: i < j < |cells| ==> HeaderAt(headers, j) != HeaderAt(headers, i)
  }

  /** The keys of the cells present, `undefined` among them when a cell lies past the last header. */
  function KeysOf(headers: seq<string>, cells: seq<string>): set<Option<string>> {
    set i | 0 <= i < |cells| :: HeaderAt(headers, i)
  }

  /** The record holds exactly the keys of the cells present. */
  lemma {:induction false} RecordOfKeys(headers: seq<string>, cells: seq<string>)
    ensures RecordOf(headers, cells).Keys == KeysOf(headers, cells)
    decreases |cells|
  {
    if cells != [] {
      var n := |cells| - 1;
      RecordOfKeys(headers, cells[..n]);
      assert KeysOf(headers, cells) == KeysOf(headers, cells[..n]) + {HeaderAt(headers, n)};
    }
  }

  /** Under each key the record holds the stripped text of the last cell stored there. */
  lemma {:induction false} RecordOfValues(headers: seq<string>, cells: seq<string>, i: nat)
    requires LastUnderItsKey(headers, cells, i)
    ensures HeaderAt(headers, i) in RecordOf(headers, cells)
    ensures RecordOf(headers, cells)[HeaderAt(headers, i)] == StripTags(cells[i])
    decreases |cells|
  {
    var n := |cells| - 1;
    if i < n {
      var front := cells[..n];
      assert LastUnderItsKey(headers, front, i);
      RecordOfValues(headers, front, i);
      assert front[i] == cells[i];
    }
  }

  /** Line 35: the stripped texts of the header row's `<th>` spans. */
  function HeaderTexts(cells: seq<string>): (hs: seq<string>)
    ensures |hs| == |cells| && forall i :: 0 <= i < |cells| ==> hs[i] == StripTags(cells[i])
  {
    seq(|cells|, i requires 0 <= i < |cells| => StripTags(cells[i]))
  }

  /** The `rows.map` at lines 36-42: one record per data row, or an error if some row has no `<td>` span. */
  function ExtractRows(headers: seq<string>, rows: seq<Row>): (r: Result<seq<Record>, ExtractError>)
    ensures r.Success? <==> forall i :: 0 <= i < |rows| ==> rows[i].dataCells != []
    ensures r.Failure? ==> r.error == DataRowWithoutTd
    ensures r.Success? ==>
              (|r.value| == |rows| &&
               forall i :: 0 <= i < |rows| ==> r.value[i] == RecordOf(headers, rows[i].dataCells))
  {
    if exists i :: 0 <= i < |rows| && rows[i].dataCells == [] then Failure(DataRowWithoutTd)
    else Success(seq(|rows|, i requires 0 <= i < |rows| => RecordOf(headers, rows[i].dataCells)))
  }

  /**
   * Lines 33-43 for one table: the first row gives the headers, every later
   * row a record keyed by them.
   */
  function ExtractTable(t: Table): (r: Result<seq<Record>, ExtractError>)
    ensures t == [] ==> r == Failure(TableWithoutRows)
    ensures t != [] && t[0].headerCells == [] ==> r == Failure(HeaderRowWithoutTh)
    ensures r.Success? ==> |r.value| == |t| - 1
  {
    if t == [] then Failure(TableWithoutRows)
    else if t[0].headerCells == [] then Failure(HeaderRowWithoutTh)
    else ExtractRows(HeaderTexts(t[0].headerCells), t[1..])
  }

  /**
   * A table reads exactly when it has a header row with a `<th>` span and
   * every later row has a `<td>` span; then record `i` is data row `i + 1`
   * keyed by the header row's texts.
   */
  lemma ExtractTableRecords(t: Table)
    ensures t == [] ==> ExtractTable(t) == Failure(TableWithoutRows)
    ensures t != [] && t[0].headerCells == [] ==> ExtractTable(t) == Failure(HeaderRowWithoutTh)
    ensures t != [] && t[0].headerCells != [] && ExtractTable(t).Failure? ==> ExtractTable(t) == Failure(DataRowWithoutTd)
    ensures ExtractTable(t).Success? <==>
              t != [] && t[0].headerCells != [] && forall i :: 1 <= i < |t| ==> t[i].dataCells != []
    ensures ExtractTable(t).Success? ==>
              |ExtractTable(t).value| == |t| - 1 &&
              forall i :: 0 <= i < |t| - 1 ==>
                ExtractTable(t).value[i] == RecordOf(HeaderTexts(t[0].headerCells), t[i + 1].dataCells)
  {
    if t != [] {
      assert forall i :: 0 <= i < |t| - 1 ==> t[1..][i] == t[i + 1];
    }
  }

  /**
   * Lines 32-44 for a whole page: one list of records per table, in
   * document order; a page without tables gives the empty list; the first
   * table that cannot be read decides the error.
   */
  function ExtractPage(p: Page): (r: Result<seq<seq<Record>>, ExtractError>)
    ensures r.Success? ==> |r.value| == |p|
  {
    if p == [] then Success([])
    else
      match ExtractTable(p[0])
      case Failure(e) => Failure(e)
      case Success(rows) =>
        match ExtractPage(p[1..])
        case Failure(e) =>
          Failure(e)
        case Success(rest) => Success([rows] + rest)
  }

  /**
   * A page reads only when every table on it reads, and then gives each
   * table's records in page order; otherwise it fails with the error of
   * the first table that does not read.
   */
  lemma {:induction false} ExtractPageTables(p: Page)
    ensures p == [] ==> ExtractPage(p) == Success([])
    ensures ExtractPage(p).Success? <==> forall i :: 0 <= i < |p| ==> ExtractTable(p[i]).Success?
    ensures ExtractPage(p).Success? ==>
              forall i :: 0 <= i < |p| ==> ExtractPage(p).value[i] == ExtractTable(p[i]).value
    ensures ExtractPage(p).Failure? ==>
              exists i :: (0 <= i < |p| && ExtractTable(p[i]) == Failure(ExtractPage(p).error) &&
                           forall j :: 0 <= j < i ==> ExtractTable(p[j]).Success?)
  {
    if p != [] {
      var tail := p[1..];
      ExtractPageTables(tail);
      assert forall i :: 0 < i < |p| ==> p[i] == tail[i - 1];
      if ExtractTable(p[0]).Success? && ExtractPage(tail).Failure? {
        var i :| 0 <= i < |tail| && ExtractTable(tail[i]) == Failure(ExtractPage(tail).error) &&
                 forall j :: 0 <= j < i ==> ExtractTable(tail[j]).Success?;
        assert ExtractTable(p[i + 1]) == Failure(ExtractPage(p).error);
        assert forall j :: 0 <= j < i + 1 ==> ExtractTable(p[j]).Success? by {
          forall j | 0 < j < i + 1 ensures ExtractTable(p[j]).Success? {
            assert p[j] == tail[j - 1];
          }
        }
      }
    }
  }

  /**
   * A data row whose cells line up with distinct headers maps each header
   * to the stripped text of the cell under it.
   */
  lemma RecordOfAligned(headers: seq<string>, cells: seq<string>, i: nat)
    requires |cells| <= |headers| && i < |cells|
    requires forall a, b :: 0 <= a < b < |headers| ==> headers[a] != headers[b]
    ensures Some(headers[i]) in RecordOf(headers, cells)
    ensures RecordOf(headers, cells)[Some(headers[i])] == StripTags(cells[i])
  {
    assert HeaderAt(headers, i) == Some(headers[i]);
    forall j | i < j < |cells| ensures HeaderAt(headers, j) != HeaderAt(headers, i) {
      assert headers[i] != headers[j];
    }
    RecordOfValues(headers, cells, i);
  }
}
