/** The body of the `update_graph` callback (app.py, lines 58-78): the
    selected document table is reduced to row counts per (date, topic), the
    counts are totalled per date and joined back, and every topic gets the
    label its representation gives it. */
module Aggregator {
  import opened Wrappers
  import opened Strings
  import opened Indexer

  datatype Date = Date(year: int, month: int, day: int)

  /** A document row after `pd.to_datetime(..., errors='coerce')`: a date
      that did not parse, or an empty cell, is `None`. */
  datatype DocRow = DocRow(date: Option<Date>, topic: Option<int>)

  /** A label row; `representation` is the parsed list, `None` when the cell is null. */
  datatype LabelRow = LabelRow(topic: int, representation: Option<seq<string>>)

  datatype Cell = Cell(date: Date, topic: int)

  /** A row of `groupby(['Date', 'Topic']).size()`. */
  datatype Group = Group(cell: Cell, count: nat)

  /** A row of the final table: `count / total` is the plotted proportion. */
  datatype Bar = Bar(date: Date, topic: int, count: nat, total: nat, topicLabel: Option<string>)

  // ---------------------------------------------------------------------
  // Reference counts over the raw rows

  /** The number of rows with date `c.date` and topic `c.topic`. */
  function RowsAt(rows: seq<DocRow>, c: Cell): nat
    decreases |rows|
  {
    if |rows| == 0 then 0
    else
      var r := rows[|rows| - 1];
      RowsAt(rows[..|rows| - 1], c) + (if r.date == Some(c.date) && r.topic == Some(c.topic) then 1 else 0)
  }

  /** The number of rows with date `d` and some topic. */
  function RowsOn(rows: seq<DocRow>, d: Date): nat
    decreases |rows|
  {
    if |rows| == 0 then 0
    else
      var r := rows[|rows| - 1];
      RowsOn(rows[..|rows| - 1], d) + (if r.date == Some(d) && r.topic.Some? then 1 else 0)
  }

  lemma {:induction false} RowsAtAtMostRowsOn(rows: seq<DocRow>, c: Cell)
    ensures RowsAt(rows, c) <= RowsOn(rows, c.date)
    decreases |rows|
  {
    if |rows| > 0 {
      RowsAtAtMostRowsOn(rows[..|rows| - 1], c);
    }
  }

  // ---------------------------------------------------------------------
  // dropna and groupby(['Date', 'Topic']).size()

  /** `dropna(subset=['Date', 'Topic'])`: the (date, topic) cells of the rows
      that have both, in row order. */
  function Kept(rows: seq<DocRow>): seq<Cell>
    decreases |rows|
  {
    if |rows| == 0 then []
    else
      var r := rows[|rows| - 1];
      Kept(rows[..|rows| - 1]) +
      (if r.date.Some? && r.topic.Some? then [Cell(r.date.value, r.topic.value)] else [])
  }

  /** Counting one more row of cell `c`. */
  function Bump(groups: seq<Group>, c: Cell): seq<Group>
    decreases |groups|
  {
    if |groups| == 0 then [Group(c, 1)]
    else if groups[0].cell == c then [Group(c, groups[0].count + 1)] + groups[1..]
    else [groups[0]] + Bump(groups[1..], c)
  }

  /** The group sizes of a sequence of cells. */
  function Tally(cells: seq<Cell>): seq<Group>
    decreases |cells|
  {
    if |cells| == 0 then []
    else Bump(Tally(cells[..|cells| - 1]), cells[|cells| - 1])
  }

  /** The count recorded for cell `x`, or 0. */
  function CountOf(groups: seq<Group>, x: Cell): nat
    decreases |groups|
  {
    if |groups| == 0 then 0
    else (if groups[0].cell == x then groups[0].count else 0) + CountOf(groups[1..], x)
  }

  predicate DistinctCells(groups: seq<Group>)
  {
    forall i, j :: 0 <= i < j < |groups| ==> groups[i].cell != groups[j].cell
  }

  predicate Positive(groups: seq<Group>)
  {
    forall i :: 0 <= i < |groups| ==> groups[i].count >= 1
  }

  lemma {:induction false} BumpFacts(groups: seq<Group>, c: Cell)
    ensures forall x :: CountOf(Bump(groups, c), x) == CountOf(groups, x) + (if x == c then 1 else 0)
    ensures Positive(groups) ==> Positive(Bump(groups, c))
    ensures forall i :: 0 <= i < |Bump(groups, c)| ==>
              Bump(groups, c)[i].cell == c || exists j :: 0 <= j < |groups| && groups[j].cell == Bump(groups, c)[i].cell
    ensures DistinctCells(groups) ==> DistinctCells(Bump(groups, c))
    decreases |groups|
  {
    var b := Bump(groups, c);
    if |groups| == 0 {
    } else if groups[0].cell == c {
      assert b[1..] == groups[1..];
      forall i | 0 <= i < |b| ensures b[i].cell == c || exists j :: 0 <= j < |groups| && groups[j].cell == b[i].cell {
        if i > 0 {
          assert b[i] == groups[i];
        }
      }
      if DistinctCells(groups) {
        forall i, j | 0 <= i < j < |b| ensures b[i].cell != b[j].cell {
          assert b[j] == groups[j];
          if i > 0 {
            assert b[i] == groups[i];
          }
        }
      }
    } else {
      var rest := groups[1..];
      BumpFacts(rest, c);
      assert b[1..] == Bump(rest, c);
      forall i | 0 <= i < |b| ensures b[i].cell == c || exists j :: 0 <= j < |groups| && groups[j].cell == b[i].cell {
        if i > 0 {
          assert b[i] == Bump(rest, c)[i - 1];
          if b[i].cell != c {
            var j :| 0 <= j < |rest| && rest[j].cell == b[i].cell;
            assert groups[j + 1] == rest[j];
          }
        } else {
          assert groups[0].cell == b[0].cell;
        }
      }
      if DistinctCells(groups) {
        assert DistinctCells(rest) by {
          forall i, j | 0 <= i < j < |rest| ensures rest[i].cell != rest[j].cell {
            assert rest[i] == groups[i + 1] && rest[j] == groups[j + 1];
          }
        }
        forall i, j | 0 <= i < j < |b| ensures b[i].cell != b[j].cell {
          if i > 0 {
            assert b[i] == Bump(rest, c)[i - 1] && b[j] == Bump(rest, c)[j - 1];
          } else {
            assert b[j] == Bump(rest, c)[j - 1];
            if b[j].cell == c {
            } else {
              var k :| 0 <= k < |rest| && rest[k].cell == b[j].cell;
              assert groups[k + 1] == rest[k];
            }
          }
        }
      }
      if Positive(groups) {
        assert Positive(rest) by {
          forall i | 0 <= i < |rest| ensures rest[i].count >= 1 {
            assert rest[i] == groups[i + 1];
          }
        }
        forall i | 0 <= i < |b| ensures b[i].count >= 1 {
          if i > 0 {
            assert b[i] == Bump(rest, c)[i - 1];
          }
        }
      }
    }
  }

  /** A group's count is the count of its cell, when cells are distinct. */
  lemma {:induction false} CountOfDistinct(groups: seq<Group>, i: nat)
    requires DistinctCells(groups) && i < |groups|
    ensures CountOf(groups, groups[i].cell) == groups[i].count
    decreases |groups|
  {
    var rest := groups[1..];
    assert DistinctCells(rest) by {
      forall a, b | 0 <= a < b < |rest| ensures rest[a].cell != rest[b].cell {
        assert rest[a] == groups[a + 1] && rest[b] == groups[b + 1];
      }
    }
    if i == 0 {
      CountOfAbsent(rest, groups[0].cell);
    } else {
      assert rest[i - 1] == groups[i];
      CountOfDistinct(rest, i - 1);
    }
  }

  lemma {:induction false} CountOfAbsent(groups: seq<Group>, x: Cell)
    requires forall i :: 0 <= i < |groups| ==> groups[i].cell != x
    ensures CountOf(groups, x) == 0
    decreases |groups|
  {
    if |groups| > 0 {
      CountOfAbsent(groups[1..], x);
    }
  }

  lemma {:induction false} CountOfPresent(groups: seq<Group>, x: Cell)
    requires Positive(groups)
    ensures CountOf(groups, x) > 0 <==> exists i :: 0 <= i < |groups| && groups[i].cell == x
    decreases |groups|
  {
    if |groups| > 0 {
      var rest := groups[1..];
      assert Positive(rest) by {
        forall i | 0 <= i < |rest| ensures rest[i].count >= 1 {
          assert rest[i] == groups[i + 1];
        }
      }
      CountOfPresent(rest, x);
      if exists i :: 0 <= i < |rest| && rest[i].cell == x {
        var i :| 0 <= i < |rest| && rest[i].cell == x;
        assert groups[i + 1] == rest[i];
      }
      if exists i :: 0 <= i < |groups| && groups[i].cell == x {
        var i :| 0 <= i < |groups| && groups[i].cell == x;
        if i > 0 {
          assert rest[i - 1] == groups[i];
        }
      }
    }
  }

  /** groupby(...).size(): one group per distinct kept cell, counting the
      rows of that date and topic. */
  lemma {:induction false} TallyCounts(rows: seq<DocRow>)
    ensures DistinctCells(Tally(Kept(rows)))
    ensures Positive(Tally(Kept(rows)))
    ensures forall x :: CountOf(Tally(Kept(rows)), x) == RowsAt(rows, x)
    decreases |rows|
  {
    if |rows| > 0 {
      var init := rows[..|rows| - 1];
      var r := rows[|rows| - 1];
      TallyCounts(init);
      var cells := Kept(init);
      if r.date.Some? && r.topic.Some? {
        var c := Cell(r.date.value, r.topic.value);
        assert Kept(rows) == cells + [c];
        assert (cells + [c])[..|cells|] == cells;
        assert Tally(Kept(rows)) == Bump(Tally(cells), c);
        BumpFacts(Tally(cells), c);
      } else {
        assert Kept(rows) == cells;
      }
    }
  }

  // ---------------------------------------------------------------------
  // groupby('Date')['Count'].sum() and the merge

  function TotalOf(totals: map<Date, nat>, d: Date): nat
  {
    if d in totals then totals[d] else 0
  }

  function Add(totals: map<Date, nat>, d: Date, n: nat): map<Date, nat>
  {
    totals[d := TotalOf(totals, d) + n]
  }

  /** The per-date sums of the group counts. */
  function Totals(groups: seq<Group>): map<Date, nat>
    decreases |groups|
  {
    if |groups| == 0 then map[]
    else Add(Totals(groups[1..]), groups[0].cell.date, groups[0].count)
  }

  lemma AddCommutes(m: map<Date, nat>, a: Date, x: nat, b: Date, y: nat)
    ensures Add(Add(m, a, x), b, y) == Add(Add(m, b, y), a, x)
  {
    if a != b {
      assert Add(Add(m, a, x), b, y) == m[a := TotalOf(m, a) + x][b := TotalOf(m, b) + y];
      assert Add(Add(m, b, y), a, x) == m[b := TotalOf(m, b) + y][a := TotalOf(m, a) + x];
    }
  }

  lemma {:induction false} TotalsBump(groups: seq<Group>, c: Cell)
    ensures Totals(Bump(groups, c)) == Add(Totals(groups), c.date, 1)
    decreases |groups|
  {
    if |groups| == 0 {
    } else if groups[0].cell == c {
      assert Bump(groups, c)[1..] == groups[1..];
    } else {
      TotalsBump(groups[1..], c);
      assert Bump(groups, c)[1..] == Bump(groups[1..], c);
      AddCommutes(Totals(groups[1..]), c.date, 1, groups[0].cell.date, groups[0].count);
    }
  }

  /** The total of a date is the number of kept rows of that date. */
  lemma {:induction false} TotalsCountRows(rows: seq<DocRow>, d: Date)
    ensures TotalOf(Totals(Tally(Kept(rows))), d) == RowsOn(rows, d)
    decreases |rows|
  {
    if |rows| > 0 {
      var init := rows[..|rows| - 1];
      var r := rows[|rows| - 1];
      TotalsCountRows(init, d);
      var cells := Kept(init);
      if r.date.Some? && r.topic.Some? {
        var c := Cell(r.date.value, r.topic.value);
        assert Kept(rows) == cells + [c];
        assert (cells + [c])[..|cells|] == cells;
        TotalsBump(Tally(cells), c);
      } else {
        assert Kept(rows) == cells;
      }
    }
  }

  lemma {:induction false} TotalsKeys(groups: seq<Group>)
    ensures forall i :: 0 <= i < |groups| ==> groups[i].cell.date in Totals(groups)
    decreases |groups|
  {
    if |groups| > 0 {
      TotalsKeys(groups[1..]);
      forall i | 0 <= i < |groups| ensures groups[i].cell.date in Totals(groups) {
        if i > 0 {
          assert groups[i] == groups[1..][i - 1];
        }
      }
    }
  }

  /** `grouped['Topic'].map(label_map)`: a topic absent from the map has no label. */
  function LabelLookup(labelMap: map<int, string>, topic: int): Option<string>
  {
    if topic in labelMap then Some(labelMap[topic]) else None
  }

  /** `pd.merge(grouped, totals, on='Date')` with the label column attached:
      an inner join, keeping the order of `groups`. */
  function Merge(groups: seq<Group>, totals: map<Date, nat>, labelMap: map<int, string>): seq<Bar>
    decreases |groups|
  {
    if |groups| == 0 then []
    else
      var g := groups[0];
      (if g.cell.date in totals
       then [Bar(g.cell.date, g.cell.topic, g.count, totals[g.cell.date], LabelLookup(labelMap, g.cell.topic))]
       else []) +
      Merge(groups[1..], totals, labelMap)
  }

  lemma {:induction false} MergeAll(groups: seq<Group>, totals: map<Date, nat>, labelMap: map<int, string>)
    requires forall i :: 0 <= i < |groups| ==> groups[i].cell.date in totals
    ensures |Merge(groups, totals, labelMap)| == |groups|
    ensures forall i :: 0 <= i < |groups| ==>
              Merge(groups, totals, labelMap)[i] ==
              Bar(groups[i].cell.date, groups[i].cell.topic, groups[i].count,
                  totals[groups[i].cell.date], LabelLookup(labelMap, groups[i].cell.topic))
    decreases |groups|
  {
    if |groups| > 0 {
      var rest := groups[1..];
      forall i | 0 <= i < |rest| ensures rest[i].cell.date in totals {
        assert rest[i] == groups[i + 1];
      }
      MergeAll(rest, totals, labelMap);
      forall i | 0 <= i < |groups|
        ensures Merge(groups, totals, labelMap)[i] ==
                Bar(groups[i].cell.date, groups[i].cell.topic, groups[i].count,
                    totals[groups[i].cell.date], LabelLookup(labelMap, groups[i].cell.topic))
      {
        if i > 0 {
          assert groups[i] == rest[i - 1];
        }
      }
    }
  }

  /** The sum of the counts of the bars of date `d`. */
  function SumCounts(bars: seq<Bar>, d: Date): nat
    decreases |bars|
  {
    if |bars| == 0 then 0
    else (if bars[0].date == d then bars[0].count else 0) + SumCounts(bars[1..], d)
  }

  lemma {:induction false} MergeSum(groups: seq<Group>, totals: map<Date, nat>, labelMap: map<int, string>, d: Date)
    requires forall i :: 0 <= i < |groups| ==> groups[i].cell.date in totals
    ensures SumCounts(Merge(groups, totals, labelMap), d) == TotalOf(Totals(groups), d)
    decreases |groups|
  {
    if |groups| > 0 {
      var rest := groups[1..];
      forall i | 0 <= i < |rest| ensures rest[i].cell.date in totals {
        assert rest[i] == groups[i + 1];
      }
      MergeSum(rest, totals, labelMap, d);
      var bars := Merge(groups, totals, labelMap);
      assert bars[1..] == Merge(rest, totals, labelMap);
    }
  }

  // ---------------------------------------------------------------------
  // Labels (lines 74-77)

  /** `" ".join(tokens[:5])` for a present representation, else "Unknown". */
  function LabelOf(representation: Option<seq<string>>): string
  {
    match representation
    case None => "Unknown"
    case Some(tokens) => Join(" ", tokens[..if |tokens| < 5 then |tokens| else 5])
  }

  /** A label splits back into the first five tokens of its representation,
      when the tokens hold no space. */
  lemma LabelWords(tokens: seq<string>)
    requires |tokens| > 0
    requires forall i :: 0 <= i < |tokens| ==> !Contains(tokens[i], " ")
    ensures Split(LabelOf(Some(tokens)), " ") == tokens[..if |tokens| < 5 then |tokens| else 5]
  {
    var first := tokens[..if |tokens| < 5 then |tokens| else 5];
    assert forall i :: 0 <= i < |first| ==> first[i] == tokens[i];
    SplitJoin(" ", first);
  }

  /** `dict(zip(labels_df['Topic'], labels_df['Label']))`. */
  function LabelMap(rows: seq<LabelRow>): map<int, string>
    decreases |rows|
  {
    if |rows| == 0 then map[]
    else
      var r := rows[|rows| - 1];
      LabelMap(rows[..|rows| - 1])[r.topic := LabelOf(r.representation)]
  }

  /** The map has a label exactly for the topics of the label table. */
  lemma {:induction false} LabelMapKeys(rows: seq<LabelRow>, t: int)
    ensures t in LabelMap(rows) <==> exists i :: 0 <= i < |rows| && rows[i].topic == t
    decreases |rows|
  {
    if |rows| > 0 {
      var init := rows[..|rows| - 1];
      LabelMapKeys(init, t);
      if exists i :: 0 <= i < |init| && init[i].topic == t {
        var i :| 0 <= i < |init| && init[i].topic == t;
        assert rows[i] == init[i];
      }
      if exists i :: 0 <= i < |rows| && rows[i].topic == t {
        var i :| 0 <= i < |rows| && rows[i].topic == t;
        if i < |init| {
          assert init[i] == rows[i];
        }
      }
    }
  }

  /** When a topic repeats, its last row gives the label. */
  lemma {:induction false} LabelMapLastWins(rows: seq<LabelRow>, i: nat)
    requires i < |rows|
    requires forall j :: i < j < |rows| ==> rows[j].topic != rows[i].topic
    ensures rows[i].topic in LabelMap(rows)
    ensures LabelMap(rows)[rows[i].topic] == LabelOf(rows[i].representation)
    decreases |rows|
  {
    var n := |rows| - 1;
    if i < n {
      var init := rows[..n];
      assert init[i] == rows[i];
      forall j | i < j < |init| ensures init[j].topic != init[i].topic {
        assert init[j] == rows[j];
      }
      LabelMapLastWins(init, i);
    }
  }

  // ---------------------------------------------------------------------
  // The whole table and the callback

  /** The table handed to the bar chart. */
  function Chart(docRows: seq<DocRow>, labelRows: seq<LabelRow>): seq<Bar>
  {
    var groups := Tally(Kept(docRows));
    Merge(groups, Totals(groups), LabelMap(labelRows))
  }

  /** The bars are the groups of the kept cells, one each, in order, with
      their date totals and topic labels. */
  lemma ChartFromGroups(docRows: seq<DocRow>, labelRows: seq<LabelRow>)
    ensures var groups := Tally(Kept(docRows));
            var bars := Chart(docRows, labelRows);
            && DistinctCells(groups) && Positive(groups)
            && |bars| == |groups|
            && forall i :: 0 <= i < |groups| ==>
                 bars[i] == Bar(groups[i].cell.date, groups[i].cell.topic, groups[i].count,
                                TotalOf(Totals(groups), groups[i].cell.date),
                                LabelLookup(LabelMap(labelRows), groups[i].cell.topic))
  {
    var groups := Tally(Kept(docRows));
    TallyCounts(docRows);
    TotalsKeys(groups);
    MergeAll(groups, Totals(groups), LabelMap(labelRows));
  }

  /** Every bar counts the rows of its date and topic (at least one), its
      total is the number of kept rows of its date (at least its count),
      and its label is the one the label table gives its topic. */
  lemma ChartBarCounts(docRows: seq<DocRow>, labelRows: seq<LabelRow>)
    ensures var bars := Chart(docRows, labelRows);
            forall i :: 0 <= i < |bars| ==>
              && bars[i].count == RowsAt(docRows, Cell(bars[i].date, bars[i].topic))
              && bars[i].total == RowsOn(docRows, bars[i].date)
              && 1 <= bars[i].count <= bars[i].total
              && bars[i].topicLabel == LabelLookup(LabelMap(labelRows), bars[i].topic)
  {
    var groups := Tally(Kept(docRows));
    var bars := Chart(docRows, labelRows);
    ChartFromGroups(docRows, labelRows);
    TallyCounts(docRows);
    forall i | 0 <= i < |bars|
      ensures && bars[i].count == RowsAt(docRows, Cell(bars[i].date, bars[i].topic))
              && bars[i].total == RowsOn(docRows, bars[i].date)
              && 1 <= bars[i].count <= bars[i].total
    {
      CountOfDistinct(groups, i);
      TotalsCountRows(docRows, groups[i].cell.date);
      RowsAtAtMostRowsOn(docRows, groups[i].cell);
    }
  }

  /** No (date, topic) pair has two bars. */
  lemma ChartBarsDistinct(docRows: seq<DocRow>, labelRows: seq<LabelRow>)
    ensures var bars := Chart(docRows, labelRows);
            forall i, j :: 0 <= i < j < |bars| ==>
              (bars[i].date, bars[i].topic) != (bars[j].date, bars[j].topic)
  {
    var groups := Tally(Kept(docRows));
    var bars := Chart(docRows, labelRows);
    ChartFromGroups(docRows, labelRows);
    forall i, j | 0 <= i < j < |bars| ensures (bars[i].date, bars[i].topic) != (bars[j].date, bars[j].topic) {
      assert groups[i].cell != groups[j].cell;
    }
  }

  /** A (date, topic) pair has a bar exactly when some row has that date and topic. */
  lemma ChartCoversRows(docRows: seq<DocRow>, labelRows: seq<LabelRow>, c: Cell)
    ensures var bars := Chart(docRows, labelRows);
            RowsAt(docRows, c) > 0 <==>
              exists i :: 0 <= i < |bars| && bars[i].date == c.date && bars[i].topic == c.topic
  {
    var groups := Tally(Kept(docRows));
    var bars := Chart(docRows, labelRows);
    ChartFromGroups(docRows, labelRows);
    TallyCounts(docRows);
    CountOfPresent(groups, c);
    if exists i :: 0 <= i < |groups| && groups[i].cell == c {
      var i :| 0 <= i < |groups| && groups[i].cell == c;
      assert bars[i].date == c.date && bars[i].topic == c.topic;
    }
    if exists i :: 0 <= i < |bars| && bars[i].date == c.date && bars[i].topic == c.topic {
      var i :| 0 <= i < |bars| && bars[i].date == c.date && bars[i].topic == c.topic;
      assert groups[i].cell == c;
    }
  }

  /** The counts of the bars of a date add up to that date's total, the
      number of its kept rows: the proportions of a date sum to one. */
  lemma ChartSumsToTotal(docRows: seq<DocRow>, labelRows: seq<LabelRow>, d: Date)
    ensures SumCounts(Chart(docRows, labelRows), d) == RowsOn(docRows, d)
  {
    var groups := Tally(Kept(docRows));
    TotalsKeys(groups);
    MergeSum(groups, Totals(groups), LabelMap(labelRows), d);
    TotalsCountRows(docRows, d);
  }

  /** Three rows on one day, two of topic 0 and one of topic 1: two bars,
      counting two and one of three rows. */
  lemma ChartExample()
    ensures var d := Date(2024, 1, 1);
            Chart([DocRow(Some(d), Some(0)), DocRow(Some(d), Some(1)), DocRow(Some(d), Some(0))], []) ==
            [Bar(d, 0, 2, 3, None), Bar(d, 1, 1, 3, None)]
  {
    var d := Date(2024, 1, 1);
    var groups := [Group(Cell(d, 0), 2), Group(Cell(d, 1), 1)];
    ExampleGroups(d);
    ExampleTotals(d, groups);
    assert LabelMap([]) == map[];
    assert groups[1..][1..] == [];
  }

  lemma ExampleGroups(d: Date)
    ensures Tally(Kept([DocRow(Some(d), Some(0)), DocRow(Some(d), Some(1)), DocRow(Some(d), Some(0))])) ==
            [Group(Cell(d, 0), 2), Group(Cell(d, 1), 1)]
  {
    var rows := [DocRow(Some(d), Some(0)), DocRow(Some(d), Some(1)), DocRow(Some(d), Some(0))];
    assert rows[..2][..1] == [rows[0]] && rows[..2] == [rows[0], rows[1]];
    assert Kept(rows[..1]) == [Cell(d, 0)];
    assert Kept(rows[..2]) == [Cell(d, 0), Cell(d, 1)];
    var cells := [Cell(d, 0), Cell(d, 1), Cell(d, 0)];
    assert Kept(rows) == cells;
    assert cells[..2][..1] == [Cell(d, 0)] && cells[..2] == [Cell(d, 0), Cell(d, 1)];
    var one := [Group(Cell(d, 0), 1)];
    assert Tally(cells[..1]) == one;
    assert Bump(one[1..], Cell(d, 1)) == [Group(Cell(d, 1), 1)];
    var two := [Group(Cell(d, 0), 1), Group(Cell(d, 1), 1)];
    assert Tally(cells[..2]) == two;
    var groups := [Group(Cell(d, 0), 2), Group(Cell(d, 1), 1)];
    assert two[1..] == groups[1..];
  }

  lemma ExampleTotals(d: Date, groups: seq<Group>)
    requires groups == [Group(Cell(d, 0), 2), Group(Cell(d, 1), 1)]
    ensures Totals(groups) == map[d := 3]
  {
    assert groups[1..][1..] == [];
    assert Totals(groups[1..]) == map[d := 1];
  }

  /** What the callback returns. */
  datatype Figure =
    | NoDataFound
    | MissingFile(path: string)
    | TopicChart(title: string, bars: seq<Bar>)

  /** `update_graph(model, kval)`. A pair that is not in the index gives the
      "No data found." figure without opening any file. The CSV files are
      read from `docTables` and `labelTables`, the parsed contents of the
      data directory. */
  function UpdateGraph(index: map<Key, Entry>, model: string, kval: string,
                       docTables: map<string, seq<DocRow>>,
                       labelTables: map<string, seq<LabelRow>>): (fig: Figure)
    ensures fig == NoDataFound <==> (model, kval) !in index
    ensures fig.MissingFile? ==>
              && (model, kval) in index
              && ((fig.path == index[(model, kval)].doc && fig.path !in docTables) ||
                  (index[(model, kval)].doc in docTables &&
                   fig.path == index[(model, kval)].labelPath && fig.path !in labelTables))
    ensures ((model, kval) in index && index[(model, kval)].doc in docTables &&
             index[(model, kval)].labelPath in labelTables) ==> fig.TopicChart?
    ensures fig.TopicChart? ==>
              && (model, kval) in index
              && fig.title == model + ", k=" + kval
              && index[(model, kval)].doc in docTables
              && index[(model, kval)].labelPath in labelTables
              && fig.bars == Chart(docTables[index[(model, kval)].doc], labelTables[index[(model, kval)].labelPath])
  {
    var pair := (model, kval);
    if pair !in index then NoDataFound
    else
      var entry := index[pair];
      if entry.doc !in docTables then MissingFile(entry.doc)
      else if entry.labelPath !in labelTables then MissingFile(entry.labelPath)
      else TopicChart(model + ", k=" + kval, Chart(docTables[entry.doc], labelTables[entry.labelPath]))
  }
}
