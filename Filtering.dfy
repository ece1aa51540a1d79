/** The row filter of the sidebar: a set of chosen cities and a closed time
    window, their default values, and the table they select. */
module Filtering {
  import opened Wrappers
  import opened Sequences

  /** One observation: the city it belongs to, its timestamp (any totally
      ordered instant, here an integer), and the measurement columns, which
      the filter carries through untouched. */
  datatype Row<P> = Row(city: string, ts: int, payload: P)

  /** What the sidebar widgets hand to the filter: the chosen cities and the
      window `[start, end]`, inclusive at both ends. */
  datatype Selection = Selection(cities: seq<string>, start: int, end: int)

  /** The boolean mask of the filter, for one row. No row passes an empty
      choice of cities or a window whose start lies after its end. */
  predicate Selected<P>(row: Row<P>, sel: Selection)
    ensures Selected(row, sel) ==> |sel.cities| > 0 && sel.start <= sel.end
  {
    row.city in sel.cities && row.ts >= sel.start && row.ts <= sel.end
  }

  /** Independent description of a filter result: drawn from `rows` in order,
      only selected rows, and every selected row as often as in `rows`. */
  ghost predicate IsFilterOf<P>(kept: seq<Row<P>>, rows: seq<Row<P>>, sel: Selection)
  {
    && IsSubsequence(kept, rows)
    && (forall i :: 0 <= i < |kept| ==> Selected(kept[i], sel))
    && (forall i :: 0 <= i < |rows| ==>
          multiset(kept)[rows[i]] == if Selected(rows[i], sel) then multiset(rows)[rows[i]] else 0)
  }

  /** The rows whose city is chosen and whose timestamp lies in the window,
      in input order. */
  function FilterRows<P>(rows: seq<Row<P>>, sel: Selection): (kept: seq<Row<P>>)
    ensures IsSubsequence(kept, rows)
    ensures forall i :: 0 <= i < |kept| ==> Selected(kept[i], sel)
    ensures |kept| <= |rows|
    ensures sel.cities == [] ==> kept == []
    ensures sel.start > sel.end ==> kept == []
    decreases |rows|
  {
    if |rows| == 0 then []
    else
      var rest := FilterRows(rows[1..], sel);
      assert rows == [rows[0]] + rows[1..];
      if Selected(rows[0], sel) then
        assert ([rows[0]] + rest)[1..] == rest;
        [rows[0]] + rest
      else
        rest
  }

  /** The filter keeps every selected row as often as the table holds it and
      drops every other row. */
  lemma {:induction false} FilterCounts<P>(rows: seq<Row<P>>, sel: Selection)
    ensures forall x :: multiset(FilterRows(rows, sel))[x] == if Selected(x, sel) then multiset(rows)[x] else 0
    decreases |rows|
  {
    if |rows| > 0 {
      FilterCounts(rows[1..], sel);
      assert rows == [rows[0]] + rows[1..];
      assert multiset(rows) == multiset{rows[0]} + multiset(rows[1..]);
    }
  }

  /** The filter's output fits the independent description. */
  lemma FilterRowsIsFilter<P>(rows: seq<Row<P>>, sel: Selection)
    ensures IsFilterOf(FilterRows(rows, sel), rows, sel)
  {
    FilterCounts(rows, sel);
  }

  /** The description determines the result: any sequence that fits it is
      the filter's output. */
  lemma {:induction false} FilterUnique<P>(kept: seq<Row<P>>, rows: seq<Row<P>>, sel: Selection)
    requires IsFilterOf(kept, rows, sel)
    ensures kept == FilterRows(rows, sel)
    decreases |rows|
  {
    if |rows| == 0 {
      SubsequenceBounds(kept, rows);
    } else {
      var r := rows[0];
      assert rows == [r] + rows[1..];
      if |kept| > 0 && kept[0] == r && IsSubsequence(kept[1..], rows[1..]) {
        assert kept == [r] + kept[1..];
        assert Selected(kept[0], sel);
        forall i | 0 <= i < |kept[1..]| ensures Selected(kept[1..][i], sel) {
          assert kept[1..][i] == kept[i + 1];
        }
        FilterUnique(kept[1..], rows[1..], sel);
      } else {
        assert IsSubsequence(kept, rows[1..]);
        SubsequenceMultiset(kept, rows[1..]);
        if Selected(r, sel) {
          assert false;
        }
        var tail := rows[1..];
        forall i | 0 <= i < |tail|
          ensures multiset(kept)[tail[i]] == if Selected(tail[i], sel) then multiset(tail)[tail[i]] else 0
        {
          assert tail[i] == rows[i + 1];
          if Selected(tail[i], sel) {
            assert tail[i] != r;
          }
        }
        FilterUnique(kept, rows[1..], sel);
      }
    }
  }

  /** When every row is selected the filter returns the table unchanged. */
  lemma {:induction false} FilterKeepsAll<P>(rows: seq<Row<P>>, sel: Selection)
    requires forall i :: 0 <= i < |rows| ==> Selected(rows[i], sel)
    ensures FilterRows(rows, sel) == rows
    decreases |rows|
  {
    if |rows| > 0 {
      FilterKeepsAll(rows[1..], sel);
      assert rows == [rows[0]] + rows[1..];
    }
  }

  /** Filtering again with the same selection changes nothing. */
  lemma FilterIdempotent<P>(rows: seq<Row<P>>, sel: Selection)
    ensures FilterRows(FilterRows(rows, sel), sel) == FilterRows(rows, sel)
  {
    FilterKeepsAll(FilterRows(rows, sel), sel);
  }

  /** The mask is evaluated row by row: filtering a concatenation is the
      concatenation of the filtered parts. */
  lemma {:induction false} FilterConcat<P>(a: seq<Row<P>>, b: seq<Row<P>>, sel: Selection)
    ensures FilterRows(a + b, sel) == FilterRows(a, sel) + FilterRows(b, sel)
    decreases |a|
  {
    if |a| > 0 {
      assert (a + b)[1..] == a[1..] + b;
      FilterConcat(a[1..], b, sel);
    } else {
      assert a + b == b;
    }
  }

  /** The `city_name` column. */
  function Cities<P>(rows: seq<Row<P>>): (column: seq<string>)
    ensures |column| == |rows|
    ensures forall i :: 0 <= i < |rows| ==> column[i] == rows[i].city
  {
    seq(|rows|, i requires 0 <= i < |rows| => rows[i].city)
  }

  /** The values of `xs` not in `seen`, each once, in the order of their first
      appearance. */
  function UniqueAfter(xs: seq<string>, seen: set<string>): (u: seq<string>)
    ensures forall x :: x in u <==> x in xs && x !in seen
    ensures NoDuplicates(u)
    ensures IsSubsequence(u, xs)
    ensures forall i, j :: 0 <= i < j < |u| ==> IndexOf(xs, u[i]) < IndexOf(xs, u[j])
    decreases |xs|
  {
    if |xs| == 0 then []
    else
      var rest := UniqueAfter(xs[1..], seen + {xs[0]});
      assert forall x :: x in xs <==> x == xs[0] || x in xs[1..];
      UniqueOrderStep(xs, rest);
      if xs[0] in seen then
        assert IsSubsequence(rest, xs);
        rest
      else
        var u := [xs[0]] + rest;
        assert u[1..] == rest;
        assert forall j :: 0 < j < |u| ==> u[j] == rest[j - 1];
        u
  }

  /** Positions in `xs[1..]` of values other than `xs[0]` are one less than in
      `xs`, so putting `xs[0]` in front keeps first-appearance order. */
  lemma UniqueOrderStep(xs: seq<string>, rest: seq<string>)
    requires |xs| > 0
    requires forall x :: x in rest ==> x != xs[0] && x in xs && x in xs[1..]
    requires forall i, j :: 0 <= i < j < |rest| ==> IndexOf(xs[1..], rest[i]) < IndexOf(xs[1..], rest[j])
    ensures forall i, j :: 0 <= i < j < |rest| ==> IndexOf(xs, rest[i]) < IndexOf(xs, rest[j])
    ensures forall i, j :: 0 <= i < j < |[xs[0]] + rest| ==>
              IndexOf(xs, ([xs[0]] + rest)[i]) < IndexOf(xs, ([xs[0]] + rest)[j])
  {
    forall k | 0 <= k < |rest| ensures IndexOf(xs, rest[k]) == 1 + IndexOf(xs[1..], rest[k]) {
      assert rest[k] in rest;
    }
    var u := [xs[0]] + rest;
    forall i, j | 0 <= i < j < |u| ensures IndexOf(xs, u[i]) < IndexOf(xs, u[j]) {
      assert u[j] == rest[j - 1];
      if i > 0 {
        assert u[i] == rest[i - 1];
      }
    }
  }

  /** `unique()`: the distinct values, in the order of first appearance. */
  function Unique(xs: seq<string>): (u: seq<string>)
    ensures forall x :: x in u <==> x in xs
    ensures NoDuplicates(u)
    ensures forall i, j :: 0 <= i < j < |u| ==> IndexOf(xs, u[i]) < IndexOf(xs, u[j])
  {
    UniqueAfter(xs, {})
  }

  /** `min()` of the timestamp column. */
  function EarliestTs<P>(rows: seq<Row<P>>): (m: int)
    requires |rows| > 0
    ensures forall i :: 0 <= i < |rows| ==> m <= rows[i].ts
    ensures exists i :: 0 <= i < |rows| && rows[i].ts == m
    decreases |rows|
  {
    if |rows| == 1 then rows[0].ts
    else
      var m := EarliestTs(rows[1..]);
      assert forall i :: 1 <= i < |rows| ==> rows[i] == rows[1..][i - 1];
      if rows[0].ts <= m then rows[0].ts else m
  }

  /** `max()` of the timestamp column. */
  function LatestTs<P>(rows: seq<Row<P>>): (m: int)
    requires |rows| > 0
    ensures forall i :: 0 <= i < |rows| ==> rows[i].ts <= m
    ensures exists i :: 0 <= i < |rows| && rows[i].ts == m
    decreases |rows|
  {
    if |rows| == 1 then rows[0].ts
    else
      var m := LatestTs(rows[1..]);
      assert forall i :: 1 <= i < |rows| ==> rows[i] == rows[1..][i - 1];
      if rows[0].ts >= m then rows[0].ts else m
  }

  /** The widgets' initial values: every distinct city, in the order of its
      first row, and the window from the earliest to the latest timestamp.
      An empty table has no timestamp bounds, so it has no default window. */
  function DefaultSelection<P>(rows: seq<Row<P>>): (d: Option<Selection>)
    ensures d.None? <==> |rows| == 0
    ensures d.Some? ==> d.value.start <= d.value.end
    ensures d.Some? ==> forall i :: 0 <= i < |rows| ==> d.value.start <= rows[i].ts <= d.value.end
    ensures d.Some? ==> exists i :: 0 <= i < |rows| && rows[i].ts == d.value.start
    ensures d.Some? ==> exists i :: 0 <= i < |rows| && rows[i].ts == d.value.end
    ensures d.Some? ==> NoDuplicates(d.value.cities)
    ensures d.Some? ==> forall c :: c in d.value.cities <==> exists i :: 0 <= i < |rows| && rows[i].city == c
    ensures d.Some? ==> d.value.cities == Unique(Cities(rows))
  {
    if |rows| == 0 then None
    else
      var cities := Cities(rows);
      assert forall c :: c in cities <==> exists i :: 0 <= i < |rows| && rows[i].city == c by {
        forall c | c in cities ensures exists i :: 0 <= i < |rows| && rows[i].city == c {
          var i :| 0 <= i < |cities| && cities[i] == c;
          assert rows[i].city == c;
        }
        forall c | exists i :: 0 <= i < |rows| && rows[i].city == c ensures c in cities {
          var i :| 0 <= i < |rows| && rows[i].city == c;
          assert cities[i] == c;
        }
      }
      Some(Selection(Unique(cities), EarliestTs(rows), LatestTs(rows)))
  }

  /** With the default selection the filter returns the whole table. */
  lemma DefaultSelectsEverything<P>(rows: seq<Row<P>>)
    requires |rows| > 0
    ensures FilterRows(rows, DefaultSelection(rows).value) == rows
  {
    var sel := DefaultSelection(rows).value;
    forall i | 0 <= i < |rows| ensures Selected(rows[i], sel) {
      assert rows[i].city in sel.cities;
    }
    FilterKeepsAll(rows, sel);
  }
}
