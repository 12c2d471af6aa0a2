/** Break-level rows aggregated to one record per fragment (specimen), as
    break_to_frag_level.py and preprocessing/compile_frag_level_ml.py do it:
    a first pass over the rows fills `frag_data` and the first-seen categorical
    values `cat_values`; a second pass turns each specimen into a record of
    copied values, a break count, one count per categorical value and summary
    statistics; the later script then joins columns from the fragment table. */
module FragLevel {
  import opened Wrappers
  import opened Seqs

  /** The column lists of a script: copied, counted and summarised fields of the
      break table, and fields joined from the fragment table. The older script
      has copy fields and no joined fields; the later one the reverse. */
  datatype Schema = Schema(copyFields: seq<string>, countsFields: seq<string>,
                           statsFields: seq<string>, fragFields: seq<string>)

  /** One break-level row: its specimen, one value per copy field, the text
      `str(df[field][i])` of each counts field, one number per stats field. */
  datatype BreakRow = BreakRow(specimen: string, copy: seq<string>, cats: seq<string>, stats: seq<real>)

  /** Every row has one value in each column of the schema. */
  predicate AllFit(schema: Schema, rows: seq<BreakRow>) {
    forall i :: 0 <= i < |rows| ==>
      |rows[i].copy| == |schema.copyFields| && |rows[i].cats| == |schema.countsFields|
      && |rows[i].stats| == |schema.statsFields|
  }

  /** `frag_data[Specimen]`: the break count, the copy values last written, and
      per counts field and per stats field the list of the rows' values. */
  datatype Accum = Accum(breakCount: nat, copy: seq<string>, cats: seq<seq<string>>, stats: seq<seq<real>>)

  /** One list per counts and per stats field, each with one entry per break. */
  predicate Shaped(schema: Schema, a: Accum) {
    && |a.cats| == |schema.countsFields| && |a.stats| == |schema.statsFields|
    && (a.breakCount > 0 ==> |a.copy| == |schema.copyFields|)
    && (forall f :: 0 <= f < |a.cats| ==> |a.cats[f]| == a.breakCount)
    && (forall f :: 0 <= f < |a.stats| ==> |a.stats[f]| == a.breakCount)
  }

  /** `{'Break Count': 0}` with an empty list for every field. */
  function Fresh(schema: Schema): Accum {
    Accum(0, [], seq(|schema.countsFields|, _ => []), seq(|schema.statsFields|, _ => []))
  }

  /** One row added to its specimen: count incremented, copy fields
      overwritten, each field's value appended to that field's list. */
  function AddRow(a: Accum, row: BreakRow): Accum
    requires |a.cats| == |row.cats| && |a.stats| == |row.stats|
  {
    Accum(a.breakCount + 1, row.copy,
          seq(|row.cats|, f requires 0 <= f < |row.cats| => a.cats[f] + [row.cats[f]]),
          seq(|row.stats|, f requires 0 <= f < |row.stats| => a.stats[f] + [row.stats[f]]))
  }

  /** The entry of specimen `s` after the first pass over `rows`. It has breaks
      exactly when some row names `s`. */
  function AccumOf(schema: Schema, rows: seq<BreakRow>, s: string): (a: Accum)
    requires AllFit(schema, rows)
    ensures Shaped(schema, a)
    ensures a.breakCount > 0 <==> exists i :: 0 <= i < |rows| && rows[i].specimen == s
    decreases |rows|
  {
    if rows == [] then Fresh(schema)
    else
      var last := rows[|rows| - 1];
      var a := AccumOf(schema, rows[..|rows| - 1], s);
      if last.specimen == s then AddRow(a, last) else a
  }

  // ---------------------------------------------------------------------------
  // Reference definitions: the rows of a specimen, and the columns of rows

  /** The specimen column. */
  function Specimens(rows: seq<BreakRow>): (ss: seq<string>)
    ensures |ss| == |rows| && forall i :: 0 <= i < |rows| ==> ss[i] == rows[i].specimen
  {
    seq(|rows|, i requires 0 <= i < |rows| => rows[i].specimen)
  }

  /** The rows naming `s`, in order. */
  function RowsOf(rows: seq<BreakRow>, s: string): (mine: seq<BreakRow>)
    ensures forall j :: 0 <= j < |mine| ==> mine[j].specimen == s
    decreases |rows|
  {
    if rows == [] then []
    else RowsOf(rows[..|rows| - 1], s) + (if rows[|rows| - 1].specimen == s then [rows[|rows| - 1]] else [])
  }

  /** The values of counts field `f`, one per row. */
  function CatColumn(rows: seq<BreakRow>, f: nat): (col: seq<string>)
    requires forall i :: 0 <= i < |rows| ==> f < |rows[i].cats|
    ensures |col| == |rows| && forall i :: 0 <= i < |rows| ==> col[i] == rows[i].cats[f]
  {
    seq(|rows|, i requires 0 <= i < |rows| => rows[i].cats[f])
  }

  /** The values of stats field `f`, one per row. */
  function StatColumn(rows: seq<BreakRow>, f: nat): (col: seq<real>)
    requires forall i :: 0 <= i < |rows| ==> f < |rows[i].stats|
    ensures |col| == |rows| && forall i :: 0 <= i < |rows| ==> col[i] == rows[i].stats[f]
  {
    seq(|rows|, i requires 0 <= i < |rows| => rows[i].stats[f])
  }

  /** `cat_values`: for each counts field, its values in first-seen order. */
  function CatValues(schema: Schema, rows: seq<BreakRow>): (cv: seq<seq<string>>)
    requires AllFit(schema, rows)
    ensures |cv| == |schema.countsFields|
  {
    seq(|schema.countsFields|, f requires 0 <= f < |schema.countsFields| => Dedup(CatColumn(rows, f)))
  }

  /** The rows of a specimen keep the shape of all rows. */
  lemma {:induction false} RowsOfFit(schema: Schema, rows: seq<BreakRow>, s: string)
    requires AllFit(schema, rows)
    ensures AllFit(schema, RowsOf(rows, s))
  {
    if rows != [] {
      RowsOfFit(schema, rows[..|rows| - 1], s);
    }
  }

  /** The number of rows naming a specimen is its count in the specimen column. */
  lemma {:induction false} RowsOfCount(rows: seq<BreakRow>, s: string)
    ensures |RowsOf(rows, s)| == Count(Specimens(rows), s)
  {
    if rows != [] {
      var init := rows[..|rows| - 1];
      RowsOfCount(init, s);
      assert Specimens(rows)[..|rows| - 1] == Specimens(init);
    }
  }

  /** The first pass agrees with the reference: a specimen's break count is the
      number of rows naming it, and its field lists are the columns of those rows. */
  lemma {:induction false} AccumIsRowsOf(schema: Schema, rows: seq<BreakRow>, s: string)
    requires AllFit(schema, rows)
    ensures var a := AccumOf(schema, rows, s);
            var mine := RowsOf(rows, s);
            && AllFit(schema, mine)
            && a.breakCount == |mine|
            && (forall f :: 0 <= f < |schema.countsFields| ==> a.cats[f] == CatColumn(mine, f))
            && (forall f :: 0 <= f < |schema.statsFields| ==> a.stats[f] == StatColumn(mine, f))
  {
    RowsOfFit(schema, rows, s);
    if rows != [] {
      var init := rows[..|rows| - 1];
      var last := rows[|rows| - 1];
      AccumIsRowsOf(schema, init, s);
      RowsOfFit(schema, init, s);
      var a := AccumOf(schema, rows, s);
      var mine := RowsOf(rows, s);
      var before := RowsOf(init, s);
      if last.specimen == s {
        assert mine == before + [last];
        forall f | 0 <= f < |schema.countsFields| ensures a.cats[f] == CatColumn(mine, f) {
          assert CatColumn(mine, f) == CatColumn(before, f) + [last.cats[f]];
        }
        forall f | 0 <= f < |schema.statsFields| ensures a.stats[f] == StatColumn(mine, f) {
          assert StatColumn(mine, f) == StatColumn(before, f) + [last.stats[f]];
        }
      }
    }
  }

  /** The copy values of a specimen with breaks come from the last row naming it. */
  lemma {:induction false} CopyFromLastRow(schema: Schema, rows: seq<BreakRow>, s: string)
    requires AllFit(schema, rows)
    requires AccumOf(schema, rows, s).breakCount > 0
    ensures exists i :: 0 <= i < |rows| && rows[i].specimen == s && AccumOf(schema, rows, s).copy == rows[i].copy
                        && forall j :: i < j < |rows| ==> rows[j].specimen != s
  {
    var n := |rows| - 1;
    var init := rows[..n];
    assert AllFit(schema, init);
    var a := AccumOf(schema, init, s);
    if rows[n].specimen == s {
      assert AccumOf(schema, rows, s) == AddRow(a, rows[n]);
      assert AccumOf(schema, rows, s).copy == rows[n].copy;
    } else {
      assert AccumOf(schema, rows, s) == a;
      CopyFromLastRow(schema, init, s);
      var i :| 0 <= i < |init| && init[i].specimen == s && a.copy == init[i].copy
               && forall j :: i < j < |init| ==> init[j].specimen != s;
      assert rows[i] == init[i];
      assert forall j :: i < j < |rows| ==> rows[j].specimen != s by {
        forall j | i < j < |rows| ensures rows[j].specimen != s {
          if j < n {
            assert rows[j] == init[j];
          }
        }
      }
    }
  }

  // ---------------------------------------------------------------------------
  // The first pass (lines 19-55 and 20-51 of the two scripts)

  /** One row's counts-field values noted in `cat_values`: each value not yet
      listed for its field is appended. */
  method NoteValues(catValues: seq<seq<string>>, cats: seq<string>) returns (next: seq<seq<string>>)
    requires |catValues| == |cats|
    ensures |next| == |cats|
    ensures forall f :: 0 <= f < |cats| ==>
              next[f] == if cats[f] in catValues[f] then catValues[f] else catValues[f] + [cats[f]]
  {
    next := catValues;
    for f := 0 to |cats|
      invariant |next| == |cats|
      invariant forall g :: 0 <= g < f ==>
                  next[g] == if cats[g] in catValues[g] then catValues[g] else catValues[g] + [cats[g]]
      invariant forall g :: f <= g < |cats| ==> next[g] == catValues[g]
    {
      if cats[f] !in next[f] {
        next := next[f := next[f] + [cats[f]]];
      }
    }
  }

  /** One more row extends a column's first-seen values by the row's value, unless seen. */
  lemma NotedField(rows: seq<BreakRow>, i: nat, f: nat)
    requires i < |rows| && forall k :: 0 <= k < |rows| ==> f < |rows[k].cats|
    ensures var prev := Dedup(CatColumn(rows[..i], f));
            Dedup(CatColumn(rows[..i + 1], f)) == if rows[i].cats[f] in prev then prev else prev + [rows[i].cats[f]]
  {
    var prev := CatColumn(rows[..i], f);
    assert CatColumn(rows[..i + 1], f) == prev + [rows[i].cats[f]];
    DedupSnoc(prev, rows[i].cats[f]);
  }

  /** The values noted for one more row are the reference values of the longer prefix. */
  lemma NotedValues(schema: Schema, rows: seq<BreakRow>, i: nat, next: seq<seq<string>>)
    requires AllFit(schema, rows) && i < |rows|
    requires AllFit(schema, rows[..i]) && AllFit(schema, rows[..i + 1])
    requires |next| == |schema.countsFields|
    requires forall f :: 0 <= f < |schema.countsFields| ==>
               next[f] == if rows[i].cats[f] in CatValues(schema, rows[..i])[f] then CatValues(schema, rows[..i])[f]
                          else CatValues(schema, rows[..i])[f] + [rows[i].cats[f]]
    ensures next == CatValues(schema, rows[..i + 1])
  {
    forall f | 0 <= f < |schema.countsFields| ensures next[f] == CatValues(schema, rows[..i + 1])[f] {
      NotedField(rows, i, f);
    }
  }

  /** A specimen no row names has the fresh entry. */
  lemma {:induction false} AccumAbsent(schema: Schema, rows: seq<BreakRow>, s: string)
    requires AllFit(schema, rows)
    requires forall i :: 0 <= i < |rows| ==> rows[i].specimen != s
    ensures AccumOf(schema, rows, s) == Fresh(schema)
  {
    if rows != [] {
      AccumAbsent(schema, rows[..|rows| - 1], s);
    }
  }

  /** The first pass over one more row: the specimen column grows by the row's
      specimen and only that specimen's entry changes, by the row. */
  lemma PrefixStep(schema: Schema, rows: seq<BreakRow>, i: nat)
    requires AllFit(schema, rows) && i < |rows|
    ensures AllFit(schema, rows[..i]) && AllFit(schema, rows[..i + 1])
    ensures Specimens(rows[..i + 1]) == Specimens(rows[..i]) + [rows[i].specimen]
  {
    var prefix := rows[..i + 1];
    assert prefix[..i] == rows[..i] && prefix[i] == rows[i];
  }

  /** One more row changes only its own specimen's entry, by adding the row. */
  lemma AccumStep(schema: Schema, rows: seq<BreakRow>, i: nat, s: string)
    requires AllFit(schema, rows) && i < |rows|
    requires AllFit(schema, rows[..i]) && AllFit(schema, rows[..i + 1])
    ensures AccumOf(schema, rows[..i + 1], s)
            == if s == rows[i].specimen then AddRow(AccumOf(schema, rows[..i], s), rows[i])
               else AccumOf(schema, rows[..i], s)
  {
    var prefix := rows[..i + 1];
    assert prefix[..i] == rows[..i] && prefix[i] == rows[i];
  }

  /** The row loop: `frag_data` gets an entry per specimen, in first-appearance
      order, holding what `AccumOf` describes, and `cat_values` the first-seen
      values of each counts field. */
  method BuildFragData(schema: Schema, rows: seq<BreakRow>)
    returns (order: seq<string>, data: map<string, Accum>, catValues: seq<seq<string>>)
    requires AllFit(schema, rows)
    ensures order == Dedup(Specimens(rows))
    ensures forall s :: s in data <==> s in Specimens(rows)
    ensures forall s :: s in data ==> data[s] == AccumOf(schema, rows, s)
    ensures catValues == CatValues(schema, rows)
  {
    order := [];
    data := map[];
    catValues := seq(|schema.countsFields|, _ => []);
    for i := 0 to |rows|
      invariant AllFit(schema, rows[..i])
      invariant order == Dedup(Specimens(rows[..i]))
      invariant forall s :: s in data <==> s in Specimens(rows[..i])
      invariant forall s :: s in data ==> data[s] == AccumOf(schema, rows[..i], s)
      invariant catValues == CatValues(schema, rows[..i])
    {
      order, data, catValues := AddFragRow(schema, rows, i, order, data, catValues);
    }
    assert rows[..|rows|] == rows;
  }

  /** One pass of the loop: row `i` starts its specimen's entry when it is the
      first row naming it, is added to that entry, and notes its category values. */
  method AddFragRow(schema: Schema, rows: seq<BreakRow>, i: nat,
                    order: seq<string>, data: map<string, Accum>, catValues: seq<seq<string>>)
    returns (order': seq<string>, data': map<string, Accum>, catValues': seq<seq<string>>)
    requires AllFit(schema, rows) && i < |rows|
    requires AllFit(schema, rows[..i])
    requires order == Dedup(Specimens(rows[..i]))
    requires forall s :: s in data <==> s in Specimens(rows[..i])
    requires forall s :: s in data ==> data[s] == AccumOf(schema, rows[..i], s)
    requires catValues == CatValues(schema, rows[..i])
    ensures AllFit(schema, rows[..i + 1])
    ensures order' == Dedup(Specimens(rows[..i + 1]))
    ensures forall s :: s in data' <==> s in Specimens(rows[..i + 1])
    ensures forall s :: s in data' ==> data'[s] == AccumOf(schema, rows[..i + 1], s)
    ensures catValues' == CatValues(schema, rows[..i + 1])
  {
    var row := rows[i];
    PrefixStep(schema, rows, i);
    DedupSnoc(Specimens(rows[..i]), row.specimen);
    order' := if row.specimen in data then order else order + [row.specimen];
    data' := AddToEntry(schema, rows, i, data);
    catValues' := NoteValues(catValues, row.cats);
    NotedValues(schema, rows, i, catValues');
  }

  /** Row `i` is added to its specimen's entry, which starts empty when the row
      is the first naming that specimen. */
  method AddToEntry(schema: Schema, rows: seq<BreakRow>, i: nat, data: map<string, Accum>)
    returns (data': map<string, Accum>)
    requires AllFit(schema, rows) && i < |rows|
    requires AllFit(schema, rows[..i]) && AllFit(schema, rows[..i + 1])
    requires Specimens(rows[..i + 1]) == Specimens(rows[..i]) + [rows[i].specimen]
    requires forall s :: s in data <==> s in Specimens(rows[..i])
    requires forall s :: s in data ==> data[s] == AccumOf(schema, rows[..i], s)
    ensures forall s :: s in data' <==> s in Specimens(rows[..i + 1])
    ensures forall s :: s in data' ==> data'[s] == AccumOf(schema, rows[..i + 1], s)
  {
    var row := rows[i];
    data' := data;
    if row.specimen !in data' {
      AccumAbsent(schema, rows[..i], row.specimen);
      data' := data'[row.specimen := Fresh(schema)];
    }
    data' := data'[row.specimen := AddRow(data'[row.specimen], row)];
    forall s | s in data' ensures data'[s] == AccumOf(schema, rows[..i + 1], s) {
      AccumStep(schema, rows, i, s);
    }
  }

  // ---------------------------------------------------------------------------
  // Summary values

  /** `np.min` of a non-empty list. */
  function Min(xs: seq<real>): (m: real)
    requires xs != []
    ensures m in xs && forall i :: 0 <= i < |xs| ==> m <= xs[i]
  {
    if |xs| == 1 then xs[0]
    else
      var rest := Min(xs[..|xs| - 1]);
      if xs[|xs| - 1] < rest then xs[|xs| - 1] else rest
  }

  /** `np.max` of a non-empty list. */
  function Max(xs: seq<real>): (m: real)
    requires xs != []
    ensures m in xs && forall i :: 0 <= i < |xs| ==> xs[i] <= m
  {
    if |xs| == 1 then xs[0]
    else
      var rest := Max(xs[..|xs| - 1]);
      if rest < xs[|xs| - 1] then xs[|xs| - 1] else rest
  }

  /** The minimum of a list never exceeds its maximum. */
  lemma MinAtMostMax(xs: seq<real>)
    requires xs != []
    ensures Min(xs) <= Max(xs)
  {
    assert Min(xs) <= xs[0] <= Max(xs);
  }

  /** The numpy aggregates the model does not compute: mean, median and
      standard deviation of a list. */
  datatype Aggregates = Aggregates(mean: seq<real> -> real, median: seq<real> -> real, std: seq<real> -> real)

  /** A value of a fragment record. */
  datatype Cell = Text(text: string) | Number(n: nat) | Value(x: real)

  /** One key of a fragment record and its value. */
  datatype Item = Item(key: string, cell: Cell)

  /** The keys of a record, in insertion order. */
  function KeysOf(items: seq<Item>): (ks: seq<string>)
    ensures |ks| == |items| && forall i :: 0 <= i < |items| ==> ks[i] == items[i].key
  {
    seq(|items|, i requires 0 <= i < |items| => items[i].key)
  }

  /** The copy fields with their values. */
  function CopyItems(fields: seq<string>, values: seq<string>): (items: seq<Item>)
    requires |values| == |fields|
    ensures KeysOf(items) == fields
  {
    seq(|fields|, i requires 0 <= i < |fields| => Item(fields[i], Text(values[i])))
  }

  /** For one counts field, `field_value` and the number of the specimen's
      breaks with that value, for every value in `cat_values[field]`. */
  function ValueItems(field: string, xs: seq<string>, values: seq<string>): seq<Item> {
    seq(|values|, v requires 0 <= v < |values| => Item(field + "_" + values[v], Number(Count(xs, values[v]))))
  }

  /** The count entries of all counts fields, field by field. */
  function CountItems(fields: seq<string>, cats: seq<seq<string>>, values: seq<seq<string>>): seq<Item>
    requires |cats| == |fields| && |values| == |fields|
    decreases |fields|
  {
    if fields == [] then []
    else
      var n := |fields| - 1;
      CountItems(fields[..n], cats[..n], values[..n]) + ValueItems(fields[n], cats[n], values[n])
  }

  /** `_min`, `_max`, `_mean`, `_median` and `_std` of one stats field. */
  function FieldStats(field: string, xs: seq<real>, aggs: Aggregates): seq<Item>
    requires xs != []
  {
    [Item(field + "_min", Value(Min(xs))), Item(field + "_max", Value(Max(xs))),
     Item(field + "_mean", Value(aggs.mean(xs))), Item(field + "_median", Value(aggs.median(xs))),
     Item(field + "_std", Value(aggs.std(xs)))]
  }

  /** The summary entries of all stats fields, field by field. */
  function StatItems(fields: seq<string>, stats: seq<seq<real>>, aggs: Aggregates): seq<Item>
    requires |stats| == |fields| && forall f :: 0 <= f < |stats| ==> stats[f] != []
    decreases |fields|
  {
    if fields == [] then []
    else
      var n := |fields| - 1;
      StatItems(fields[..n], stats[..n], aggs) + FieldStats(fields[n], stats[n], aggs)
  }

  /** The record a specimen's entry becomes (lines 57-84 and 54-77). */
  function SummaryOf(schema: Schema, a: Accum, catValues: seq<seq<string>>, aggs: Aggregates): seq<Item>
    requires Shaped(schema, a) && a.breakCount > 0 && |catValues| == |schema.countsFields|
  {
    CopyItems(schema.copyFields, a.copy) + [Item("Break Count", Number(a.breakCount))]
    + CountItems(schema.countsFields, a.cats, catValues) + StatItems(schema.statsFields, a.stats, aggs)
  }

  // ---------------------------------------------------------------------------
  // The key layout shared by every record

  /** `field_value` for every value of every counts field. */
  function CountKeys(fields: seq<string>, values: seq<seq<string>>): seq<string>
    requires |values| == |fields|
    decreases |fields|
  {
    if fields == [] then []
    else
      var n := |fields| - 1;
      CountKeys(fields[..n], values[..n])
      + seq(|values[n]|, v requires 0 <= v < |values[n]| => fields[n] + "_" + values[n][v])
  }

  /** The five summary keys of every stats field. */
  function StatKeys(fields: seq<string>): seq<string>
    decreases |fields|
  {
    if fields == [] then []
    else
      var f := fields[|fields| - 1];
      StatKeys(fields[..|fields| - 1]) + [f + "_min", f + "_max", f + "_mean", f + "_median", f + "_std"]
  }

  /** The keys of every record, before any joined fields. */
  function Layout(schema: Schema, catValues: seq<seq<string>>): seq<string>
    requires |catValues| == |schema.countsFields|
  {
    schema.copyFields + ["Break Count"] + CountKeys(schema.countsFields, catValues) + StatKeys(schema.statsFields)
  }

  lemma {:induction false} CountItemsKeys(fields: seq<string>, cats: seq<seq<string>>, values: seq<seq<string>>)
    requires |cats| == |fields| && |values| == |fields|
    ensures KeysOf(CountItems(fields, cats, values)) == CountKeys(fields, values)
    decreases |fields|
  {
    if fields != [] {
      var n := |fields| - 1;
      CountItemsKeys(fields[..n], cats[..n], values[..n]);
    }
  }

  lemma {:induction false} StatItemsKeys(fields: seq<string>, stats: seq<seq<real>>, aggs: Aggregates)
    requires |stats| == |fields| && forall f :: 0 <= f < |stats| ==> stats[f] != []
    ensures KeysOf(StatItems(fields, stats, aggs)) == StatKeys(fields)
    decreases |fields|
  {
    if fields != [] {
      var n := |fields| - 1;
      StatItemsKeys(fields[..n], stats[..n], aggs);
      var last := FieldStats(fields[n], stats[n], aggs);
      KeysOfAppend(StatItems(fields[..n], stats[..n], aggs), last);
      var f := fields[n];
      assert KeysOf(last) == [f + "_min", f + "_max", f + "_mean", f + "_median", f + "_std"];
    }
  }

  /** Every specimen's record has the same keys in the same order, whatever its
      values: a zero count is stored for a value the specimen never shows. */
  lemma SummaryKeys(schema: Schema, a: Accum, catValues: seq<seq<string>>, aggs: Aggregates)
    requires Shaped(schema, a) && a.breakCount > 0 && |catValues| == |schema.countsFields|
    ensures KeysOf(SummaryOf(schema, a, catValues, aggs)) == Layout(schema, catValues)
  {
    CountItemsKeys(schema.countsFields, a.cats, catValues);
    StatItemsKeys(schema.statsFields, a.stats, aggs);
    var c := CopyItems(schema.copyFields, a.copy);
    var b := [Item("Break Count", Number(a.breakCount))];
    var n := CountItems(schema.countsFields, a.cats, catValues);
    var t := StatItems(schema.statsFields, a.stats, aggs);
    assert KeysOf(c + b + n + t) == KeysOf(c) + KeysOf(b) + KeysOf(n) + KeysOf(t);
  }

  // ---------------------------------------------------------------------------
  // Counts add up

  /** The total of the counts of `values` in `xs`. */
  function SumCounts(xs: seq<string>, values: seq<string>): nat
    decreases |values|
  {
    if values == [] then 0 else SumCounts(xs, values[..|values| - 1]) + Count(xs, values[|values| - 1])
  }

  /** One more element adds its multiplicity among `values`. */
  lemma {:induction false} SumCountsAppend(xs: seq<string>, x: string, values: seq<string>)
    ensures SumCounts(xs + [x], values) == SumCounts(xs, values) + Count(values, x)
    decreases |values|
  {
    assert (xs + [x])[..|xs|] == xs;
    if values != [] {
      SumCountsAppend(xs, x, values[..|values| - 1]);
    }
  }

  /** A distinct list holds each of its elements once. */
  lemma {:induction false} DistinctCountOne(values: seq<string>, x: string)
    requires Distinct(values) && x in values
    ensures Count(values, x) == 1
  {
    var init := values[..|values| - 1];
    if values[|values| - 1] == x {
      forall j | 0 <= j < |init| ensures init[j] != x {
        assert init[j] == values[j];
      }
      CountAbsent(init, x);
    } else {
      DistinctCountOne(init, x);
    }
  }

  /** When every element of `xs` is one of the distinct `values`, the counts of
      the values add up to the length of `xs`. */
  lemma {:induction false} CountsAddUp(xs: seq<string>, values: seq<string>)
    requires Distinct(values)
    requires forall i :: 0 <= i < |xs| ==> xs[i] in values
    ensures SumCounts(xs, values) == |xs|
  {
    if xs == [] {
      ZeroCounts(values);
    } else {
      var init := xs[..|xs| - 1];
      CountsAddUp(init, values);
      assert init + [xs[|xs| - 1]] == xs;
      SumCountsAppend(init, xs[|xs| - 1], values);
      DistinctCountOne(values, xs[|xs| - 1]);
    }
  }

  /** Nothing is counted in an empty list. */
  lemma {:induction false} ZeroCounts(values: seq<string>)
    ensures SumCounts([], values) == 0
    decreases |values|
  {
    if values != [] {
      ZeroCounts(values[..|values| - 1]);
    }
  }

  /** For every counts field, a specimen's counts of the field's first-seen
      values add up to its break count. */
  lemma CountsSumToBreakCount(schema: Schema, rows: seq<BreakRow>, s: string, f: nat)
    requires AllFit(schema, rows) && f < |schema.countsFields|
    ensures SumCounts(AccumOf(schema, rows, s).cats[f], CatValues(schema, rows)[f]) == AccumOf(schema, rows, s).breakCount
  {
    AccumIsRowsOf(schema, rows, s);
    var mine := RowsOf(rows, s);
    var xs := CatColumn(mine, f);
    var values := CatValues(schema, rows)[f];
    RowsOfMembers(rows, s);
    forall i | 0 <= i < |xs| ensures xs[i] in values {
      assert mine[i] in rows;
      var k :| 0 <= k < |rows| && rows[k] == mine[i];
      assert CatColumn(rows, f)[k] == xs[i];
    }
    CountsAddUp(xs, values);
  }

  /** The rows of a specimen are rows of the table. */
  lemma {:induction false} RowsOfMembers(rows: seq<BreakRow>, s: string)
    ensures forall j :: 0 <= j < |RowsOf(rows, s)| ==> RowsOf(rows, s)[j] in rows
  {
    if rows != [] {
      var init := rows[..|rows| - 1];
      RowsOfMembers(init, s);
      forall j | 0 <= j < |RowsOf(rows, s)| ensures RowsOf(rows, s)[j] in rows {
        if j < |RowsOf(init, s)| {
          assert RowsOf(rows, s)[j] == RowsOf(init, s)[j];
          var k :| 0 <= k < |init| && init[k] == RowsOf(init, s)[j];
          assert rows[k] == init[k];
        }
      }
    }
  }

  // ---------------------------------------------------------------------------
  // The second pass and the output table

  /** For one counts field, appends `field_value` with the specimen's count of
      that value, for each value in `cat_values[field]` in turn. */
  method AppendCounts(items: seq<Item>, field: string, xs: seq<string>, values: seq<string>)
    returns (out: seq<Item>)
    ensures out == items + ValueItems(field, xs, values)
  {
    out := items;
    for v := 0 to |values|
      invariant out == items + ValueItems(field, xs, values[..v])
    {
      assert ValueItems(field, xs, values[..v + 1])
          == ValueItems(field, xs, values[..v]) + [Item(field + "_" + values[v], Number(Count(xs, values[v])))];
      out := out + [Item(field + "_" + values[v], Number(Count(xs, values[v])))];
    }
    assert values[..|values|] == values;
  }

  /** The copy fields of a record, one after the other. */
  method AppendCopies(items: seq<Item>, fields: seq<string>, values: seq<string>) returns (out: seq<Item>)
    requires |values| == |fields|
    ensures out == items + CopyItems(fields, values)
  {
    out := items;
    for c := 0 to |fields|
      invariant out == items + CopyItems(fields[..c], values[..c])
    {
      assert CopyItems(fields[..c + 1], values[..c + 1]) == CopyItems(fields[..c], values[..c]) + [Item(fields[c], Text(values[c]))];
      out := out + [Item(fields[c], Text(values[c]))];
    }
    assert fields[..|fields|] == fields && values[..|fields|] == values;
  }

  /** The count entries of every counts field, field by field. */
  method AppendAllCounts(items: seq<Item>, fields: seq<string>, cats: seq<seq<string>>, values: seq<seq<string>>)
    returns (out: seq<Item>)
    requires |cats| == |fields| && |values| == |fields|
    ensures out == items + CountItems(fields, cats, values)
  {
    out := items;
    for f := 0 to |fields|
      invariant out == items + CountItems(fields[..f], cats[..f], values[..f])
    {
      assert fields[..f + 1][..f] == fields[..f] && cats[..f + 1][..f] == cats[..f] && values[..f + 1][..f] == values[..f];
      out := AppendCounts(out, fields[f], cats[f], values[f]);
    }
    assert fields[..|fields|] == fields && cats[..|fields|] == cats && values[..|fields|] == values;
  }

  /** The five summaries of every stats field, field by field. */
  method AppendAllStats(items: seq<Item>, fields: seq<string>, stats: seq<seq<real>>, aggs: Aggregates)
    returns (out: seq<Item>)
    requires |stats| == |fields| && forall f :: 0 <= f < |stats| ==> stats[f] != []
    ensures out == items + StatItems(fields, stats, aggs)
  {
    out := items;
    for f := 0 to |fields|
      invariant out == items + StatItems(fields[..f], stats[..f], aggs)
    {
      assert fields[..f + 1][..f] == fields[..f] && stats[..f + 1][..f] == stats[..f];
      var xs := stats[f];
      out := out + [Item(fields[f] + "_min", Value(Min(xs))), Item(fields[f] + "_max", Value(Max(xs))),
                    Item(fields[f] + "_mean", Value(aggs.mean(xs))), Item(fields[f] + "_median", Value(aggs.median(xs))),
                    Item(fields[f] + "_std", Value(aggs.std(xs)))];
    }
    assert fields[..|fields|] == fields && stats[..|fields|] == stats;
  }

  /** One specimen's pass of the second loop: copy fields, break count, the
      counts of every value of every counts field, five summaries per stats field. */
  method Summarize(schema: Schema, a: Accum, catValues: seq<seq<string>>, aggs: Aggregates)
    returns (items: seq<Item>)
    requires Shaped(schema, a) && a.breakCount > 0 && |catValues| == |schema.countsFields|
    ensures items == SummaryOf(schema, a, catValues, aggs)
  {
    items := AppendCopies([], schema.copyFields, a.copy);
    items := items + [Item("Break Count", Number(a.breakCount))];
    items := AppendAllCounts(items, schema.countsFields, a.cats, catValues);
    items := AppendAllStats(items, schema.statsFields, a.stats, aggs);
  }

  /** A specimen with its record. */
  datatype SpecimenRecord = SpecimenRecord(specimen: string, items: seq<Item>)

  /** The CSV table: the header line and one line per specimen. */
  datatype FragTable = FragTable(header: seq<string>, records: seq<SpecimenRecord>)

  /** Why no table is written: no specimen at all (the header reads the first
      record), or a specimen missing from the fragment table. */
  datatype FragError = NoSpecimens | MissingFragInfo(specimen: string)

  /** The fragment-table fields of specimen `s`, from its first row there
      (`frag_info[field].iloc[0]`). A specimen the table lacks fails as soon
      as one field is read, so only when there are fields to join. */
  function JoinItems(schema: Schema, fragInfo: map<string, seq<string>>, s: string): Option<seq<Item>>
    requires forall t :: t in fragInfo ==> |fragInfo[t]| == |schema.fragFields|
  {
    if schema.fragFields == [] then Some([])
    else if s in fragInfo then Some(CopyItems(schema.fragFields, fragInfo[s]))
    else None
  }

  /** The records with their joined fields, or the first specimen the
      fragment table lacks. */
  function Joined(schema: Schema, records: seq<SpecimenRecord>, fragInfo: map<string, seq<string>>)
    : Result<seq<SpecimenRecord>, FragError>
    requires forall t :: t in fragInfo ==> |fragInfo[t]| == |schema.fragFields|
    decreases |records|
  {
    if records == [] then Success([])
    else
      match JoinItems(schema, fragInfo, records[0].specimen)
      case None => Failure(MissingFragInfo(records[0].specimen))
      case Some(extra) =>
        var rest :- Joined(schema, records[1..], fragInfo);
        Success([SpecimenRecord(records[0].specimen, records[0].items + extra)] + rest)
  }

  /** `done` followed by the outcome for the remaining records. */
  function After(done: seq<SpecimenRecord>, pending: Result<seq<SpecimenRecord>, FragError>)
    : Result<seq<SpecimenRecord>, FragError>
  {
    match pending
    case Success(rest) => Success(done + rest)
    case Failure(e) => Failure(e)
  }

  /** Nothing done leaves the outcome as it is; one more record done moves it
      from the pending outcome to the done prefix. */
  lemma AfterSteps(done: seq<SpecimenRecord>, e: SpecimenRecord, pending: Result<seq<SpecimenRecord>, FragError>)
    ensures After([], pending) == pending
    ensures After(done, After([e], pending)) == After(done + [e], pending)
    ensures After(done, Success([])) == Success(done)
  {
    assert done + [] == done;
    if pending.Success? {
      assert [] + pending.value == pending.value;
      assert done + ([e] + pending.value) == done + [e] + pending.value;
    }
  }

  /** The summary records of the specimens, in first-appearance order. */
  function Summaries(schema: Schema, rows: seq<BreakRow>, aggs: Aggregates): (rs: seq<SpecimenRecord>)
    requires AllFit(schema, rows)
    ensures |rs| == |Dedup(Specimens(rows))|
  {
    var order := Dedup(Specimens(rows));
    var catValues := CatValues(schema, rows);
    seq(|order|, k requires 0 <= k < |order| =>
      SpecimenRecord(order[k], SummaryOf(schema, AccumOf(schema, rows, order[k]), catValues, aggs)))
  }

  /** What the scripts print: the header from the first record's keys, then
      each specimen's record. */
  function FragTableOf(schema: Schema, rows: seq<BreakRow>, aggs: Aggregates, fragInfo: map<string, seq<string>>)
    : Result<FragTable, FragError>
    requires AllFit(schema, rows)
    requires forall t :: t in fragInfo ==> |fragInfo[t]| == |schema.fragFields|
  {
    var joined :- Joined(schema, Summaries(schema, rows, aggs), fragInfo);
    if joined == [] then Failure(NoSpecimens)
    else Success(FragTable(["Specimen"] + KeysOf(joined[0].items), joined))
  }

  /** One record joined in place, and the outcome of the rest. */
  lemma JoinStep(schema: Schema, records: seq<SpecimenRecord>, fragInfo: map<string, seq<string>>, k: nat)
    requires forall t :: t in fragInfo ==> |fragInfo[t]| == |schema.fragFields|
    requires k < |records|
    ensures var extra := JoinItems(schema, fragInfo, records[k].specimen);
            var later := Joined(schema, records[k + 1..], fragInfo);
            && (extra.None? ==> Joined(schema, records[k..], fragInfo) == Failure(MissingFragInfo(records[k].specimen)))
            && (extra.Some? ==> Joined(schema, records[k..], fragInfo)
                                == After([SpecimenRecord(records[k].specimen, records[k].items + extra.value)], later))
  {
    assert records[k..][1..] == records[k + 1..];
  }

  /** The first pass and then the second loop, one record per specimen in
      first-appearance order. */
  method SummarizeAll(schema: Schema, rows: seq<BreakRow>, aggs: Aggregates) returns (records: seq<SpecimenRecord>)
    requires AllFit(schema, rows)
    ensures records == Summaries(schema, rows, aggs)
  {
    var order, data, catValues := BuildFragData(schema, rows);
    ghost var summaries := Summaries(schema, rows, aggs);
    records := [];
    for k := 0 to |order|
      invariant records == summaries[..k]
    {
      assert order[k] in Specimens(rows);
      var items := Summarize(schema, data[order[k]], catValues, aggs);
      records := records + [SpecimenRecord(order[k], items)];
    }
  }

  /** The join loop of preprocessing/compile_frag_level_ml.py (lines 80-85):
      each record in turn gets the fragment-table fields of its specimen. */
  method JoinAll(schema: Schema, records: seq<SpecimenRecord>, fragInfo: map<string, seq<string>>)
    returns (r: Result<seq<SpecimenRecord>, FragError>)
    requires forall t :: t in fragInfo ==> |fragInfo[t]| == |schema.fragFields|
    ensures r == Joined(schema, records, fragInfo)
  {
    var out := records;
    assert records[0..] == records && out[..0] == [];
    AfterSteps([], SpecimenRecord("", []), Joined(schema, records, fragInfo));
    for k := 0 to |out|
      invariant |out| == |records| && out[k..] == records[k..]
      invariant Joined(schema, records, fragInfo) == After(out[..k], Joined(schema, records[k..], fragInfo))
    {
      JoinStep(schema, records, fragInfo, k);
      ghost var later := Joined(schema, records[k + 1..], fragInfo);
      var extra: seq<Item> := [];
      if schema.fragFields != [] {
        if out[k].specimen !in fragInfo {
          return Failure(MissingFragInfo(out[k].specimen));
        }
        extra := CopyItems(schema.fragFields, fragInfo[out[k].specimen]);
      }
      ghost var done := out[..k];
      out := out[k := SpecimenRecord(out[k].specimen, out[k].items + extra)];
      assert out[..k + 1] == done + [out[k]];
      assert out[k + 1..] == records[k + 1..];
      AfterSteps(done, out[k], later);
    }
    assert records[|out|..] == [];
    assert out[..|out|] == out;
    AfterSteps(out, SpecimenRecord("", []), Success([]));
    return Success(out);
  }

  /** break_to_frag_level.py (lines 19-99) and
      preprocessing/compile_frag_level_ml.py (lines 20-100): the first pass, one
      record per specimen, the fragment-table join, and the header taken from
      the first record. */
  method FragLevelTable(schema: Schema, rows: seq<BreakRow>, aggs: Aggregates, fragInfo: map<string, seq<string>>)
    returns (r: Result<FragTable, FragError>)
    requires AllFit(schema, rows)
    requires forall t :: t in fragInfo ==> |fragInfo[t]| == |schema.fragFields|
    ensures r == FragTableOf(schema, rows, aggs, fragInfo)
  {
    var records := SummarizeAll(schema, rows, aggs);
    var joined := JoinAll(schema, records, fragInfo);
    if joined.Failure? {
      return Failure(joined.error);
    }
    if joined.value == [] {
      return Failure(NoSpecimens);
    }
    return Success(FragTable(["Specimen"] + KeysOf(joined.value[0].items), joined.value));
  }

  // ---------------------------------------------------------------------------
  // What the table holds

  /** The join fails exactly when some record's specimen has fields to join and
      no row in the fragment table. */
  lemma {:induction false} JoinedFails(schema: Schema, records: seq<SpecimenRecord>, fragInfo: map<string, seq<string>>)
    requires forall t :: t in fragInfo ==> |fragInfo[t]| == |schema.fragFields|
    ensures Joined(schema, records, fragInfo).Failure?
        <==> exists k :: 0 <= k < |records| && JoinItems(schema, fragInfo, records[k].specimen).None?
  {
    if records != [] {
      JoinedFails(schema, records[1..], fragInfo);
      if k :| 0 <= k < |records[1..]| && JoinItems(schema, fragInfo, records[1..][k].specimen).None? {
        assert records[k + 1] == records[1..][k];
      }
      if k :| 0 <= k < |records| && JoinItems(schema, fragInfo, records[k].specimen).None? {
        if k > 0 {
          assert records[1..][k - 1] == records[k];
        }
      }
    }
  }

  /** A successful join keeps the records in order and appends to each the
      fragment-table fields of its specimen. */
  lemma {:induction false} JoinedAt(schema: Schema, records: seq<SpecimenRecord>, fragInfo: map<string, seq<string>>, k: nat)
    requires forall t :: t in fragInfo ==> |fragInfo[t]| == |schema.fragFields|
    requires Joined(schema, records, fragInfo).Success? && k < |records|
    ensures var out := Joined(schema, records, fragInfo).value;
            var extra := JoinItems(schema, fragInfo, records[k].specimen);
            && |out| == |records| && extra.Some?
            && out[k] == SpecimenRecord(records[k].specimen, records[k].items + extra.value)
  {
    JoinedLength(schema, records, fragInfo);
    if k > 0 {
      assert records[1..][k - 1] == records[k];
      JoinedAt(schema, records[1..], fragInfo, k - 1);
    }
  }

  /** A successful join has one record per input record. */
  lemma {:induction false} JoinedLength(schema: Schema, records: seq<SpecimenRecord>, fragInfo: map<string, seq<string>>)
    requires forall t :: t in fragInfo ==> |fragInfo[t]| == |schema.fragFields|
    requires Joined(schema, records, fragInfo).Success?
    ensures |Joined(schema, records, fragInfo).value| == |records|
  {
    if records != [] {
      JoinedLength(schema, records[1..], fragInfo);
    }
  }

  /** The keys of two records one after the other. */
  lemma KeysOfAppend(a: seq<Item>, b: seq<Item>)
    ensures KeysOf(a + b) == KeysOf(a) + KeysOf(b)
  {
  }

  /** The table is refused exactly when there are no rows, or when a specimen
      has fields to join and no row in the fragment table; no rows gives
      `NoSpecimens`. */
  lemma FragTableFails(schema: Schema, rows: seq<BreakRow>, aggs: Aggregates, fragInfo: map<string, seq<string>>)
    requires AllFit(schema, rows)
    requires forall t :: t in fragInfo ==> |fragInfo[t]| == |schema.fragFields|
    ensures rows == [] ==> FragTableOf(schema, rows, aggs, fragInfo) == Failure(NoSpecimens)
    ensures FragTableOf(schema, rows, aggs, fragInfo).Failure?
        <==> rows == [] || (schema.fragFields != [] && exists i :: 0 <= i < |rows| && rows[i].specimen !in fragInfo)
  {
    if rows == [] {
      assert Summaries(schema, rows, aggs) == [];
    } else if Joined(schema, Summaries(schema, rows, aggs), fragInfo).Success? {
      FragTableNotEmpty(schema, rows, aggs, fragInfo);
      if i :| 0 <= i < |rows| && rows[i].specimen !in fragInfo && schema.fragFields != [] {
        FragTableFailsAt(schema, rows, aggs, fragInfo, i);
      }
    } else {
      FragTableFailsWitness(schema, rows, aggs, fragInfo);
    }
  }

  /** A row whose specimen has no fragment-table row refuses the table when
      there are fields to join. */
  lemma FragTableFailsAt(schema: Schema, rows: seq<BreakRow>, aggs: Aggregates, fragInfo: map<string, seq<string>>, i: nat)
    requires AllFit(schema, rows)
    requires forall t :: t in fragInfo ==> |fragInfo[t]| == |schema.fragFields|
    requires i < |rows| && rows[i].specimen !in fragInfo && schema.fragFields != []
    ensures Joined(schema, Summaries(schema, rows, aggs), fragInfo).Failure?
  {
    var summaries := Summaries(schema, rows, aggs);
    var order := Dedup(Specimens(rows));
    JoinedFails(schema, summaries, fragInfo);
    DedupMembers(Specimens(rows));
    assert rows[i].specimen in order;
    var k :| 0 <= k < |order| && order[k] == rows[i].specimen;
    assert summaries[k].specimen == rows[i].specimen;
    assert JoinItems(schema, fragInfo, summaries[k].specimen).None?;
  }

  /** A refused join names a specimen of some row that has no fragment-table row. */
  lemma FragTableFailsWitness(schema: Schema, rows: seq<BreakRow>, aggs: Aggregates, fragInfo: map<string, seq<string>>)
    requires AllFit(schema, rows)
    requires forall t :: t in fragInfo ==> |fragInfo[t]| == |schema.fragFields|
    requires Joined(schema, Summaries(schema, rows, aggs), fragInfo).Failure?
    ensures schema.fragFields != [] && exists i :: 0 <= i < |rows| && rows[i].specimen !in fragInfo
  {
    var summaries := Summaries(schema, rows, aggs);
    var order := Dedup(Specimens(rows));
    JoinedFails(schema, summaries, fragInfo);
    var k :| 0 <= k < |summaries| && JoinItems(schema, fragInfo, summaries[k].specimen).None?;
    assert summaries[k].specimen == order[k];
    assert order[k] in Specimens(rows);
    var i :| 0 <= i < |rows| && Specimens(rows)[i] == order[k];
    assert rows[i].specimen !in fragInfo;
  }

  /** A successful join of one or more rows is not empty. */
  lemma FragTableNotEmpty(schema: Schema, rows: seq<BreakRow>, aggs: Aggregates, fragInfo: map<string, seq<string>>)
    requires AllFit(schema, rows) && rows != []
    requires forall t :: t in fragInfo ==> |fragInfo[t]| == |schema.fragFields|
    requires Joined(schema, Summaries(schema, rows, aggs), fragInfo).Success?
    ensures Joined(schema, Summaries(schema, rows, aggs), fragInfo).value != []
  {
    assert Specimens(rows)[0] in Dedup(Specimens(rows));
    JoinedLength(schema, Summaries(schema, rows, aggs), fragInfo);
  }

  /** Record `k` of a table: the `k`-th specimen in first-appearance order,
      with the shared layout followed by the joined fields, and its break count. */
  lemma FragRecordKeys(schema: Schema, rows: seq<BreakRow>, aggs: Aggregates, fragInfo: map<string, seq<string>>, k: nat)
    requires AllFit(schema, rows)
    requires forall t :: t in fragInfo ==> |fragInfo[t]| == |schema.fragFields|
    requires FragTableOf(schema, rows, aggs, fragInfo).Success?
    requires k < |Dedup(Specimens(rows))|
    ensures var t := FragTableOf(schema, rows, aggs, fragInfo).value;
            var order := Dedup(Specimens(rows));
            && |t.records| == |order|
            && t.records[k].specimen == order[k]
            && KeysOf(t.records[k].items) == Layout(schema, CatValues(schema, rows)) + schema.fragFields
            && t.records[k].items[|schema.copyFields|] == Item("Break Count", Number(Count(Specimens(rows), order[k])))
  {
    var order := Dedup(Specimens(rows));
    var catValues := CatValues(schema, rows);
    FragRecordIs(schema, rows, aggs, fragInfo, k);
    var s := order[k];
    assert s in Specimens(rows);
    var a := AccumOf(schema, rows, s);
    var extra := JoinItems(schema, fragInfo, s).value;
    SummaryKeys(schema, a, catValues, aggs);
    KeysOfAppend(SummaryOf(schema, a, catValues, aggs), extra);
    assert KeysOf(extra) == schema.fragFields;
    AccumIsRowsOf(schema, rows, s);
    RowsOfCount(rows, s);
    var c := CopyItems(schema.copyFields, a.copy);
    assert SummaryOf(schema, a, catValues, aggs)[|c|] == Item("Break Count", Number(a.breakCount));
  }

  /** Record `k` of a table is the summary of the `k`-th specimen followed by
      its fragment-table fields. */
  lemma FragRecordIs(schema: Schema, rows: seq<BreakRow>, aggs: Aggregates, fragInfo: map<string, seq<string>>, k: nat)
    requires AllFit(schema, rows)
    requires forall t :: t in fragInfo ==> |fragInfo[t]| == |schema.fragFields|
    requires FragTableOf(schema, rows, aggs, fragInfo).Success?
    requires k < |Dedup(Specimens(rows))|
    ensures var t := FragTableOf(schema, rows, aggs, fragInfo).value;
            var s := Dedup(Specimens(rows))[k];
            var extra := JoinItems(schema, fragInfo, s);
            && |t.records| == |Dedup(Specimens(rows))| && extra.Some?
            && t.records[k]
               == SpecimenRecord(s, SummaryOf(schema, AccumOf(schema, rows, s), CatValues(schema, rows), aggs) + extra.value)
  {
    var summaries := Summaries(schema, rows, aggs);
    JoinedLength(schema, summaries, fragInfo);
    JoinedAt(schema, summaries, fragInfo, k);
  }

  /** A table's header is 'Specimen' followed by the shared layout and the
      joined fields. */
  lemma FragTableHeader(schema: Schema, rows: seq<BreakRow>, aggs: Aggregates, fragInfo: map<string, seq<string>>)
    requires AllFit(schema, rows)
    requires forall t :: t in fragInfo ==> |fragInfo[t]| == |schema.fragFields|
    requires FragTableOf(schema, rows, aggs, fragInfo).Success?
    ensures var t := FragTableOf(schema, rows, aggs, fragInfo).value;
            var layout := Layout(schema, CatValues(schema, rows)) + schema.fragFields;
            && 0 < |t.records| == |Dedup(Specimens(rows))|
            && t.header == ["Specimen"] + layout
            && t.header[1..] == layout
  {
    var layout := Layout(schema, CatValues(schema, rows)) + schema.fragFields;
    JoinedLength(schema, Summaries(schema, rows, aggs), fragInfo);
    FragRecordKeys(schema, rows, aggs, fragInfo, 0);
    DropCons("Specimen", layout);
  }

  /** Record `k` against the header: its keys are the header after 'Specimen'. */
  lemma FragRecordAt(schema: Schema, rows: seq<BreakRow>, aggs: Aggregates, fragInfo: map<string, seq<string>>, k: nat)
    requires AllFit(schema, rows)
    requires forall t :: t in fragInfo ==> |fragInfo[t]| == |schema.fragFields|
    requires FragTableOf(schema, rows, aggs, fragInfo).Success?
    requires k < |Dedup(Specimens(rows))|
    ensures var t := FragTableOf(schema, rows, aggs, fragInfo).value;
            var order := Dedup(Specimens(rows));
            && t.header == ["Specimen"] + (Layout(schema, CatValues(schema, rows)) + schema.fragFields)
            && |t.records| == |order|
            && t.records[k].specimen == order[k]
            && KeysOf(t.records[k].items) == t.header[1..]
            && t.records[k].items[|schema.copyFields|] == Item("Break Count", Number(Count(Specimens(rows), order[k])))
  {
    FragTableHeader(schema, rows, aggs, fragInfo);
    FragRecordKeys(schema, rows, aggs, fragInfo, k);
  }

  /** A table has one record per specimen, in first-appearance order; every
      record has the keys of the header after 'Specimen': the shared layout
      followed by the joined fields; and each record's break count is the
      number of rows naming its specimen. */
  lemma FragTableRecords(schema: Schema, rows: seq<BreakRow>, aggs: Aggregates, fragInfo: map<string, seq<string>>)
    requires AllFit(schema, rows)
    requires forall t :: t in fragInfo ==> |fragInfo[t]| == |schema.fragFields|
    requires FragTableOf(schema, rows, aggs, fragInfo).Success?
    ensures var t := FragTableOf(schema, rows, aggs, fragInfo).value;
            var order := Dedup(Specimens(rows));
            && t.header == ["Specimen"] + (Layout(schema, CatValues(schema, rows)) + schema.fragFields)
            && |t.records| == |order|
            && forall k :: 0 <= k < |order| ==>
                 && t.records[k].specimen == order[k]
                 && KeysOf(t.records[k].items) == t.header[1..]
                 && t.records[k].items[|schema.copyFields|] == Item("Break Count", Number(Count(Specimens(rows), order[k])))
  {
    var order := Dedup(Specimens(rows));
    FragRecordAt(schema, rows, aggs, fragInfo, 0);
    forall k | 0 <= k < |order| {
      FragRecordAt(schema, rows, aggs, fragInfo, k);
    }
  }
}
