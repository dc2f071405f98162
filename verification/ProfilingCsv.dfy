/**
 Enrichment of a profiling CSV with the names of the source operators, following
 qcom/tools/op_trace_matcher/enrich_profiling_csv.py. A CSV is its header and its rows of cells.
 */
module ProfilingCsv {
  import opened Text
  import opened Wrappers

  const EventIdentifier := "Event Identifier"
  const SourceOps := "ONNX Source Ops"
  const OriginalSourceOps := "Original ONNX Source Ops"

  type Row = seq<string>

  /** The lines of the file; the first one is the header. */
  type Csv = seq<Row>

  datatype Source = Source(kind: string, name: string)

  /** A missing name is empty, missing sources are none. */
  datatype Mapping = Mapping(dst: string, original: seq<Source>, sources: seq<Source>)

  type Lookup = map<string, seq<Source>>

  datatype Error = EmptyCsv | MissingIdentifier | AlreadyEnriched

  /** The statistics that the rows add up to. */
  datatype Counts = Counts(withIdentifier: nat, enrichedOriginals: nat, enrichedOptimized: nat, unresolved: nat)

  datatype Stats = Stats(rowsTotal: nat, counts: Counts, addedOptimizedColumn: bool, filledExistingColumn: bool, nodeEventsPresent: bool)

  datatype Outcome = Refused(error: Error) | Copied(csv: Csv, stats: Stats) | Enriched(csv: Csv, stats: Stats)

  // ---------------------------------------------------------------- cells

  /** header.index(name), or the width. */
  function Index(header: Row, name: string): (i: nat)
    ensures i <= |header| && (i < |header| <==> name in header)
    ensures i < |header| ==> header[i] == name
  {
    if header == [] || header[0] == name then 0 else 1 + Index(header[1..], name)
  }

  const OpId := ":OpId_"

  function StripOpIdSuffix(identifier: string): string {
    if identifier == [] || StartsWith(identifier, OpId) then [] else [identifier[0]] + StripOpIdSuffix(identifier[1..])
  }

  lemma StripStep(s: string)
    requires s != [] && s[0] != ':'
    ensures StripOpIdSuffix(s) == [s[0]] + StripOpIdSuffix(s[1..])
  {
    assert OpId[0] == ':';
  }

  /** Whatever the unit and the number of the operator, its name is recovered. */
  lemma {:induction false} SuffixStripped(op: string, rest: string)
    requires Free(op, ':')
    ensures StripOpIdSuffix(op + OpId + rest) == op == StripOpIdSuffix(op)
  {
    var s := op + OpId + rest;
    if op == "" {
      assert s[..|OpId|] == OpId;
    } else {
      hide StripOpIdSuffix, OpId;
      assert s[1..] == op[1..] + OpId + rest && s[0] == op[0] != ':';
      SuffixStripped(op[1..], rest);
      StripStep(s);
      StripStep(op);
    }
  }

  function OpNames(sources: seq<Source>): seq<string> {
    if sources == [] then []
    else (if sources[0].kind == "OP" && sources[0].name != "" then [sources[0].name] else []) + OpNames(sources[1..])
  }

  function FormatOpSources(sources: seq<Source>): string { Join(OpNames(sources), ';') }

  /** The cell for an operator; no entry gives an empty one. */
  function Cell(lookup: Lookup, op: string): string {
    if op in lookup then FormatOpSources(lookup[op]) else ""
  }

  predicate IsNode(row: Row, id: nat) { id < |row| && row[id] != "" }

  predicate HasData(row: Row, id: nat, src: nat) { IsNode(row, id) && src < |row| && row[src] != "" }

  // ---------------------------------------------------------------- lookups

  function Chain(m: Mapping, original: bool): seq<Source> { if original then m.original else m.sources }

  /** The last non-empty chain that a mapping gives for the operator. */
  function Last(mappings: seq<Mapping>, op: string, original: bool): Option<seq<Source>> {
    if mappings == [] then None
    else
      var m := mappings[|mappings| - 1];
      if m.dst == op && op != "" && Chain(m, original) != [] then Some(Chain(m, original)) else Last(mappings[..|mappings| - 1], op, original)
  }

  function LookupOf(mappings: seq<Mapping>, original: bool): Lookup {
    if mappings == [] then map[]
    else
      var m, before := mappings[|mappings| - 1], LookupOf(mappings[..|mappings| - 1], original);
      if m.dst != "" && Chain(m, original) != [] then before[m.dst := Chain(m, original)] else before
  }

  /** Each operator is looked up to the last non-empty chain that the mappings of all subgraphs give for it. */
  lemma {:induction false} LookupIsLast(mappings: seq<Mapping>, original: bool, op: string)
    ensures var lookup := LookupOf(mappings, original);
            (if op in lookup then Some(lookup[op]) else None) == Last(mappings, op, original)
  {
    if mappings == [] {
    } else {
      LookupIsLast(mappings[..|mappings| - 1], original, op);
    }
  }

  method BuildLookups(mappings: seq<Mapping>) returns (originals: Lookup, optimized: Lookup)
    ensures originals == LookupOf(mappings, true) && optimized == LookupOf(mappings, false)
  {
    originals, optimized := map[], map[];
    for i := 0 to |mappings|
      invariant originals == LookupOf(mappings[..i], true) && optimized == LookupOf(mappings[..i], false)
    {
      var m := mappings[i];
      assert mappings[..i + 1][..i] == mappings[..i] && mappings[..i + 1][i] == m;
      if m.dst != "" {
        if m.original != [] {
          originals := originals[m.dst := m.original];
        }
        if m.sources != [] {
          optimized := optimized[m.dst := m.sources];
        }
      }
    }
    assert mappings[..|mappings|] == mappings;
  }

  // ---------------------------------------------------------------- rows

  datatype Layout = Layout(id: nat, src: nat, synthesize: bool, fill: bool)

  /** How the columns are treated, from the header and the rows. */
  function LayoutOf(header: Row, rows: seq<Row>): Layout {
    var id, src := Index(header, EventIdentifier), Index(header, SourceOps);
    Layout(id, src, src == |header|, src < |header| && forall i :: 0 <= i < |rows| ==> !HasData(rows[i], id, src))
  }

  function OutHeader(header: Row, l: Layout): Row {
    header + (if l.synthesize then [SourceOps, OriginalSourceOps] else [OriginalSourceOps])
  }

  function Padded(row: Row, n: nat): (r: Row)
    ensures |r| == if n <= |row| then |row| else n
    ensures row <= r
  {
    if n <= |row| then row else row + seq(n - |row|, _ => "")
  }

  function OutRow(row: Row, l: Layout, originals: Lookup, optimized: Lookup): Row {
    if IsNode(row, l.id) then
      var op := StripOpIdSuffix(row[l.id]);
      if l.fill then Padded(row, l.src + 1)[l.src := Cell(optimized, op)] + [Cell(originals, op)]
      else row + (if l.synthesize then [Cell(optimized, op), Cell(originals, op)] else [Cell(originals, op)])
    else row + (if l.synthesize then ["", ""] else [""])
  }

  function OutRows(rows: seq<Row>, l: Layout, originals: Lookup, optimized: Lookup): (out: seq<Row>)
    ensures |out| == |rows| && forall i :: 0 <= i < |rows| ==> out[i] == OutRow(rows[i], l, originals, optimized)
  {
    seq(|rows|, i requires 0 <= i < |rows| => OutRow(rows[i], l, originals, optimized))
  }

  predicate AnyNode(rows: seq<Row>, id: nat) { exists i :: 0 <= i < |rows| && IsNode(rows[i], id) }

  /** The result in terms of the whole table. */
  function Result(csv: Csv, originals: Lookup, optimized: Lookup): Outcome {
    if csv == [] then Refused(EmptyCsv)
    else
      var header, rows := csv[0], csv[1..];
      if EventIdentifier !in header then Refused(MissingIdentifier)
      else if OriginalSourceOps in header then Refused(AlreadyEnriched)
      else
        var l := LayoutOf(header, rows);
        if !AnyNode(rows, l.id) then Copied(csv, Stats(|rows|, Counts(0, 0, 0, 0), false, false, false))
        else
          Enriched([OutHeader(header, l)] + OutRows(rows, l, originals, optimized),
                   Stats(|rows|, CountsOf(rows, l, originals, optimized), l.synthesize, l.fill, true))
  }

  /** What a row adds to the statistics. */
  function RowCounts(row: Row, l: Layout, originals: Lookup, optimized: Lookup): Counts {
    if !IsNode(row, l.id) then Counts(0, 0, 0, 0)
    else
      var op := StripOpIdSuffix(row[l.id]);
      Counts(1,
             if Cell(originals, op) != "" then 1 else 0,
             if (l.synthesize || l.fill) && Cell(optimized, op) != "" then 1 else 0,
             if op !in originals && op !in optimized then 1 else 0)
  }

  function Plus(a: Counts, b: Counts): Counts {
    Counts(a.withIdentifier + b.withIdentifier, a.enrichedOriginals + b.enrichedOriginals,
           a.enrichedOptimized + b.enrichedOptimized, a.unresolved + b.unresolved)
  }

  function CountsOf(rows: seq<Row>, l: Layout, originals: Lookup, optimized: Lookup): Counts {
    if rows == [] then Counts(0, 0, 0, 0)
    else Plus(CountsOf(rows[..|rows| - 1], l, originals, optimized), RowCounts(rows[|rows| - 1], l, originals, optimized))
  }

  method Enrich(csv: Csv, mappings: seq<Mapping>) returns (outcome: Outcome)
    ensures outcome == Result(csv, LookupOf(mappings, true), LookupOf(mappings, false))
    ensures forall i :: 1 <= i < |csv| && |csv[i]| == |csv[0]| ==> CellsName(csv, mappings, i, outcome)
  {
    hide StripOpIdSuffix, Cell, LookupOf, CountsOf, CellsName;
    forall i | 1 <= i < |csv| && |csv[i]| == |csv[0]|
      ensures CellsName(csv, mappings, i, Result(csv, LookupOf(mappings, true), LookupOf(mappings, false)))
    {
      EnrichedCellsName(csv, mappings, i);
    }
    var originalsLookup, optimizedLookup := BuildLookups(mappings);
    if csv == [] {
      return Refused(EmptyCsv);
    }
    var header, rows := csv[0], csv[1..];
    if EventIdentifier !in header {
      return Refused(MissingIdentifier);
    }
    var id, src := Index(header, EventIdentifier), Index(header, SourceOps);
    var hasNodeEvents := AnyNode(rows, id);
    var hasData := false;
    if src < |header| {
      hasData := ScanSourceColumn(rows, id, src);
    }
    if OriginalSourceOps in header {
      return Refused(AlreadyEnriched);
    }
    if !hasNodeEvents {
      return Copied(csv, Stats(|rows|, Counts(0, 0, 0, 0), false, false, hasNodeEvents));
    }
    var layout := Layout(id, src, src == |header|, src < |header| && !hasData);
    assert layout == LayoutOf(header, rows);
    var out, counts := WriteRows(rows, layout, originalsLookup, optimizedLookup);
    outcome := Enriched([OutHeader(header, layout)] + out, Stats(|rows|, counts, layout.synthesize, layout.fill, hasNodeEvents));
  }

  method ScanSourceColumn(rows: seq<Row>, id: nat, src: nat) returns (hasData: bool)
    ensures hasData <==> exists i :: 0 <= i < |rows| && HasData(rows[i], id, src)
  {
    for i := 0 to |rows|
      invariant forall k :: 0 <= k < i ==> !HasData(rows[k], id, src)
    {
      if id < |rows[i]| && rows[i][id] != "" && src < |rows[i]| && rows[i][src] != "" {
        assert HasData(rows[i], id, src);
        return true;
      }
    }
    return false;
  }

  method WriteRow(row: Row, l: Layout, originals: Lookup, optimized: Lookup, before: Counts) returns (out: Row, counts: Counts)
    ensures out == OutRow(row, l, originals, optimized)
    ensures counts == Plus(before, RowCounts(row, l, originals, optimized))
  {
    hide StripOpIdSuffix, Cell;
    counts := before;
    if l.id < |row| && row[l.id] != "" {
      counts := counts.(withIdentifier := counts.withIdentifier + 1);
      var qnnOp := StripOpIdSuffix(row[l.id]);
      if qnnOp !in originals && qnnOp !in optimized {
        counts := counts.(unresolved := counts.unresolved + 1);
      }
      var originalsStr, optimizedStr := Cell(originals, qnnOp), Cell(optimized, qnnOp);
      if originalsStr != "" {
        counts := counts.(enrichedOriginals := counts.enrichedOriginals + 1);
      }
      if (l.synthesize || l.fill) && optimizedStr != "" {
        counts := counts.(enrichedOptimized := counts.enrichedOptimized + 1);
      }
      if l.fill {
        var rowOut := Padded(row, l.src + 1);
        rowOut := rowOut[l.src := optimizedStr];
        out := rowOut + [originalsStr];
      } else {
        out := row + if l.synthesize then [optimizedStr, originalsStr] else [originalsStr];
      }
    } else {
      out := row + if l.synthesize then ["", ""] else [""];
    }
  }

  method WriteRows(rows: seq<Row>, l: Layout, originals: Lookup, optimized: Lookup) returns (out: seq<Row>, counts: Counts)
    ensures out == OutRows(rows, l, originals, optimized)
    ensures counts == CountsOf(rows, l, originals, optimized)
  {
    hide OutRow, RowCounts;
    out, counts := [], Counts(0, 0, 0, 0);
    for i := 0 to |rows|
      invariant |out| == i && forall k :: 0 <= k < i ==> out[k] == OutRow(rows[k], l, originals, optimized)
      invariant counts == CountsOf(rows[..i], l, originals, optimized)
    {
      assert rows[..i + 1][..i] == rows[..i] && rows[..i + 1][i] == rows[i];
      var row;
      row, counts := WriteRow(rows[i], l, originals, optimized, counts);
      out := out + [row];
    }
    assert rows[..|rows|] == rows;
  }

  // ---------------------------------------------------------------- what is kept and what is added

  /** The cell of a row under a column name, as a reader that goes by the header sees it. */
  function Under(header: Row, row: Row, name: string): string {
    var j := Index(header, name);
    if j < |header| && j < |row| then row[j] else ""
  }

  lemma {:induction false} IndexAppend(header: Row, more: Row, name: string)
    ensures Index(header + more, name) == if name in header then Index(header, name) else |header| + Index(more, name)
  {
    if header == [] {
      assert header + more == more;
    } else {
      assert (header + more)[1..] == header[1..] + more;
      if header[0] != name { IndexAppend(header[1..], more, name); }
    }
  }

  lemma ColumnNamesDiffer()
    ensures EventIdentifier != SourceOps && SourceOps != OriginalSourceOps && EventIdentifier != OriginalSourceOps
  {
    assert EventIdentifier[0] == 'E' && SourceOps[1] == 'N' && OriginalSourceOps[0] == 'O' && OriginalSourceOps[1] == 'r';
  }

  /** The identifier of a node row, without its suffix. */
  function OpOf(row: Row, id: nat): string { if id < |row| then StripOpIdSuffix(row[id]) else "" }

  ghost predicate Rectangular(csv: Csv) { forall i :: 0 <= i < |csv| ==> |csv[i]| == |csv[0]| }

  lemma NewHeader(header: Row, l: Layout, name: string)
    requires OriginalSourceOps !in header && l.synthesize == (SourceOps !in header)
    ensures name in header ==> Index(OutHeader(header, l), name) == Index(header, name)
    ensures Index(OutHeader(header, l), OriginalSourceOps) == |header| + (if l.synthesize then 1 else 0)
    ensures l.synthesize ==> Index(OutHeader(header, l), SourceOps) == |header|
  {
    ColumnNamesDiffer();
    var more := if l.synthesize then [SourceOps, OriginalSourceOps] else [OriginalSourceOps];
    assert more[1..] == if l.synthesize then [OriginalSourceOps] else [];
    IndexAppend(header, more, name);
    IndexAppend(header, more, OriginalSourceOps);
    IndexAppend(header, more, SourceOps);
  }

  /** The width of a row once a node row is padded up to a source column that is filled. */
  function PaddedWidth(row: Row, l: Layout): nat {
    if l.fill && IsNode(row, l.id) && l.src >= |row| then l.src + 1 else |row|
  }

  /**
   The last cell of an output row is the new one. It stands in its column, and the row has the width of the
   output header, exactly when the padded input row had the width of its header.
   */
  lemma NewCellPlaced(header: Row, row: Row, l: Layout, originals: Lookup, optimized: Lookup)
    requires OriginalSourceOps !in header && l.synthesize == (SourceOps !in header) && !(l.fill && l.synthesize)
    ensures var out, h := OutRow(row, l, originals, optimized), OutHeader(header, l);
            && out != [] && out[|out| - 1] == (if IsNode(row, l.id) then Cell(originals, OpOf(row, l.id)) else "")
            && (|out| - 1 == Index(h, OriginalSourceOps) <==> PaddedWidth(row, l) == |header|)
            && (|out| == |h| <==> PaddedWidth(row, l) == |header|)
  {
    NewHeader(header, l, SourceOps);
    hide StripOpIdSuffix, Cell, Index;
  }

  /** A row that is too short: the operator's sources stand under another column, and its original sources under none. */
  lemma ShortRowMisplaced(op: string, originals: Lookup, optimized: Lookup)
    requires op != ""
    ensures var header, row := [EventIdentifier, "Time"], [op];
            var l := LayoutOf(header, [row]);
            var h, out := OutHeader(header, l), OutRow(row, l, originals, optimized);
            && Under(h, out, "Time") == Cell(optimized, StripOpIdSuffix(op))
            && Under(h, out, SourceOps) == Cell(originals, StripOpIdSuffix(op))
            && Under(h, out, OriginalSourceOps) == ""
  {
    ColumnNamesDiffer();
    var header, row := [EventIdentifier, "Time"], [op];
    assert "Time"[0] == 'T' && EventIdentifier[0] == 'E' && SourceOps[0] == 'O' && OriginalSourceOps[0] == 'O';
    assert header[1..] == ["Time"] && header[1..][1..] == [];
    assert Index(header, EventIdentifier) == 0 && Index(header, SourceOps) == 2 && Index(header, "Time") == 1;
    var l := LayoutOf(header, [row]);
    assert l.id == 0 && l.src == 2 && l.synthesize && !l.fill;
    hide StripOpIdSuffix, Cell, Index, LayoutOf;
    NewHeader(header, l, "Time");
  }

  /**
   Row by row and column by column of a rectangular table: old cells are kept, except that the source column,
   if it is empty on all node rows, is filled there; the new columns hold the names that the trace gives for the
   operator of a node row, and nothing on other rows.
   */
  lemma RowByName(header: Row, row: Row, l: Layout, originals: Lookup, optimized: Lookup, name: string)
    requires |row| == |header| && OriginalSourceOps !in header
    requires l.src == Index(header, SourceOps) && l.synthesize == (l.src == |header|) && (l.fill ==> l.src < |header|)
    ensures var h, out, op := OutHeader(header, l), OutRow(row, l, originals, optimized), OpOf(row, l.id);
            var filled := l.fill && IsNode(row, l.id);
            && |out| == |h|
            && (name in header && !(filled && name == SourceOps) ==> Under(h, out, name) == Under(header, row, name))
            && (filled ==> Under(h, out, SourceOps) == Cell(optimized, op))
            && (l.synthesize ==> Under(h, out, SourceOps) == if IsNode(row, l.id) then Cell(optimized, op) else "")
            && Under(h, out, OriginalSourceOps) == (if IsNode(row, l.id) then Cell(originals, op) else "")
  {
    NewHeader(header, l, name);
    NewHeader(header, l, SourceOps);
    var j := Index(header, name);
    assert name in header && name != SourceOps && l.src < |header| ==> j != l.src;
    hide StripOpIdSuffix, Cell, Index;
  }

  /**
   Enriching keeps the number and the order of the rows, and no cell that had content is lost or changed; the
   only column in which any cell changes is the source column. A rectangular table stays rectangular, and its
   new column holds what the trace gives.
   */
  lemma EnrichmentKeeps(csv: Csv, originals: Lookup, optimized: Lookup, i: nat)
    requires Result(csv, originals, optimized).Enriched? && 1 <= i < |csv|
    ensures var out := Result(csv, originals, optimized).csv;
            && |out| == |csv| && csv[0] <= out[0] && |csv[i]| < |out[i]|
            && (forall j :: 0 <= j < |csv[i]| && (csv[i][j] != "" || j != Index(csv[0], SourceOps)) ==> out[i][j] == csv[i][j])
            && (Rectangular(csv) ==> Rectangular(out))
            && var id := Index(csv[0], EventIdentifier);
               |csv[i]| == |csv[0]| ==>
               Under(out[0], out[i], OriginalSourceOps) == if IsNode(csv[i], id) then Cell(originals, OpOf(csv[i], id)) else ""
  {
    hide StripOpIdSuffix, Cell, Result, OutRow, Under, OutHeader, HasData;
    var header, rows := csv[0], csv[1..];
    var l := LayoutOf(header, rows);
    var out := Result(csv, originals, optimized).csv;
    EnrichedTable(csv, originals, optimized);
    HeaderKept(header, l);
    assert rows[i - 1] == csv[i];
    RowKept(csv[i], l, originals, optimized);
    if |csv[i]| == |header| { RowByName(header, csv[i], l, originals, optimized, SourceOps); }
    if Rectangular(csv) {
      forall k | 1 <= k < |csv| ensures |out[k]| == |out[0]| { RowByName(header, csv[k], l, originals, optimized, SourceOps); }
    }
  }

  lemma HeaderKept(header: Row, l: Layout)
    ensures header <= OutHeader(header, l)
  {
  }

  lemma RowKept(row: Row, l: Layout, originals: Lookup, optimized: Lookup)
    requires l.fill ==> !HasData(row, l.id, l.src)
    ensures var out := OutRow(row, l, originals, optimized);
            && |row| < |out|
            && forall j :: 0 <= j < |row| && (row[j] != "" || j != l.src) ==> out[j] == row[j]
  {
    hide StripOpIdSuffix, Cell;
  }

  lemma EnrichedTable(csv: Csv, originals: Lookup, optimized: Lookup)
    requires Result(csv, originals, optimized).Enriched?
    ensures csv != [] && OriginalSourceOps !in csv[0]
    ensures var out, l := Result(csv, originals, optimized).csv, LayoutOf(csv[0], csv[1..]);
            && |out| == |csv| && out[0] == OutHeader(csv[0], l)
            && forall k :: 1 <= k < |csv| ==> out[k] == OutRow(csv[k], l, originals, optimized)
  {
    hide StripOpIdSuffix, Cell, CountsOf, OutRow, LayoutOf, OutHeader;
    var out, l := Result(csv, originals, optimized).csv, LayoutOf(csv[0], csv[1..]);
    forall k | 1 <= k < |csv| ensures out[k] == OutRow(csv[k], l, originals, optimized) {
      assert out[k] == OutRows(csv[1..], l, originals, optimized)[k - 1] && csv[1..][k - 1] == csv[k];
    }
  }

  // ---------------------------------------------------------------- what a cell names

  /** The parts are the names at the given positions of the sources, which are those of the named operators. */
  ghost predicate NamesAt(parts: seq<string>, sources: seq<Source>, at: seq<int>) {
    && |at| == |parts|
    && (forall j, k :: 0 <= j < k < |at| ==> at[j] < at[k])
    && (forall k :: 0 <= k < |at| ==> 0 <= at[k] < |sources| && sources[at[k]] == Source("OP", parts[k]) && parts[k] != "")
    && (forall i :: 0 <= i < |sources| && sources[i].kind == "OP" && sources[i].name != "" ==> i in at)
  }

  lemma {:induction false} OpNamesAt(sources: seq<Source>) returns (at: seq<int>)
    ensures NamesAt(OpNames(sources), sources, at)
  {
    if sources == [] {
      at := [];
    } else {
      var before, x := sources[..|sources| - 1], sources[|sources| - 1];
      var rest := OpNamesAt(before);
      assert sources == before + [x];
      OpNamesSnoc(before, x);
      hide OpNames, NamesAt;
      if x.kind == "OP" && x.name != "" {
        at := rest + [|before|];
        OneMore(OpNames(before), before, rest, x);
      } else {
        at := rest;
        NoMore(OpNames(before), before, rest, x);
      }
    }
  }

  lemma OneMore(parts: seq<string>, sources: seq<Source>, at: seq<int>, x: Source)
    requires NamesAt(parts, sources, at) && x.kind == "OP" && x.name != ""
    ensures NamesAt(parts + [x.name], sources + [x], at + [|sources|])
  {
    forall i | 0 <= i < |sources| && sources[i].kind == "OP" && sources[i].name != "" ensures i in at + [|sources|] {
      assert i in at;
    }
    assert (at + [|sources|])[|at|] == |sources|;
  }

  lemma NoMore(parts: seq<string>, sources: seq<Source>, at: seq<int>, x: Source)
    requires NamesAt(parts, sources, at) && !(x.kind == "OP" && x.name != "")
    ensures NamesAt(parts, sources + [x], at)
  {
  }

  lemma {:induction false} OpNamesSnoc(s: seq<Source>, x: Source)
    ensures OpNames(s + [x]) == OpNames(s) + if x.kind == "OP" && x.name != "" then [x.name] else []
  {
    if s == [] {
      assert s + [x] == [x] && [x][1..] == [];
    } else {
      assert (s + [x])[1..] == s[1..] + [x];
      OpNamesSnoc(s[1..], x);
    }
  }

  ghost predicate NamesOperator(sources: seq<Source>) {
    exists i :: 0 <= i < |sources| && sources[i].kind == "OP" && sources[i].name != ""
  }

  /**
   A cell is empty exactly when the sources name no operator. Otherwise, when no name has a semicolon, it
   splits into the names of the operators, each as often and in the order in which they are sources.
   */
  ghost predicate Lists(cell: string, sources: seq<Source>) {
    && (cell == "" <==> !NamesOperator(sources))
    && ((forall i :: 0 <= i < |sources| ==> Free(sources[i].name, ';')) ==>
        && (forall n :: n != "" ==> (n in Split(cell, ';') <==> Source("OP", n) in sources))
        && (cell != "" ==> exists at :: NamesAt(Split(cell, ';'), sources, at)))
  }

  lemma CellLists(sources: seq<Source>)
    ensures Lists(FormatOpSources(sources), sources)
  {
    var at := OpNamesAt(sources);
    var names, cell := OpNames(sources), FormatOpSources(sources);
    hide OpNames, Split, Join;
    EmptyJoin(names);
    assert names == [] <==> !NamesOperator(sources) by {
      if names != [] { assert sources[at[0]].kind == "OP"; }
    }
    if forall i :: 0 <= i < |sources| ==> Free(sources[i].name, ';') {
      if names == [] {
        SplitOfFree("", ';');
      } else {
        assert forall k :: 0 <= k < |names| ==> Free(sources[at[k]].name, ';');
        SplitJoin(names, ';');
      }
      forall n | n != "" ensures n in Split(cell, ';') <==> Source("OP", n) in sources {
        if Source("OP", n) in sources {
          var i :| 0 <= i < |sources| && sources[i] == Source("OP", n);
          assert i in at;
        }
      }
    }
  }

  lemma EmptyJoin(names: seq<string>)
    requires forall k :: 0 <= k < |names| ==> names[k] != ""
    ensures Join(names, ';') == "" <==> names == []
  {
    if |names| > 1 { assert names[0] != ""; }
  }

  /** The chain of the last mapping that gives one for the operator. */
  ghost predicate LastFor(mappings: seq<Mapping>, op: string, original: bool, m: int) {
    && 0 <= m < |mappings| && mappings[m].dst == op && Chain(mappings[m], original) != []
    && forall k :: m < k < |mappings| && mappings[k].dst == op ==> Chain(mappings[k], original) == []
  }

  lemma {:induction false} LastIs(mappings: seq<Mapping>, op: string, original: bool, m: int)
    requires LastFor(mappings, op, original, m) && op != ""
    ensures Last(mappings, op, original) == Some(Chain(mappings[m], original))
  {
    var n, before := |mappings| - 1, mappings[..|mappings| - 1];
    if m < n {
      assert forall k :: 0 <= k < n ==> before[k] == mappings[k];
      LastIs(before, op, original, m);
    }
  }

  lemma {:induction false} NoneLast(mappings: seq<Mapping>, op: string, original: bool)
    requires op == "" || forall k :: 0 <= k < |mappings| && mappings[k].dst == op ==> Chain(mappings[k], original) == []
    ensures Last(mappings, op, original) == None
  {
    if mappings == [] {
    } else {
      var before := mappings[..|mappings| - 1];
      assert forall k :: 0 <= k < |before| ==> before[k] == mappings[k];
      NoneLast(before, op, original);
    }
  }

  /** What the mappings say of an operator is what its cell names. */
  ghost predicate Named(cell: string, mappings: seq<Mapping>, op: string, original: bool) {
    && (forall m :: LastFor(mappings, op, original, m) && op != "" ==> Lists(cell, Chain(mappings[m], original)))
    && ((op == "" || forall k :: 0 <= k < |mappings| && mappings[k].dst == op ==> Chain(mappings[k], original) == []) ==> cell == "")
  }

  lemma CellNames(mappings: seq<Mapping>, op: string, original: bool)
    ensures Named(Cell(LookupOf(mappings, original), op), mappings, op, original)
  {
    hide FormatOpSources, LookupOf, Last, Lists;
    LookupIsLast(mappings, original, op);
    forall m | LastFor(mappings, op, original, m) && op != ""
      ensures Lists(Cell(LookupOf(mappings, original), op), Chain(mappings[m], original))
    {
      LastIs(mappings, op, original, m);
      CellLists(Chain(mappings[m], original));
    }
    if op == "" || forall k :: 0 <= k < |mappings| && mappings[k].dst == op ==> Chain(mappings[k], original) == [] {
      NoneLast(mappings, op, original);
    }
  }

  ghost predicate CellsName(csv: Csv, mappings: seq<Mapping>, i: nat, outcome: Outcome)
    requires 1 <= i < |csv|
  {
    outcome.Enriched? ==>
    && |outcome.csv| == |csv|
    && var h, row, id := outcome.csv[0], outcome.csv[i], Index(csv[0], EventIdentifier);
       if id < |csv[i]| && csv[i][id] != "" then
         && Named(Under(h, row, OriginalSourceOps), mappings, StripOpIdSuffix(csv[i][id]), true)
         && (outcome.stats.addedOptimizedColumn || outcome.stats.filledExistingColumn ==>
             Named(Under(h, row, SourceOps), mappings, StripOpIdSuffix(csv[i][id]), false))
       else
         Under(h, row, OriginalSourceOps) == "" && (outcome.stats.addedOptimizedColumn ==> Under(h, row, SourceOps) == "")
  }

  /**
   From end to end: in the enriched table, a row as wide as its header names under the original column what the
   trace gives as original sources of its operator, and under the source column, if that was missing or empty,
   what it gives as sources; a row without an identifier names nothing.
   */
  lemma EnrichedCellsName(csv: Csv, mappings: seq<Mapping>, i: nat)
    requires 1 <= i < |csv| && |csv[i]| == |csv[0]|
    ensures CellsName(csv, mappings, i, Result(csv, LookupOf(mappings, true), LookupOf(mappings, false)))
  {
    var originals, optimized := LookupOf(mappings, true), LookupOf(mappings, false);
    if Result(csv, originals, optimized).Enriched? {
      var l := LayoutOf(csv[0], csv[1..]);
      EnrichedTable(csv, originals, optimized);
      EnrichedStats(csv, originals, optimized);
      hide StripOpIdSuffix, Cell, LookupOf, Named, Result, OutRow, OutHeader, Under, HasData;
      RowByName(csv[0], csv[i], l, originals, optimized, SourceOps);
      CellNames(mappings, OpOf(csv[i], l.id), true);
      CellNames(mappings, OpOf(csv[i], l.id), false);
    }
  }

  /** The statistics say whether the source column was missing, and whether it was there without data. */
  lemma EnrichedStats(csv: Csv, originals: Lookup, optimized: Lookup)
    requires Result(csv, originals, optimized).Enriched?
    ensures var stats, l := Result(csv, originals, optimized).stats, LayoutOf(csv[0], csv[1..]);
            stats.addedOptimizedColumn == l.synthesize && stats.filledExistingColumn == l.fill
  {
    hide StripOpIdSuffix, Cell, CountsOf, OutRow, OutHeader;
  }

  /**
   Which outcome, for which table: an empty one, one without identifiers and one that is enriched already are
   refused; one without any identified row is copied; any other is enriched. The source column is added when
   it is missing, and filled when it is there and empty on every identified row.
   */
  lemma OutcomeExactly(csv: Csv, originals: Lookup, optimized: Lookup)
    ensures var outcome := Result(csv, originals, optimized);
            && (outcome == Refused(EmptyCsv) <==> csv == [])
            && (outcome == Refused(MissingIdentifier) <==> csv != [] && "Event Identifier" !in csv[0])
            && (outcome == Refused(AlreadyEnriched) <==>
                csv != [] && "Event Identifier" in csv[0] && "Original ONNX Source Ops" in csv[0])
            && (!outcome.Refused? ==>
                var id, src := Index(csv[0], "Event Identifier"), Index(csv[0], "ONNX Source Ops");
                && (outcome.Enriched? <==> exists i :: 1 <= i < |csv| && id < |csv[i]| && csv[i][id] != "")
                && (outcome.Copied? ==> outcome.csv == csv)
                && outcome.stats.rowsTotal == |csv| - 1
                && outcome.stats.nodeEventsPresent == outcome.Enriched?
                && (outcome.stats.addedOptimizedColumn <==> outcome.Enriched? && "ONNX Source Ops" !in csv[0])
                && (outcome.stats.filledExistingColumn <==>
                    outcome.Enriched? && "ONNX Source Ops" in csv[0] &&
                    forall i :: 1 <= i < |csv| && id < |csv[i]| && csv[i][id] != "" ==> src >= |csv[i]| || csv[i][src] == ""))
  {
    hide CountsOf, OutRows, OutHeader, Index, AnyNode, HasData;
    if csv != [] {
      var id, src := Index(csv[0], EventIdentifier), Index(csv[0], SourceOps);
      SomeNode(csv, id);
      EmptyColumn(csv, id, src);
    }
  }

  lemma SomeNode(csv: Csv, id: nat)
    requires csv != []
    ensures AnyNode(csv[1..], id) <==> exists i :: 1 <= i < |csv| && id < |csv[i]| && csv[i][id] != ""
  {
    var rows := csv[1..];
    if AnyNode(rows, id) {
      var k :| 0 <= k < |rows| && IsNode(rows[k], id);
      assert rows[k] == csv[k + 1];
    }
    if exists i :: 1 <= i < |csv| && id < |csv[i]| && csv[i][id] != "" {
      var i :| 1 <= i < |csv| && id < |csv[i]| && csv[i][id] != "";
      assert IsNode(rows[i - 1], id);
    }
  }

  lemma EmptyColumn(csv: Csv, id: nat, src: nat)
    requires csv != []
    ensures (forall i :: 0 <= i < |csv[1..]| ==> !HasData(csv[1..][i], id, src)) <==>
            forall i :: 1 <= i < |csv| && IsNode(csv[i], id) ==> src >= |csv[i]| || csv[i][src] == ""
  {
    var rows := csv[1..];
    assert forall i :: 1 <= i < |csv| ==> csv[i] == rows[i - 1];
    if forall i :: 1 <= i < |csv| && IsNode(csv[i], id) ==> src >= |csv[i]| || csv[i][src] == "" {
      forall i | 0 <= i < |rows| ensures !HasData(rows[i], id, src) { assert rows[i] == csv[i + 1]; }
    }
    if forall i :: 0 <= i < |rows| ==> !HasData(rows[i], id, src) {
      forall i | 1 <= i < |csv| && IsNode(csv[i], id) ensures src >= |csv[i]| || csv[i][src] == "" {
        assert !HasData(rows[i - 1], id, src);
      }
    }
  }

  // ---------------------------------------------------------------- what the statistics count

  function HowMany(rows: seq<Row>, p: Row -> bool): nat {
    if rows == [] then 0 else HowMany(rows[..|rows| - 1], p) + if p(rows[|rows| - 1]) then 1 else 0
  }

  function NodeRow(id: nat): Row -> bool { row => IsNode(row, id) }

  /** Node rows whose new last cell has content. */
  function GetsOriginals(l: Layout, originals: Lookup, optimized: Lookup): Row -> bool {
    row => IsNode(row, l.id) && var out := OutRow(row, l, originals, optimized); out != [] && out[|out| - 1] != ""
  }

  /** Node rows whose new or filled source cell has content. */
  function GetsSources(l: Layout, originals: Lookup, optimized: Lookup): Row -> bool {
    row => IsNode(row, l.id) && (l.synthesize || l.fill) &&
           var out, at := OutRow(row, l, originals, optimized), if l.fill then l.src else |row|; at < |out| && out[at] != ""
  }

  /** Node rows for whose operator no mapping gives a chain of either kind. */
  ghost function Unresolved(id: nat, mappings: seq<Mapping>): Row -> bool {
    row => IsNode(row, id) &&
           forall m :: 0 <= m < |mappings| && mappings[m].dst == StripOpIdSuffix(row[id]) && mappings[m].dst != "" ==>
                       mappings[m].original == [] && mappings[m].sources == []
  }

  /** Each statistic is the number of the rows that it is said to count. */
  lemma {:induction false} CountsAreRows(rows: seq<Row>, l: Layout, mappings: seq<Mapping>)
    ensures var originals, optimized := LookupOf(mappings, true), LookupOf(mappings, false);
            CountsOf(rows, l, originals, optimized) ==
            Counts(HowMany(rows, NodeRow(l.id)), HowMany(rows, GetsOriginals(l, originals, optimized)),
                   HowMany(rows, GetsSources(l, originals, optimized)), HowMany(rows, Unresolved(l.id, mappings)))
  {
    hide StripOpIdSuffix, Cell, LookupOf;
    if rows == [] {
    } else {
      var row := rows[|rows| - 1];
      CountsAreRows(rows[..|rows| - 1], l, mappings);
      RowIsCounted(row, l, mappings);
    }
  }

  lemma RowIsCounted(row: Row, l: Layout, mappings: seq<Mapping>)
    ensures var originals, optimized := LookupOf(mappings, true), LookupOf(mappings, false);
            RowCounts(row, l, originals, optimized) ==
            Counts(if NodeRow(l.id)(row) then 1 else 0, if GetsOriginals(l, originals, optimized)(row) then 1 else 0,
                   if GetsSources(l, originals, optimized)(row) then 1 else 0, if Unresolved(l.id, mappings)(row) then 1 else 0)
  {
    hide StripOpIdSuffix, Cell, LookupOf;
    if IsNode(row, l.id) {
      var op := StripOpIdSuffix(row[l.id]);
      InLookup(mappings, true, op);
      InLookup(mappings, false, op);
    }
  }

  lemma {:induction false} InLookup(mappings: seq<Mapping>, original: bool, op: string)
    ensures op in LookupOf(mappings, original) <==>
            exists m :: 0 <= m < |mappings| && mappings[m].dst == op && op != "" && Chain(mappings[m], original) != []
  {
    if mappings == [] {
    } else {
      var before := mappings[..|mappings| - 1];
      InLookup(before, original, op);
      assert forall k :: 0 <= k < |before| ==> before[k] == mappings[k];
    }
  }

  /** An enriched table is refused if it is enriched again; a table that was copied is copied again. */
  lemma EnrichedOnlyOnce(csv: Csv, originals: Lookup, optimized: Lookup, again: Lookup, more: Lookup)
    ensures match Result(csv, originals, optimized)
            case Enriched(out, _) => Result(out, again, more) == Refused(AlreadyEnriched)
            case Copied(out, stats) => out == csv && Result(out, again, more) == Copied(csv, stats)
            case Refused(_) => true
  {
    hide StripOpIdSuffix, Cell, CountsOf, OutRows;
  }
}
