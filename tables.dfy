/**
 * What each `get_*` method of jtac_recommended/jtac_scrape.py makes of one
 * table: the rows that are skipped, how the model cell is split, which
 * release and which date every entry carries, and the exception that aborts
 * the whole call. The functions here are the specification the loops in
 * module Scraper are proved against.
 */
module Tables {
  import opened Text
  import opened Cleaning
  import opened Records

  /** The trimmed cell texts of one table row. */
  type Row = seq<string>

  /** The product families, one `get_*` method each. */
  datatype Series = EX | ACX | PTX | MX | NFX | QFX | SRX

  /** The column the last-updated date is read from. */
  function DateColumn(s: Series): (c: nat)
    ensures c >= 2
  {
    match s
    case NFX => 4
    case SRX => 3
    case _ => 2
  }

  /** PTX and MX store an empty date cell as `''`; the others parse it. */
  predicate BlankAllowed(s: Series)
  {
    s == PTX || s == MX
  }

  /** PTX and SRX keep the plain release (the suffixed list is overwritten
      right after it is built). */
  predicate PlainRelease(s: Series)
  {
    s == PTX || s == SRX
  }

  /** PTX and NFX emit one entry per row whose model may be a list; the
      other families emit one entry per model piece. */
  predicate PerPiece(s: Series)
  {
    s != PTX && s != NFX
  }

  // ---------------------------------------------------------------------
  // Skipped rows

  /** Rows the loop passes over before touching any other cell. */
  predicate Skipped(s: Series, row: Row)
  {
    |row| == 0 ||
    match s
    case PTX => Contains(row[0], "MX")
    case MX => Contains(row[0], "PTX")
    case QFX => Clean(row[0]) == "Asptra Release Considerations"
    case SRX => Contains(Clean(row[0]), "Products for which")
    case _ => false
  }

  // ---------------------------------------------------------------------
  // Model cells

  /** PTX keeps the model whole unless it holds `/` (and does not name
      PTX10008) or `, `. */
  function PtxModel(model: string): Value
  {
    if Contains(model, "/") && !Contains(model, "PTX10008") then List(Split(model, "/"))
    else if Contains(model, ", ") then List(Split(model, ", "))
    else Str(model)
  }

  /** MX splits on `/` unless the cell names an MIC, else on `, `. */
  function MxModels(model: string): seq<string>
  {
    if Contains(model, "/") && !Contains(model, "MIC") then Split(model, "/")
    else if Contains(model, ", ") then Split(model, ", ")
    else [model]
  }

  /** QFX splits on `/` only. */
  function QfxModels(model: string): seq<string>
  {
    if Contains(model, "/") then Split(model, "/") else [model]
  }

  /** The text after the first `with` of an SRX model, or `''`. */
  function Linecard(model: string): string
  {
    if Contains(model, "with") then
      SplitSingle(model, "with");
      Split(model, "with")[1]
    else ""
  }

  /** What one piece of a slashed SRX model contributes. */
  function Attach(item: string, linecard: string): seq<string>
  {
    if linecard == "" then [item]
    else if Contains(item, "with") then []
    else [item + " with" + linecard]
  }

  /** The `new_model` list built from the pieces of a slashed SRX model. */
  function WithLinecard(items: seq<string>, linecard: string): seq<string>
    decreases |items|
  {
    if |items| == 0 then []
    else WithLinecard(items[..|items| - 1], linecard) + Attach(items[|items| - 1], linecard)
  }

  /** SRX models, with the linecard put back on every piece. */
  function SrxModels(model: string): seq<string>
  {
    if Contains(model, "/") then WithLinecard(Split(model, "/"), Linecard(model)) else [model]
  }

  /** The model pieces of a per-piece family, from the cleaned model cell. */
  function Pieces(s: Series, model: string): seq<string>
  {
    match s
    case MX => MxModels(model)
    case QFX => QfxModels(model)
    case SRX => SrxModels(model)
    case _ => Split(model, "/")
  }

  /** The model of a PTX or NFX entry. */
  function WholeModel(s: Series, model: string): Value
  {
    if s == PTX then PtxModel(model) else SlashSplit(model)
  }

  // ---------------------------------------------------------------------
  // Release and date cells

  /** The `recommended` field, from the raw release cell. */
  function Release(s: Series, cell: string): Value
  {
    if PlainRelease(s) then SlashSplit(Clean(cell)) else Recommended(Clean(cell))
  }

  /** The text handed to the date parser. */
  function DateText(s: Series, cell: string): string
  {
    var text := Replace(cell, [Nbsp], " ");
    if s == QFX then Exhaust(text, "  ", " ") else text
  }

  /** The `updated` field, or the parser's failure. */
  function DateOf(s: Series, cell: string, parse: DateParser): Result<Updated>
  {
    var text := DateText(s, cell);
    if BlankAllowed(s) && text == "" then Ok(Blank)
    else match parse(text)
      case Some(d) => Ok(On(d))
      case None => Err(BadDate(text))
  }

  // ---------------------------------------------------------------------
  // Entries

  /** The first failure, or both lists of entries in order. */
  function Then(first: Result<seq<Entry>>, second: Result<seq<Entry>>): Result<seq<Entry>>
  {
    match first
    case Err(e) => Err(e)
    case Ok(es) =>
      match second
      case Err(e) => Err(e)
      case Ok(more) => Ok(es + more)
  }

  /** One pass through the part of a loop body that reads the release and
      date cells and appends an entry with the given model. */
  function Produce(s: Series, model: Value, row: Row, parse: DateParser): Result<seq<Entry>>
  {
    if |row| < 2 then Err(MissingCell(1))
    else if SeesMx(s, row) then Ok([])
    else if |row| <= DateColumn(s) then Err(MissingCell(DateColumn(s)))
    else match DateOf(s, row[DateColumn(s)], parse)
      case Err(e) => Err(e)
      case Ok(updated) => Ok([Entry(model, Release(s, row[1]), updated)])
  }

  /** The first failure among the outcomes, or all their entries in order:
      the list a `for` loop appends to, stopped by the first exception. */
  function Collect(outcomes: seq<Result<seq<Entry>>>): Result<seq<Entry>>
    decreases |outcomes|
  {
    if |outcomes| == 0 then Ok([])
    else Then(Collect(outcomes[..|outcomes| - 1]), outcomes[|outcomes| - 1])
  }

  /** The loop over the model pieces of one row. */
  function Each(s: Series, pieces: seq<string>, row: Row, parse: DateParser): Result<seq<Entry>>
  {
    Collect(seq(|pieces|, k requires 0 <= k < |pieces| => Produce(s, Str(pieces[k]), row, parse)))
  }

  /** What one row adds to the list. */
  function RowEntries(s: Series, row: Row, parse: DateParser): Result<seq<Entry>>
  {
    if Skipped(s, row) then Ok([])
    else if PerPiece(s) then Each(s, Pieces(s, Clean(row[0])), row, parse)
    else Produce(s, WholeModel(s, Clean(row[0])), row, parse)
  }

  /** What each row of a table adds, or the exception it raises. */
  function Outcomes(s: Series, rows: seq<Row>, parse: DateParser): seq<Result<seq<Entry>>>
  {
    seq(|rows|, i requires 0 <= i < |rows| => RowEntries(s, rows[i], parse))
  }

  /** What the `get_*` method of a family returns for a table. */
  function Extract(s: Series, rows: seq<Row>, parse: DateParser): Result<seq<Entry>>
  {
    Collect(Outcomes(s, rows, parse))
  }

  /** Entries for the given pieces, all with one release and one date. */
  function Expand(pieces: seq<string>, recommended: Value, updated: Updated): (es: seq<Entry>)
  {
    seq(|pieces|, k requires 0 <= k < |pieces| => Entry(Str(pieces[k]), recommended, updated))
  }

  /** Entries for every piece, given what the loop body produced for one of
      them: the same failure, nothing, or one entry per piece. */
  function Spread(first: Result<seq<Entry>>, pieces: seq<string>): Result<seq<Entry>>
  {
    match first
    case Err(e) => Err(e)
    case Ok(es) => if |es| == 0 then Ok([]) else Ok(Expand(pieces, es[0].recommended, es[0].updated))
  }

  /** An MX row whose release cell points to the MX table. */
  predicate SeesMx(s: Series, row: Row)
  {
    s == MX && |row| >= 2 && Contains(Clean(row[1]), "See MX Series")
  }

  /** Rows that add nothing to the list. */
  predicate Dropped(s: Series, row: Row)
  {
    Skipped(s, row) || SeesMx(s, row) || (s == SRX && SrxModels(Clean(row[0])) == [])
  }

  /** How many entries a row adds when it does not fail. */
  function Expected(s: Series, row: Row): nat
  {
    if Dropped(s, row) then 0
    else if PerPiece(s) then |Pieces(s, Clean(row[0]))|
    else 1
  }

  /** How many entries a table gives when no row fails. */
  function TotalExpected(s: Series, rows: seq<Row>): nat
    decreases |rows|
  {
    if |rows| == 0 then 0 else TotalExpected(s, rows[..|rows| - 1]) + Expected(s, rows[|rows| - 1])
  }

  // ---------------------------------------------------------------------
  // The order entries come in, and the first failure

  lemma ThenAssociative(a: Result<seq<Entry>>, b: Result<seq<Entry>>, c: Result<seq<Entry>>)
    ensures Then(Then(a, b), c) == Then(a, Then(b, c))
  {
    if a.Ok? && b.Ok? && c.Ok? {
      assert (a.value + b.value) + c.value == a.value + (b.value + c.value);
    }
  }

  lemma ThenNothing(a: Result<seq<Entry>>)
    ensures Then(a, Ok([])) == a
  {
    if a.Ok? {
      assert a.value + [] == a.value;
    }
  }

  /** Collecting two lists of outcomes one after the other is collecting
      their concatenation. */
  lemma {:induction false} CollectAppend(xs: seq<Result<seq<Entry>>>, ys: seq<Result<seq<Entry>>>)
    ensures Collect(xs + ys) == Then(Collect(xs), Collect(ys))
    decreases |ys|
  {
    if |ys| == 0 {
      assert xs + ys == xs;
      ThenNothing(Collect(xs));
    } else {
      var init := ys[..|ys| - 1];
      assert (xs + ys)[..|xs + ys| - 1] == xs + init;
      CollectAppend(xs, init);
      ThenAssociative(Collect(xs), Collect(init), ys[|ys| - 1]);
    }
  }

  /** Every outcome succeeds, or the first failure is the result. */
  lemma {:induction false} CollectFails(xs: seq<Result<seq<Entry>>>)
    ensures Collect(xs).Ok? <==> forall i :: 0 <= i < |xs| ==> xs[i].Ok?
    ensures Collect(xs).Err? ==>
      exists i :: 0 <= i < |xs| && Collect(xs) == xs[i] && forall j :: 0 <= j < i ==> xs[j].Ok?
    decreases |xs|
  {
    if |xs| > 0 {
      var init := xs[..|xs| - 1];
      CollectFails(init);
      if Collect(init).Err? {
        var i :| 0 <= i < |init| && Collect(init) == init[i] && forall j :: 0 <= j < i ==> init[j].Ok?;
        assert Collect(xs) == xs[i];
      } else if xs[|xs| - 1].Err? {
        assert forall j :: 0 <= j < |xs| - 1 ==> xs[j].Ok? by {
          assert forall j :: 0 <= j < |init| ==> init[j] == xs[j];
        }
      }
    }
  }

  /** Once a failure is collected, the rest of the outcomes do not matter. */
  lemma CollectStops(xs: seq<Result<seq<Entry>>>, i: nat)
    requires i <= |xs| && Collect(xs[..i]).Err?
    ensures Collect(xs) == Collect(xs[..i])
  {
    assert xs == xs[..i] + xs[i..];
    CollectAppend(xs[..i], xs[i..]);
  }

  /** One more outcome. */
  lemma CollectStep(xs: seq<Result<seq<Entry>>>, i: nat)
    requires i < |xs|
    ensures Collect(xs[..i + 1]) == Then(Collect(xs[..i]), xs[i])
  {
    assert xs[..i + 1][..i] == xs[..i];
  }

  /** Collecting outcomes that are all one outcome with a different model
      gives one entry per piece, all with the same release and date. */
  lemma {:induction false} CollectSpread(xs: seq<Result<seq<Entry>>>, pieces: seq<string>)
    requires |xs| == |pieces| > 0
    requires forall k :: 0 <= k < |xs| ==> xs[k] == Spread(xs[0], [pieces[k]])
    ensures Collect(xs) == Spread(xs[0], pieces)
    decreases |xs|
  {
    var n := |xs| - 1;
    if n == 0 {
      assert xs[..0] == [];
      assert pieces == [pieces[0]];
      assert xs[0] == Spread(xs[0], [pieces[0]]);
      assert Collect(xs) == Then(Ok([]), xs[0]);
      if xs[0].Ok? {
        assert [] + xs[0].value == xs[0].value;
      }
    } else {
      var init := xs[..n];
      CollectSpread(init, pieces[..n]);
      if xs[0].Ok? && |xs[0].value| > 0 {
        var e := xs[0].value[0];
        assert xs[n] == Ok(Expand([pieces[n]], e.recommended, e.updated));
        assert Expand(pieces[..n], e.recommended, e.updated) + Expand([pieces[n]], e.recommended, e.updated)
          == Expand(pieces, e.recommended, e.updated);
      }
    }
  }

  /** Extracting two tables one after the other is extracting their
      concatenation: rows are handled in order, their entries are appended
      in order, nothing is merged or sorted, and the first failure wins. */
  lemma ExtractAppend(s: Series, rows: seq<Row>, more: seq<Row>, parse: DateParser)
    ensures Extract(s, rows + more, parse) == Then(Extract(s, rows, parse), Extract(s, more, parse))
  {
    var xs, ys, zs := Outcomes(s, rows, parse), Outcomes(s, more, parse), Outcomes(s, rows + more, parse);
    forall k | 0 <= k < |zs|
      ensures zs[k] == (xs + ys)[k]
    {
      if k < |rows| {
        assert (rows + more)[k] == rows[k];
      } else {
        assert (rows + more)[k] == more[k - |rows|];
      }
    }
    assert zs == xs + ys;
    CollectAppend(Outcomes(s, rows, parse), Outcomes(s, more, parse));
  }

  /** A table is extracted when every row is, and otherwise the call fails
      with the failure of the first row that fails. */
  lemma ExtractFails(s: Series, rows: seq<Row>, parse: DateParser)
    ensures Extract(s, rows, parse).Ok? <==>
      forall i :: 0 <= i < |rows| ==> RowEntries(s, rows[i], parse).Ok?
    ensures Extract(s, rows, parse).Err? ==>
      exists i :: 0 <= i < |rows| && Extract(s, rows, parse) == RowEntries(s, rows[i], parse) &&
        forall j :: 0 <= j < i ==> RowEntries(s, rows[j], parse).Ok?
  {
    var xs := Outcomes(s, rows, parse);
    CollectFails(xs);
    assert forall i :: 0 <= i < |rows| ==> xs[i] == RowEntries(s, rows[i], parse);
  }

  /** One more row. */
  lemma ExtractStep(s: Series, rows: seq<Row>, i: nat, parse: DateParser)
    requires i < |rows|
    ensures Extract(s, rows[..i + 1], parse) == Then(Extract(s, rows[..i], parse), RowEntries(s, rows[i], parse))
  {
    var xs := Outcomes(s, rows, parse);
    assert Outcomes(s, rows[..i + 1], parse) == xs[..i + 1];
    assert Outcomes(s, rows[..i], parse) == xs[..i];
    CollectStep(xs, i);
  }

  /** A failure ends the table. */
  lemma ExtractStops(s: Series, rows: seq<Row>, i: nat, parse: DateParser)
    requires i <= |rows| && Extract(s, rows[..i], parse).Err?
    ensures Extract(s, rows, parse) == Extract(s, rows[..i], parse)
  {
    var xs := Outcomes(s, rows, parse);
    assert Outcomes(s, rows[..i], parse) == xs[..i];
    CollectStops(xs, i);
  }

  /** One more piece. */
  lemma EachStep(s: Series, pieces: seq<string>, j: nat, row: Row, parse: DateParser)
    requires j < |pieces|
    ensures Each(s, pieces[..j + 1], row, parse) ==
      Then(Each(s, pieces[..j], row, parse), Produce(s, Str(pieces[j]), row, parse))
  {
    var xs := seq(|pieces|, k requires 0 <= k < |pieces| => Produce(s, Str(pieces[k]), row, parse));
    assert seq(j + 1, k requires 0 <= k < j + 1 => Produce(s, Str(pieces[..j + 1][k]), row, parse)) == xs[..j + 1];
    assert seq(j, k requires 0 <= k < j => Produce(s, Str(pieces[..j][k]), row, parse)) == xs[..j];
    CollectStep(xs, j);
  }

  /** A failure ends the row. */
  lemma EachStops(s: Series, pieces: seq<string>, j: nat, row: Row, parse: DateParser)
    requires j <= |pieces| && Each(s, pieces[..j], row, parse).Err?
    ensures Each(s, pieces, row, parse) == Each(s, pieces[..j], row, parse)
  {
    var xs := seq(|pieces|, k requires 0 <= k < |pieces| => Produce(s, Str(pieces[k]), row, parse));
    assert seq(j, k requires 0 <= k < j => Produce(s, Str(pieces[..j][k]), row, parse)) == xs[..j];
    CollectStops(xs, j);
  }

  // ---------------------------------------------------------------------
  // What one row adds

  /** The loop body depends on the piece only through the model field. */
  lemma ProduceSpread(s: Series, p: string, q: string, row: Row, parse: DateParser)
    ensures Produce(s, Str(q), row, parse) == Spread(Produce(s, Str(p), row, parse), [q])
  {
    if |row| >= 2 && !SeesMx(s, row) && |row| > DateColumn(s) {
      var date := DateOf(s, row[DateColumn(s)], parse);
      if date.Ok? {
        var release := Release(s, row[1]);
        assert Produce(s, Str(p), row, parse) == Ok([Entry(Str(p), release, date.value)]);
        assert Produce(s, Str(q), row, parse) == Ok([Entry(Str(q), release, date.value)]);
        assert Expand([q], release, date.value) == [Entry(Str(q), release, date.value)];
      }
    }
  }

  /** Every piece of a row gets the release and the date read for the
      first piece: the per-piece loop behaves as if both were read once. */
  lemma EachUniform(s: Series, pieces: seq<string>, row: Row, parse: DateParser)
    requires |pieces| > 0
    ensures Each(s, pieces, row, parse) == Spread(Produce(s, Str(pieces[0]), row, parse), pieces)
  {
    var xs := seq(|pieces|, k requires 0 <= k < |pieces| => Produce(s, Str(pieces[k]), row, parse));
    forall k | 0 <= k < |xs|
      ensures xs[k] == Spread(xs[0], [pieces[k]])
    {
      ProduceSpread(s, pieces[0], pieces[k], row, parse);
    }
    CollectSpread(xs, pieces);
  }

  /** The loop body succeeds with one entry, or adds nothing for an MX
      row that points to the MX table, or fails on a short row or a bad
      date. */
  lemma ProduceCases(s: Series, model: Value, row: Row, parse: DateParser)
    ensures Produce(s, model, row, parse) == Ok([]) <==> SeesMx(s, row)
    ensures Produce(s, model, row, parse).Err? <==>
      !SeesMx(s, row) && (|row| <= DateColumn(s) || DateOf(s, row[DateColumn(s)], parse).Err?)
    ensures Produce(s, model, row, parse).Ok? && !SeesMx(s, row) ==>
      |row| > DateColumn(s) && DateOf(s, row[DateColumn(s)], parse).Ok? &&
      Produce(s, model, row, parse).value
        == [Entry(model, Release(s, row[1]), DateOf(s, row[DateColumn(s)], parse).value)]
  {
  }

  /** Rows that add no entry: empty rows, the non-data rows of each family,
      MX rows that point to the MX table, and SRX rows whose every piece is
      dropped; every other row adds an entry or fails. */
  lemma RowsWithoutEntries(s: Series, row: Row, parse: DateParser)
    ensures RowEntries(s, row, parse) == Ok([]) <==> Dropped(s, row)
  {
    if !Skipped(s, row) && PerPiece(s) {
      var pieces := Pieces(s, Clean(row[0]));
      if |pieces| > 0 {
        EachUniform(s, pieces, row, parse);
        ProduceCases(s, Str(pieces[0]), row, parse);
      } else {
        assert Each(s, pieces, row, parse) == Collect([]);
      }
    } else if !Skipped(s, row) {
      ProduceCases(s, WholeModel(s, Clean(row[0])), row, parse);
    }
  }

  /** A row that adds entries adds one per model piece (one in all for PTX
      and NFX), every one with the row's release and the date parsed from
      the family's date column. */
  lemma RowShape(s: Series, row: Row, parse: DateParser)
    requires RowEntries(s, row, parse).Ok? && !Dropped(s, row)
    ensures |row| > DateColumn(s) && DateOf(s, row[DateColumn(s)], parse).Ok?
    ensures PerPiece(s) ==>
      RowEntries(s, row, parse).value ==
        Expand(Pieces(s, Clean(row[0])), Release(s, row[1]), DateOf(s, row[DateColumn(s)], parse).value)
    ensures !PerPiece(s) ==>
      RowEntries(s, row, parse).value ==
        [Entry(WholeModel(s, Clean(row[0])), Release(s, row[1]), DateOf(s, row[DateColumn(s)], parse).value)]
  {
    if PerPiece(s) {
      var pieces := Pieces(s, Clean(row[0]));
      assert |pieces| > 0 by {
        if |pieces| == 0 {
          assert false;
        }
      }
      EachUniform(s, pieces, row, parse);
      ProduceCases(s, Str(pieces[0]), row, parse);
    } else {
      ProduceCases(s, WholeModel(s, Clean(row[0])), row, parse);
    }
  }

  /** A row fails exactly when it is not dropped and its date cell is
      missing or unparsable; the failure names the first cell that is
      missing, or the text the parser rejected. */
  lemma RowFails(s: Series, row: Row, parse: DateParser)
    ensures RowEntries(s, row, parse).Err? <==>
      !Dropped(s, row) && (|row| <= DateColumn(s) || DateOf(s, row[DateColumn(s)], parse).Err?)
    ensures forall c :: RowEntries(s, row, parse) == Err(MissingCell(c)) ==>
      (c == 1 && |row| < 2) || (c == DateColumn(s) && 2 <= |row| <= c)
    ensures forall t :: RowEntries(s, row, parse) == Err(BadDate(t)) ==>
      |row| > DateColumn(s) && t == DateText(s, row[DateColumn(s)]) && parse(t).None?
  {
    if !Skipped(s, row) && PerPiece(s) {
      var pieces := Pieces(s, Clean(row[0]));
      if |pieces| > 0 {
        EachUniform(s, pieces, row, parse);
        ProduceCases(s, Str(pieces[0]), row, parse);
      } else {
        assert Each(s, pieces, row, parse) == Collect([]);
      }
    } else if !Skipped(s, row) {
      ProduceCases(s, WholeModel(s, Clean(row[0])), row, parse);
    }
  }

  /** A row that does not fail adds as many entries as it has pieces (one
      for PTX and NFX), or none when it is dropped. */
  lemma RowCount(s: Series, row: Row, parse: DateParser)
    requires RowEntries(s, row, parse).Ok?
    ensures |RowEntries(s, row, parse).value| == Expected(s, row)
  {
    RowsWithoutEntries(s, row, parse);
    if !Dropped(s, row) {
      RowShape(s, row, parse);
    }
  }

  /** A table that does not fail gives the sum of its rows' counts. */
  lemma {:induction false} ExtractCount(s: Series, rows: seq<Row>, parse: DateParser)
    requires Extract(s, rows, parse).Ok?
    ensures |Extract(s, rows, parse).value| == TotalExpected(s, rows)
    decreases |rows|
  {
    if |rows| > 0 {
      var n := |rows| - 1;
      ExtractStep(s, rows, n, parse);
      assert rows[..n + 1] == rows;
      ExtractCount(s, rows[..n], parse);
      RowCount(s, rows[n], parse);
    }
  }

  // ---------------------------------------------------------------------
  // Properties of the model, release and date cells

  /** EX, ACX and QFX split the model on every `/`: at least one piece,
      none holding a slash, and they join back into the cell. */
  lemma SlashPieces(s: Series, model: string)
    requires s == EX || s == ACX || s == QFX
    ensures |Pieces(s, model)| >= 1
    ensures |Pieces(s, model)| == 1 <==> !Contains(model, "/")
    ensures Join(Pieces(s, model), "/") == model
    ensures forall k :: 0 <= k < |Pieces(s, model)| ==> !Contains(Pieces(s, model)[k], "/")
  {
    SplitSingle(model, "/");
    assert Pieces(s, model) == Split(model, "/");
    SplitJoin(model, "/");
    SplitPiecesAvoidSep(model, "/");
  }

  /** MX splits on `/` when the cell has one and names no MIC, otherwise on
      `, ` when it has one, otherwise keeps the cell whole; a split is
      undone by joining with the same separator. */
  lemma MxModelsRule(model: string)
    ensures var bySlash := Contains(model, "/") && !Contains(model, "MIC");
      bySlash ==>
        |MxModels(model)| >= 2 && Join(MxModels(model), "/") == model &&
        forall k :: 0 <= k < |MxModels(model)| ==> !Contains(MxModels(model)[k], "/")
    ensures var bySlash := Contains(model, "/") && !Contains(model, "MIC");
      !bySlash && Contains(model, ", ") ==>
        |MxModels(model)| >= 2 && Join(MxModels(model), ", ") == model &&
        forall k :: 0 <= k < |MxModels(model)| ==> !Contains(MxModels(model)[k], ", ")
    ensures var bySlash := Contains(model, "/") && !Contains(model, "MIC");
      !bySlash && !Contains(model, ", ") ==> MxModels(model) == [model]
  {
    SplitSingle(model, "/");
    SplitJoin(model, "/");
    SplitPiecesAvoidSep(model, "/");
    SplitSingle(model, ", ");
    SplitJoin(model, ", ");
    SplitPiecesAvoidSep(model, ", ");
  }

  /** PTX keeps the model whole unless it has a `/` and does not name PTX10008,
      or has a `, `; a split is undone by joining with the same separator. */
  lemma PtxModelRule(model: string)
    ensures var bySlash := Contains(model, "/") && !Contains(model, "PTX10008");
      bySlash ==>
        PtxModel(model).List? && |PtxModel(model).items| >= 2 &&
        Join(PtxModel(model).items, "/") == model &&
        forall k :: 0 <= k < |PtxModel(model).items| ==> !Contains(PtxModel(model).items[k], "/")
    ensures var bySlash := Contains(model, "/") && !Contains(model, "PTX10008");
      !bySlash && Contains(model, ", ") ==>
        PtxModel(model).List? && |PtxModel(model).items| >= 2 &&
        Join(PtxModel(model).items, ", ") == model &&
        forall k :: 0 <= k < |PtxModel(model).items| ==> !Contains(PtxModel(model).items[k], ", ")
    ensures PtxModel(model).Str? <==>
      !(Contains(model, "/") && !Contains(model, "PTX10008")) && !Contains(model, ", ")
    ensures PtxModel(model).Str? ==> PtxModel(model).text == model
  {
    SplitSingle(model, "/");
    SplitJoin(model, "/");
    SplitPiecesAvoidSep(model, "/");
    SplitSingle(model, ", ");
    SplitJoin(model, ", ");
    SplitPiecesAvoidSep(model, ", ");
  }

  /** The linecard is what follows the first `with`, up to the next `with`
      or the end of the model, and is empty when the model has no `with`. */
  lemma LinecardRule(model: string)
    ensures !Contains(model, "with") ==> Linecard(model) == ""
    ensures Contains(model, Linecard(model)) && !Contains(Linecard(model), "with")
    ensures Contains(model, "with") ==>
      exists i :: FirstAt(model, "with", i) && PieceFrom(model, "with", i + 4, Linecard(model))
  {
    if Contains(model, "with") {
      SplitSingle(model, "with");
      SplitPiecesOccur(model, "with");
      SplitPiecesAvoidSep(model, "with");
      SplitSecondPiece(model, "with");
    } else {
      assert OccursAt(model, "", 0);
      ContainsIffOccurs(model, "");
      assert !Contains("", "with");
    }
  }

  /** Without a linecard every piece is kept as it is; with one, the pieces
      that name no `with` get the linecard appended, in order, and the
      others are dropped. */
  lemma {:induction false} WithLinecardRule(items: seq<string>, linecard: string)
    ensures linecard == "" ==> WithLinecard(items, linecard) == items
    ensures |WithLinecard(items, linecard)| <= |items|
    ensures linecard != "" ==>
      forall x :: x in WithLinecard(items, linecard) <==>
        exists k :: 0 <= k < |items| && !Contains(items[k], "with") && x == items[k] + " with" + linecard
    decreases |items|
  {
    if |items| > 0 {
      var n := |items| - 1;
      var init := items[..n];
      WithLinecardRule(init, linecard);
      if linecard == "" {
        assert init + [items[n]] == items;
      } else {
        var w := WithLinecard(items, linecard);
        forall x
          ensures x in w <==>
            exists k :: 0 <= k < |items| && !Contains(items[k], "with") && x == items[k] + " with" + linecard
        {
          if x in w {
            if x in WithLinecard(init, linecard) {
              var k :| 0 <= k < |init| && !Contains(init[k], "with") && x == init[k] + " with" + linecard;
              assert items[k] == init[k];
            } else {
              assert !Contains(items[n], "with") && x == items[n] + " with" + linecard;
            }
          }
          if exists k :: 0 <= k < |items| && !Contains(items[k], "with") && x == items[k] + " with" + linecard {
            var k :| 0 <= k < |items| && !Contains(items[k], "with") && x == items[k] + " with" + linecard;
            if k < n {
              assert init[k] == items[k];
              assert x in WithLinecard(init, linecard);
            }
          }
        }
      }
    }
  }

  /** The pieces are handled one after another: the list built from two
      runs of pieces is the two lists built from each, in order. */
  lemma {:induction false} WithLinecardAppend(a: seq<string>, b: seq<string>, linecard: string)
    ensures WithLinecard(a + b, linecard) == WithLinecard(a, linecard) + WithLinecard(b, linecard)
    decreases |b|
  {
    if |b| == 0 {
      assert a + b == a;
    } else {
      var n := |b| - 1;
      var init := b[..n];
      var ab := a + b;
      var last := Attach(b[n], linecard);
      assert ab[..|ab| - 1] == a + init;
      assert ab[|ab| - 1] == b[n];
      calc {
        WithLinecard(ab, linecard);
        WithLinecard(a + init, linecard) + last;
        { WithLinecardAppend(a, init, linecard); }
        WithLinecard(a, linecard) + WithLinecard(init, linecard) + last;
        WithLinecard(a, linecard) + (WithLinecard(init, linecard) + last);
        WithLinecard(a, linecard) + WithLinecard(b, linecard);
      }
    }
  }

  /** A single piece contributes exactly what `Attach` makes of it. */
  lemma WithLinecardSingle(item: string, linecard: string)
    ensures WithLinecard([item], linecard) == Attach(item, linecard)
  {
    assert [item][..0] == [];
  }

  /** Each piece contributes in its own place: the result is the pieces
      before it, then what `Attach` makes of it, then the pieces after. */
  lemma WithLinecardAt(items: seq<string>, k: nat, linecard: string)
    requires k < |items|
    ensures WithLinecard(items, linecard)
      == WithLinecard(items[..k], linecard) + Attach(items[k], linecard) + WithLinecard(items[k + 1..], linecard)
  {
    assert items == items[..k] + ([items[k]] + items[k + 1..]);
    WithLinecardAppend(items[..k], [items[k]] + items[k + 1..], linecard);
    WithLinecardAppend([items[k]], items[k + 1..], linecard);
    WithLinecardSingle(items[k], linecard);
  }

  /** Every model a linecard is put back on ends with it. */
  lemma LinecardAppended(items: seq<string>, linecard: string)
    requires linecard != ""
    ensures forall x :: x in WithLinecard(items, linecard) ==> EndsWith(x, " with" + linecard)
  {
    WithLinecardRule(items, linecard);
    forall x | x in WithLinecard(items, linecard)
      ensures EndsWith(x, " with" + linecard)
    {
      var k :| 0 <= k < |items| && !Contains(items[k], "with") && x == items[k] + " with" + linecard;
      assert x[|x| - |" with" + linecard|..] == " with" + linecard;
    }
  }

  /** An SRX model without a slash is kept whole; one with a slash but no
      `with` is split on `/`; otherwise every model kept ends with the
      linecard. */
  lemma SrxModelsRule(model: string)
    ensures !Contains(model, "/") ==> SrxModels(model) == [model]
    ensures Contains(model, "/") && !Contains(model, "with") ==>
      SrxModels(model) == Split(model, "/") && Join(SrxModels(model), "/") == model
    ensures Contains(model, "/") && Linecard(model) != "" ==>
      forall x :: x in SrxModels(model) ==> EndsWith(x, " with" + Linecard(model))
  {
    if Contains(model, "/") {
      var items, linecard := Split(model, "/"), Linecard(model);
      if linecard == "" {
        WithLinecardRule(items, linecard);
        SplitJoin(model, "/");
      } else {
        LinecardAppended(items, linecard);
      }
    }
  }

  /** The piece that already carries the linecard is dropped: of
      `A/B with C` only `A with C` is kept, and `B` is lost. */
  lemma SrxDropsLinecardPiece(a: string, b: string, card: string)
    requires '/' !in a && '/' !in b && '/' !in card
    requires 'w' !in a && 'w' !in b && 'w' !in card && card != ""
    ensures SrxModels(a + "/" + b + "with" + card) == [a + " with" + card]
  {
    var model := a + "/" + b + "with" + card;
    var second := b + "with" + card;
    var before := a + "/" + b;
    assert '/' !in second;
    assert 'w' !in before;
    SlashPiecesOfPair(a, second);
    LinecardAfter(before, card);
    assert model == a + "/" + second;
    var items := [a, second];
    assert Split(model, "/") == items;
    assert Linecard(model) == card;
    CharAbsent(a, "with", 0);
    assert OccursAt(second, "with", |b|);
    ContainsIffOccurs(second, "with");
    Attached(items, card);
  }

  lemma Attached(items: seq<string>, card: string)
    requires |items| == 2 && card != ""
    requires !Contains(items[0], "with") && Contains(items[1], "with")
    ensures WithLinecard(items, card) == [items[0] + " with" + card]
  {
    var first := items[..1];
    assert first == [items[0]] && first[..0] == [];
    assert WithLinecard(first[..0], card) == [];
    assert WithLinecard(first, card) == Attach(items[0], card);
    assert Attach(items[1], card) == [];
    assert WithLinecard(items, card) == WithLinecard(first, card) + Attach(items[1], card);
  }

  /** Splitting `a/rest` on `/` when neither part has a slash. */
  lemma SlashPiecesOfPair(a: string, rest: string)
    requires '/' !in a && '/' !in rest
    ensures Contains(a + "/" + rest, "/")
    ensures Split(a + "/" + rest, "/") == [a, rest]
  {
    CharAbsent(rest, "/", 0);
    SplitSingle(rest, "/");
    SplitAtSep(rest, "/");
    assert a + "/" + rest == a + ("/" + rest);
    SplitPastFree(a, "/" + rest, "/");
    assert a + "" == a;
    assert OccursAt(a + "/" + rest, "/", |a|);
    ContainsIffOccurs(a + "/" + rest, "/");
  }

  /** The linecard of a model with one `with` is what follows it. */
  lemma LinecardAfter(before: string, card: string)
    requires 'w' !in before && 'w' !in card
    ensures Linecard(before + "with" + card) == card
  {
    var model := before + "with" + card;
    CharAbsent(card, "with", 0);
    SplitSingle(card, "with");
    SplitAtSep(card, "with");
    assert model == before + ("with" + card);
    SplitPastFree(before, "with" + card, "with");
    assert OccursAt(model, "with", |before|);
    ContainsIffOccurs(model, "with");
  }

  /** The date text has no non-breaking space (and, for QFX, no double
      space); an empty PTX or MX date cell gives `''`, and any other text
      gives the parser's date or fails with that text. */
  lemma DateRule(s: Series, cell: string, parse: DateParser)
    ensures Nbsp !in DateText(s, cell)
    ensures s == QFX ==> !Contains(DateText(s, cell), "  ")
    ensures DateOf(s, cell, parse) == Ok(Blank) <==> BlankAllowed(s) && DateText(s, cell) == ""
    ensures forall d :: DateOf(s, cell, parse) == Ok(On(d)) <==>
      !(BlankAllowed(s) && DateText(s, cell) == "") && parse(DateText(s, cell)) == Some(d)
    ensures DateOf(s, cell, parse).Err? <==>
      !(BlankAllowed(s) && DateText(s, cell) == "") && parse(DateText(s, cell)).None?
    ensures DateOf(s, cell, parse).Err? ==> DateOf(s, cell, parse).error == BadDate(DateText(s, cell))
  {
    var text := Replace(cell, [Nbsp], " ");
    ReplaceRemovesChar(cell, Nbsp, " ");
    if s == QFX {
      ExhaustKeepsCharOut(text, "  ", " ", Nbsp);
    }
  }

  /** PTX and SRX keep the cleaned release as it is, `Latest ` marker
      included, split on `/` when it has one. */
  lemma PlainReleaseKept(s: Series, cell: string)
    requires PlainRelease(s)
    ensures Release(s, cell).Str? <==> !Contains(Clean(cell), "/")
    ensures Release(s, cell).Str? ==> Release(s, cell).text == Clean(cell)
    ensures Release(s, cell).List? ==> |Release(s, cell).items| >= 2 && Join(Release(s, cell).items, "/") == Clean(cell)
    ensures Release(s, cell).List? ==>
      forall k :: 0 <= k < |Release(s, cell).items| ==> !Contains(Release(s, cell).items[k], "/")
  {
    SlashSplitRoundTrip(Clean(cell));
  }
}
