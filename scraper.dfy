/**
 * The `get_*` methods of `JtacScraper` (jtac_recommended/jtac_scrape.py):
 * each walks the rows of one product family's table, in order, and builds
 * the list of `{model, recommended, updated}` entries. The first exception
 * (a missing cell or a date the parser rejects) aborts the call, which is
 * returned here as `Err`. Every method is proved to return what
 * `Tables.Extract` specifies for its family.
 */
module Scraper {
  import opened Text
  import opened Cleaning
  import opened Records
  import opened Tables

  // ---------------------------------------------------------------------
  // The parts of a loop body the families share

  /** The date lines of a loop body: non-breaking spaces become spaces,
      QFX squeezes runs of spaces, PTX and MX keep an empty cell as `''`,
      and everything else goes to the parser. */
  method ReadDate(s: Series, cell: string, parse: DateParser) returns (r: Result<Updated>)
    ensures r == DateOf(s, cell, parse)
  {
    var text := Replace(cell, [Nbsp], " ");
    if s == QFX {
      text := ReplaceWhilePresent(text, "  ", " ");
    }
    if BlankAllowed(s) && text == "" {
      return Ok(Blank);
    }
    match parse(text)
    case Some(d) =>
      r := Ok(On(d));
    case None =>
      r := Err(BadDate(text));
  }

  /** The release lines of PTX and SRX: the suffixed list is built and then
      overwritten by the plain release. */
  method ReadPlainRelease(release: string) returns (recommended: Value)
    ensures recommended == SlashSplit(release)
  {
    var latest := Contains(Lower(release), "latest");
    var value := Str(release);
    if Contains(release, "/") {
      value := List(Split(release, "/"));
    }
    if value.List? && latest {
      var tagged := TagLatest(value.items);
      recommended := List(tagged);
    } else {
      recommended := value;
    }
    recommended := value;
  }

  /** One pass of the loop body that builds an entry for `model`: read the
      release cell, skip MX releases that point to the MX table, read the
      date cell and append the entry. */
  method EmitEntry(s: Series, model: Value, row: Row, parse: DateParser) returns (r: Result<seq<Entry>>)
    ensures r == Produce(s, model, row, parse)
  {
    if |row| < 2 {
      return Err(MissingCell(1));
    }
    var release := Cleanup(row[1]);
    if s == MX && Contains(release, "See MX Series") {
      return Ok([]);
    }
    var recommended: Value;
    if PlainRelease(s) {
      recommended := ReadPlainRelease(release);
    } else {
      recommended := ParseRelease(release);
    }
    var column := DateColumn(s);
    if |row| <= column {
      return Err(MissingCell(column));
    }
    var updated := ReadDate(s, row[column], parse);
    if updated.Err? {
      return Err(updated.error);
    }
    r := Ok([Entry(model, recommended, updated.value)]);
  }

  /** The `for item in model` loop of the per-piece families. */
  method EmitPieces(s: Series, pieces: seq<string>, row: Row, parse: DateParser) returns (r: Result<seq<Entry>>)
    ensures r == Each(s, pieces, row, parse)
  {
    var added: seq<Entry> := [];
    for j := 0 to |pieces|
      invariant Each(s, pieces[..j], row, parse) == Ok(added)
    {
      var one := EmitEntry(s, Str(pieces[j]), row, parse);
      EachStep(s, pieces, j, row, parse);
      if one.Err? {
        EachStops(s, pieces, j + 1, row, parse);
        return one;
      }
      added := added + one.value;
    }
    assert pieces[..|pieces|] == pieces;
    r := Ok(added);
  }

  /** What one more row does to the list: it grows by the row's entries,
      or the row's failure is the result of the whole call. */
  lemma Advance(s: Series, rows: seq<Row>, i: nat, parse: DateParser, entries: seq<Entry>, added: Result<seq<Entry>>)
    requires i < |rows| && Extract(s, rows[..i], parse) == Ok(entries)
    requires added == RowEntries(s, rows[i], parse)
    ensures added.Ok? ==> Extract(s, rows[..i + 1], parse) == Ok(entries + added.value)
    ensures added.Err? ==> Extract(s, rows, parse) == added
  {
    ExtractStep(s, rows, i, parse);
    if added.Err? {
      ExtractStops(s, rows, i + 1, parse);
    }
  }

  /** The end of the table. */
  lemma Finish(s: Series, rows: seq<Row>, parse: DateParser, entries: seq<Entry>)
    requires Extract(s, rows[..|rows|], parse) == Ok(entries)
    ensures Extract(s, rows, parse) == Ok(entries)
  {
    assert rows[..|rows|] == rows;
  }

  // ---------------------------------------------------------------------
  // The seven families

  /** `get_ex`: every model piece of a row gets an entry. */
  method GetEx(rows: seq<Row>, parse: DateParser) returns (r: Result<seq<Entry>>)
    ensures r == Extract(EX, rows, parse)
  {
    var entries: seq<Entry> := [];
    for i := 0 to |rows|
      invariant Extract(EX, rows[..i], parse) == Ok(entries)
    {
      var row := rows[i];
      var added: Result<seq<Entry>>;
      if |row| == 0 {
        added := Ok([]);
      } else {
        var model := Cleanup(row[0]);
        added := EmitPieces(EX, Split(model, "/"), row, parse);
      }
      Advance(EX, rows, i, parse, entries, added);
      if added.Err? {
        return added;
      }
      entries := entries + added.value;
    }
    Finish(EX, rows, parse, entries);
    r := Ok(entries);
  }

  /** `get_acx`: as `get_ex`, on the ACX table. */
  method GetAcx(rows: seq<Row>, parse: DateParser) returns (r: Result<seq<Entry>>)
    ensures r == Extract(ACX, rows, parse)
  {
    var entries: seq<Entry> := [];
    for i := 0 to |rows|
      invariant Extract(ACX, rows[..i], parse) == Ok(entries)
    {
      var row := rows[i];
      var added: Result<seq<Entry>>;
      if |row| == 0 {
        added := Ok([]);
      } else {
        var model := Cleanup(row[0]);
        added := EmitPieces(ACX, Split(model, "/"), row, parse);
      }
      Advance(ACX, rows, i, parse, entries, added);
      if added.Err? {
        return added;
      }
      entries := entries + added.value;
    }
    Finish(ACX, rows, parse, entries);
    r := Ok(entries);
  }

  /** `get_ptx`: one entry per row of the shared MX/PTX table that does not
      name an MX, with the model split on `/` or `, `. */
  method GetPtx(rows: seq<Row>, parse: DateParser) returns (r: Result<seq<Entry>>)
    ensures r == Extract(PTX, rows, parse)
  {
    var entries: seq<Entry> := [];
    for i := 0 to |rows|
      invariant Extract(PTX, rows[..i], parse) == Ok(entries)
    {
      var row := rows[i];
      var added: Result<seq<Entry>>;
      if |row| == 0 || Contains(row[0], "MX") {
        added := Ok([]);
      } else {
        var cleaned := Cleanup(row[0]);
        var model: Value;
        if Contains(cleaned, "/") && !Contains(cleaned, "PTX10008") {
          model := List(Split(cleaned, "/"));
        } else if Contains(cleaned, ", ") {
          model := List(Split(cleaned, ", "));
        } else {
          model := Str(cleaned);
        }
        added := EmitEntry(PTX, model, row, parse);
      }
      Advance(PTX, rows, i, parse, entries, added);
      if added.Err? {
        return added;
      }
      entries := entries + added.value;
    }
    Finish(PTX, rows, parse, entries);
    r := Ok(entries);
  }

  /** `get_mx`: the rows of the shared table that do not name a PTX, one
      entry per model piece. */
  method GetMx(rows: seq<Row>, parse: DateParser) returns (r: Result<seq<Entry>>)
    ensures r == Extract(MX, rows, parse)
  {
    var entries: seq<Entry> := [];
    for i := 0 to |rows|
      invariant Extract(MX, rows[..i], parse) == Ok(entries)
    {
      var row := rows[i];
      var added: Result<seq<Entry>>;
      if |row| == 0 || Contains(row[0], "PTX") {
        added := Ok([]);
      } else {
        var model := Cleanup(row[0]);
        var pieces: seq<string>;
        if Contains(model, "/") && !Contains(model, "MIC") {
          pieces := Split(model, "/");
        } else if Contains(model, ", ") {
          pieces := Split(model, ", ");
        } else {
          pieces := [model];
        }
        added := EmitPieces(MX, pieces, row, parse);
      }
      Advance(MX, rows, i, parse, entries, added);
      if added.Err? {
        return added;
      }
      entries := entries + added.value;
    }
    Finish(MX, rows, parse, entries);
    r := Ok(entries);
  }

  /** `get_nfx`: one entry per row, the model split on `/` when it has
      one, the date in the fifth column. */
  method GetNfx(rows: seq<Row>, parse: DateParser) returns (r: Result<seq<Entry>>)
    ensures r == Extract(NFX, rows, parse)
  {
    var entries: seq<Entry> := [];
    for i := 0 to |rows|
      invariant Extract(NFX, rows[..i], parse) == Ok(entries)
    {
      var row := rows[i];
      var added: Result<seq<Entry>>;
      if |row| == 0 {
        added := Ok([]);
      } else {
        var cleaned := Cleanup(row[0]);
        var model: Value;
        if Contains(cleaned, "/") {
          model := List(Split(cleaned, "/"));
        } else {
          model := Str(cleaned);
        }
        added := EmitEntry(NFX, model, row, parse);
      }
      Advance(NFX, rows, i, parse, entries, added);
      if added.Err? {
        return added;
      }
      entries := entries + added.value;
    }
    Finish(NFX, rows, parse, entries);
    r := Ok(entries);
  }

  /** `get_qfx`: one entry per model piece, past the Asptra heading row. */
  method GetQfx(rows: seq<Row>, parse: DateParser) returns (r: Result<seq<Entry>>)
    ensures r == Extract(QFX, rows, parse)
  {
    var entries: seq<Entry> := [];
    for i := 0 to |rows|
      invariant Extract(QFX, rows[..i], parse) == Ok(entries)
    {
      var row := rows[i];
      var added: Result<seq<Entry>> := Ok([]);
      if |row| > 0 {
        var model := Cleanup(row[0]);
        if model != "Asptra Release Considerations" {
          var pieces := if Contains(model, "/") then Split(model, "/") else [model];
          added := EmitPieces(QFX, pieces, row, parse);
        }
      }
      Advance(QFX, rows, i, parse, entries, added);
      if added.Err? {
        return added;
      }
      entries := entries + added.value;
    }
    Finish(QFX, rows, parse, entries);
    r := Ok(entries);
  }

  /** The `new_model` loop of `get_srx`. */
  method PutBackLinecard(items: seq<string>, linecard: string) returns (models: seq<string>)
    ensures models == WithLinecard(items, linecard)
  {
    models := [];
    for j := 0 to |items|
      invariant models == WithLinecard(items[..j], linecard)
    {
      assert items[..j + 1][..j] == items[..j];
      if linecard == "" {
        models := models + [items[j]];
      } else {
        if Contains(items[j], "with") {
          continue;
        }
        models := models + [items[j] + " with" + linecard];
      }
    }
    assert items[..|items|] == items;
  }

  /** `get_srx`: one entry per model piece, past the "Products for which"
      heading rows, with the linecard put back on slashed models. */
  method GetSrx(rows: seq<Row>, parse: DateParser) returns (r: Result<seq<Entry>>)
    ensures r == Extract(SRX, rows, parse)
  {
    var entries: seq<Entry> := [];
    for i := 0 to |rows|
      invariant Extract(SRX, rows[..i], parse) == Ok(entries)
    {
      var row := rows[i];
      var added: Result<seq<Entry>> := Ok([]);
      if |row| > 0 {
        var model := Cleanup(row[0]);
        if !Contains(model, "Products for which") {
          var linecard := "";
          if Contains(model, "with") {
            SplitSingle(model, "with");
            linecard := Split(model, "with")[1];
          }
          var pieces: seq<string>;
          if Contains(model, "/") {
            pieces := PutBackLinecard(Split(model, "/"), linecard);
          } else {
            pieces := [model];
          }
          added := EmitPieces(SRX, pieces, row, parse);
        }
      }
      Advance(SRX, rows, i, parse, entries, added);
      if added.Err? {
        return added;
      }
      entries := entries + added.value;
    }
    Finish(SRX, rows, parse, entries);
    r := Ok(entries);
  }
}
