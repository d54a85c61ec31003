# JTAC recommended-release scraper, modelled in Dafny

`jtac_recommended/jtac_scrape.py` reads Juniper's "JTAC recommended Junos
releases" page. It turns the table of each product family into a list of
`{model, recommended, updated}` entries. This project models the part of it
that works on text:

- `JtacScraper.cleanup` is the fixed, ordered pipeline of replacements that
  tidies a cell.
- The row loops of `get_ex`, `get_acx`, `get_ptx`, `get_mx`, `get_nfx`,
  `get_qfx` and `get_srx` skip non-data rows, split the model cell, read the
  release and date cells, and append entries in order.

The project has five modules:

- **`Text`**: the Python string operations the scraper calls, as
  functions: `in`, `replace`, `split`, `strip` and `lower`. It also defines
  `join` and `endswith`, which the scraper does not call; they are used
  only to state properties.
- **`Cleaning`**: `cleanup` as a method (`Cleanup`), line by line, with its
  replace-until-gone loops. It is proved equal to `Clean`, which runs the
  same statements as a list of steps.
- **`Records`**: the entry datatypes and the release rule shared by five
  families.
- **`Tables`**: the specification of what each family's loop returns
  (`Extract`), with its properties: which rows are dropped, how the model
  is split, how many entries come out and in what order, and which error
  ends the call.
- **`Scraper`**: the seven `get_*` methods as loops, each proved to return
  `Extract` for its family.

A table is a sequence of rows, and a row is a sequence of already-trimmed
cell texts. The two exceptions that can end a `get_*` call are results,
not preconditions:

- an `IndexError` on a row with too few cells is `Err(MissingCell(column))`;
- a date the parser rejects is `Err(BadDate(text))`.

The date parser is a parameter (`DateParser`), because it is a library
routine the model cannot see.

## Behaviour kept from the code

Each of these is proved as a lemma.

- **`cleanup` is not idempotent.** Dots are stripped before the notes are
  deleted, so `X. (legacy)` becomes `X.`, and cleaning that again gives
  `X` (`CleanIsNotIdempotent`).
- **SRX loses a model when a slashed model carries a linecard.** The piece
  that already names the linecard is dropped. So `MX960/MX480 with MPC7E`
  gives only `MX960 with MPC7E`, and `MX480` is lost
  (`SrxDropsLinecardPiece`).
- **PTX and SRX keep the plain release.** Lines 433 and 775 overwrite the
  suffixed list with the plain release. These two families therefore keep
  the `Latest ` marker and never add ` (latest)` (`PlainReleaseKept`).
- **Only PTX and MX accept an empty date cell.** They store it as `''`.
  Every other family hands the empty text to the parser (`DateRule`).
- **PTX and NFX may have a list as the model.** They emit one entry per
  row, whose `model` may be a list. The other families emit one entry per
  model piece (`RowShape`).

## Model

| member | source | states |
|---|---|---|
| Cleaning.ReplaceWhilePresent | jtac_recommended/jtac_scrape.py:185-197 | A `while pat in s: s = s.replace(pat, rep)` loop ends, with no occurrence of the pattern left, in the state `Exhaust` describes. |
| Cleaning.Cleanup | jtac_recommended/jtac_scrape.py:162-222 | `cleanup`, statement by statement, returns `Clean(s)`: the ordered pipeline of replacements, loops, dot strip and note deletions. |
| Cleaning.CleanStages | jtac_recommended/jtac_scrape.py:181-220 | The pipeline splits into its three stages: spaces and tabs, slashes, then brackets, dots and notes. |
| Cleaning.CleanRemovesTabsAndNbsp | jtac_recommended/jtac_scrape.py:181-186 | A cleaned cell holds no tab and no non-breaking space, whatever it started with. |
| Cleaning.SlashedHasNoRuns | jtac_recommended/jtac_scrape.py:188-197 | Once the double-space and `//` loops have run, the cell has no double space and no `//`, even though slash clean-up runs in between. |
| Cleaning.CleanNoLonger | jtac_recommended/jtac_scrape.py:181-220 | `cleanup` never makes a cell longer. |
| Cleaning.CleanCollapsesTabRun | jtac_recommended/jtac_scrape.py:184-197 | A run of one or more tabs cleans to a single `/`. |
| Cleaning.SlashRunCollapses | jtac_recommended/jtac_scrape.py:196-197 | A cell of one or more slashes becomes a single `/` under the `//` loop. |
| Cleaning.CleanKeepsDotBeforeNote | jtac_recommended/jtac_scrape.py:203-220 | A dot hidden by a note survives: `X. (legacy)` cleans to `X.`. |
| Cleaning.CleanStripsTrailingDot | jtac_recommended/jtac_scrape.py:203-204 | A trailing dot is stripped: `X.` cleans to `X`. |
| Cleaning.CleanIsNotIdempotent | jtac_recommended/jtac_scrape.py:203-220 | Cleaning twice can differ from cleaning once. |
| Cleaning.PerformAppend | jtac_recommended/jtac_scrape.py:181-220 | Running two lists of statements one after the other is running their concatenation. |
| Cleaning.DeletingNoLonger | jtac_recommended/jtac_scrape.py:206-220 | Note deletions never lengthen the cell. |
| Cleaning.DeletingKeepsCharOut | jtac_recommended/jtac_scrape.py:206-220 | Note deletions bring in no character the cell lacked. |
| Cleaning.PerformAbsent | jtac_recommended/jtac_scrape.py:206-220 | Deleting notes the cell does not contain leaves it unchanged. |
| Cleaning.ExhaustNoLonger | jtac_recommended/jtac_scrape.py:185-197 | A replace-until-gone loop with a replacement no longer than the pattern never lengthens the cell. |
| Cleaning.ExhaustKeepsCharOut | jtac_recommended/jtac_scrape.py:185-197 | A replace-until-gone loop brings in no character missing from both the cell and the replacement. |
| Cleaning.ExhaustKeepsNoRun | jtac_recommended/jtac_scrape.py:196-197 | A replace-until-gone loop whose replacement has no `c` creates no `cc`. |
| Records.TagLatest | jtac_recommended/jtac_scrape.py:278-281 | The `new_release` loop: same length, and every release gets ` (latest)` appended, in order. |
| Records.ParseRelease | jtac_recommended/jtac_scrape.py:268-284 | The release lines of EX, ACX, MX, NFX and QFX compute `Recommended(release)`. |
| Records.SlashSplitRoundTrip | jtac_recommended/jtac_scrape.py:276-277 | A cell stays a string exactly when it has no `/`. Otherwise it splits into at least two slash-free releases that join back into the cell. |
| Records.RecommendedRule | jtac_recommended/jtac_scrape.py:268-284 | After `Latest ` is removed, the result is one string exactly when no `/` remains. Otherwise every release carries ` (latest)` when the cell mentions "latest" in any case, and none does when it does not. |
| Records.RecommendedRoundTrip | jtac_recommended/jtac_scrape.py:273-284 | Taking off the suffixes and joining with `/` gives back the cell without its `Latest ` marker, and no release holds a `/`. |
| Records.SuffixMeansFlagged | jtac_recommended/jtac_scrape.py:269-281 | A cell containing text that ends in ` (latest)` is flagged. |
| Records.MarkerMeansFlagged | jtac_recommended/jtac_scrape.py:269-273 | A cell with the `Latest ` marker is always flagged. |
| Tables.DateColumn | jtac_recommended/jtac_scrape.py:287 | The date is read from a cell after the model and release cells: index 2, or 3 for SRX (line 778), or 4 for NFX (line 599). |
| Tables.ThenAssociative | jtac_recommended/jtac_scrape.py:251-290 | Appending entries and stopping at the first failure is associative. |
| Tables.CollectAppend | jtac_recommended/jtac_scrape.py:251-290 | Collecting two runs of outcomes one after the other is collecting their concatenation. |
| Tables.CollectFails | jtac_recommended/jtac_scrape.py:251-290 | Collecting succeeds exactly when every outcome does. Otherwise the result is the first failure. |
| Tables.CollectSpread | jtac_recommended/jtac_scrape.py:263-290 | When the outcomes differ only in the model, the collected list has one entry per piece, with a shared release and date. |
| Tables.ExtractAppend | jtac_recommended/jtac_scrape.py:251-290 | Extracting a table is extracting its rows in order. Entries are appended with no merging or sorting, and the first failure wins. |
| Tables.ExtractFails | jtac_recommended/jtac_scrape.py:251-290 | A table is extracted exactly when every row is. Otherwise the call fails with the first failing row's error. |
| Tables.ExtractStep | jtac_recommended/jtac_scrape.py:251-290 | One more row appends that row's entries, or fails. |
| Tables.ExtractStops | jtac_recommended/jtac_scrape.py:251-290 | A failure ends the table: rows after it do not matter. |
| Tables.EachStep | jtac_recommended/jtac_scrape.py:263-290 | One more model piece appends that piece's entry, or fails. |
| Tables.EachStops | jtac_recommended/jtac_scrape.py:263-290 | A failure on one piece ends the row. |
| Tables.ProduceSpread | jtac_recommended/jtac_scrape.py:263-290 | The loop body's result for one piece determines its result for any other piece. |
| Tables.EachUniform | jtac_recommended/jtac_scrape.py:263-290 | Every piece of a row gets the same release and the same date. |
| Tables.ProduceCases | jtac_recommended/jtac_scrape.py:498-532 | The loop body adds nothing exactly for an MX release that says `See MX Series`. It fails exactly on a missing date cell or an unparsable date. Otherwise it adds one entry with the model, the release and the date. |
| Tables.RowsWithoutEntries | jtac_recommended/jtac_scrape.py:251-257 | A row adds no entry exactly when it is dropped: empty, a family's heading row, an MX `See MX Series` row, or an SRX row whose every piece is dropped (skip lines also at 399-404, 480-485, 504-505, 641-648 and 723-730). |
| Tables.RowShape | jtac_recommended/jtac_scrape.py:393-444 | A row that adds entries has its date cell and a parsable date. Per-piece families add one entry per piece with a shared release and date, in piece order. PTX and NFX add one entry whose model is the whole (possibly split) model. |
| Tables.RowFails | jtac_recommended/jtac_scrape.py:251-290 | A row fails exactly when it is kept and its date cell is missing or unparsable. The error names the first missing column (1, then the date column) or the text the parser rejected. |
| Tables.RowCount | jtac_recommended/jtac_scrape.py:251-290 | A row that does not fail adds as many entries as it has pieces (one for PTX and NFX, none when dropped). |
| Tables.ExtractCount | jtac_recommended/jtac_scrape.py:251-290 | A table that does not fail gives the sum of its rows' counts. |
| Tables.SlashPieces | jtac_recommended/jtac_scrape.py:262-263 | EX, ACX and QFX split the model on every `/` (QFX at lines 650-654). There is at least one piece, none holds a slash, and the pieces join back into the cell. |
| Tables.MxModelsRule | jtac_recommended/jtac_scrape.py:490-496 | MX splits on `/` unless the cell names an MIC, then on `, `, else keeps the cell whole. Each split is undone by joining with its separator, and no piece holds that separator. |
| Tables.PtxModelRule | jtac_recommended/jtac_scrape.py:409-413 | PTX splits on `/` unless the model names PTX10008, then on `, `, else keeps the model as one string. Each split is undone by joining with its separator, and no piece holds that separator. |
| Tables.LinecardRule | jtac_recommended/jtac_scrape.py:733-735 | The linecard is empty without a `with`. Otherwise it is the text that starts right after the first `with` and runs to the next `with` or the end of the model. |
| Tables.WithLinecardRule | jtac_recommended/jtac_scrape.py:740-748 | Without a linecard the pieces are kept. With one, exactly the pieces without `with` are kept, each with ` with` and the linecard appended. |
| Tables.WithLinecardAppend | jtac_recommended/jtac_scrape.py:740-748 | The loop over the pieces handles them one after another: the list built from two runs of pieces is the two lists built from each, in order. |
| Tables.WithLinecardSingle | jtac_recommended/jtac_scrape.py:741-746 | One piece gives itself when there is no linecard, nothing when it names `with`, and itself with ` with` and the linecard otherwise. |
| Tables.WithLinecardAt | jtac_recommended/jtac_scrape.py:740-748 | Each piece's contribution sits in the piece's own place, between those of the pieces before and after it. |
| Tables.SrxModelsRule | jtac_recommended/jtac_scrape.py:733-751 | An SRX model without `/` is kept whole. With `/` but no `with` it is split on `/`. Otherwise every model kept ends with the linecard. |
| Tables.SrxDropsLinecardPiece | jtac_recommended/jtac_scrape.py:738-748 | `a/b with card` gives only `a with card`: the piece `b` is lost. |
| Tables.DateRule | jtac_recommended/jtac_scrape.py:436-440 | The date text has no non-breaking space (and for QFX no double space, lines 680-683). An empty PTX or MX cell gives `''`. Any other text gives the parser's date, or fails with that text. |
| Tables.PlainReleaseKept | jtac_recommended/jtac_scrape.py:758-775 | For PTX and SRX the release is the cleaned cell, `Latest ` included, split on `/` into slash-free pieces when it has one (PTX at lines 416-433). |
| Scraper.ReadDate | jtac_recommended/jtac_scrape.py:524-528 | The date lines of a loop body compute `DateOf`. |
| Scraper.ReadPlainRelease | jtac_recommended/jtac_scrape.py:416-433 | The PTX and SRX release lines build the suffixed list and then return the plain, possibly split, release. |
| Scraper.EmitEntry | jtac_recommended/jtac_scrape.py:498-532 | One pass of a loop body computes `Produce`. |
| Scraper.EmitPieces | jtac_recommended/jtac_scrape.py:263-290 | The `for item in model` loop computes `Each`. |
| Scraper.PutBackLinecard | jtac_recommended/jtac_scrape.py:740-748 | The `new_model` loop computes `WithLinecard`. |
| Scraper.GetEx | jtac_recommended/jtac_scrape.py:251-290 | `get_ex` returns `Extract(EX, rows, parse)`. |
| Scraper.GetAcx | jtac_recommended/jtac_scrape.py:321-362 | `get_acx` returns `Extract(ACX, rows, parse)`. |
| Scraper.GetPtx | jtac_recommended/jtac_scrape.py:393-444 | `get_ptx` returns `Extract(PTX, rows, parse)`. |
| Scraper.GetMx | jtac_recommended/jtac_scrape.py:475-532 | `get_mx` returns `Extract(MX, rows, parse)`. |
| Scraper.GetNfx | jtac_recommended/jtac_scrape.py:563-604 | `get_nfx` returns `Extract(NFX, rows, parse)`. |
| Scraper.GetQfx | jtac_recommended/jtac_scrape.py:635-687 | `get_qfx` returns `Extract(QFX, rows, parse)`. |
| Scraper.GetSrx | jtac_recommended/jtac_scrape.py:718-783 | `get_srx` returns `Extract(SRX, rows, parse)`. |

## Left out

- `JtacScraper.__init__` (browser automation, waiting, HTML table lookup) is
  not part of this model. A table is given as its rows of trimmed cell texts.
  The `find_all('td')` and `.strip()` calls that produce them are not
  modelled.
- The `info` dictionary keyed by family name is not modelled. Each `Get*`
  method returns its list directly.
- The date parser (`dateutil.parser.parse`) is a function parameter. Its
  parsing rules are not modelled, and any exception it raises is
  `BadDate(text)`. `dateutil` returns a datetime and fills the fields the
  text leaves out from today's date. The model's parser is a pure function
  of the text, so it drops that dependence on the clock. `EachUniform`
  relies on this.
- `str.lower()` is ASCII lower-casing only. Non-ASCII case mappings do not
  matter for the word "latest".
- `Cleaning.CleanCollapsesTabRun`: proved for a cell that is only a run of
  tabs, not for a run inside arbitrary text.
- `Cleaning.SlashRunCollapses`: proved for a cell that is only a run of
  slashes, not for a run inside arbitrary text. For any cell,
  `SlashedHasNoRuns` shows that no `//` is left, but the model does not
  prove that exactly one `/` stays where the run was.
- The other scripts of the repository are not part of this model. They
  print results or drive devices through a vendor SDK.
