/**
 * The entries the scraper emits and the rule that turns a cleaned release
 * cell into the `recommended` field (jtac_recommended/jtac_scrape.py).
 */
module Records {
  import opened Text

  /** A Python `str` or a `list` of `str`: the `model` field of PTX and NFX
      entries and the `recommended` field of every entry may be either. */
  datatype Value = Str(text: string) | List(items: seq<string>)

  /** What the date parser returns. */
  datatype Date = Date(year: int, month: int, day: int)

  /** The `updated` field: a parsed date, or `''` for an empty PTX or MX
      date cell. */
  datatype Updated = Blank | On(date: Date)

  /** One `{model, recommended, updated}` dictionary. */
  datatype Entry = Entry(model: Value, recommended: Value, updated: Updated)

  datatype Option<T> = None | Some(value: T)

  /** The exceptions that abort a `get_*` call: an `IndexError` on a row
      with too few cells, or a date the parser rejects. */
  datatype Error = MissingCell(column: nat) | BadDate(text: string)

  datatype Result<T> = Ok(value: T) | Err(error: Error)

  /** The free-text date parser, a library routine this model does not see:
      `None` stands for the exception it raises. */
  type DateParser = string -> Option<Date>

  const LatestSuffix: string := " (latest)"

  /** The release cell mentions "latest" in any letter case. */
  predicate Flagged(release: string)
  {
    Contains(Lower(release), "latest")
  }

  /** A cell as one string, or split on `/` when it holds one: the release
      of PTX and SRX entries and the model of NFX entries. */
  function SlashSplit(cell: string): Value
  {
    if Contains(cell, "/") then List(Split(cell, "/")) else Str(cell)
  }

  /** Each release with the ` (latest)` suffix. */
  function Tagged(items: seq<string>): seq<string>
  {
    seq(|items|, k requires 0 <= k < |items| => items[k] + LatestSuffix)
  }

  /** The `recommended` field of EX, ACX, MX, NFX and QFX entries. */
  function Recommended(release: string): Value
  {
    match SlashSplit(Replace(release, "Latest ", ""))
    case List(items) => if Flagged(release) then List(Tagged(items)) else List(items)
    case Str(text) => Str(text)
  }

  /** A release with the ` (latest)` suffix taken off again. */
  function Untag(item: string): string
  {
    if EndsWith(item, LatestSuffix) then item[..|item| - |LatestSuffix|] else item
  }

  /** The loop that builds `new_release`. */
  method TagLatest(items: seq<string>) returns (tagged: seq<string>)
    ensures |tagged| == |items|
    ensures forall k :: 0 <= k < |items| ==> tagged[k] == items[k] + LatestSuffix
  {
    tagged := [];
    for k := 0 to |items|
      invariant |tagged| == k
      invariant forall j :: 0 <= j < k ==> tagged[j] == items[j] + LatestSuffix
    {
      tagged := tagged + [items[k] + LatestSuffix];
    }
  }

  /** The release handling shared by `get_ex`, `get_acx`, `get_mx`,
      `get_nfx` and `get_qfx`, applied to the cleaned release cell. */
  method ParseRelease(release: string) returns (recommended: Value)
    ensures recommended == Recommended(release)
  {
    var latest := Contains(Lower(release), "latest");
    var stripped := Replace(release, "Latest ", "");
    if Contains(stripped, "/") {
      var items := Split(stripped, "/");
      if latest {
        var tagged := TagLatest(items);
        recommended := List(tagged);
      } else {
        recommended := List(items);
      }
    } else {
      recommended := Str(stripped);
    }
  }

  // ---------------------------------------------------------------------
  // Properties of the release rule

  /** A split cell has at least two pieces, none holding a slash, and they
      join back into the cell. */
  lemma SlashSplitRoundTrip(cell: string)
    ensures SlashSplit(cell).Str? <==> !Contains(cell, "/")
    ensures SlashSplit(cell).Str? ==> SlashSplit(cell).text == cell
    ensures SlashSplit(cell).List? ==>
      |SlashSplit(cell).items| >= 2 && Join(SlashSplit(cell).items, "/") == cell
    ensures SlashSplit(cell).List? ==>
      forall k :: 0 <= k < |SlashSplit(cell).items| ==> !Contains(SlashSplit(cell).items[k], "/")
  {
    SplitSingle(cell, "/");
    SplitJoin(cell, "/");
    SplitPiecesAvoidSep(cell, "/");
  }

  lemma LowerLatest()
    ensures Lower("latest") == "latest"
  {
  }

  /** A piece of the cell that ends in ` (latest)` makes the cell flagged. */
  lemma SuffixMeansFlagged(release: string, piece: string)
    requires Contains(release, piece) && EndsWith(piece, LatestSuffix)
    ensures Flagged(release)
  {
    EndsWithContains(piece, LatestSuffix);
    ContainsIffOccurs(LatestSuffix, "latest");
    assert OccursAt(LatestSuffix, "latest", 2);
    ContainsTransitive(release, piece, LatestSuffix);
    ContainsTransitive(release, LatestSuffix, "latest");
    LowerKeepsOccurrence(release, "latest");
    LowerLatest();
  }

  /** The `Latest ` marker makes the cell flagged. */
  lemma MarkerMeansFlagged(release: string)
    requires Contains(release, "Latest ")
    ensures Flagged(release)
  {
    ContainsIffOccurs("Latest ", "Latest");
    assert OccursAt("Latest ", "Latest", 0);
    ContainsTransitive(release, "Latest ", "Latest");
    LowerKeepsOccurrence(release, "Latest");
    assert Lower("Latest") == "latest";
  }

  /** The release rule of EX, ACX, MX, NFX and QFX: after the `Latest `
      marker is removed, a cell without a slash stays one string; otherwise
      it becomes the list of its slash-separated releases, and every one of
      them carries ` (latest)` when the cell mentions "latest" and none of
      them does when it does not. */
  lemma RecommendedRule(release: string)
    ensures var stripped := Replace(release, "Latest ", "");
      Recommended(release).Str? <==> !Contains(stripped, "/")
    ensures var stripped := Replace(release, "Latest ", "");
      Recommended(release).Str? ==> Recommended(release).text == stripped
    ensures Recommended(release).List? && Flagged(release) ==>
      forall k :: 0 <= k < |Recommended(release).items| ==>
        EndsWith(Recommended(release).items[k], LatestSuffix)
    ensures Recommended(release).List? && !Flagged(release) ==>
      forall k :: 0 <= k < |Recommended(release).items| ==>
        !EndsWith(Recommended(release).items[k], LatestSuffix)
  {
    var stripped := Replace(release, "Latest ", "");
    var v := Recommended(release);
    SlashSplitRoundTrip(stripped);
    if v.List? && !Contains(release, "Latest ") {
      ReplaceAbsent(release, "Latest ", "");
      SplitPiecesOccur(release, "/");
      var items := Split(release, "/");
      forall k | 0 <= k < |items|
        ensures EndsWith(items[k], LatestSuffix) ==> Flagged(release)
      {
        if EndsWith(items[k], LatestSuffix) {
          SuffixMeansFlagged(release, items[k]);
        }
      }
    }
    if Contains(release, "Latest ") {
      MarkerMeansFlagged(release);
    }
  }

  /** Nothing is lost: taking the suffixes off and joining the releases
      with `/` gives back the cell without its `Latest ` marker. */
  lemma RecommendedRoundTrip(release: string)
    requires Recommended(release).List?
    ensures var items := Recommended(release).items;
      |items| >= 2 &&
      Join(seq(|items|, k requires 0 <= k < |items| => Untag(items[k])), "/")
        == Replace(release, "Latest ", "")
    ensures var items := Recommended(release).items;
      forall k :: 0 <= k < |items| ==> !Contains(Untag(items[k]), "/")
  {
    var stripped := Replace(release, "Latest ", "");
    SlashSplitRoundTrip(stripped);
    var pieces := Split(stripped, "/");
    var items := Recommended(release).items;
    var untagged := seq(|items|, k requires 0 <= k < |items| => Untag(items[k]));
    if Flagged(release) {
      forall k | 0 <= k < |items|
        ensures untagged[k] == pieces[k]
      {
        assert items[k] == pieces[k] + LatestSuffix;
        assert EndsWith(items[k], LatestSuffix);
        assert items[k][..|items[k]| - |LatestSuffix|] == pieces[k];
      }
    } else {
      // an unflagged cell has no suffixed release
      RecommendedRule(release);
    }
    assert untagged == pieces;
    forall k | 0 <= k < |items|
      ensures !Contains(Untag(items[k]), "/")
    {
      assert Untag(items[k]) == untagged[k];
    }
  }
}
