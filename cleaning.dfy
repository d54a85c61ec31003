/**
 * `JtacScraper.cleanup`: the fixed, ordered pipeline of literal
 * replacements that tidies a table cell (jtac_recommended/jtac_scrape.py).
 */
module Cleaning {
  import opened Text

  /** The non-breaking space, `'\xa0'`. */
  const Nbsp: char := '\U{A0}'

  /** A pattern and replacement for which `while pat in s: s = s.replace(pat, rep)`
      terminates: the replacement is shorter, or the pattern is one character
      the replacement does not hold. */
  predicate Shrinking(pat: string, rep: string)
  {
    |pat| > 0 && (|rep| < |pat| || (|pat| == 1 && pat[0] !in rep))
  }

  /** One replacement pass either shortens the string or removes the
      pattern altogether. */
  lemma ReplaceProgress(s: string, pat: string, rep: string)
    requires Shrinking(pat, rep) && Contains(s, pat)
    ensures |Replace(s, pat, rep)| < |s| || !Contains(Replace(s, pat, rep), pat)
  {
    if |rep| < |pat| {
      ReplaceShrinks(s, pat, rep);
    } else {
      assert pat == [pat[0]];
      ReplaceRemovesChar(s, pat[0], rep);
      ContainsChar(Replace(s, pat, rep), pat[0]);
    }
  }

  /** The value `while pat in s: s = s.replace(pat, rep)` ends with. */
  function Exhaust(s: string, pat: string, rep: string): (r: string)
    requires Shrinking(pat, rep)
    ensures !Contains(r, pat)
    decreases if Contains(s, pat) then 1 else 0, |s|
  {
    if Contains(s, pat) then
      ReplaceProgress(s, pat, rep);
      Exhaust(Replace(s, pat, rep), pat, rep)
    else s
  }

  /** The replace-until-gone loop of jtac_scrape.py (tabs, double spaces,
      double slashes, and the date cell of the QFX table). */
  method ReplaceWhilePresent(s: string, pat: string, rep: string) returns (r: string)
    requires Shrinking(pat, rep)
    ensures r == Exhaust(s, pat, rep)
    ensures !Contains(r, pat)
  {
    r := s;
    while Contains(r, pat)
      invariant Exhaust(r, pat, rep) == Exhaust(s, pat, rep)
      decreases if Contains(r, pat) then 1 else 0, |r|
    {
      ReplaceProgress(r, pat, rep);
      r := Replace(r, pat, rep);
    }
  }

  /** One statement of `cleanup`. */
  datatype Step =
    | Swap(pat: string, rep: string)   // `cleaned = cleaned.replace(pat, rep)`
    | Drain(pat: string, rep: string)  // `while pat in cleaned: cleaned = cleaned.replace(pat, rep)`
    | StripDots                        // `cleaned = cleaned.strip('.')`

  predicate Runnable(step: Step)
  {
    match step
    case Swap(pat, _) => |pat| > 0
    case Drain(pat, rep) => Shrinking(pat, rep)
    case StripDots => true
  }

  /** A statement that terminates. */
  type Statement = step: Step | Runnable(step) witness StripDots

  function Apply(step: Statement, s: string): string
  {
    match step
    case Swap(pat, rep) => Replace(s, pat, rep)
    case Drain(pat, rep) => Exhaust(s, pat, rep)
    case StripDots => Strip(s, '.')
  }

  /** The statements run one after the other. */
  function Perform(s: string, steps: seq<Statement>): string
    decreases |steps|
  {
    if |steps| == 0 then s else Perform(Apply(steps[0], s), steps[1..])
  }

  /** The statements of `cleanup` up to the stripping of dots. */
  const Steps: seq<Statement> := [
    Swap([Nbsp], " "), Drain("\t", "/"), Drain("  ", " "),
    Swap(" / ", "/"), Swap(" /", "/"), Swap("/ ", "/"), Drain("//", "/"),
    Swap(" )", ")"), Swap("( ", "("), StripDots
  ]

  /** The deletions of footnote markers and parenthetical remarks that end
      `cleanup`, in the order they run. */
  const Deletions: seq<Statement> := [
    Swap(" (See Note 1)", ""), Swap(" (See Note 2)", ""), Swap(" (See Note 3)", ""),
    Swap(" (See Note 4)", ""), Swap(" (see notes)", ""), Swap(" (*1)", ""),
    Swap(" (*2)", ""), Swap(" (*3)", ""), Swap(" (Except the ones listed below)", ""),
    Swap(" (recommended)", ""), Swap(" (legacy)", ""), Swap(" (see note)", "")
  ]

  /** Every statement of `cleanup`, in order. */
  const Pipeline: seq<Statement> := Steps + Deletions

  /** What `cleanup` returns. */
  function Clean(s: string): string
  {
    Perform(s, Pipeline)
  }

  /** The cell after the tab loop and the double-space loop. */
  function Spaced(s: string): string
  {
    Exhaust(Exhaust(Replace(s, [Nbsp], " "), "\t", "/"), "  ", " ")
  }

  /** The cell after the slash clean-up, including the `//` loop. */
  function Slashed(s: string): string
  {
    Exhaust(Replace(Replace(Replace(Spaced(s), " / ", "/"), " /", "/"), "/ ", "/"), "//", "/")
  }

  /** The bracket, dot and note clean-up that follows the slash clean-up. */
  function Tidied(d: string): string
  {
    Perform(Strip(Replace(Replace(d, " )", ")"), "( ", "("), '.'), Deletions)
  }

  /** The pipeline in three stages: spaces, slashes, then brackets, dots
      and notes. */
  lemma CleanStages(s: string)
    ensures Clean(s) == Tidied(Slashed(s))
  {
    var c0 := Replace(s, [Nbsp], " ");
    assert Perform(s, Steps) == Perform(c0, Steps[1..]);
    var c1 := Exhaust(c0, "\t", "/");
    assert Perform(c0, Steps[1..]) == Perform(c1, Steps[2..]);
    var c2 := Exhaust(c1, "  ", " ");
    assert Perform(c1, Steps[2..]) == Perform(c2, Steps[3..]);
    var c3 := Replace(c2, " / ", "/");
    assert Perform(c2, Steps[3..]) == Perform(c3, Steps[4..]);
    var c4 := Replace(c3, " /", "/");
    assert Perform(c3, Steps[4..]) == Perform(c4, Steps[5..]);
    var c5 := Replace(c4, "/ ", "/");
    assert Perform(c4, Steps[5..]) == Perform(c5, Steps[6..]);
    var c6 := Exhaust(c5, "//", "/");
    assert c6 == Slashed(s);
    assert Perform(c5, Steps[6..]) == Perform(c6, Steps[7..]);
    var c7 := Replace(c6, " )", ")");
    assert Perform(c6, Steps[7..]) == Perform(c7, Steps[8..]);
    var c8 := Replace(c7, "( ", "(");
    assert Perform(c7, Steps[8..]) == Perform(c8, Steps[9..]);
    assert Perform(c8, Steps[9..]) == Perform(Strip(c8, '.'), Steps[10..]);
    assert Steps[10..] == [];
    PerformAppend(s, Steps, Deletions);
  }

  /** `JtacScraper.cleanup`. */
  method Cleanup(s: string) returns (cleaned: string)
    ensures cleaned == Clean(s)
  {
    cleaned := Replace(s, [Nbsp], " ");
    cleaned := ReplaceWhilePresent(cleaned, "\t", "/");
    cleaned := ReplaceWhilePresent(cleaned, "  ", " ");
    cleaned := Replace(cleaned, " / ", "/");
    cleaned := Replace(cleaned, " /", "/");
    cleaned := Replace(cleaned, "/ ", "/");
    cleaned := ReplaceWhilePresent(cleaned, "//", "/");
    cleaned := Replace(cleaned, " )", ")");
    cleaned := Replace(cleaned, "( ", "(");
    cleaned := Strip(cleaned, '.');
    cleaned := Replace(cleaned, " (See Note 1)", "");
    cleaned := Replace(cleaned, " (See Note 2)", "");
    cleaned := Replace(cleaned, " (See Note 3)", "");
    cleaned := Replace(cleaned, " (See Note 4)", "");
    cleaned := Replace(cleaned, " (see notes)", "");
    cleaned := Replace(cleaned, " (*1)", "");
    cleaned := Replace(cleaned, " (*2)", "");
    cleaned := Replace(cleaned, " (*3)", "");
    cleaned := Replace(cleaned, " (Except the ones listed below)", "");
    cleaned := Replace(cleaned, " (recommended)", "");
    cleaned := Replace(cleaned, " (legacy)", "");
    cleaned := Replace(cleaned, " (see note)", "");
    CleanStages(s);
  }

  // ---------------------------------------------------------------------
  // Facts about the stages

  lemma {:induction false} ExhaustNoLonger(s: string, pat: string, rep: string)
    requires Shrinking(pat, rep) && |rep| <= |pat|
    ensures |Exhaust(s, pat, rep)| <= |s|
    decreases if Contains(s, pat) then 1 else 0, |s|
  {
    if Contains(s, pat) {
      ReplaceProgress(s, pat, rep);
      ReplaceNoLonger(s, pat, rep);
      ExhaustNoLonger(Replace(s, pat, rep), pat, rep);
    }
  }

  lemma {:induction false} ExhaustKeepsCharOut(s: string, pat: string, rep: string, c: char)
    requires Shrinking(pat, rep) && c !in s && c !in rep
    ensures c !in Exhaust(s, pat, rep)
    decreases if Contains(s, pat) then 1 else 0, |s|
  {
    if Contains(s, pat) {
      ReplaceProgress(s, pat, rep);
      ReplaceKeepsCharOut(s, pat, rep, c);
      ExhaustKeepsCharOut(Replace(s, pat, rep), pat, rep, c);
    }
  }

  lemma {:induction false} ExhaustKeepsNoRun(s: string, pat: string, rep: string, c: char)
    requires Shrinking(pat, rep) && |rep| > 0 && c !in rep && NoRun(s, c)
    ensures NoRun(Exhaust(s, pat, rep), c)
    decreases if Contains(s, pat) then 1 else 0, |s|
  {
    if Contains(s, pat) {
      ReplaceProgress(s, pat, rep);
      ReplaceKeepsNoRun(s, pat, rep, c);
      ExhaustKeepsNoRun(Replace(s, pat, rep), pat, rep, c);
    }
  }

  /** Statements that only delete text. */
  predicate Deleting(steps: seq<Statement>)
  {
    forall k :: 0 <= k < |steps| ==> steps[k].Swap? && steps[k].rep == ""
  }

  lemma {:induction false} DeletingNoLonger(s: string, steps: seq<Statement>)
    requires Deleting(steps)
    ensures |Perform(s, steps)| <= |s|
    decreases |steps|
  {
    if |steps| > 0 {
      ReplaceNoLonger(s, steps[0].pat, "");
      DeletingNoLonger(Replace(s, steps[0].pat, ""), steps[1..]);
    }
  }

  lemma {:induction false} DeletingKeepsCharOut(s: string, steps: seq<Statement>, c: char)
    requires Deleting(steps) && c !in s
    ensures c !in Perform(s, steps)
    decreases |steps|
  {
    if |steps| > 0 {
      ReplaceKeepsCharOut(s, steps[0].pat, "", c);
      DeletingKeepsCharOut(Replace(s, steps[0].pat, ""), steps[1..], c);
    }
  }

  /** Replacements of patterns the text does not hold change nothing. */
  lemma {:induction false} PerformAbsent(s: string, steps: seq<Statement>)
    requires forall k :: 0 <= k < |steps| ==> steps[k].Swap? && !Contains(s, steps[k].pat)
    ensures Perform(s, steps) == s
    decreases |steps|
  {
    if |steps| > 0 {
      ReplaceAbsent(s, steps[0].pat, steps[0].rep);
      PerformAbsent(s, steps[1..]);
    }
  }

  lemma {:induction false} PerformAppend(s: string, first: seq<Statement>, second: seq<Statement>)
    ensures Perform(s, first + second) == Perform(Perform(s, first), second)
    decreases |first|
  {
    if |first| == 0 {
      assert first + second == second;
    } else {
      assert (first + second)[0] == first[0];
      assert (first + second)[1..] == first[1..] + second;
      PerformAppend(Apply(first[0], s), first[1..], second);
    }
  }

  /** After the tab loop, the slash clean-up brings back no character
      other than the space and the slash. */
  lemma SlashedKeepsCharOut(s: string, c: char)
    requires c != ' ' && c != '/'
    requires c !in Exhaust(Replace(s, [Nbsp], " "), "\t", "/")
    ensures c !in Slashed(s)
  {
    var b := Exhaust(Replace(s, [Nbsp], " "), "\t", "/");
    ExhaustKeepsCharOut(b, "  ", " ", c);
    var c1 := Spaced(s);
    ReplaceKeepsCharOut(c1, " / ", "/", c);
    var c2 := Replace(c1, " / ", "/");
    ReplaceKeepsCharOut(c2, " /", "/", c);
    var c3 := Replace(c2, " /", "/");
    ReplaceKeepsCharOut(c3, "/ ", "/", c);
    ExhaustKeepsCharOut(Replace(c3, "/ ", "/"), "//", "/", c);
  }

  /** The bracket, dot and note clean-up brings back no character other
      than the two brackets. */
  lemma TidiedKeepsCharOut(d: string, c: char)
    requires c != '(' && c != ')' && c !in d
    ensures c !in Tidied(d)
  {
    ReplaceKeepsCharOut(d, " )", ")", c);
    ReplaceKeepsCharOut(Replace(d, " )", ")"), "( ", "(", c);
    var e := Replace(Replace(d, " )", ")"), "( ", "(");
    StripTrims(e, '.');
    ContainedIsInside(e, Strip(e, '.'));
    DeletingKeepsCharOut(Strip(e, '.'), Deletions, c);
  }

  lemma TidiedNoLonger(d: string)
    ensures |Tidied(d)| <= |d|
  {
    ReplaceNoLonger(d, " )", ")");
    ReplaceNoLonger(Replace(d, " )", ")"), "( ", "(");
    var e := Replace(Replace(d, " )", ")"), "( ", "(");
    StripTrims(e, '.');
    ContainedIsInside(e, Strip(e, '.'));
    DeletingNoLonger(Strip(e, '.'), Deletions);
  }

  // ---------------------------------------------------------------------
  // Properties of cleanup

  /** Once the double-space and `//` loops have run, the cell has neither
      a double space nor a `//`: the slash clean-up between them only puts
      `/` in place of text, so it cannot bring two spaces together. */
  lemma SlashedHasNoRuns(s: string)
    ensures !Contains(Spaced(s), "  ")
    ensures !Contains(Slashed(s), "  ") && !Contains(Slashed(s), "//")
  {
    var d := Spaced(s);
    RunIffPair(d, ' ');
    var a := Replace(d, " / ", "/");
    ReplaceKeepsNoRun(d, " / ", "/", ' ');
    var b := Replace(a, " /", "/");
    ReplaceKeepsNoRun(a, " /", "/", ' ');
    var e := Replace(b, "/ ", "/");
    ReplaceKeepsNoRun(b, "/ ", "/", ' ');
    ExhaustKeepsNoRun(e, "//", "/", ' ');
    RunIffPair(Slashed(s), ' ');
  }

  /** The cleaned text holds no tab and no non-breaking space. */
  lemma CleanRemovesTabsAndNbsp(s: string)
    ensures '\t' !in Clean(s) && Nbsp !in Clean(s)
  {
    CleanStages(s);
    var a := Replace(s, [Nbsp], " ");
    ReplaceRemovesChar(s, Nbsp, " ");
    ExhaustKeepsCharOut(a, "\t", "/", Nbsp);
    SlashedKeepsCharOut(s, Nbsp);
    TidiedKeepsCharOut(Slashed(s), Nbsp);
    var b := Exhaust(a, "\t", "/");
    ContainsChar(b, '\t');
    SlashedKeepsCharOut(s, '\t');
    TidiedKeepsCharOut(Slashed(s), '\t');
  }

  /** Cleaning never makes a cell longer. */
  lemma CleanNoLonger(s: string)
    ensures |Clean(s)| <= |s|
  {
    CleanStages(s);
    var a := Replace(s, [Nbsp], " ");
    ReplaceNoLonger(s, [Nbsp], " ");
    ExhaustNoLonger(a, "\t", "/");
    var b := Exhaust(a, "\t", "/");
    ExhaustNoLonger(b, "  ", " ");
    var c1 := Spaced(s);
    ReplaceNoLonger(c1, " / ", "/");
    var c2 := Replace(c1, " / ", "/");
    ReplaceNoLonger(c2, " /", "/");
    var c3 := Replace(c2, " /", "/");
    ReplaceNoLonger(c3, "/ ", "/");
    ExhaustNoLonger(Replace(c3, "/ ", "/"), "//", "/");
    TidiedNoLonger(Slashed(s));
  }

  /** `k` copies of the character `c`. */
  function Repeat(c: char, k: nat): (r: string)
  {
    seq(k, _ => c)
  }

  lemma {:induction false} ReplaceTabRun(k: nat)
    ensures Replace(Repeat('\t', k), "\t", "/") == Repeat('/', k)
    decreases k
  {
    if k > 0 {
      assert Repeat('\t', k)[1..] == Repeat('\t', k - 1);
      ReplaceTabRun(k - 1);
      assert Repeat('/', k) == "/" + Repeat('/', k - 1);
    }
  }

  lemma {:induction false} ReplaceHalvesSlashRun(k: nat)
    ensures Replace(Repeat('/', k), "//", "/") == Repeat('/', (k + 1) / 2)
    decreases k
  {
    if k == 1 {
      assert Repeat('/', 1)[1..] == "";
    } else if k >= 2 {
      assert "//" <= Repeat('/', k);
      assert Repeat('/', k)[2..] == Repeat('/', k - 2);
      ReplaceHalvesSlashRun(k - 2);
      assert Repeat('/', (k + 1) / 2) == "/" + Repeat('/', (k - 1) / 2);
    }
  }

  /** The `//` loop turns a cell made of k >= 1 slashes into one slash. */
  lemma {:induction false} SlashRunCollapses(k: nat)
    requires k >= 1
    ensures Exhaust(Repeat('/', k), "//", "/") == "/"
    decreases k
  {
    if k == 1 {
      TooLongAbsent("/", "//");
      assert Repeat('/', 1) == "/";
    } else {
      assert "//" <= Repeat('/', k);
      ReplaceHalvesSlashRun(k);
      SlashRunCollapses((k + 1) / 2);
    }
  }

  /** A cell made of `k >= 1` tabs cleans to a single slash, whatever `k`. */
  lemma CleanCollapsesTabRun(k: nat)
    requires k >= 1
    ensures Clean(Repeat('\t', k)) == "/"
  {
    CleanStages(Repeat('\t', k));
    TabRunStages(k);
  }

  lemma TabRunStages(k: nat)
    requires k >= 1
    ensures Tidied(Slashed(Repeat('\t', k))) == "/"
  {
    var tabs := Repeat('\t', k);
    var slashes := Repeat('/', k);
    CharAbsent(tabs, [Nbsp], 0);
    ReplaceAbsent(tabs, [Nbsp], " ");
    ContainsChar(tabs, '\t');
    ReplaceTabRun(k);
    CharAbsent(slashes, "\t", 0);
    assert Exhaust(tabs, "\t", "/") == slashes;
    CharAbsent(slashes, "  ", 0);
    assert Spaced(tabs) == slashes;
    CharAbsent(slashes, " / ", 0);
    ReplaceAbsent(slashes, " / ", "/");
    CharAbsent(slashes, " /", 0);
    ReplaceAbsent(slashes, " /", "/");
    CharAbsent(slashes, "/ ", 1);
    ReplaceAbsent(slashes, "/ ", "/");
    SlashRunCollapses(k);
    assert Slashed(tabs) == "/";
    CharAbsent("/", " )", 0);
    ReplaceAbsent("/", " )", ")");
    CharAbsent("/", "( ", 1);
    ReplaceAbsent("/", "( ", "(");
    assert Strip("/", '.') == "/";
    forall j | 0 <= j < |Deletions|
      ensures !Contains("/", Deletions[j].pat)
    {
      CharAbsent("/", Deletions[j].pat, 0);
    }
    PerformAbsent("/", Deletions);
  }

  /** A cell without tabs, non-breaking spaces, slashes or double spaces
      passes the first stages unchanged. */
  lemma SlashedUnchanged(s: string)
    requires Nbsp !in s && '\t' !in s && '/' !in s && !Contains(s, "  ")
    ensures Slashed(s) == s
  {
    CharAbsent(s, [Nbsp], 0);
    ReplaceAbsent(s, [Nbsp], " ");
    CharAbsent(s, "\t", 0);
    assert Spaced(s) == s;
    CharAbsent(s, " / ", 1);
    ReplaceAbsent(s, " / ", "/");
    CharAbsent(s, " /", 1);
    ReplaceAbsent(s, " /", "/");
    CharAbsent(s, "/ ", 0);
    ReplaceAbsent(s, "/ ", "/");
    CharAbsent(s, "//", 0);
  }

  /** The note is deleted after the dots are stripped, so the dot it hid
      stays. */
  lemma CleanKeepsDotBeforeNote(s: string)
    requires s == "X. (legacy)"
    ensures Clean(s) == "X."
  {
    CleanStages(s);
    LegacyStages(s);
  }

  lemma LegacyStages(s: string)
    requires s == "X. (legacy)"
    ensures Tidied(Slashed(s)) == "X."
  {
    LegacyPairs(s);
    SlashedUnchanged(s);
    ReplaceAbsent(s, " )", ")");
    ReplaceAbsent(s, "( ", "(");
    assert Strip(s, '.') == s;
    NotesOnLegacy(s);
  }

  /** The cell holds none of the pairs the first stages rewrite. */
  lemma LegacyPairs(s: string)
    requires s == "X. (legacy)"
    ensures Nbsp !in s && '\t' !in s && '/' !in s
    ensures !Contains(s, "  ") && !Contains(s, " )") && !Contains(s, "( ")
  {
    forall i | 0 <= i < |s| - 1
      ensures s[i] != ' ' || s[i + 1] != ' '
      ensures s[i] != ' ' || s[i + 1] != ')'
      ensures s[i] != '(' || s[i + 1] != ' '
    {
      assert i in {0, 1, 2, 3, 4, 5, 6, 7, 8, 9};
    }
    PairAbsent(s, ' ', ' ');
    PairAbsent(s, ' ', ')');
    PairAbsent(s, '(', ' ');
  }

  lemma NotesOnLegacy(s: string)
    requires s == "X. (legacy)"
    ensures Perform(s, Deletions) == "X."
  {
    var early, late := Deletions[..10], Deletions[10..];
    EarlyNotesAbsent(s, early);
    PerformAbsent(s, early);
    assert Deletions == early + late;
    PerformAppend(s, early, late);
    LegacyNoteDeleted(s, late);
  }

  /** None of the first ten notes has a third character found in the cell. */
  lemma EarlyNotesAbsent(s: string, early: seq<Statement>)
    requires s == "X. (legacy)" && early == Deletions[..10]
    ensures forall j :: 0 <= j < |early| ==> early[j].Swap? && !Contains(s, early[j].pat)
  {
    forall j | 0 <= j < |early|
      ensures early[j].Swap? && !Contains(s, early[j].pat)
    {
      assert |early[j].pat| > 2 && early[j].pat[2] in "S*Esr";
      CharAbsent(s, early[j].pat, 2);
    }
  }

  lemma LegacyNoteDeleted(s: string, notes: seq<Statement>)
    requires s == "X. (legacy)"
    requires notes == [Swap(" (legacy)", ""), Swap(" (see note)", "")]
    ensures Perform(s, notes) == "X."
  {
    assert s[1..][1..] == " (legacy)";
    assert Replace(s[1..][1..], " (legacy)", "") == "";
    assert Replace(s[1..], " (legacy)", "") == ".";
    assert Replace(s, " (legacy)", "") == "X.";
    TooLongAbsent("X.", " (see note)");
    ReplaceAbsent("X.", " (see note)", "");
    assert Perform("X.", notes[1..][1..]) == "X.";
    assert Perform("X.", notes[1..]) == "X.";
  }

  /** A trailing dot is stripped. */
  lemma CleanStripsTrailingDot(t: string)
    requires t == "X."
    ensures Clean(t) == "X"
  {
    CleanStages(t);
    DotStages(t);
  }

  lemma DotStages(t: string)
    requires t == "X."
    ensures Tidied(Slashed(t)) == "X"
  {
    CharAbsent(t, "  ", 0);
    SlashedUnchanged(t);
    CharAbsent(t, " )", 0);
    ReplaceAbsent(t, " )", ")");
    CharAbsent(t, "( ", 1);
    ReplaceAbsent(t, "( ", "(");
    assert StripLeft(t, '.') == t;
    assert t[..|t| - 1] == "X";
    assert StripRight("X", '.') == "X";
    assert StripRight(t, '.') == "X";
    assert Strip(t, '.') == "X";
    forall j | 0 <= j < |Deletions|
      ensures !Contains("X", Deletions[j].pat)
    {
      CharAbsent("X", Deletions[j].pat, 0);
    }
    PerformAbsent("X", Deletions);
  }

  /** `cleanup` is not idempotent: cleaning a cleaned cell can change it. */
  lemma CleanIsNotIdempotent(s: string)
    requires s == "X. (legacy)"
    ensures Clean(Clean(s)) != Clean(s)
  {
    CleanKeepsDotBeforeNote(s);
    CleanStripsTrailingDot(Clean(s));
    assert Clean(Clean(s)) != Clean(s);
  }
}
