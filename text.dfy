/**
 * The Python `str` built-ins the scraper relies on, as pure functions over
 * `string` (a sequence of characters): `pat in s`, `s.replace(pat, rep)`,
 * `s.split(sep)`, `sep.join(parts)`, `s.strip(c)` and `s.lower()`.
 * Every pattern and separator the scraper uses is non-empty, so the empty
 * pattern (for which Python has special rules) is excluded.
 */
module Text {

  /** Python's `pat in s`. */
  predicate Contains(s: string, pat: string)
    decreases |s|
  {
    pat <= s || (|s| > 0 && Contains(s[1..], pat))
  }

  /** `pat` occurs in `s` starting at index `i`. */
  predicate OccursAt(s: string, pat: string, i: int)
  {
    0 <= i && i + |pat| <= |s| && s[i..i + |pat|] == pat
  }

  /** Python's `s.replace(pat, rep)`: scans left to right and replaces
      non-overlapping occurrences. */
  function Replace(s: string, pat: string, rep: string): string
    requires |pat| > 0
    decreases |s|
  {
    if |s| == 0 then ""
    else if pat <= s then rep + Replace(s[|pat|..], pat, rep)
    else [s[0]] + Replace(s[1..], pat, rep)
  }

  /** Python's `s.split(sep)`: keeps empty pieces, and gives `[s]` when
      `sep` does not occur. */
  function Split(s: string, sep: string): (parts: seq<string>)
    requires |sep| > 0
    ensures |parts| >= 1
    decreases |s|
  {
    if |s| == 0 then [""]
    else if sep <= s then [""] + Split(s[|sep|..], sep)
    else
      var rest := Split(s[1..], sep);
      [[s[0]] + rest[0]] + rest[1..]
  }

  /** Python's `sep.join(parts)`. */
  function Join(parts: seq<string>, sep: string): string
  {
    if |parts| == 0 then ""
    else if |parts| == 1 then parts[0]
    else parts[0] + sep + Join(parts[1..], sep)
  }

  /** Python's `s.endswith(suffix)`. */
  predicate EndsWith(s: string, suffix: string)
  {
    |suffix| <= |s| && s[|s| - |suffix|..] == suffix
  }

  function StripLeft(s: string, c: char): string
    decreases |s|
  {
    if |s| > 0 && s[0] == c then StripLeft(s[1..], c) else s
  }

  function StripRight(s: string, c: char): string
    decreases |s|
  {
    if |s| > 0 && s[|s| - 1] == c then StripRight(s[..|s| - 1], c) else s
  }

  /** Python's `s.strip(c)` for a single character `c`. */
  function Strip(s: string, c: char): string
  {
    StripRight(StripLeft(s, c), c)
  }

  /** ASCII lower-casing of one character. */
  function LowerChar(c: char): char
  {
    if 'A' <= c <= 'Z' then (c as int + 32) as char else c
  }

  /** `s.lower()`, restricted to the ASCII letters. */
  function Lower(s: string): string
  {
    seq(|s|, i requires 0 <= i < |s| => LowerChar(s[i]))
  }

  // ---------------------------------------------------------------------
  // Containment

  lemma {:induction false} OccurrenceFound(s: string, pat: string)
    requires Contains(s, pat)
    ensures exists i :: OccursAt(s, pat, i)
    decreases |s|
  {
    if pat <= s {
      assert OccursAt(s, pat, 0);
    } else {
      OccurrenceFound(s[1..], pat);
      var i :| OccursAt(s[1..], pat, i);
      assert s[1..][i..i + |pat|] == s[i + 1..i + 1 + |pat|];
      assert OccursAt(s, pat, i + 1);
    }
  }

  lemma {:induction false} OccurrenceContained(s: string, pat: string, i: int)
    requires OccursAt(s, pat, i)
    ensures Contains(s, pat)
    decreases i
  {
    if i == 0 {
      assert pat <= s;
    } else {
      assert s[1..][i - 1..i - 1 + |pat|] == s[i..i + |pat|];
      OccurrenceContained(s[1..], pat, i - 1);
    }
  }

  /** `Contains` agrees with the index-based definition of an occurrence. */
  lemma ContainsIffOccurs(s: string, pat: string)
    ensures Contains(s, pat) <==> exists i :: OccursAt(s, pat, i)
  {
    if Contains(s, pat) {
      OccurrenceFound(s, pat);
    }
    if exists i :: OccursAt(s, pat, i) {
      var i :| OccursAt(s, pat, i);
      OccurrenceContained(s, pat, i);
    }
  }

  /** An occurrence in a suffix is an occurrence in the whole string. */
  lemma {:induction false} ContainsInSuffix(s: string, j: nat, pat: string)
    requires j <= |s| && Contains(s[j..], pat)
    ensures Contains(s, pat)
    decreases j
  {
    if j > 0 {
      assert s[1..][j - 1..] == s[j..];
      ContainsInSuffix(s[1..], j - 1, pat);
    }
  }

  /** Containment is transitive. */
  lemma ContainsTransitive(a: string, b: string, c: string)
    requires Contains(a, b) && Contains(b, c)
    ensures Contains(a, c)
  {
    ContainsIffOccurs(a, b);
    ContainsIffOccurs(b, c);
    ContainsIffOccurs(a, c);
    var i :| OccursAt(a, b, i);
    var j :| OccursAt(b, c, j);
    forall k | 0 <= k < |c|
      ensures a[i + j + k] == c[k]
    {
      assert c[k] == b[j + k] == a[i + j + k];
    }
    assert a[i + j..i + j + |c|] == c;
    assert OccursAt(a, c, i + j);
  }

  /** A string contains each of its suffixes. */
  lemma EndsWithContains(s: string, suffix: string)
    requires EndsWith(s, suffix)
    ensures Contains(s, suffix)
  {
    ContainsIffOccurs(s, suffix);
    assert OccursAt(s, suffix, |s| - |suffix|);
  }

  /** What occurs in a string is no longer than it and holds only its
      characters. */
  lemma ContainedIsInside(s: string, pat: string)
    requires Contains(s, pat)
    ensures |pat| <= |s|
    ensures forall c :: c in pat ==> c in s
  {
    ContainsIffOccurs(s, pat);
    var i :| OccursAt(s, pat, i);
    forall c | c in pat
      ensures c in s
    {
      var k :| 0 <= k < |pat| && pat[k] == c;
      assert s[i + k] == c;
    }
  }

  /** A pattern with a character the string lacks does not occur in it. */
  lemma CharAbsent(s: string, pat: string, k: nat)
    requires k < |pat| && pat[k] !in s
    ensures !Contains(s, pat)
  {
    ContainsIffOccurs(s, pat);
    forall i | 0 <= i && i + |pat| <= |s|
      ensures !OccursAt(s, pat, i)
    {
      assert s[i + k] in s;
      assert s[i..i + |pat|][k] == s[i + k] != pat[k];
    }
  }

  /** A pattern longer than the string does not occur in it. */
  lemma TooLongAbsent(s: string, pat: string)
    requires |s| < |pat|
    ensures !Contains(s, pat)
  {
    ContainsIffOccurs(s, pat);
  }

  /** A two-character pattern occurs only where its two characters stand
      side by side. */
  lemma PairAbsent(s: string, a: char, b: char)
    requires forall i :: 0 <= i < |s| - 1 ==> s[i] != a || s[i + 1] != b
    ensures !Contains(s, [a, b])
  {
    ContainsIffOccurs(s, [a, b]);
    forall i | 0 <= i < |s| - 1
      ensures !OccursAt(s, [a, b], i)
    {
      assert s[i] != a || s[i + 1] != b;
    }
  }

  /** No two `c` stand side by side. */
  predicate NoRun(s: string, c: char)
  {
    forall i :: 0 <= i < |s| - 1 ==> s[i] != c || s[i + 1] != c
  }

  lemma RunIffPair(s: string, c: char)
    ensures NoRun(s, c) <==> !Contains(s, [c, c])
  {
    if NoRun(s, c) {
      PairAbsent(s, c, c);
    } else {
      var i :| 0 <= i < |s| - 1 && s[i] == c && s[i + 1] == c;
      assert s[i..i + 2] == [c, c];
      assert OccursAt(s, [c, c], i);
      ContainsIffOccurs(s, [c, c]);
    }
  }

  lemma NoRunInSuffix(s: string, k: nat, c: char)
    requires k <= |s| && NoRun(s, c)
    ensures NoRun(s[k..], c)
  {
    var t := s[k..];
    forall i | 0 <= i < |t| - 1
      ensures t[i] != c || t[i + 1] != c
    {
      assert t[i] == s[k + i] && t[i + 1] == s[k + i + 1];
    }
  }

  /** Replacing by text without `c` creates no run of `c`, and the result
      starts with `c` only where the string did. */
  lemma {:induction false} ReplaceKeepsNoRun(s: string, pat: string, rep: string, c: char)
    requires |pat| > 0 && |rep| > 0 && c !in rep && NoRun(s, c)
    ensures NoRun(Replace(s, pat, rep), c)
    ensures |Replace(s, pat, rep)| > 0 && Replace(s, pat, rep)[0] == c ==> |s| > 0 && s[0] == c
    decreases |s|
  {
    if |s| > 0 {
      var r := Replace(s, pat, rep);
      if pat <= s {
        var t := s[|pat|..];
        NoRunInSuffix(s, |pat|, c);
        ReplaceKeepsNoRun(t, pat, rep, c);
        var rest := Replace(t, pat, rep);
        assert r == rep + rest;
        forall i | 0 <= i < |r| - 1
          ensures r[i] != c || r[i + 1] != c
        {
          if i < |rep| {
            assert r[i] == rep[i] && rep[i] in rep;
          } else {
            assert r[i] == rest[i - |rep|] && r[i + 1] == rest[i + 1 - |rep|];
          }
        }
        assert r[0] == rep[0] && rep[0] in rep;
      } else {
        var t := s[1..];
        NoRunInSuffix(s, 1, c);
        ReplaceKeepsNoRun(t, pat, rep, c);
        var rest := Replace(t, pat, rep);
        assert r == [s[0]] + rest;
        forall i | 0 <= i < |r| - 1
          ensures r[i] != c || r[i + 1] != c
        {
          if i == 0 {
            assert r[1] == rest[0];
          } else {
            assert r[i] == rest[i - 1] && r[i + 1] == rest[i];
          }
        }
      }
    }
  }

  /** A one-character pattern occurs exactly when the character does. */
  lemma {:induction false} ContainsChar(s: string, c: char)
    ensures Contains(s, [c]) <==> c in s
    decreases |s|
  {
    if |s| > 0 {
      ContainsChar(s[1..], c);
      assert s == [s[0]] + s[1..];
    }
  }

  /** Lower-casing keeps every occurrence, lower-cased. */
  lemma LowerKeepsOccurrence(s: string, pat: string)
    requires Contains(s, pat)
    ensures Contains(Lower(s), Lower(pat))
  {
    ContainsIffOccurs(s, pat);
    var i :| OccursAt(s, pat, i);
    assert Lower(s)[i..i + |pat|] == Lower(pat);
    assert OccursAt(Lower(s), Lower(pat), i);
    ContainsIffOccurs(Lower(s), Lower(pat));
  }

  // ---------------------------------------------------------------------
  // replace

  /** With a replacement no longer than the pattern, `replace` never
      lengthens the string. */
  lemma {:induction false} ReplaceNoLonger(s: string, pat: string, rep: string)
    requires |pat| > 0 && |rep| <= |pat|
    ensures |Replace(s, pat, rep)| <= |s|
    decreases |s|
  {
    if |s| > 0 {
      if pat <= s {
        ReplaceNoLonger(s[|pat|..], pat, rep);
      } else {
        ReplaceNoLonger(s[1..], pat, rep);
      }
    }
  }

  /** With a strictly shorter replacement, `replace` shortens every string
      in which the pattern occurs. */
  lemma {:induction false} ReplaceShrinks(s: string, pat: string, rep: string)
    requires |pat| > 0 && |rep| < |pat| && Contains(s, pat)
    ensures |Replace(s, pat, rep)| < |s|
    decreases |s|
  {
    if pat <= s {
      ReplaceNoLonger(s[|pat|..], pat, rep);
    } else {
      ReplaceShrinks(s[1..], pat, rep);
    }
  }

  /** `replace` leaves a string without the pattern unchanged. */
  lemma {:induction false} ReplaceAbsent(s: string, pat: string, rep: string)
    requires |pat| > 0 && !Contains(s, pat)
    ensures Replace(s, pat, rep) == s
    decreases |s|
  {
    if |s| > 0 {
      ReplaceAbsent(s[1..], pat, rep);
      assert s == [s[0]] + s[1..];
    }
  }

  /** Replacing a one-character pattern by text without that character
      removes every occurrence of it. */
  lemma {:induction false} ReplaceRemovesChar(s: string, c: char, rep: string)
    requires c !in rep
    ensures c !in Replace(s, [c], rep)
    decreases |s|
  {
    if |s| > 0 {
      ReplaceRemovesChar(s[1..], c, rep);
    }
  }

  /** `replace` introduces no character that neither the string nor the
      replacement holds. */
  lemma {:induction false} ReplaceKeepsCharOut(s: string, pat: string, rep: string, c: char)
    requires |pat| > 0 && c !in s && c !in rep
    ensures c !in Replace(s, pat, rep)
    decreases |s|
  {
    if |s| > 0 {
      if pat <= s {
        ReplaceKeepsCharOut(s[|pat|..], pat, rep, c);
      } else {
        ReplaceKeepsCharOut(s[1..], pat, rep, c);
      }
    }
  }

  /** Python's identity `s.replace(pat, rep) == rep.join(s.split(pat))`. */
  lemma {:induction false} ReplaceIsJoinOfSplit(s: string, pat: string, rep: string)
    requires |pat| > 0
    ensures Replace(s, pat, rep) == Join(Split(s, pat), rep)
    decreases |s|
  {
    if |s| > 0 {
      if pat <= s {
        ReplaceIsJoinOfSplit(s[|pat|..], pat, rep);
        var parts := [""] + Split(s[|pat|..], pat);
        assert parts[1..] == Split(s[|pat|..], pat);
      } else {
        ReplaceIsJoinOfSplit(s[1..], pat, rep);
        var rest := Split(s[1..], pat);
        assert rest == [rest[0]] + rest[1..];
        JoinPrepend(s[0], rest[0], rest[1..], rep);
      }
    }
  }

  /** Prepending a character to the first part prepends it to the join. */
  lemma JoinPrepend(c: char, first: string, more: seq<string>, sep: string)
    ensures Join([[c] + first] + more, sep) == [c] + Join([first] + more, sep)
  {
    if |more| > 0 {
      assert ([[c] + first] + more)[1..] == more;
      assert ([first] + more)[1..] == more;
    }
  }

  /** Replacing the pattern by itself changes nothing. */
  lemma {:induction false} ReplaceBySelf(s: string, pat: string)
    requires |pat| > 0
    ensures Replace(s, pat, pat) == s
    decreases |s|
  {
    if |s| > 0 {
      if pat <= s {
        ReplaceBySelf(s[|pat|..], pat);
        assert s == pat + s[|pat|..];
      } else {
        ReplaceBySelf(s[1..], pat);
        assert s == [s[0]] + s[1..];
      }
    }
  }

  // ---------------------------------------------------------------------
  // split

  /** Joining the pieces of a split with the same separator gives back the
      original string. */
  lemma SplitJoin(s: string, sep: string)
    requires |sep| > 0
    ensures Join(Split(s, sep), sep) == s
  {
    ReplaceIsJoinOfSplit(s, sep, sep);
    ReplaceBySelf(s, sep);
  }

  /** A split yields a single piece exactly when the separator does not
      occur, and that piece is then the whole string. */
  lemma {:induction false} SplitSingle(s: string, sep: string)
    requires |sep| > 0
    ensures |Split(s, sep)| == 1 <==> !Contains(s, sep)
    ensures !Contains(s, sep) ==> Split(s, sep) == [s]
    decreases |s|
  {
    if |s| > 0 {
      if !(sep <= s) {
        SplitSingle(s[1..], sep);
        assert s == [s[0]] + s[1..];
      }
    }
  }

  /** A split of a string that starts with the separator. */
  lemma SplitAtSep(rest: string, sep: string)
    requires |sep| > 0
    ensures Split(sep + rest, sep) == [""] + Split(rest, sep)
  {
    assert (sep + rest)[|sep|..] == rest;
  }

  /** A split of a string that does not start with the separator's first
      character. */
  lemma SplitPastChar(c: char, rest: string, sep: string)
    requires |sep| > 0 && sep[0] != c
    ensures Split([c] + rest, sep) == [[c] + Split(rest, sep)[0]] + Split(rest, sep)[1..]
  {
    assert ([c] + rest)[0] == c;
    assert ([c] + rest)[1..] == rest;
  }

  /** A prefix that holds no character starting the separator joins the
      first piece of the split. */
  lemma {:induction false} SplitPastFree(x: string, rest: string, sep: string)
    requires |sep| > 0 && sep[0] !in x
    ensures Split(x + rest, sep) == [x + Split(rest, sep)[0]] + Split(rest, sep)[1..]
    decreases |x|
  {
    var parts := Split(rest, sep);
    if |x| > 0 {
      var tail := x[1..];
      SplitPastFree(tail, rest, sep);
      var inner := Split(tail + rest, sep);
      assert inner[0] == tail + parts[0] && inner[1..] == parts[1..];
      assert x + rest == [x[0]] + (tail + rest);
      SplitPastChar(x[0], tail + rest, sep);
      assert [x[0]] + inner[0] == x + parts[0];
    } else {
      assert x + rest == rest && x + parts[0] == parts[0];
      assert [parts[0]] + parts[1..] == parts;
    }
  }

  /** The first piece of a split is a prefix of the string. */
  lemma {:induction false} SplitFirstIsPrefix(s: string, sep: string)
    requires |sep| > 0
    ensures Split(s, sep)[0] <= s
    decreases |s|
  {
    if |s| > 0 && !(sep <= s) {
      SplitFirstIsPrefix(s[1..], sep);
    }
  }

  /** The first piece of a split is a prefix of the string in which the
      separator does not start anywhere. */
  lemma {:induction false} SplitHeadClear(s: string, sep: string)
    requires |sep| > 0
    ensures Split(s, sep)[0] <= s
    ensures forall j :: 0 <= j < |Split(s, sep)[0]| ==> !OccursAt(s, sep, j)
    decreases |s|
  {
    if |s| > 0 && !(sep <= s) {
      var t := s[1..];
      var rest := Split(t, sep);
      var q := rest[0];
      var p := [s[0]] + q;
      assert Split(s, sep) == [p] + rest[1..];
      SplitHeadClear(t, sep);
      assert s == [s[0]] + t;
      forall j | 0 <= j < |p|
        ensures !OccursAt(s, sep, j)
      {
        if j > 0 && j + |sep| <= |s| {
          assert s[j..j + |sep|] == t[j - 1..j - 1 + |sep|];
          assert !OccursAt(t, sep, j - 1);
        }
      }
    }
  }

  /** What follows the first piece: either nothing, when the split has one
      piece, or an occurrence of the separator after which the remaining
      pieces are the split of the rest. */
  lemma {:induction false} SplitHeadRest(s: string, sep: string)
    requires |sep| > 0
    ensures |Split(s, sep)| == 1 ==> Split(s, sep)[0] == s
    ensures |Split(s, sep)| > 1 ==>
      var n := |Split(s, sep)[0]|;
      OccursAt(s, sep, n) && Split(s, sep)[1..] == Split(s[n + |sep|..], sep)
    decreases |s|
  {
    if |s| == 0 {
    } else if sep <= s {
      assert Split(s, sep) == [""] + Split(s[|sep|..], sep);
      assert s[0..|sep|] == sep;
    } else {
      var t := s[1..];
      var rest := Split(t, sep);
      var q := rest[0];
      assert Split(s, sep) == [[s[0]] + q] + rest[1..];
      SplitHeadRest(t, sep);
      if |rest| > 1 {
        var n := |q|;
        assert s[n + 1 + |sep|..] == t[n + |sep|..];
        assert s[n + 1..n + 1 + |sep|] == t[n..n + |sep|];
      } else {
        assert s == [s[0]] + t;
      }
    }
  }

  /** `pat` occurs at `i` and nowhere before. */
  predicate FirstAt(s: string, pat: string, i: int)
  {
    OccursAt(s, pat, i) && forall j :: 0 <= j < i ==> !OccursAt(s, pat, j)
  }

  /** `piece` starts at `start`, no `sep` starts inside it, and it ends at the
      end of `s` or where the next `sep` starts. */
  predicate PieceFrom(s: string, sep: string, start: int, piece: string)
  {
    0 <= start <= |s| && piece <= s[start..] &&
    (forall j :: start <= j < start + |piece| ==> !OccursAt(s, sep, j)) &&
    (start + |piece| == |s| || OccursAt(s, sep, start + |piece|))
  }

  /** The second piece of a split is what follows the first occurrence of
      the separator, up to the next one or the end. */
  lemma SplitSecondPiece(s: string, sep: string)
    requires |sep| > 0 && |Split(s, sep)| > 1
    ensures exists i :: FirstAt(s, sep, i) && PieceFrom(s, sep, i + |sep|, Split(s, sep)[1])
  {
    var parts := Split(s, sep);
    SplitHeadClear(s, sep);
    SplitHeadRest(s, sep);
    var i := |parts[0]|;
    var start := i + |sep|;
    assert parts[1..] == Split(s[start..], sep);
    assert parts[1] == Split(s[start..], sep)[0];
    FirstPieceFrom(s, sep, start);
    assert FirstAt(s, sep, i);
  }

  /** The first piece of the split of a suffix is a piece of the whole
      string starting where the suffix does. */
  lemma FirstPieceFrom(s: string, sep: string, start: nat)
    requires |sep| > 0 && start <= |s|
    ensures PieceFrom(s, sep, start, Split(s[start..], sep)[0])
  {
    var r := s[start..];
    var card := Split(r, sep)[0];
    SplitHeadClear(r, sep);
    SplitHeadRest(r, sep);
    ShiftedOccurrences(s, sep, start, |card|);
    if |Split(r, sep)| > 1 {
      var e := start + |card|;
      assert s[e..e + |sep|] == r[|card|..|card| + |sep|];
    }
  }

  /** Occurrences in a suffix are occurrences in the whole string, shifted. */
  lemma ShiftedOccurrences(s: string, pat: string, start: nat, n: nat)
    requires start <= |s|
    requires forall j :: 0 <= j < n ==> !OccursAt(s[start..], pat, j)
    ensures forall j :: start <= j < start + n ==> !OccursAt(s, pat, j)
  {
    var r := s[start..];
    forall j | start <= j < start + n
      ensures !OccursAt(s, pat, j)
    {
      assert !OccursAt(r, pat, j - start);
      if j + |pat| <= |s| {
        assert s[j..j + |pat|] == r[j - start..j - start + |pat|];
      }
    }
  }

  /** No piece of a split holds the separator. */
  lemma {:induction false} SplitPiecesAvoidSep(s: string, sep: string)
    requires |sep| > 0
    ensures forall k :: 0 <= k < |Split(s, sep)| ==> !Contains(Split(s, sep)[k], sep)
    decreases |s|
  {
    if |s| > 0 {
      if sep <= s {
        SplitPiecesAvoidSep(s[|sep|..], sep);
        assert !Contains("", sep);
      } else {
        var rest := Split(s[1..], sep);
        SplitPiecesAvoidSep(s[1..], sep);
        SplitFirstIsPrefix(s[1..], sep);
        var first := [s[0]] + rest[0];
        assert first[1..] == rest[0];
        assert first <= s;
        assert !(sep <= first);
        assert !Contains(first, sep);
      }
    }
  }

  /** Every piece of a split occurs in the original string. */
  lemma {:induction false} SplitPiecesOccur(s: string, sep: string)
    requires |sep| > 0
    ensures forall k :: 0 <= k < |Split(s, sep)| ==> Contains(s, Split(s, sep)[k])
    decreases |s|
  {
    var parts := Split(s, sep);
    SplitFirstIsPrefix(s, sep);
    if |s| > 0 {
      if sep <= s {
        var t := s[|sep|..];
        SplitPiecesOccur(t, sep);
        forall k | 1 <= k < |parts|
          ensures Contains(s, parts[k])
        {
          assert parts[k] == Split(t, sep)[k - 1];
          ContainsInSuffix(s, |sep|, parts[k]);
        }
      } else {
        var rest := Split(s[1..], sep);
        SplitPiecesOccur(s[1..], sep);
        forall k | 1 <= k < |parts|
          ensures Contains(s, parts[k])
        {
          assert parts[k] == rest[k];
        }
      }
    }
  }

  // ---------------------------------------------------------------------
  // strip

  lemma {:induction false} StripLeftTrims(s: string, c: char)
    ensures OccursAt(s, StripLeft(s, c), |s| - |StripLeft(s, c)|)
    ensures |StripLeft(s, c)| > 0 ==> StripLeft(s, c)[0] != c
    decreases |s|
  {
    if |s| > 0 && s[0] == c {
      StripLeftTrims(s[1..], c);
    }
  }

  lemma {:induction false} StripRightTrims(s: string, c: char)
    ensures OccursAt(s, StripRight(s, c), 0)
    ensures |StripRight(s, c)| > 0 ==> StripRight(s, c)[|StripRight(s, c)| - 1] != c
    decreases |s|
  {
    if |s| > 0 && s[|s| - 1] == c {
      StripRightTrims(s[..|s| - 1], c);
    }
  }

  /** `strip` returns a contiguous part of the string that neither starts
      nor ends with the stripped character. */
  lemma StripTrims(s: string, c: char)
    ensures Contains(s, Strip(s, c))
    ensures |Strip(s, c)| > 0 ==> Strip(s, c)[0] != c && Strip(s, c)[|Strip(s, c)| - 1] != c
  {
    var l := StripLeft(s, c);
    var r := Strip(s, c);
    StripLeftTrims(s, c);
    StripRightTrims(l, c);
    ContainsIffOccurs(s, l);
    ContainsIffOccurs(l, r);
    ContainsTransitive(s, l, r);
    if |r| > 0 {
      assert r[0] == l[0];
    }
  }
}
