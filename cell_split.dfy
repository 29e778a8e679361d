/** `line.split(/\s{2,}|\t+/)`, the step that cuts one trimmed line of
    recognized text into cells. The regular expression is modelled by its
    sticky match at one position (MatchAt), and `split` by the loop of
    ECMAScript's RegExp.prototype[@@split] (SplitFrom). The declarative
    reading: a trimmed line is c0 + d0 + c1 + ... + dn-1 + cn, where every
    d is a maximal whitespace run that is two or more characters long or a
    lone tab, and the cells c are what is left. */
module CellSplit {
  import opened JsStrings

  datatype Option<T> = None | Some(value: T)

  /** The end of the maximal run of tabs that starts at i. */
  function TabRunEnd(s: string, i: nat): (j: nat)
    requires i <= |s|
    ensures i <= j <= |s|
    ensures forall k | i <= k < j :: s[k] == '\t'
    ensures j == |s| || s[j] != '\t'
    decreases |s| - i
  {
    if i < |s| && s[i] == '\t' then TabRunEnd(s, i + 1) else i
  }

  /** The sticky match of /\s{2,}|\t+/ at position q, as its end index. The
      alternatives are tried left to right and each quantifier is greedy, so
      `\s{2,}` wins whenever two whitespace characters start at q, and `\t+`
      only matches a tab that is not followed by whitespace. Either way the
      match is the whole maximal whitespace run that starts at q. */
  function MatchAt(s: string, q: nat): (m: Option<nat>)
    requires q <= |s|
    ensures m.Some? <==> q < |s| && ((q + 1 < |s| && IsWs(s[q]) && IsWs(s[q + 1])) || s[q] == '\t')
    ensures m.Some? ==> q < m.value && m.value == WsRunEnd(s, q)
    ensures m.Some? ==> m.value >= q + 2 || s[q] == '\t'
  {
    if q + 1 < |s| && IsWs(s[q]) && IsWs(s[q + 1]) then Some(WsRunEnd(s, q))
    else if q < |s| && s[q] == '\t' then
      var e := TabRunEnd(s, q);
      assert e == q + 1;
      assert WsRunEnd(s, q) == q + 1 by {
        WsRunEndExact(s, q, q + 1);
      }
      Some(e)
    else None
  }

  /** The loop of RegExp.prototype[@@split]: p is where the current cell
      starts, q the position where a match is tried next. A failed match
      advances q; a match ending at e closes the cell s[p..q] and restarts
      both at e; at the end of the string the rest is the last cell. (The
      loop's test for a match ending at p is left out: MatchAt's matches are
      never empty, so every e is beyond q and hence beyond p.) */
  function SplitFrom(s: string, p: nat, q: nat): seq<string>
    requires p <= q <= |s|
    decreases |s| - q
  {
    if q == |s| then [s[p..]]
    else match MatchAt(s, q)
      case None => SplitFrom(s, p, q + 1)
      case Some(e) => [s[p..q]] + SplitFrom(s, e, e)
  }

  /** The separators the same loop consumes, in order. */
  function DelimitersFrom(s: string, p: nat, q: nat): seq<string>
    requires p <= q <= |s|
    decreases |s| - q
  {
    if q == |s| then []
    else match MatchAt(s, q)
      case None => DelimitersFrom(s, p, q + 1)
      case Some(e) => [s[q..e]] + DelimitersFrom(s, e, e)
  }

  /** `s.split(/\s{2,}|\t+/)`. For the empty string @@split tries one match
      on the whole string and, as the pattern cannot match it, returns [s]. */
  function SplitCells(s: string): seq<string> {
    if |s| == 0 then [s] else SplitFrom(s, 0, 0)
  }

  /** The matches that SplitCells cuts s at. */
  function Delimiters(s: string): seq<string> {
    if |s| == 0 then [] else DelimitersFrom(s, 0, 0)
  }

  /** c0 + d0 + c1 + ... + dn-1 + cn. */
  function Interleave(cells: seq<string>, delims: seq<string>): string
    requires |cells| == |delims| + 1
  {
    if |delims| == 0 then cells[0]
    else cells[0] + delims[0] + Interleave(cells[1..], delims[1..])
  }

  /** What the pattern cuts at between two cells: whitespace only, and either
      two or more characters long or a single tab. */
  predicate IsDelimiter(d: string) {
    AllWs(d) && (|d| >= 2 || d == "\t")
  }

  /** A cell of a trimmed line: not empty, no whitespace at either end, no
      tab, and never two whitespace characters in a row. It may hold single
      spaces, as in "John Smith". */
  predicate IsCell(c: string) {
    && c != []
    && IsTrimmed(c)
    && (forall i | 0 <= i < |c| :: c[i] != '\t')
    && (forall i | 0 <= i < |c| - 1 :: !(IsWs(c[i]) && IsWs(c[i + 1])))
  }

  /** A non-empty word of visible ASCII characters is a cell. */
  lemma VisibleCell(c: string)
    requires c != [] && forall i | 0 <= i < |c| :: '!' <= c[i] <= '~'
    ensures IsCell(c)
  {
    forall i | 0 <= i < |c| ensures !IsWs(c[i]) { VisibleNotWs(c[i]); }
  }

  /** cells and delims are a decomposition of line in the declarative sense. */
  predicate Splits(line: string, cells: seq<string>, delims: seq<string>) {
    && |cells| == |delims| + 1
    && (forall i | 0 <= i < |cells| :: IsCell(cells[i]))
    && (forall i | 0 <= i < |delims| :: IsDelimiter(delims[i]))
    && Interleave(cells, delims) == line
  }

  // ---------------------------------------------------------------------------
  // Every string: the cells and the matched separators rebuild it.

  lemma InterleaveCons(c: string, d: string, cells: seq<string>, delims: seq<string>)
    requires |cells| == |delims| + 1
    ensures Interleave([c] + cells, [d] + delims) == c + d + Interleave(cells, delims)
  {
    assert ([c] + cells)[1..] == cells && ([d] + delims)[1..] == delims;
  }

  /** The match at q, when there is one, is a delimiter. */
  lemma MatchIsDelimiter(s: string, q: nat)
    requires q <= |s| && MatchAt(s, q).Some?
    ensures IsDelimiter(s[q..MatchAt(s, q).value])
  {
    var e := MatchAt(s, q).value;
    assert |s[q..e]| == 1 ==> s[q..e] == [s[q]];
  }

  /** Putting the stretch s[p..q] and the separator s[q..e] in front of a
      decomposition of s[e..] decomposes s[p..]. */
  lemma RebuildsCons(s: string, p: nat, q: nat, e: nat, cells: seq<string>, delims: seq<string>)
    requires p <= q <= e <= |s|
    requires |cells| == |delims| + 1 && Interleave(cells, delims) == s[e..]
    ensures Interleave([s[p..q]] + cells, [s[q..e]] + delims) == s[p..]
  {
    InterleaveCons(s[p..q], s[q..e], cells, delims);
    SliceThree(s, p, q, e);
  }

  lemma SliceThree(s: string, p: nat, q: nat, e: nat)
    requires p <= q <= e <= |s|
    ensures s[p..q] + s[q..e] + s[e..] == s[p..]
  {
    assert s[p..q] + s[q..e] == s[p..e];
  }

  lemma DelimitersCons(d: string, delims: seq<string>)
    requires IsDelimiter(d) && forall i | 0 <= i < |delims| :: IsDelimiter(delims[i])
    ensures forall i | 0 <= i < |delims| + 1 :: IsDelimiter(([d] + delims)[i])
  {
  }

  lemma {:induction false} SplitFromRebuilds(s: string, p: nat, q: nat)
    requires p <= q <= |s|
    ensures |SplitFrom(s, p, q)| == |DelimitersFrom(s, p, q)| + 1
    ensures Interleave(SplitFrom(s, p, q), DelimitersFrom(s, p, q)) == s[p..]
    ensures forall i | 0 <= i < |DelimitersFrom(s, p, q)| :: IsDelimiter(DelimitersFrom(s, p, q)[i])
    decreases |s| - q
  {
    if q < |s| {
      match MatchAt(s, q)
      case None => SplitFromRebuilds(s, p, q + 1);
      case Some(e) =>
        SplitFromRebuilds(s, e, e);
        MatchIsDelimiter(s, q);
        RebuildsCons(s, p, q, e, SplitFrom(s, e, e), DelimitersFrom(s, e, e));
        DelimitersCons(s[q..e], DelimitersFrom(s, e, e));
    }
  }

  /** For every string, `split` returns at least one cell, the separators it
      cuts at are delimiters, and the line is rebuilt from the cells with
      those separators between them. */
  lemma SplitCellsRebuilds(s: string)
    ensures |SplitCells(s)| == |Delimiters(s)| + 1
    ensures forall i | 0 <= i < |Delimiters(s)| :: IsDelimiter(Delimiters(s)[i])
    ensures Interleave(SplitCells(s), Delimiters(s)) == s
  {
    if |s| > 0 { SplitFromRebuilds(s, 0, 0); }
  }

  // ---------------------------------------------------------------------------
  // A trimmed line: every cell is a cell in the sense of IsCell.

  /** A stretch of a line without any match in it, bounded by non-whitespace
      characters, is a cell. */
  lemma CellBetween(s: string, p: nat, q: nat)
    requires p < q <= |s|
    requires !IsWs(s[p]) && !IsWs(s[q - 1])
    requires forall j | p <= j < q :: MatchAt(s, j).None?
    ensures IsCell(s[p..q])
  {
    var c := s[p..q];
    forall i | 0 <= i < |c| ensures c[i] != '\t' {
      assert MatchAt(s, p + i).None?;
    }
    forall i | 0 <= i < |c| - 1 ensures !(IsWs(c[i]) && IsWs(c[i + 1])) {
      assert MatchAt(s, p + i).None?;
    }
  }

  lemma {:induction false} SplitFromCells(s: string, p: nat, q: nat)
    requires p <= q <= |s|
    requires IsTrimmed(s) && p < |s| && !IsWs(s[p])
    requires forall j | p <= j < q :: MatchAt(s, j).None?
    ensures forall i | 0 <= i < |SplitFrom(s, p, q)| :: IsCell(SplitFrom(s, p, q)[i])
    decreases |s| - q
  {
    if q == |s| {
      CellBetween(s, p, q);
      assert s[p..q] == s[p..];
      assert SplitFrom(s, p, |s|) == [s[p..]];
    } else {
      match MatchAt(s, q)
      case None => SplitFromCells(s, p, q + 1);
      case Some(e) =>
        assert p < q;
        assert !IsWs(s[q - 1]) by {
          assert MatchAt(s, q - 1).None?;
        }
        CellBetween(s, p, q);
        assert e < |s| && !IsWs(s[e]) by {
          assert IsWs(s[e - 1]);
        }
        SplitFromCells(s, e, e);
        assert SplitFrom(s, p, q) == [s[p..q]] + SplitFrom(s, e, e);
    }
  }

  /** Splitting a trimmed, non-empty line yields a declarative decomposition
      of it: its cells are cells, its separators delimiters. */
  lemma SplitCellsSound(line: string)
    requires IsTrimmed(line) && line != []
    ensures Splits(line, SplitCells(line), Delimiters(line))
  {
    SplitCellsRebuilds(line);
    SplitFromCells(line, 0, 0);
  }

  // ---------------------------------------------------------------------------
  // The decomposition is unique: `split` finds exactly the given cells.

  /** Tried positions without a match do not change the outcome. */
  lemma {:induction false} SkipNoMatch(s: string, p: nat, q: nat, k: nat)
    requires p <= q <= k <= |s|
    requires forall j | q <= j < k :: MatchAt(s, j).None?
    ensures SplitFrom(s, p, q) == SplitFrom(s, p, k)
    ensures DelimitersFrom(s, p, q) == DelimitersFrom(s, p, k)
    decreases k - q
  {
    if q < k { SkipNoMatch(s, p, q + 1, k); }
  }

  /** The first character of a decomposed line is that of its first cell. */
  lemma InterleaveHead(cells: seq<string>, delims: seq<string>)
    requires |cells| == |delims| + 1 && cells[0] != []
    ensures Interleave(cells, delims) != [] && Interleave(cells, delims)[0] == cells[0][0]
  {
  }

  /** Within a cell placed at p, no position starts a match. */
  lemma NoMatchInCell(s: string, p: nat, c: string)
    requires IsCell(c) && p + |c| <= |s| && s[p..p + |c|] == c
    ensures forall j | p <= j < p + |c| :: MatchAt(s, j).None?
  {
    forall j | p <= j < p + |c| ensures MatchAt(s, j).None? {
      assert s[j] == c[j - p];
      if j + 1 < p + |c| { assert s[j + 1] == c[j + 1 - p]; }
    }
  }

  /** A delimiter placed at q and followed by a non-whitespace character is
      exactly the match found at q. */
  lemma DelimiterMatch(s: string, q: nat, d: string)
    requires IsDelimiter(d) && q + |d| < |s| && s[q..q + |d|] == d
    requires !IsWs(s[q + |d|])
    ensures MatchAt(s, q) == Some(q + |d|)
  {
    var e := q + |d|;
    forall k | q <= k < e ensures IsWs(s[k]) {
      assert s[k] == d[k - q];
    }
    if |d| >= 2 {
      assert s[q + 1] == d[1];
    } else {
      assert s[q] == d[0];
    }
    WsRunEndExact(s, q, e);
  }

  /** The cells and delimiters after the first ones decompose the rest. */
  lemma SplitsTail(line: string, cells: seq<string>, delims: seq<string>)
    requires Splits(line, cells, delims) && |delims| > 0
    ensures Splits(Interleave(cells[1..], delims[1..]), cells[1..], delims[1..])
  {
    assert forall i | 0 <= i < |cells| - 1 :: cells[1..][i] == cells[i + 1];
    assert forall i | 0 <= i < |delims| - 1 :: delims[1..][i] == delims[i + 1];
  }

  /** A last cell that runs to the end of the string is split off whole. */
  lemma SplitFromLast(s: string, p: nat, c: string)
    requires p <= |s| && IsCell(c) && s[p..] == c
    ensures SplitFrom(s, p, p) == [c] && DelimitersFrom(s, p, p) == []
  {
    assert s[p..p + |c|] == c;
    NoMatchInCell(s, p, c);
    SkipNoMatch(s, p, p, |s|);
  }

  /** When the first match from p is at q and ends at e, the loop closes
      the cell s[p..q] at the separator s[q..e] and restarts at e. */
  lemma CutAt(s: string, p: nat, q: nat, e: nat)
    requires p <= q < |s| && MatchAt(s, q) == Some(e)
    requires forall j | p <= j < q :: MatchAt(s, j).None?
    ensures SplitFrom(s, p, p) == [s[p..q]] + SplitFrom(s, e, e)
    ensures DelimitersFrom(s, p, p) == [s[q..e]] + DelimitersFrom(s, e, e)
  {
    SkipNoMatch(s, p, p, q);
  }

  /** A first cell followed by a delimiter: `split` cuts off that cell at
      that delimiter and carries on after it. */
  lemma SplitFromStep(s: string, p: nat, cells: seq<string>, delims: seq<string>)
    requires p <= |s| && Splits(s[p..], cells, delims) && |delims| > 0
    ensures var e := p + |cells[0]| + |delims[0]|;
      && e <= |s|
      && SplitFrom(s, p, p) == [cells[0]] + SplitFrom(s, e, e)
      && DelimitersFrom(s, p, p) == [delims[0]] + DelimitersFrom(s, e, e)
      && Splits(s[e..], cells[1..], delims[1..])
  {
    var c, d := cells[0], delims[0];
    var rest := Interleave(cells[1..], delims[1..]);
    var q := p + |c|;
    var e := q + |d|;
    assert s[p..q] == c && s[q..e] == d && s[e..] == rest by {
      assert s[p..] == c + d + rest;
    }
    NoMatchInCell(s, p, c);
    SplitsTail(s[p..], cells, delims);
    InterleaveHead(cells[1..], delims[1..]);
    assert e < |s| && s[e] == cells[1][0] by {
      assert s[e] == rest[0];
    }
    DelimiterMatch(s, q, d);
    CutAt(s, p, q, e);
  }

  lemma {:induction false} SplitFromInterleave(s: string, p: nat, cells: seq<string>, delims: seq<string>)
    requires p <= |s|
    requires Splits(s[p..], cells, delims)
    ensures SplitFrom(s, p, p) == cells && DelimitersFrom(s, p, p) == delims
    decreases |cells|
  {
    if |delims| == 0 {
      SplitFromLast(s, p, cells[0]);
    } else {
      SplitFromStep(s, p, cells, delims);
      var e := p + |cells[0]| + |delims[0]|;
      SplitFromInterleave(s, e, cells[1..], delims[1..]);
      assert [cells[0]] + cells[1..] == cells;
      assert [delims[0]] + delims[1..] == delims;
    }
  }

  /** Any declarative decomposition of a line is the one `split` finds: the
      cells and the separators are uniquely determined by the line. */
  lemma SplitCellsUnique(line: string, cells: seq<string>, delims: seq<string>)
    requires Splits(line, cells, delims)
    ensures SplitCells(line) == cells && Delimiters(line) == delims
  {
    InterleaveHead(cells, delims);
    assert line[0..] == line;
    SplitFromInterleave(line, 0, cells, delims);
  }

  /** A trimmed line that holds no tab and no two whitespace characters in a
      row is one cell, the whole line; and only such lines are. */
  lemma SingleCell(line: string)
    requires IsTrimmed(line) && line != []
    ensures SplitCells(line) == [line] <==> IsCell(line)
  {
    if IsCell(line) {
      SplitCellsUnique(line, [line], []);
    }
    SplitCellsSound(line);
  }
}
