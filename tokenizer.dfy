/** The text-to-grid tokenizer of the OCR upload handler: the recognized
    text is split on '\n', every line is trimmed, the lines left empty are
    dropped, and every remaining line is split into cells on
    /\s{2,}|\t+/. */
module Tokenizer {
  import opened JsStrings
  import opened CellSplit

  type Row = seq<string>
  type Grid = seq<Row>

  /** `.map((row) => row.trim())` */
  function TrimAll(lines: seq<string>): seq<string> {
    seq(|lines|, i requires 0 <= i < |lines| => Trim(lines[i]))
  }

  /** `.map((row) => row.split(/\s{2,}|\t+/))` */
  function SplitAll(lines: seq<string>): Grid {
    seq(|lines|, k requires 0 <= k < |lines| => SplitCells(lines[k]))
  }

  /** `.filter(Boolean)`: the empty string is the only string that is falsy,
      so this keeps the non-empty strings, in their order. */
  function DropEmpty(xs: seq<string>): (r: seq<string>)
    ensures |r| <= |xs|
    ensures forall k | 0 <= k < |r| :: |r[k]| > 0
    decreases |xs|
  {
    if xs == [] then []
    else if |xs[0]| == 0 then DropEmpty(xs[1..])
    else [xs[0]] + DropEmpty(xs[1..])
  }

  /** The rows computed from the recognized text. Every string has a grid:
      there is no precondition and no failure path. */
  function Tokenize(text: string): Grid {
    SplitAll(DropEmpty(TrimAll(SplitOn(text, '\n'))))
  }

  /** The positions, from i on and in increasing order, of the non-empty
      strings of xs. */
  function NonEmptyFrom(xs: seq<string>, i: nat): (idx: seq<nat>)
    requires i <= |xs|
    ensures forall k | 0 <= k < |idx| :: i <= idx[k] < |xs| && |xs[idx[k]]| > 0
    ensures forall k, l | 0 <= k < l < |idx| :: idx[k] < idx[l]
    ensures forall j | i <= j < |xs| && |xs[j]| > 0 :: j in idx
    decreases |xs| - i
  {
    if i == |xs| then []
    else if |xs[i]| == 0 then NonEmptyFrom(xs, i + 1)
    else [i] + NonEmptyFrom(xs, i + 1)
  }

  /** The strings of xs at the positions idx, in the order of idx. */
  function Pick(xs: seq<string>, idx: seq<nat>): (r: seq<string>)
    requires forall k | 0 <= k < |idx| :: idx[k] < |xs|
    ensures |r| == |idx|
    ensures forall k | 0 <= k < |idx| :: r[k] == xs[idx[k]]
  {
    if idx == [] then [] else [xs[idx[0]]] + Pick(xs, idx[1..])
  }

  /** `.filter(Boolean)` selects exactly the non-empty strings, in order. */
  lemma {:induction false} DropEmptySelects(xs: seq<string>, i: nat)
    requires i <= |xs|
    ensures DropEmpty(xs[i..]) == Pick(xs, NonEmptyFrom(xs, i))
    decreases |xs| - i
  {
    if i == |xs| {
      assert xs[i..] == [];
    } else {
      DropEmptySelects(xs, i + 1);
      assert xs[i..][0] == xs[i] && xs[i..][1..] == xs[i + 1..];
      if |xs[i]| > 0 {
        var idx' := NonEmptyFrom(xs, i + 1);
        assert ([i] + idx')[1..] == idx';
      }
    }
  }

  /** The positions of the lines that are not blank (not all whitespace), in
      increasing order: the lines that survive trimming and filtering. */
  function NonBlank(lines: seq<string>): (idx: seq<nat>)
    ensures forall k | 0 <= k < |idx| :: idx[k] < |lines| && !AllWs(lines[idx[k]])
    ensures forall k, l | 0 <= k < l < |idx| :: idx[k] < idx[l]
    ensures forall j | 0 <= j < |lines| && !AllWs(lines[j]) :: j in idx
  {
    var trimmed := TrimAll(lines);
    var idx := NonEmptyFrom(trimmed, 0);
    assert forall j | 0 <= j < |lines| :: |trimmed[j]| == 0 <==> AllWs(lines[j]);
    idx
  }

  /** Row count and row order: row k is the split of the k-th non-blank
      line, trimmed. There are as many rows as non-blank lines, and they
      follow the order of the lines. */
  lemma TokenizeRows(text: string)
    ensures var lines := SplitOn(text, '\n');
      var idx := NonBlank(lines);
      && |Tokenize(text)| == |idx|
      && forall k | 0 <= k < |idx| :: Tokenize(text)[k] == SplitCells(Trim(lines[idx[k]]))
  {
    var lines := SplitOn(text, '\n');
    assert TrimAll(lines)[0..] == TrimAll(lines);
    DropEmptySelects(TrimAll(lines), 0);
    assert DropEmpty(TrimAll(lines)) == Pick(TrimAll(lines), NonBlank(lines));
  }

  /** Every row is the unique declarative decomposition of its trimmed line:
      its cells interleaved with the delimiters rebuild the line, every
      delimiter is a whitespace run of two or more characters or a lone tab,
      and every cell is non-empty, has no whitespace at its ends, no tab and
      no two whitespace characters in a row. */
  lemma TokenizeRowsSplit(text: string)
    ensures var lines := SplitOn(text, '\n');
      var idx := NonBlank(lines);
      && |Tokenize(text)| == |idx|
      && forall k | 0 <= k < |idx| ::
        Splits(Trim(lines[idx[k]]), Tokenize(text)[k], Delimiters(Trim(lines[idx[k]])))
  {
    var lines := SplitOn(text, '\n');
    var idx := NonBlank(lines);
    TokenizeRows(text);
    forall k | 0 <= k < |idx|
      ensures Splits(Trim(lines[idx[k]]), Tokenize(text)[k], Delimiters(Trim(lines[idx[k]])))
    {
      SplitCellsSound(Trim(lines[idx[k]]));
    }
  }

  /** No row is empty, and no cell is empty or carries whitespace at an end. */
  lemma TokenizeCells(text: string)
    ensures forall k | 0 <= k < |Tokenize(text)| ::
      && |Tokenize(text)[k]| >= 1
      && forall j | 0 <= j < |Tokenize(text)[k]| :: IsCell(Tokenize(text)[k][j])
  {
    TokenizeRowsSplit(text);
  }

  /** The grid is empty exactly when the text is all whitespace (the empty
      text among them). */
  lemma TokenizeEmpty(text: string)
    ensures Tokenize(text) == [] <==> AllWs(text)
  {
    var lines := SplitOn(text, '\n');
    var idx := NonBlank(lines);
    TokenizeRows(text);
    JoinOnAllWs(lines, '\n');
    if idx != [] {
      assert !AllWs(lines[idx[0]]);
    }
  }

  lemma {:induction false} DropEmptyAppend(xs: seq<string>, ys: seq<string>)
    ensures DropEmpty(xs + ys) == DropEmpty(xs) + DropEmpty(ys)
    decreases |xs|
  {
    if xs == [] {
      assert xs + ys == ys;
    } else {
      assert (xs + ys)[0] == xs[0];
      assert (xs + ys)[1..] == xs[1..] + ys;
      DropEmptyAppend(xs[1..], ys);
    }
  }

  lemma TrimAllAppend(xs: seq<string>, ys: seq<string>)
    ensures TrimAll(xs + ys) == TrimAll(xs) + TrimAll(ys)
  {
    var l, r := TrimAll(xs + ys), TrimAll(xs) + TrimAll(ys);
    assert |l| == |r|;
    forall i | 0 <= i < |l| ensures l[i] == r[i] {
      if i < |xs| {
        assert (xs + ys)[i] == xs[i];
      } else {
        assert (xs + ys)[i] == ys[i - |xs|];
      }
    }
  }

  lemma SplitAllAppend(xs: seq<string>, ys: seq<string>)
    ensures SplitAll(xs + ys) == SplitAll(xs) + SplitAll(ys)
  {
    var l, r := SplitAll(xs + ys), SplitAll(xs) + SplitAll(ys);
    assert |l| == |r|;
    forall i | 0 <= i < |l| ensures l[i] == r[i] {
      if i < |xs| {
        assert (xs + ys)[i] == xs[i];
      } else {
        assert (xs + ys)[i] == ys[i - |xs|];
      }
    }
  }

  /** The lines of a text are tokenized independently: the grid of two
      pieces of text joined by '\n' is the grid of the first followed by the
      grid of the second. */
  lemma TokenizeAppend(a: string, b: string)
    ensures Tokenize(a + "\n" + b) == Tokenize(a) + Tokenize(b)
  {
    var la, lb := SplitOn(a, '\n'), SplitOn(b, '\n');
    var ta, tb := TrimAll(la), TrimAll(lb);
    var ka, kb := DropEmpty(ta), DropEmpty(tb);
    calc {
      Tokenize(a + "\n" + b);
      SplitAll(DropEmpty(TrimAll(SplitOn(a + "\n" + b, '\n'))));
      { SplitOnAppend(a, b, '\n'); }
      SplitAll(DropEmpty(TrimAll(la + lb)));
      { TrimAllAppend(la, lb); }
      SplitAll(DropEmpty(ta + tb));
      { DropEmptyAppend(ta, tb); }
      SplitAll(ka + kb);
      { SplitAllAppend(ka, kb); }
      SplitAll(ka) + SplitAll(kb);
    }
  }

  /** A one-line text that is already trimmed becomes one row: the split of
      that line. */
  lemma OneLine(line: string)
    requires '\n' !in line && IsTrimmed(line) && line != []
    ensures Tokenize(line) == [SplitCells(line)]
  {
    SplitOnWithout(line, '\n');
    TrimTrimmed(line);
    assert TrimAll([line]) == [line];
  }

  /** A blank line adds no row: with TokenizeAppend, this holds wherever
      the blank line stands. */
  lemma BlankLine(blank: string, b: string)
    requires AllWs(blank)
    ensures Tokenize(blank + "\n" + b) == Tokenize(b)
  {
    TokenizeAppend(blank, b);
    TokenizeEmpty(blank);
  }

  /** A final '\n' adds no row: the empty line after it is dropped. */
  lemma TrailingNewline(a: string)
    ensures Tokenize(a + "\n") == Tokenize(a)
  {
    TokenizeAppend(a, "");
    TokenizeEmpty("");
    assert a + "\n" + "" == a + "\n";
  }
}
