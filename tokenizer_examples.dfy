/** Worked instances of the tokenizer: a run of spaces, a single space and
    a tab between words, the empty text, and a text with a blank line and a
    final '\n'. */
module TokenizerExamples {
  import opened JsStrings
  import opened CellSplit
  import opened Tokenizer

  lemma SplitSpacesExample()
    ensures SplitCells("Name    Age  City") == ["Name", "Age", "City"]
  {
    var line := "Name    Age  City";
    VisibleCell("Name");
    VisibleCell("Age");
    VisibleCell("City");
    assert Splits(line, ["Name", "Age", "City"], ["    ", "  "]);
    SplitCellsUnique(line, ["Name", "Age", "City"], ["    ", "  "]);
  }

  lemma SplitSingleSpaceExample()
    ensures SplitCells("John Smith") == ["John Smith"]
  {
    var line := "John Smith";
    VisibleCell("John");
    VisibleCell("Smith");
    assert IsCell(line) by {
      assert line == "John" + " " + "Smith";
    }
    SingleCell(line);
  }

  lemma SplitTabExample()
    ensures SplitCells("Alice\t30") == ["Alice", "30"]
  {
    var line := "Alice\t30";
    VisibleCell("Alice");
    VisibleCell("30");
    assert Splits(line, ["Alice", "30"], ["\t"]);
    SplitCellsUnique(line, ["Alice", "30"], ["\t"]);
  }

  lemma TokenizeSpacesExample()
    ensures Tokenize("Name    Age  City") == [["Name", "Age", "City"]]
  {
    OneLine("Name    Age  City");
    SplitSpacesExample();
  }

  lemma TokenizeSingleSpaceExample()
    ensures Tokenize("John Smith") == [["John Smith"]]
  {
    OneLine("John Smith");
    SplitSingleSpaceExample();
  }

  lemma TokenizeTabExample()
    ensures Tokenize("Alice\t30") == [["Alice", "30"]]
  {
    OneLine("Alice\t30");
    SplitTabExample();
  }

  lemma TokenizeEmptyExample()
    ensures Tokenize("") == []
  {
    TokenizeEmpty("");
  }

  /** A non-blank line, a blank line and a non-blank line, each ended by
      '\n', give the rows of the two non-blank lines. */
  lemma ThreeLines(a: string, blank: string, c: string)
    requires AllWs(blank)
    ensures Tokenize(a + "\n" + (blank + "\n" + (c + "\n"))) == Tokenize(a) + Tokenize(c)
  {
    calc {
      Tokenize(a + "\n" + (blank + "\n" + (c + "\n")));
      { TokenizeAppend(a, blank + "\n" + (c + "\n")); }
      Tokenize(a) + Tokenize(blank + "\n" + (c + "\n"));
      { BlankLine(blank, c + "\n"); }
      Tokenize(a) + Tokenize(c + "\n");
      { TrailingNewline(c); }
      Tokenize(a) + Tokenize(c);
    }
  }

  /** The example text cut at its line breaks. A lemma of its own because the
      literal equality is costly for the solver inside the calc below. */
  lemma LinesExampleText()
    ensures "Name    Age  City\n \nAlice\t30\n" == "Name    Age  City" + "\n" + (" " + "\n" + ("Alice\t30" + "\n"))
  {
  }

  /** A blank line and the empty line after the final '\n' are dropped. */
  lemma TokenizeLinesExample()
    ensures Tokenize("Name    Age  City\n \nAlice\t30\n") == [["Name", "Age", "City"], ["Alice", "30"]]
  {
    calc {
      Tokenize("Name    Age  City\n \nAlice\t30\n");
      { LinesExampleText(); }
      Tokenize("Name    Age  City" + "\n" + (" " + "\n" + ("Alice\t30" + "\n")));
      { assert AllWs(" "); ThreeLines("Name    Age  City", " ", "Alice\t30"); }
      Tokenize("Name    Age  City") + Tokenize("Alice\t30");
      { TokenizeSpacesExample(); TokenizeTabExample(); }
      [["Name", "Age", "City"]] + [["Alice", "30"]];
    }
  }
}
