/**
 * Worked inputs for `scrape_footer`: a div whose lines are separated by
 * carriage returns, and two divs that differ only by a trailing line feed.
 */
module FooterScenarios {
  import opened PyStr
  import opened FooterScraper

  lemma LineOfCarriageText()
    ensures Split(Strip("Contact\rSales\rTerms"), '\n') == ["Contact\rSales\rTerms"]
  {
    assert '\n' !in "Contact\rSales\rTerms";
    StripTrimmed("Contact\rSales\rTerms");
    SplitNoSep("Contact\rSales\rTerms", '\n');
  }

  lemma SplitCarriageText()
    ensures Split("Contact\rSales\rTerms", '\r') == ["Contact", "Sales", "Terms"]
  {
    var parts := ["Contact", "Sales", "Terms"];
    assert Join(parts, '\r') == "Contact\rSales\rTerms" by {
      assert "Contact\rSales\rTerms" == "Contact" + "\r" + "Sales" + "\r" + "Terms";
    }
    assert '\r' !in "Contact" && '\r' !in "Sales" && '\r' !in "Terms";
    SplitJoin(parts, '\r');
  }

  lemma FreshParts()
    ensures Distinct(["Contact", "Sales", "Terms"])
    ensures forall k :: 0 <= k < 3 ==>
      |["Contact", "Sales", "Terms"][k]| > 1 && Trimmed(["Contact", "Sales", "Terms"][k])
  {
    var parts := ["Contact", "Sales", "Terms"];
    assert parts[0] == "Contact" && parts[1] == "Sales" && parts[2] == "Terms";
    assert Trimmed("Contact") && Trimmed("Sales") && Trimmed("Terms");
    assert "Contact" != "Sales" && "Contact" != "Terms" && "Sales" != "Terms";
  }

  /** A div reading "Contact\rSales\rTerms" yields its three lines, in order. */
  lemma CarriageReturnScenario()
    ensures Fragments(["Contact\rSales\rTerms"]) == ["Contact", "Sales", "Terms"]
  {
    var parts := ["Contact", "Sales", "Terms"];
    LineOfCarriageText();
    SplitCarriageText();
    assert ["Contact\rSales\rTerms"][..0] == [];
    assert Pieces("Contact\rSales\rTerms") == parts;
    FreshParts();
    AbsorbFresh([], parts);
    assert [] + parts == parts;
  }

  /** A footer of two divs: the second div's pieces are absorbed after the first's. */
  lemma FragmentsOfTwo(a: string, b: string)
    ensures Fragments([a, b]) == Absorb(Absorb([], Pieces(a)), Pieces(b))
  {
    assert [a, b][..1] == [a];
    assert [a][..0] == [];
    assert Fragments([a]) == Absorb([], Pieces(a));
  }

  lemma AbsorbSingle(acc: seq<string>, p: string)
    ensures Absorb(acc, [p]) == Add(acc, p)
  {
    assert [p][..0] == [];
  }

  /** A trimmed line followed by a line feed offers only the line itself. */
  lemma PiecesWithLineFeed(e: string)
    requires Trimmed(e) && |e| > 1 && '\n' !in e && '\r' !in e
    ensures Pieces(e + "\n") == [e]
  {
    StripTrailingSpace(e, '\n');
    SplitNoSep(e, '\n');
    SplitEachSingle(e, '\r');
  }

  /** A div text and a copy of it with a trailing line feed give one fragment. */
  lemma RepeatedLine(e: string)
    requires Trimmed(e) && |e| > 1 && '\n' !in e && '\r' !in e
    ensures Fragments([e + "\n", e]) == [e]
  {
    FragmentsOfTwo(e + "\n", e);
    PiecesWithLineFeed(e);
    PiecesOfSingleLine(e);
    AbsorbSingle([], e);
    AddNew([], e);
    AbsorbSingle([e], e);
    StripTrimmed(e);
  }

  /** The footer "© 2024 Example\n", "© 2024 Example" yields a single fragment. */
  lemma DuplicateScenario()
    ensures Fragments(["© 2024 Example\n", "© 2024 Example"]) == ["© 2024 Example"]
  {
    var e := "© 2024 Example";
    assert "© 2024 Example\n" == e + "\n";
    assert Trimmed(e) && '\n' !in e && '\r' !in e && |e| > 1;
    RepeatedLine(e);
  }
}
