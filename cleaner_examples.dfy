/**
 * The behaviours of the response cleaner on the texts that illustrate it:
 * adjacent duplicates collapse, a doubled text is halved once, other text is kept.
 */
module CleanerExamples {
  import opened Wrappers
  import opened Text
  import opened ResponseCleaner

  /** A text without newlines is a single paragraph. */
  lemma SplitWithoutNewline(s: string)
    requires forall i :: 0 <= i < |s| ==> s[i] != '\n'
    ensures Split(s, ParagraphBreak) == [s]
  {
    forall i: nat | i + 2 <= |s|
      ensures !OccursAt(s, ParagraphBreak, i)
    {
      assert s[i..i + 2][0] == s[i] != '\n';
    }
  }

  /** Where the paragraph breaks fall in the two example texts. */
  lemma SplitExample()
    ensures Split("A\n\nB", ParagraphBreak) == ["A", "B"]
    ensures Split("A\n\nA\n\nB", ParagraphBreak) == ["A", "A", "B"]
  {
    var s := "A\n\nA\n\nB";
    var t := "A\n\nB";
    assert s[0..2][0] == 'A' && s[1..3] == ParagraphBreak;
    assert t[0..2][0] == 'A' && t[1..3] == ParagraphBreak;
    assert s[3..] == t && t[3..] == "B";
    assert t[..1] == "A" && s[..1] == "A";
    assert Find(t, ParagraphBreak, 0) == Some(1);
    assert Find(s, ParagraphBreak, 0) == Some(1);
    SplitWithoutNewline("B");
  }

  /** Collapsing the example paragraphs drops the second "A". */
  lemma CollapseExample()
    ensures Collapse(["A", "A", "B"]) == ["A", "B"]
  {
    assert ["A", "A", "B"][..2] == ["A", "A"];
    assert ["A", "A"][..1] == ["A"];
    assert ["A"][..0] == [];
  }

  /** Clean maps a non-empty text to `t` when the paragraph pass gives `t` and `t` needs no further work. */
  lemma CleanAfterParagraphPass(s: string, t: string)
    requires s != ""
    requires Join(Collapse(Split(s, ParagraphBreak)), ParagraphBreak) == t
    requires !HalvingApplies(t) && Stripped(t)
    ensures Clean(Some(s)) == t
  {
    StripFixed(t);
  }

  /** The collapsed example paragraphs joined back, and why nothing more happens to them. */
  lemma JoinExample()
    ensures Join(["A", "B"], ParagraphBreak) == "A\n\nB"
    ensures !HalvingApplies("A\n\nB") && Stripped("A\n\nB")
  {
    var t := "A\n\nB";
    assert ["A", "B"][1..] == ["B"];
    assert t[..2][0] != t[2..][0];
  }

  /** Two adjacent copies of a paragraph collapse into one. */
  lemma ExampleAdjacent()
    ensures Clean(Some("A\n\nA\n\nB")) == "A\n\nB"
  {
    SplitExample();
    CollapseExample();
    JoinExample();
    CleanAfterParagraphPass("A\n\nA\n\nB", "A\n\nB");
  }

  /** A text that is some text written twice keeps its first half. */
  lemma ExampleDoubled()
    ensures Clean(Some("ABCABC")) == "ABC"
  {
    assert "ABC" + "ABC" == "ABCABC";
    SplitWithoutNewline("ABCABC");
    CleanDoubled("ABC");
  }
  /** Halving happens once: a text four times over becomes twice over. */
  lemma ExampleHalvedOnce()
    ensures Clean(Some("AAAA")) == "AA"
  {
    assert "AA" + "AA" == "AAAA";
    SplitWithoutNewline("AAAA");
    CleanDoubled("AA");
  }
  /** A text whose halves differ is left alone. */
  lemma ExampleUnchanged()
    ensures Clean(Some("ABCD")) == "ABCD"
  {
    SplitWithoutNewline("ABCD");
    assert !HalvingApplies("ABCD") by { assert "ABCD"[..2][0] != "ABCD"[2..][0]; }
    CleanIdentity("ABCD");
  }
}
