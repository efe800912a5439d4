/**
 * The response cleaner: it turns the model's raw text into the reply text by
 * collapsing runs of identical adjacent paragraphs, undoing one verbatim
 * doubling of the whole text, and stripping surrounding whitespace.
 */
module ResponseCleaner {
  import opened Wrappers
  import opened Text

  /** The reply used when the model gives no text at all. */
  const Fallback: string := "Maaf, tidak ada respons dari model."

  /** Paragraphs are separated by one blank line. */
  const ParagraphBreak: string := "\n\n"

  /** No paragraph equals the one right before it. */
  predicate NoAdjacentDup(ps: seq<string>)
  {
    forall i :: 0 < i < |ps| ==> ps[i] != ps[i - 1]
  }

  /**
   * The paragraphs that survive collapsing: paragraph `i` is kept exactly when it
   * is the first one or differs from paragraph `i - 1` of the INPUT. Order is kept.
   */
  function Collapse(ps: seq<string>): (r: seq<string>)
    decreases |ps|
    ensures |r| <= |ps|
    ensures |ps| > 0 ==> |r| > 0 && r[|r| - 1] == ps[|ps| - 1]
    ensures NoAdjacentDup(r)
  {
    if |ps| == 0 then []
    else
      var init, last := ps[..|ps| - 1], ps[|ps| - 1];
      if |ps| >= 2 && last == ps[|ps| - 2] then Collapse(init) else Collapse(init) + [last]
  }

  /** Paragraph `i` survives collapsing: it is the first one or differs from the one before it. */
  predicate Survives(ps: seq<string>, i: nat)
    requires i < |ps|
  {
    i == 0 || ps[i] != ps[i - 1]
  }

  /** The input positions of the paragraphs that survive collapsing, in increasing order. */
  function SurvivorIndices(ps: seq<string>): (idx: seq<nat>)
    decreases |ps|
    ensures forall k :: 0 <= k < |idx| ==> idx[k] < |ps|
  {
    if |ps| == 0 then []
    else
      var n := |ps| - 1;
      if Survives(ps, n) then SurvivorIndices(ps[..n]) + [n] else SurvivorIndices(ps[..n])
  }

  /**
   * The surviving positions are listed in strictly increasing order, and a position
   * is listed exactly when its paragraph survives.
   */
  lemma {:induction false} SurvivorIndicesSpec(ps: seq<string>)
    decreases |ps|
    ensures forall k, l :: 0 <= k < l < |SurvivorIndices(ps)| ==> SurvivorIndices(ps)[k] < SurvivorIndices(ps)[l]
    ensures forall i :: 0 <= i < |ps| ==> (i in SurvivorIndices(ps) <==> Survives(ps, i))
  {
    if |ps| > 0 {
      var n := |ps| - 1;
      var init := ps[..n];
      SurvivorIndicesSpec(init);
      assert forall i :: 0 <= i < n ==> Survives(init, i) == Survives(ps, i);
    }
  }

  /** One step of both recursions: the last paragraph is added exactly when it survives. */
  lemma SelectionStep(ps: seq<string>)
    requires |ps| > 0
    ensures var n := |ps| - 1;
      && Collapse(ps) == (if Survives(ps, n) then Collapse(ps[..n]) + [ps[n]] else Collapse(ps[..n]))
      && SurvivorIndices(ps) == (if Survives(ps, n) then SurvivorIndices(ps[..n]) + [n] else SurvivorIndices(ps[..n]))
  {
  }

  /** Entry `k` of `r` is the paragraph of `ps` at position `idx[k]`. */
  predicate Selects(ps: seq<string>, r: seq<string>, idx: seq<nat>)
  {
    |r| == |idx| && forall k :: 0 <= k < |r| ==> idx[k] < |ps| && r[k] == ps[idx[k]]
  }

  /** A selection from `ps[..n]`, optionally extended by position `n`, is a selection from `ps`. */
  lemma SelectionExtend(ps: seq<string>, n: nat, c: seq<string>, idx: seq<nat>, keep: bool)
    requires n < |ps| && Selects(ps[..n], c, idx)
    ensures Selects(ps, if keep then c + [ps[n]] else c, if keep then idx + [n] else idx)
  {
    assert forall k :: 0 <= k < |c| ==> ps[..n][idx[k]] == ps[idx[k]];
  }

  /**
   * Collapsing selects exactly the surviving paragraphs, in their input order:
   * entry `k` of the result is the input paragraph at the `k`-th surviving position.
   * So a paragraph equal to an earlier one that is not right before it is kept.
   */
  lemma {:induction false} CollapseSelects(ps: seq<string>)
    decreases |ps|
    ensures Selects(ps, Collapse(ps), SurvivorIndices(ps))
  {
    if |ps| > 0 {
      var n := |ps| - 1;
      CollapseSelects(ps[..n]);
      SelectionStep(ps);
      SelectionExtend(ps, n, Collapse(ps[..n]), SurvivorIndices(ps[..n]), Survives(ps, n));
    }
  }

  /** Collapsing leaves a list unchanged exactly when it has no adjacent duplicates. */
  lemma {:induction false} CollapseFixed(ps: seq<string>)
    decreases |ps|
    ensures Collapse(ps) == ps <==> NoAdjacentDup(ps)
  {
    if NoAdjacentDup(ps) && |ps| > 0 {
      var init := ps[..|ps| - 1];
      assert NoAdjacentDup(init) by {
        forall i | 0 < i < |init| ensures init[i] != init[i - 1] {
          assert init[i] == ps[i] && init[i - 1] == ps[i - 1];
        }
      }
      CollapseFixed(init);
      if |ps| >= 2 {
        assert ps[|ps| - 1] != ps[|ps| - 2];
      }
      assert ps == init + [ps[|ps| - 1]];
    }
  }

  /** Collapsing is idempotent. */
  lemma CollapseIdempotent(ps: seq<string>)
    ensures Collapse(Collapse(ps)) == Collapse(ps)
  {
    CollapseFixed(Collapse(ps));
  }

  /**
   * Collapsing drops no value: every paragraph text of the input is still present,
   * and nothing new appears.
   */
  lemma {:induction false} CollapseKeepsValues(ps: seq<string>)
    decreases |ps|
    ensures forall p :: p in ps <==> p in Collapse(ps)
  {
    if |ps| > 0 {
      var init := ps[..|ps| - 1];
      CollapseKeepsValues(init);
      assert ps == init + [ps[|ps| - 1]];
    }
  }

  /** Collapsing either changes nothing or removes at least one paragraph. */
  lemma {:induction false} CollapseShrinks(ps: seq<string>)
    decreases |ps|
    ensures Collapse(ps) == ps || |Collapse(ps)| < |ps|
  {
    if |ps| > 0 {
      var init, last := ps[..|ps| - 1], ps[|ps| - 1];
      CollapseShrinks(init);
      assert ps == init + [last];
      var c := Collapse(init);
      if |ps| >= 2 && last == ps[|ps| - 2] {
        assert Collapse(ps) == c;
        assert |Collapse(ps)| < |ps|;
      } else if c == init {
        assert Collapse(ps) == init + [last] == ps;
      } else {
        assert Collapse(ps) == c + [last];
        assert |Collapse(ps)| < |ps|;
      }
    }
  }

  /**
   * Joined back together, collapsed paragraphs are never longer than the original,
   * and a collapse that removed something shortens the text by at least a separator.
   */
  lemma {:induction false} CollapseJoinLength(ps: seq<string>, sep: string)
    decreases |ps|
    ensures |Join(Collapse(ps), sep)| <= |Join(ps, sep)|
    ensures Collapse(ps) != ps ==> |Join(Collapse(ps), sep)| + |sep| <= |Join(ps, sep)|
  {
    if |ps| >= 2 {
      var init, last := ps[..|ps| - 1], ps[|ps| - 1];
      var c := Collapse(init);
      assert ps == init + [last];
      CollapseJoinLength(init, sep);
      CollapseShrinks(init);
      JoinSnoc(init, last, sep);
      if last != ps[|ps| - 2] {
        JoinSnoc(c, last, sep);
      }
    }
  }

  /**
   * Splitting into paragraphs, collapsing and joining returns the text unchanged
   * exactly when no two adjacent paragraphs of the text are equal.
   */
  lemma ParagraphPassIdentity(s: string)
    ensures Join(Collapse(Split(s, ParagraphBreak)), ParagraphBreak) == s
            <==> NoAdjacentDup(Split(s, ParagraphBreak))
  {
    var ps := Split(s, ParagraphBreak);
    JoinSplit(s, ParagraphBreak);
    CollapseFixed(ps);
    CollapseJoinLength(ps, ParagraphBreak);
  }

  /** The halving rule applies: at least two characters and the two halves are equal. */
  predicate HalvingApplies(t: string)
  {
    |t| >= 2 && t[..|t| / 2] == t[|t| / 2..]
  }

  /** Keeps the first half of a text whose two halves are identical, once. */
  function Halve(t: string): string
  {
    if HalvingApplies(t) then t[..|t| / 2] else t
  }

  /**
   * Halving changes the text exactly when the rule applies; it then needs an even
   * length and returns the half that, written twice, is the text.
   */
  lemma HalveSpec(t: string)
    ensures Halve(t) != t <==> HalvingApplies(t)
    ensures HalvingApplies(t) ==> |t| % 2 == 0 && Halve(t) + Halve(t) == t
    ensures |Halve(t)| <= |t|
  {
    if HalvingApplies(t) {
      assert |t[..|t| / 2]| == |t[|t| / 2..]|;
      assert t == t[..|t| / 2] + t[|t| / 2..];
    }
  }

  /** Any non-empty text written twice is halved back to itself, and no further. */
  lemma HalveDoubled(h: string)
    requires |h| >= 1
    ensures Halve(h + h) == h
  {
    var t := h + h;
    assert t[..|t| / 2] == h && t[|t| / 2..] == h;
  }

  /** Every step after the empty check, applied to a non-empty text. */
  function CleanText(s: string): string
  {
    Strip(Halve(Join(Collapse(Split(s, ParagraphBreak)), ParagraphBreak)))
  }

  /** `clean_response`: the fallback for no text or "", otherwise `CleanText`. */
  function Clean(text: Option<string>): (r: string)
    ensures text == None || text == Some("") ==> r == Fallback
  {
    if text.None? || text.value == "" then Fallback else CleanText(text.value)
  }

  /**
   * For a non-empty text the result has no surrounding whitespace and is never
   * longer than the text.
   */
  lemma CleanShape(s: string)
    requires s != ""
    ensures Stripped(Clean(Some(s))) && |Clean(Some(s))| <= |s|
  {
    var ps := Split(s, ParagraphBreak);
    var joined := Join(Collapse(ps), ParagraphBreak);
    JoinSplit(s, ParagraphBreak);
    CollapseJoinLength(ps, ParagraphBreak);
    HalveSpec(joined);
    StripSpec(Halve(joined));
  }

  /**
   * The fallback is forced only by absent or empty text: a non-empty text that has
   * no adjacent duplicate paragraphs, is not a doubled text and has no surrounding
   * whitespace comes back unchanged.
   */
  lemma CleanIdentity(s: string)
    requires s != ""
    requires NoAdjacentDup(Split(s, ParagraphBreak))
    requires !HalvingApplies(s)
    requires Stripped(s)
    ensures Clean(Some(s)) == s
  {
    ParagraphPassIdentity(s);
    StripFixed(s);
  }

  /** A doubled text loses its second copy when its halves are already clean. */
  lemma CleanDoubled(h: string)
    requires h != "" && Stripped(h)
    requires NoAdjacentDup(Split(h + h, ParagraphBreak))
    ensures Clean(Some(h + h)) == h
  {
    ParagraphPassIdentity(h + h);
    HalveDoubled(h);
    StripFixed(h);
  }

  /**
   * The imperative cleaner: split, keep each paragraph that differs from the last
   * one kept, join, halve once, strip.
   */
  method CleanResponse(text: Option<string>) returns (cleaned: string)
    ensures cleaned == Clean(text)
  {
    if text.None? || text.value == "" {
      return Fallback;
    }
    var paragraphs := Split(text.value, ParagraphBreak);
    var unique: seq<string> := [];
    var i := 0;
    while i < |paragraphs|
      invariant 0 <= i <= |paragraphs|
      invariant unique == Collapse(paragraphs[..i])
    {
      var p := paragraphs[i];
      assert paragraphs[..i + 1][..i] == paragraphs[..i];
      if unique == [] || p != unique[|unique| - 1] {
        unique := unique + [p];
      }
      i := i + 1;
    }
    assert paragraphs[..i] == paragraphs;
    cleaned := Join(unique, ParagraphBreak);
    var half := |cleaned| / 2;
    if |cleaned| >= 2 && cleaned[..half] == cleaned[half..] {
      cleaned := cleaned[..half];
    }
    cleaned := Strip(cleaned);
  }
}
