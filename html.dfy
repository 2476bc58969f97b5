// The HTML fragments of the report: one block per dangerous phrase, one
// item per missing section, and the AI analysis section. Text is embedded
// verbatim, without escaping.

module ReportHtml {
  import opened Wrappers
  import opened Text
  import opened PhraseScanner

  /** The opening tag of the paragraphs shown when nothing was found. */
  const ParagraphOpen: string := "<p class=\"item-content\">"

  /** The opening tag of a phrase block. */
  const ItemOpen: string := "<div class=\"item\">"

  /** The pieces of a phrase block around its phrase and its context. */
  const TitleOpen: string := "\n            <div class=\"item-title\">"
  const ContextOpen: string := "</div>\n            <div class=\"item-content\">Контекст: ..."
  const ItemClose: string := "...</div>\n        </div>"

  /** What precedes and what follows the analysis in its section. */
  const AiSectionHead: string := "<div class=\"section ai-section\">" + "\n        <h2>\U{1F916} AI-анализ договора</h2>\n        <div class=\"item-content\" style=\"white-space: pre-wrap;\">"
  const AiSectionTail: string := "</div>\n    </div>"

  /** The paragraph shown when no dangerous phrase was found. */
  const NoPhrasesHtml: string := ParagraphOpen + "Опасные фразы не обнаружены \U{2705}</p>"

  /** The paragraph shown when every required section is present. */
  const NoSectionsHtml: string := ParagraphOpen + "Все обязательные разделы присутствуют \U{2705}</p>"

  /** The block for one dangerous phrase and its context. */
  function PhraseBlock(phrase: string, context: string): string
  {
    ItemOpen + TitleOpen + phrase + ContextOpen + context + ItemClose
  }

  /** The block of each phrase, in input order. */
  function PhraseBlocks(phrases: seq<PhraseMatch>): (blocks: seq<string>)
    ensures |blocks| == |phrases|
  {
    if phrases == [] then []
    else
      var last := phrases[|phrases| - 1];
      PhraseBlocks(phrases[..|phrases| - 1]) + [PhraseBlock(last.phrase, last.context)]
  }

  /** What `_generate_dangerous_phrases_html` returns. */
  function DangerousPhrasesFragment(phrases: seq<PhraseMatch>): string
  {
    if phrases == [] then NoPhrasesHtml else Concat(PhraseBlocks(phrases))
  }

  /** The item for one missing section. */
  function SectionItem(section: string): string
  {
    "<div class=\"missing-item\">\U{274C} " + section + "</div>"
  }

  /** The item of each missing section, in input order. */
  function SectionItems(sections: seq<string>): (items: seq<string>)
    ensures |items| == |sections|
  {
    if sections == [] then []
    else SectionItems(sections[..|sections| - 1]) + [SectionItem(sections[|sections| - 1])]
  }

  /** What `_generate_missing_sections_html` returns. */
  function MissingSectionsFragment(sections: seq<string>): string
  {
    if sections == [] then NoSectionsHtml else Concat(SectionItems(sections))
  }

  /** `_generate_ai_analysis_html`: nothing for an absent or empty analysis,
      otherwise the analysis inside its own section. */
  function AiAnalysisHtml(aiAnalysis: Option<string>): (html: string)
    ensures html == "" <==> aiAnalysis == None || aiAnalysis.value == ""
    ensures html != "" ==> Contains(html, aiAnalysis.value)
  {
    if aiAnalysis == None || aiAnalysis.value == "" then ""
    else
      EmbeddedBetween(AiSectionHead, aiAnalysis.value, AiSectionTail);
      AiSectionHead + aiAnalysis.value + AiSectionTail
  }

  /** A string is found again after text is put around it. */
  lemma EmbeddedBetween(a: string, x: string, b: string)
    ensures Contains(a + x + b, x)
  {
    assert MatchesAt(x, x, 0);
    ContainsInConcat(a, x, x);
    ContainsInConcat(a + x, b, x);
  }

  // ---------------------------------------------------------------------
  // The loops.

  /** `_generate_dangerous_phrases_html`. */
  method DangerousPhrasesHtml(phrases: seq<PhraseMatch>) returns (html: string)
    ensures html == DangerousPhrasesFragment(phrases)
  {
    if phrases == [] {
      return NoPhrasesHtml;
    }
    html := "";
    for i := 0 to |phrases|
      invariant html == Concat(PhraseBlocks(phrases)[..i])
    {
      var phrase := phrases[i];
      PhraseBlocksAt(phrases, i);
      ConcatStep(PhraseBlocks(phrases), i);
      html := html + PhraseBlock(phrase.phrase, phrase.context);
    }
    assert PhraseBlocks(phrases)[..|phrases|] == PhraseBlocks(phrases);
  }

  /** `_generate_missing_sections_html`. */
  method MissingSectionsHtml(missing: seq<string>) returns (html: string)
    ensures html == MissingSectionsFragment(missing)
  {
    if missing == [] {
      return NoSectionsHtml;
    }
    html := "";
    for i := 0 to |missing|
      invariant html == Concat(SectionItems(missing)[..i])
    {
      SectionItemsAt(missing, i);
      ConcatStep(SectionItems(missing), i);
      html := html + SectionItem(missing[i]);
    }
    assert SectionItems(missing)[..|missing|] == SectionItems(missing);
  }

  // ---------------------------------------------------------------------
  // Properties of the fragments.

  /** Block `i` belongs to phrase `i`. */
  lemma {:induction false} PhraseBlocksAt(phrases: seq<PhraseMatch>, i: nat)
    requires i < |phrases|
    ensures PhraseBlocks(phrases)[i] == PhraseBlock(phrases[i].phrase, phrases[i].context)
    decreases |phrases|
  {
    var n := |phrases| - 1;
    if i < n {
      PhraseBlocksAt(phrases[..n], i);
    }
  }

  /** A block starts with a `div`, never the "none found" paragraph's `p`. */
  lemma PhraseBlockStart(phrase: string, context: string)
    ensures |PhraseBlock(phrase, context)| > 1 && PhraseBlock(phrase, context)[1] == 'd'
  {
  }

  /** Both "nothing found" paragraphs start with a `p`. */
  lemma NothingFoundStart()
    ensures |NoPhrasesHtml| > 1 && NoPhrasesHtml[1] == 'p'
    ensures |NoSectionsHtml| > 1 && NoSectionsHtml[1] == 'p'
  {
  }

  /** The "none found" paragraph appears exactly when there is no phrase. */
  lemma DangerousPhrasesNoneIff(phrases: seq<PhraseMatch>)
    ensures DangerousPhrasesFragment(phrases) == NoPhrasesHtml <==> phrases == []
  {
    if phrases != [] {
      PhraseBlocksAt(phrases, 0);
      PhraseBlockStart(phrases[0].phrase, phrases[0].context);
      ConcatFirst(PhraseBlocks(phrases), 1);
      NothingFoundStart();
    }
  }

  /** Every phrase and every context appear verbatim in the fragment. */
  lemma DangerousPhrasesEmbedded(phrases: seq<PhraseMatch>, i: nat)
    requires i < |phrases|
    ensures Contains(DangerousPhrasesFragment(phrases), phrases[i].phrase)
    ensures Contains(DangerousPhrasesFragment(phrases), phrases[i].context)
  {
    var m := phrases[i];
    PhraseBlocksAt(phrases, i);
    PhraseBlockEmbeds(m.phrase, m.context);
    ConcatContainsPiece(PhraseBlocks(phrases), i, m.phrase);
    ConcatContainsPiece(PhraseBlocks(phrases), i, m.context);
  }

  /** A block holds its phrase and its context. */
  lemma PhraseBlockEmbeds(phrase: string, context: string)
    ensures Contains(PhraseBlock(phrase, context), phrase)
    ensures Contains(PhraseBlock(phrase, context), context)
  {
    var head := ItemOpen + TitleOpen;
    EmbeddedBetween(head, phrase, ContextOpen);
    ContainsInConcat(head + phrase + ContextOpen, context, phrase);
    ContainsInConcat(head + phrase + ContextOpen + context, ItemClose, phrase);
    EmbeddedBetween(head + phrase + ContextOpen, context, ItemClose);
  }

  /** Item `i` belongs to section `i`. */
  lemma {:induction false} SectionItemsAt(sections: seq<string>, i: nat)
    requires i < |sections|
    ensures SectionItems(sections)[i] == SectionItem(sections[i])
    decreases |sections|
  {
    var n := |sections| - 1;
    if i < n {
      SectionItemsAt(sections[..n], i);
    }
  }

  /** An item starts with a `div`, never the "all present" paragraph's `p`. */
  lemma SectionItemStart(section: string)
    ensures |SectionItem(section)| > 1 && SectionItem(section)[1] == 'd'
  {
  }

  /** The "all present" paragraph appears exactly when no section is missing. */
  lemma MissingSectionsNoneIff(sections: seq<string>)
    ensures MissingSectionsFragment(sections) == NoSectionsHtml <==> sections == []
  {
    if sections != [] {
      SectionItemsAt(sections, 0);
      SectionItemStart(sections[0]);
      ConcatFirst(SectionItems(sections), 1);
      NothingFoundStart();
    }
  }

  /** Every missing section appears verbatim in the fragment. */
  lemma MissingSectionsEmbedded(sections: seq<string>, i: nat)
    requires i < |sections|
    ensures Contains(MissingSectionsFragment(sections), sections[i])
  {
    SectionItemsAt(sections, i);
    EmbeddedBetween("<div class=\"missing-item\">\U{274C} ", sections[i], "</div>");
    ConcatContainsPiece(SectionItems(sections), i, sections[i]);
  }
}
