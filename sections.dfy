// The section checker: which of the six required contract sections are
// not mentioned anywhere in the text.

module SectionChecker {
  import opened Text
  import PhraseScanner

  /** The fixed section labels, in the order they are checked and reported. */
  const RequiredSections: seq<string> := [
    "предмет договора",
    "стоимость",
    "срок",
    "ответственность сторон",
    "порядок разрешения споров",
    "реквизиты сторон"
  ]

  /** A label counts as present when its lower-cased form occurs anywhere
      in the lower-cased text. */
  predicate Absent(text: string, section: string) {
    !Contains(Lower(text), Lower(section))
  }

  /** The absent labels among `sections`, in their order; defined from the
      back, one label at a time, as the checking loop appends them. */
  function Missing(text: string, sections: seq<string>): (r: seq<string>)
    ensures |r| <= |sections|
  {
    if sections == [] then []
    else
      var last := sections[|sections| - 1];
      Missing(text, sections[..|sections| - 1]) + (if Absent(text, last) then [last] else [])
  }

  /** A label is reported exactly when it is one of the labels checked and
      does not occur in the text. */
  lemma {:induction false} MissingMember(text: string, sections: seq<string>, s: string)
    ensures s in Missing(text, sections) <==> s in sections && Absent(text, s)
  {
    if sections != [] {
      var init := sections[..|sections| - 1];
      MissingMember(text, init, s);
      assert sections == init + [sections[|sections| - 1]];
    }
  }

  /** `idx` picks the elements of `xs` out of `ys` in increasing positions. */
  ghost predicate Embedding(xs: seq<string>, ys: seq<string>, idx: seq<nat>) {
    && |idx| == |xs|
    && (forall i :: 0 <= i < |idx| ==> idx[i] < |ys| && ys[idx[i]] == xs[i])
    && (forall i, j :: 0 <= i < j < |idx| ==> idx[i] < idx[j])
  }

  /** The positions in `sections` of the labels `Missing` reports. */
  function MissingIndices(text: string, sections: seq<string>): (idx: seq<nat>)
    ensures forall i :: 0 <= i < |idx| ==> idx[i] < |sections|
  {
    if sections == [] then []
    else
      var n := |sections| - 1;
      MissingIndices(text, sections[..n]) + (if Absent(text, sections[n]) then [n] else [])
  }

  /** The report is an order-preserving subsequence of the labels checked. */
  lemma {:induction false} MissingIsSubsequence(text: string, sections: seq<string>)
    ensures Embedding(Missing(text, sections), sections, MissingIndices(text, sections))
  {
    if sections != [] {
      var n := |sections| - 1;
      var init := sections[..n];
      MissingIsSubsequence(text, init);
      var xs0, idx0 := Missing(text, init), MissingIndices(text, init);
      if Absent(text, sections[n]) {
        var xs, idx := xs0 + [sections[n]], idx0 + [n];
        forall i | 0 <= i < |idx| ensures idx[i] < |sections| && sections[idx[i]] == xs[i] {
          if i < |idx0| {
            assert idx[i] == idx0[i] && xs[i] == xs0[i];
            assert sections[idx0[i]] == init[idx0[i]];
          }
        }
        forall i, j | 0 <= i < j < |idx| ensures idx[i] < idx[j] {
          if j < |idx0| {
            assert idx[i] == idx0[i] && idx[j] == idx0[j];
          } else {
            assert idx[i] == idx0[i];
          }
        }
      } else {
        forall i | 0 <= i < |idx0| ensures sections[idx0[i]] == xs0[i] {
          assert sections[idx0[i]] == init[idx0[i]];
        }
      }
    }
  }

  ghost predicate NoDuplicates(xs: seq<string>) {
    forall i, j :: 0 <= i < j < |xs| ==> xs[i] != xs[j]
  }

  /** A label is reported at most once when it is checked at most once. */
  lemma {:induction false} MissingNoDuplicates(text: string, sections: seq<string>)
    requires NoDuplicates(sections)
    ensures NoDuplicates(Missing(text, sections))
  {
    if sections != [] {
      var n := |sections| - 1;
      var init := sections[..n];
      assert NoDuplicates(init) by {
        forall i, j | 0 <= i < j < |init| ensures init[i] != init[j] {
          assert init[i] == sections[i] && init[j] == sections[j];
        }
      }
      MissingNoDuplicates(text, init);
      if Absent(text, sections[n]) {
        var xs0 := Missing(text, init);
        MissingMember(text, init, sections[n]);
        assert sections[n] !in init by {
          forall i | 0 <= i < |init| ensures init[i] != sections[n] {
            assert init[i] == sections[i];
          }
        }
        var xs := xs0 + [sections[n]];
        forall i, j | 0 <= i < j < |xs| ensures xs[i] != xs[j] {
          if j < |xs0| {
            assert xs[i] == xs0[i] && xs[j] == xs0[j];
          } else {
            assert xs[i] == xs0[i] && xs0[i] in xs0;
          }
        }
      }
    }
  }

  lemma RequiredSectionsDistinct()
    ensures NoDuplicates(RequiredSections)
  {
  }

  /** The report depends on the text only through its lower-cased form. */
  lemma {:induction false} MissingCaseInsensitive(text: string, sections: seq<string>)
    ensures Missing(Lower(text), sections) == Missing(text, sections)
  {
    LowerIdempotent(text);
    if sections != [] {
      MissingCaseInsensitive(text, sections[..|sections| - 1]);
    }
  }

  /** Checking more labels extends the report of the earlier ones. */
  lemma {:induction false} MissingAppend(text: string, a: seq<string>, b: seq<string>)
    ensures Missing(text, a + b) == Missing(text, a) + Missing(text, b)
    decreases |b|
  {
    if b == [] {
      assert a + b == a;
    } else {
      var n := |b| - 1;
      assert (a + b)[..|a + b| - 1] == a + b[..n];
      MissingAppend(text, a, b[..n]);
    }
  }

  /** A label is reported as missing exactly when the phrase scanner,
      given that label as its only keyword, finds nothing. */
  lemma MissingIffNotScanned(text: string, s: string)
    ensures s in Missing(text, RequiredSections)
      <==> s in RequiredSections && PhraseScanner.ScanOne(text, s) == []
  {
    MissingMember(text, RequiredSections, s);
    PhraseScanner.ContainsIffOccurs(Lower(text), Lower(s));
    PhraseScanner.RecordsLength(text, s, PhraseScanner.Occurrences(Lower(text), Lower(s), 0));
  }

  /** One more label checked: the report grows by that label when it is absent. */
  lemma MissingStep(text: string, sections: seq<string>, i: nat)
    requires i < |sections|
    ensures Missing(text, sections[..i + 1])
      == Missing(text, sections[..i]) + (if Absent(text, sections[i]) then [sections[i]] else [])
  {
    assert sections[..i + 1][..i] == sections[..i];
  }

  /** `check_missing_sections`: the required labels that the text lacks. */
  method CheckMissingSections(text: string) returns (missing: seq<string>)
    ensures missing == Missing(text, RequiredSections)
  {
    missing := CheckSections(text, RequiredSections);
  }

  /** The loop of `check_missing_sections` over a list of labels:
      lower-case the text once, then test each label in turn and append
      the absent ones. */
  method CheckSections(text: string, sections: seq<string>) returns (missing: seq<string>)
    ensures missing == Missing(text, sections)
  {
    var textLower := Lower(text);
    missing := [];
    for i := 0 to |sections|
      invariant missing == Missing(text, sections[..i])
    {
      var section := sections[i];
      MissingStep(text, sections, i);
      if !Contains(textLower, Lower(section)) {
        missing := missing + [section];
      }
    }
    assert sections[..|sections|] == sections;
  }
}
