/**
 * The dangerous-phrase scanner (`analyze_dangerous_phrases`): for each
 * configured keyword, every non-overlapping, left-to-right occurrence of the
 * lower-cased keyword in the lower-cased text, reported with the keyword as
 * configured, the match start and a whitespace-stripped context window of
 * up to 50 characters either side, cut from the original-case text.
 */
module PhraseScanner {
  import opened Text

  /** Width of the context margin on each side of a match. */
  const ContextMargin: nat := 50

  /** One reported occurrence (a `{"phrase", "context", "position"}` dict). */
  datatype PhraseMatch = PhraseMatch(phrase: string, context: string, position: nat)

  /** How far `re.finditer` moves on after a match of `k`: past the match,
      or by one character when the match is empty. */
  function Step(k: string): (n: nat)
    ensures n >= 1 && n >= |k|
  {
    if |k| == 0 then 1 else |k|
  }

  /** The start positions `re.finditer(re.escape(k), t)` yields when the
      search begins at `from`: leftmost first, resuming after each match. */
  function Occurrences(t: string, k: string, from: nat): (ps: seq<nat>)
    ensures forall j :: 0 <= j < |ps| ==> from <= ps[j] && ps[j] + |k| <= |t|
    decreases |t| + 1 - from
  {
    if from + |k| > |t| then []
    else if MatchesAt(t, k, from) then [from] + Occurrences(t, k, from + Step(k))
    else Occurrences(t, k, from + 1)
  }

  /** Every position the scan reports is a genuine match. */
  lemma {:induction false} OccurrencesSound(t: string, k: string, from: nat)
    ensures forall j :: 0 <= j < |Occurrences(t, k, from)| ==> MatchesAt(t, k, Occurrences(t, k, from)[j])
    decreases |t| + 1 - from
  {
    if from + |k| <= |t| {
      if MatchesAt(t, k, from) {
        OccurrencesSound(t, k, from + Step(k));
        var rest := Occurrences(t, k, from + Step(k));
        assert Occurrences(t, k, from) == [from] + rest;
      } else {
        OccurrencesSound(t, k, from + 1);
      }
    }
  }

  /** Matches reported for one keyword are at least one step apart, so
      they never overlap. */
  ghost predicate Spaced(k: string, ps: seq<nat>) {
    forall i, j :: 0 <= i < j < |ps| ==> ps[i] + Step(k) <= ps[j]
  }

  /** Match `q` starts within one step of a reported match: for a
      non-empty keyword it is the reported match or overlaps it, for the
      empty keyword it is the reported match. */
  ghost predicate Covered(k: string, ps: seq<nat>, q: nat) {
    exists j :: 0 <= j < |ps| && ps[j] <= q < ps[j] + Step(k)
  }

  /** The greedy-leftmost specification of a literal scan from `from`:
      every reported position is a genuine match at or after `from`,
      reported matches do not overlap, and no match at or after `from` is
      left uncovered by a reported one. */
  ghost predicate GreedyScan(t: string, k: string, from: nat, ps: seq<nat>) {
    && (forall j :: 0 <= j < |ps| ==> from <= ps[j] && MatchesAt(t, k, ps[j]))
    && Spaced(k, ps)
    && (forall q: nat {:trigger Covered(k, ps, q)} :: from <= q && MatchesAt(t, k, q) ==> Covered(k, ps, q))
  }

  /** The occurrences found by the scan are spaced by at least one step. */
  lemma {:induction false} OccurrencesSpaced(t: string, k: string, from: nat)
    ensures Spaced(k, Occurrences(t, k, from))
    decreases |t| + 1 - from
  {
    if from + |k| <= |t| {
      if MatchesAt(t, k, from) {
        var rest := Occurrences(t, k, from + Step(k));
        OccurrencesSpaced(t, k, from + Step(k));
        SpacedCons(k, from, rest);
      } else {
        OccurrencesSpaced(t, k, from + 1);
      }
    }
  }

  /** A position one step before every spaced position extends them. */
  lemma SpacedCons(k: string, p: nat, rest: seq<nat>)
    requires Spaced(k, rest)
    requires forall j :: 0 <= j < |rest| ==> p + Step(k) <= rest[j]
    ensures Spaced(k, [p] + rest)
  {
    var ps := [p] + rest;
    forall i, j | 0 <= i < j < |ps| ensures ps[i] + Step(k) <= ps[j] {
      assert ps[j] == rest[j - 1];
      if i > 0 { assert ps[i] == rest[i - 1]; }
    }
  }

  /** Every match at or after `from` is covered by an occurrence the scan
      reports: the scan leaves no leftmost occurrence unreported. */
  lemma {:induction false} OccurrencesCover(t: string, k: string, from: nat, q: nat)
    requires from <= q && MatchesAt(t, k, q)
    ensures Covered(k, Occurrences(t, k, from), q)
    decreases |t| + 1 - from
  {
    var ps := Occurrences(t, k, from);
    if MatchesAt(t, k, from) {
      if q < from + Step(k) {
        assert ps[0] == from;
      } else {
        var rest := Occurrences(t, k, from + Step(k));
        OccurrencesCover(t, k, from + Step(k), q);
        var j :| 0 <= j < |rest| && rest[j] <= q < rest[j] + Step(k);
        assert ps == [from] + rest && ps[j + 1] == rest[j];
      }
    } else {
      OccurrencesCover(t, k, from + 1, q);
    }
  }

  /** `Occurrences` meets the greedy-leftmost specification. */
  lemma OccurrencesGreedy(t: string, k: string, from: nat)
    ensures GreedyScan(t, k, from, Occurrences(t, k, from))
  {
    OccurrencesSound(t, k, from);
    OccurrencesSpaced(t, k, from);
    forall q: nat | from <= q && MatchesAt(t, k, q)
      ensures Covered(k, Occurrences(t, k, from), q)
    {
      OccurrencesCover(t, k, from, q);
    }
  }

  /** A greedy scan that starts at a match reports that match first. */
  lemma GreedyHead(t: string, k: string, from: nat, ps: seq<nat>)
    requires GreedyScan(t, k, from, ps) && MatchesAt(t, k, from)
    ensures ps != [] && ps[0] == from
  {
    assert Covered(k, ps, from);
    var j0 :| 0 <= j0 < |ps| && ps[j0] <= from < ps[j0] + Step(k);
    assert Spaced(k, ps);
  }

  /** Dropping the first reported match of a greedy scan leaves a greedy
      scan from one step after it. */
  lemma GreedyRest(t: string, k: string, from: nat, ps: seq<nat>)
    requires GreedyScan(t, k, from, ps) && ps != [] && ps[0] == from
    ensures GreedyScan(t, k, from + Step(k), ps[1..])
  {
    GreedyRestSpaced(k, ps);
    GreedyRestSound(t, k, ps);
    forall q: nat | from + Step(k) <= q && MatchesAt(t, k, q) ensures Covered(k, ps[1..], q) {
      GreedyRestCovered(k, ps, q);
    }
  }

  lemma GreedyRestSound(t: string, k: string, ps: seq<nat>)
    requires ps != [] && forall j :: 0 <= j < |ps| ==> MatchesAt(t, k, ps[j])
    ensures forall j :: 0 <= j < |ps[1..]| ==> MatchesAt(t, k, ps[1..][j])
  {
    forall j | 0 <= j < |ps[1..]| ensures MatchesAt(t, k, ps[1..][j]) {
      assert ps[1..][j] == ps[j + 1];
    }
  }

  lemma GreedyRestCovered(k: string, ps: seq<nat>, q: nat)
    requires Spaced(k, ps) && ps != [] && ps[0] + Step(k) <= q && Covered(k, ps, q)
    ensures Covered(k, ps[1..], q)
  {
    var j :| 0 <= j < |ps| && ps[j] <= q < ps[j] + Step(k);
    assert j > 0 && ps[1..][j - 1] == ps[j];
  }

  /** The part of `GreedyRest` about spacing. */
  lemma GreedyRestSpaced(k: string, ps: seq<nat>)
    requires Spaced(k, ps) && ps != []
    ensures Spaced(k, ps[1..])
    ensures forall j :: 0 <= j < |ps[1..]| ==> ps[0] + Step(k) <= ps[1..][j]
  {
    var rest := ps[1..];
    forall j | 0 <= j < |rest| ensures ps[0] + Step(k) <= rest[j] {
      assert rest[j] == ps[j + 1];
    }
    forall i, j | 0 <= i < j < |rest| ensures rest[i] + Step(k) <= rest[j] {
      assert rest[i] == ps[i + 1] && rest[j] == ps[j + 1];
    }
  }

  /** A greedy scan that reports no match at `from` is a greedy scan from
      `from + 1`. */
  lemma GreedySkip(t: string, k: string, from: nat, ps: seq<nat>)
    requires GreedyScan(t, k, from, ps) && !MatchesAt(t, k, from)
    ensures GreedyScan(t, k, from + 1, ps)
  {
    forall j | 0 <= j < |ps| ensures from + 1 <= ps[j] {
      assert MatchesAt(t, k, ps[j]);
    }
  }

  /** A greedy scan reports something only while a match still fits after `from`. */
  lemma GreedyEnd(t: string, k: string, from: nat, ps: seq<nat>)
    requires GreedyScan(t, k, from, ps)
    ensures ps != [] ==> from + |k| <= |t|
  {
    if ps != [] {
      assert from <= ps[0] && MatchesAt(t, k, ps[0]);
    }
  }

  /** The greedy-leftmost specification has exactly one solution, so
      `Occurrences` is the only sequence of positions meeting it. */
  lemma {:induction false} GreedyScanUnique(t: string, k: string, from: nat, ps: seq<nat>)
    requires GreedyScan(t, k, from, ps)
    ensures ps == Occurrences(t, k, from)
    decreases |t| + 1 - from, 1
  {
    if from + |k| > |t| {
      GreedyEnd(t, k, from, ps);
    } else if MatchesAt(t, k, from) {
      GreedyHead(t, k, from, ps);
      GreedyRest(t, k, from, ps);
      GreedyUniqueAtMatch(t, k, from, ps[1..]);
      assert ps == [from] + ps[1..];
    } else {
      GreedySkip(t, k, from, ps);
      GreedyUniqueAtSkip(t, k, from, ps);
    }
  }

  /** `GreedyScanUnique` where a match starts at `from`: the scan reports
      it, then the rest. */
  lemma {:induction false} GreedyUniqueAtMatch(t: string, k: string, from: nat, rest: seq<nat>)
    requires from + |k| <= |t| && MatchesAt(t, k, from)
    requires GreedyScan(t, k, from + Step(k), rest)
    ensures [from] + rest == Occurrences(t, k, from)
    decreases |t| + 1 - from, 0
  {
    GreedyScanUnique(t, k, from + Step(k), rest);
  }

  /** `GreedyScanUnique` where no match starts at `from`. */
  lemma {:induction false} GreedyUniqueAtSkip(t: string, k: string, from: nat, ps: seq<nat>)
    requires from + |k| <= |t| && !MatchesAt(t, k, from)
    requires GreedyScan(t, k, from + 1, ps)
    ensures ps == Occurrences(t, k, from)
    decreases |t| + 1 - from, 0
  {
    GreedyScanUnique(t, k, from + 1, ps);
  }

  /** The empty keyword matches at every index `from..|t|`, one after another. */
  lemma {:induction false} EmptyKeywordEverywhere(t: string, from: nat)
    requires from <= |t| + 1
    ensures var ps := Occurrences(t, "", from);
      |ps| == |t| + 1 - from && forall j :: 0 <= j < |ps| ==> ps[j] == from + j
    decreases |t| + 1 - from
  {
    if from <= |t| {
      assert MatchesAt(t, "", from);
      EmptyKeywordEverywhere(t, from + 1);
    }
  }

  /** `k` is a substring of `t` exactly when the scan from the start finds
      at least one occurrence. */
  lemma ContainsIffOccurs(t: string, k: string)
    ensures Contains(t, k) <==> Occurrences(t, k, 0) != []
  {
    var ps := Occurrences(t, k, 0);
    if Contains(t, k) {
      var i :| 0 <= i <= |t| && MatchesAt(t, k, i);
      OccurrencesCover(t, k, 0, i);
    }
    if ps != [] {
      OccurrencesSound(t, k, 0);
      assert MatchesAt(t, k, ps[0]);
    }
  }

  /** The context window around a match of length `n` at `p`: clamped to
      the text and stripped. As with a Python slice, a window whose clamped
      start lies past its end is empty (no match produces one). */
  function Context(text: string, p: nat, n: nat): (c: string)
  {
    var lo := if p >= ContextMargin then p - ContextMargin else 0;
    var hi := if p + n + ContextMargin <= |text| then p + n + ContextMargin else |text|;
    if lo <= hi then Strip(text[lo..hi]) else ""
  }

  /** A context is one contiguous slice of the original text, lying within
      the clamped window and at most `n + 100` characters long. */
  lemma ContextIsSlice(text: string, p: nat, n: nat)
    requires p + n <= |text|
    ensures exists a: nat, b: nat ::
      && (if p >= ContextMargin then p - ContextMargin else 0) <= a <= b
      && b <= (if p + n + ContextMargin <= |text| then p + n + ContextMargin else |text|)
      && b - a <= n + 2 * ContextMargin
      && Context(text, p, n) == text[a..b]
  {
    var lo := if p >= ContextMargin then p - ContextMargin else 0;
    var hi := if p + n + ContextMargin <= |text| then p + n + ContextMargin else |text|;
    var w := text[lo..hi];
    StripSlice(w);
    var sa := StripStart(w, 0);
    var sb := StripEnd(w, sa, |w|);
    assert Context(text, p, n) == w[sa..sb];
    SliceOfSlice(text, lo, hi, sa, sb);
    SliceWitness(text, Context(text, p, n), lo + sa, lo + sb, lo, hi, n + 2 * ContextMargin);
  }

  lemma SliceWitness(text: string, c: string, a: nat, b: nat, lo: nat, hi: nat, bound: nat)
    requires lo <= a <= b <= hi <= |text| && b - a <= bound && c == text[a..b]
    ensures exists a': nat, b': nat :: lo <= a' <= b' <= hi && b' - a' <= bound && c == text[a'..b']
  {
  }

  /** The records for the positions `ps` of keyword `k`, in order. */
  function Records(text: string, k: string, ps: seq<nat>): (rs: seq<PhraseMatch>)
  {
    if ps == [] then []
    else [PhraseMatch(k, Context(text, ps[0], |k|), ps[0])] + Records(text, k, ps[1..])
  }

  /** The records for one keyword. */
  function ScanOne(text: string, k: string): (rs: seq<PhraseMatch>)
  {
    Records(text, k, Occurrences(Lower(text), Lower(k), 0))
  }

  /** `analyze_dangerous_phrases(text, keywords)`: the records of each
      keyword in turn, in configuration order. */
  function Scan(text: string, keywords: seq<string>): (rs: seq<PhraseMatch>)
  {
    if keywords == [] then [] else ScanOne(text, keywords[0]) + Scan(text, keywords[1..])
  }

  /** Output is grouped by keyword: scanning `A + B` is scanning `A`, then `B`. */
  lemma {:induction false} ScanAppend(text: string, a: seq<string>, b: seq<string>)
    ensures Scan(text, a + b) == Scan(text, a) + Scan(text, b)
  {
    if a == [] {
      assert a + b == b;
    } else {
      assert (a + b)[1..] == a[1..] + b;
      ScanAppend(text, a[1..], b);
    }
  }

  /** Each record of `Records` lies at the position it names. */
  lemma {:induction false} RecordsAt(text: string, k: string, ps: seq<nat>, j: nat)
    requires j < |ps|
    ensures |Records(text, k, ps)| == |ps|
    ensures Records(text, k, ps)[j] == PhraseMatch(k, Context(text, ps[j], |k|), ps[j])
  {
    if j > 0 {
      RecordsAt(text, k, ps[1..], j - 1);
    } else if |ps| > 1 {
      RecordsAt(text, k, ps[1..], 0);
    }
  }

  /** Every record of `Scan` is genuine: its phrase is one of the keywords
      exactly as configured, the lower-cased keyword occurs in the
      lower-cased text at its position, and its context is the window
      around that position. */
  lemma {:induction false} ScanSound(text: string, keywords: seq<string>, m: PhraseMatch)
    requires m in Scan(text, keywords)
    ensures m.phrase in keywords
    ensures m.position + |m.phrase| <= |text|
    ensures MatchesAt(Lower(text), Lower(m.phrase), m.position)
    ensures m.context == Context(text, m.position, |m.phrase|)
  {
    var k := keywords[0];
    if m in ScanOne(text, k) {
      ScanOneSound(text, k, m);
    } else {
      assert m in Scan(text, keywords[1..]);
      ScanSound(text, keywords[1..], m);
    }
  }

  /** `ScanSound` for the records of one keyword. */
  lemma ScanOneSound(text: string, k: string, m: PhraseMatch)
    requires m in ScanOne(text, k)
    ensures m.phrase == k
    ensures m.position + |k| <= |text|
    ensures MatchesAt(Lower(text), Lower(k), m.position)
    ensures m.context == Context(text, m.position, |k|)
  {
    var t, kl := Lower(text), Lower(k);
    var ps := Occurrences(t, kl, 0);
    RecordsMember(text, k, ps, m);
    OccurrencesSound(t, kl, 0);
    var j :| 0 <= j < |ps| && ps[j] == m.position;
    assert MatchesAt(t, kl, ps[j]);
  }

  /** The records of one keyword carry the scan's positions, in order. */
  lemma ScanOnePositionsAre(text: string, k: string)
    ensures var ps := Occurrences(Lower(text), Lower(k), 0);
      |ScanOne(text, k)| == |ps| && forall j :: 0 <= j < |ps| ==> ScanOne(text, k)[j].position == ps[j]
  {
    var ps := Occurrences(Lower(text), Lower(k), 0);
    RecordsLength(text, k, ps);
    forall j | 0 <= j < |ps| ensures ScanOne(text, k)[j].position == ps[j] {
      RecordsAt(text, k, ps, j);
    }
  }

  /** The positions reported for one keyword increase by at least
      `max(|k|, 1)`: greedy matches do not overlap. */
  lemma ScanOneSpaced(text: string, k: string)
    ensures var rs := ScanOne(text, k);
      forall i, j :: 0 <= i < j < |rs| ==> rs[i].position + Step(k) <= rs[j].position
  {
    OccurrencesSpaced(Lower(text), Lower(k), 0);
    ScanOnePositionsAre(text, k);
  }

  /** Every match of the keyword that is not reported starts inside a
      reported one: the scan is leftmost and misses nothing else. */
  lemma ScanOneCovers(text: string, k: string, q: nat)
    requires MatchesAt(Lower(text), Lower(k), q)
    ensures var rs := ScanOne(text, k);
      exists j :: 0 <= j < |rs| && rs[j].position <= q < rs[j].position + Step(k)
  {
    var t, kl := Lower(text), Lower(k);
    var ps := Occurrences(t, kl, 0);
    ScanOnePositionsAre(text, k);
    OccurrencesCover(t, kl, 0, q);
    var j :| 0 <= j < |ps| && ps[j] <= q < ps[j] + Step(kl);
    assert ScanOne(text, k)[j].position == ps[j];
  }

  /** A record for keyword `k` names `k`, one of the positions, and the
      context at that position. */
  lemma {:induction false} RecordsMember(text: string, k: string, ps: seq<nat>, m: PhraseMatch)
    requires m in Records(text, k, ps)
    ensures m.phrase == k && m.position in ps && m.context == Context(text, m.position, |k|)
  {
    if m != Records(text, k, ps)[0] {
      RecordsMember(text, k, ps[1..], m);
    }
  }

  lemma {:induction false} RecordsLength(text: string, k: string, ps: seq<nat>)
    ensures |Records(text, k, ps)| == |ps|
  {
    if ps != [] { RecordsLength(text, k, ps[1..]); }
  }

  /** Every context is a slice of the original text of length at most
      `|phrase| + 100`. */
  lemma ScanContexts(text: string, keywords: seq<string>, m: PhraseMatch)
    requires m in Scan(text, keywords)
    ensures exists a: nat, b: nat ::
      a <= b <= |text| && b - a <= |m.phrase| + 2 * ContextMargin && m.context == text[a..b]
  {
    ScanSound(text, keywords, m);
    ContextIsSlice(text, m.position, |m.phrase|);
  }

  /** Scanning with no keywords reports nothing; scanning the empty text
      reports nothing unless some keyword is empty. */
  lemma {:induction false} ScanEmpty(text: string, keywords: seq<string>)
    ensures Scan(text, []) == []
    ensures text == "" ==> (Scan(text, keywords) == [] <==> "" !in keywords)
  {
    if text == "" && keywords != [] {
      var k := keywords[0];
      ScanEmpty(text, keywords[1..]);
      var ps := Occurrences(Lower(text), Lower(k), 0);
      RecordsLength(text, k, ps);
      if k == "" {
        assert MatchesAt(Lower(text), Lower(k), 0);
        assert ps == [0] + Occurrences(Lower(text), Lower(k), 1);
      } else {
        assert ps == [];
      }
    }
  }

  /** The number of records whose phrase is exactly `k`. */
  function PhraseCount(rs: seq<PhraseMatch>, k: string): nat
  {
    if rs == [] then 0 else (if rs[0].phrase == k then 1 else 0) + PhraseCount(rs[1..], k)
  }

  /** The number of times `k` is configured. */
  function KeywordCount(ks: seq<string>, k: string): nat
  {
    if ks == [] then 0 else (if ks[0] == k then 1 else 0) + KeywordCount(ks[1..], k)
  }

  /** Counting the records of one phrase counts no more than all records. */
  lemma {:induction false} PhraseCountBound(rs: seq<PhraseMatch>, k: string)
    ensures PhraseCount(rs, k) <= |rs|
  {
    if rs != [] {
      PhraseCountBound(rs[1..], k);
    }
  }

  /** A configured keyword is counted at least once. */
  lemma {:induction false} KeywordCountPositive(ks: seq<string>, k: string)
    requires k in ks
    ensures KeywordCount(ks, k) >= 1
  {
    if ks[0] != k {
      KeywordCountPositive(ks[1..], k);
    }
  }

  lemma {:induction false} PhraseCountAppend(a: seq<PhraseMatch>, b: seq<PhraseMatch>, k: string)
    ensures PhraseCount(a + b, k) == PhraseCount(a, k) + PhraseCount(b, k)
  {
    if a != [] {
      assert (a + b)[1..] == a[1..] + b;
      PhraseCountAppend(a[1..], b, k);
    } else {
      assert a + b == b;
    }
  }

  lemma {:induction false} RecordsPhrases(text: string, k: string, ps: seq<nat>, x: string)
    ensures PhraseCount(Records(text, k, ps), x) == if k == x then |ps| else 0
  {
    if ps != [] { RecordsPhrases(text, k, ps[1..], x); }
  }

  /** Duplicates are not merged: a keyword configured `c` times contributes
      `c` copies of each of its occurrences. */
  lemma {:induction false} DuplicateKeywordsCounted(text: string, keywords: seq<string>, k: string)
    ensures PhraseCount(Scan(text, keywords), k)
      == KeywordCount(keywords, k) * |Occurrences(Lower(text), Lower(k), 0)|
  {
    if keywords != [] {
      var k0, rest := keywords[0], keywords[1..];
      var n := |Occurrences(Lower(text), Lower(k), 0)|;
      var c := KeywordCount(rest, k);
      DuplicateKeywordsCounted(text, rest, k);
      PhraseCountAppend(ScanOne(text, k0), Scan(text, rest), k);
      RecordsPhrases(text, k0, Occurrences(Lower(text), Lower(k0), 0), k);
      assert PhraseCount(Scan(text, keywords), k) == (if k0 == k then n else 0) + c * n;
      assert KeywordCount(keywords, k) == (if k0 == k then 1 else 0) + c;
      CountStep(c, n, k0 == k);
    }
  }

  /** Arithmetic of one step of `DuplicateKeywordsCounted`. */
  lemma CountStep(c: nat, n: nat, same: bool)
    ensures (if same then n else 0) + c * n == ((if same then 1 else 0) + c) * n
  {
    if same { SuccTimes(c, n); }
  }

  lemma SuccTimes(c: nat, n: nat)
    ensures (1 + c) * n == n + c * n
  {
  }

  /** Extending a prefix of the match positions by one extends its records by one. */
  lemma RecordsPrefixStep(text: string, k: string, ps: seq<nat>, j: nat)
    requires j < |ps|
    ensures Records(text, k, ps[..j + 1]) == Records(text, k, ps[..j]) + [PhraseMatch(k, Context(text, ps[j], |k|), ps[j])]
  {
    assert ps[..j + 1] == ps[..j] + [ps[j]];
    RecordsSnoc(text, k, ps[..j], ps[j]);
  }

  lemma AppendAssoc<T>(a: seq<T>, b: seq<T>, c: seq<T>)
    ensures a + (b + c) == (a + b) + c
  {
  }

  lemma {:induction false} RecordsSnoc(text: string, k: string, ps: seq<nat>, p: nat)
    ensures Records(text, k, ps + [p]) == Records(text, k, ps) + [PhraseMatch(k, Context(text, p, |k|), p)]
  {
    if ps != [] {
      assert (ps + [p])[1..] == ps[1..] + [p];
      RecordsSnoc(text, k, ps[1..], p);
    }
  }

  /** The scan as `analyze_dangerous_phrases` runs it: an outer loop over
      the keywords, each of which appends its matches to `found`. */
  method AnalyzeDangerousPhrases(text: string, keywords: seq<string>) returns (found: seq<PhraseMatch>)
    ensures found == Scan(text, keywords)
  {
    var textLower := Lower(text);
    found := [];
    var i := 0;
    while i < |keywords|
      invariant 0 <= i <= |keywords|
      invariant found == Scan(text, keywords[..i])
    {
      found := AppendMatches(text, textLower, keywords[i], found);
      assert Scan(text, [keywords[i]]) == ScanOne(text, keywords[i]);
      assert keywords[..i + 1] == keywords[..i] + [keywords[i]];
      ScanAppend(text, keywords[..i], [keywords[i]]);
      i := i + 1;
    }
    assert keywords[..i] == keywords;
  }

  /** The inner loop of `analyze_dangerous_phrases` for one keyword: a
      left-to-right search of the lower-cased text that appends a record
      at each match and resumes after it, as `re.finditer` does. */
  method AppendMatches(text: string, textLower: string, keyword: string, found0: seq<PhraseMatch>)
    returns (found: seq<PhraseMatch>)
    requires textLower == Lower(text)
    ensures found == found0 + ScanOne(text, keyword)
  {
    var keywordLower := Lower(keyword);
    var matches := Occurrences(textLower, keywordLower, 0);
    found := found0;
    for j := 0 to |matches|
      invariant found == found0 + Records(text, keyword, matches[..j])
    {
      var pos := matches[j];
      var context := Context(text, pos, |keyword|);
      RecordsPrefixStep(text, keyword, matches, j);
      AppendAssoc(found0, Records(text, keyword, matches[..j]), [PhraseMatch(keyword, context, pos)]);
      found := found + [PhraseMatch(keyword, context, pos)];
    }
    assert matches[..|matches|] == matches;
  }
}
