/**
 * Character-level helpers that stand for the Python built-ins the analysis
 * relies on: `str.lower()`, `str.strip()`, substring containment (`in`) and
 * `str(int)`.
 */
module Text {

  /** Lower-case mapping of one character, as `str.lower()` does it for
      U+0041-U+005A, U+00C0-U+00DE except U+00D7, and U+0400-U+042F;
      every other character maps to itself. It never changes the length
      of a string. */
  function LowerChar(c: char): char
  {
    if 'A' <= c <= 'Z' then (c as int + 0x20) as char
    else if 'À' <= c <= 'Þ' && c != '×' then (c as int + 0x20) as char
    else if 'Ѐ' <= c <= 'Џ' then (c as int + 0x50) as char
    else if 'А' <= c <= 'Я' then (c as int + 0x20) as char
    else c
  }

  /** The characters `LowerChar` changes. */
  predicate IsUpper(c: char) {
    || 'A' <= c <= 'Z'
    || ('À' <= c <= 'Þ' && c != '×')
    || 'Ѐ' <= c <= 'Я'
  }

  /** `LowerChar` changes exactly the upper-case letters, and what it
      produces is never upper-case. */
  lemma LowerCharChanges(c: char)
    ensures LowerChar(c) != c <==> IsUpper(c)
    ensures !IsUpper(LowerChar(c))
  {
  }

  /** `s.lower()`: the per-character lower-case mapping. */
  function Lower(s: string): (r: string)
    ensures |r| == |s|
  {
    if s == [] then [] else [LowerChar(s[0])] + Lower(s[1..])
  }

  /** Each character of `Lower(s)` is the lower-case form of the
      character at the same index of `s`. */
  lemma {:induction false} LowerAt(s: string, i: nat)
    requires i < |s|
    ensures Lower(s)[i] == LowerChar(s[i])
  {
    if i > 0 { LowerAt(s[1..], i - 1); }
  }

  /** Two strings of equal length whose characters lower-case alike have
      equal lower-case forms. */
  lemma LowerExt(s: string, r: string)
    requires |r| == |s| && forall i :: 0 <= i < |s| ==> r[i] == LowerChar(s[i])
    ensures Lower(s) == r
  {
    forall i | 0 <= i < |s| ensures Lower(s)[i] == r[i] { LowerAt(s, i); }
  }

  /** Lower-casing twice is lower-casing once. */
  lemma LowerIdempotent(s: string)
    ensures Lower(Lower(s)) == Lower(s)
  {
    forall i | 0 <= i < |s| ensures Lower(s)[i] == LowerChar(Lower(s)[i]) {
      LowerAt(s, i);
      LowerCharChanges(s[i]);
    }
    LowerExt(Lower(s), Lower(s));
  }

  /** Lower-casing commutes with taking a slice, so a position found in
      `Lower(s)` names the same characters in `s`. */
  lemma LowerSlice(s: string, a: nat, b: nat)
    requires a <= b <= |s|
    ensures Lower(s)[a..b] == Lower(s[a..b])
  {
    forall i | 0 <= i < b - a ensures Lower(s)[a..b][i] == LowerChar(s[a..b][i]) {
      LowerAt(s, a + i);
    }
    LowerExt(s[a..b], Lower(s)[a..b]);
  }

  /** Lower-casing commutes with concatenation. */
  lemma LowerConcat(s: string, t: string)
    ensures Lower(s + t) == Lower(s) + Lower(t)
  {
    forall i | 0 <= i < |s + t| ensures (Lower(s) + Lower(t))[i] == LowerChar((s + t)[i]) {
      if i < |s| { LowerAt(s, i); } else { LowerAt(t, i - |s|); }
    }
    LowerExt(s + t, Lower(s) + Lower(t));
  }

  /** The characters for which Python's `str.isspace()` holds; `str.strip()`
      with no argument removes exactly these. */
  predicate IsSpace(c: char) {
    || '\t' <= c <= '\r'
    || '\U{1C}' <= c <= '\U{1F}'
    || c == ' ' || c == '\U{85}' || c == '\U{A0}' || c == '\U{1680}'
    || '\U{2000}' <= c <= '\U{200A}'
    || c == '\U{2028}' || c == '\U{2029}' || c == '\U{202F}' || c == '\U{205F}' || c == '\U{3000}'
  }

  /** Index of the first non-whitespace character of `s` at or after `i`
      (or `|s|`). */
  function StripStart(s: string, i: nat): (j: nat)
    requires i <= |s|
    ensures i <= j <= |s|
    decreases |s| - i
  {
    if i < |s| && IsSpace(s[i]) then StripStart(s, i + 1) else i
  }

  /** One past the last non-whitespace character of `s` in `[lo, hi)`
      (or `lo`). */
  function StripEnd(s: string, lo: nat, hi: nat): (j: nat)
    requires lo <= hi <= |s|
    ensures lo <= j <= hi
    decreases hi - lo
  {
    if lo < hi && IsSpace(s[hi - 1]) then StripEnd(s, lo, hi - 1) else hi
  }

  /** `s.strip()`: `s` without its leading and trailing whitespace. */
  function Strip(s: string): (r: string)
    ensures |r| <= |s|
  {
    var lo := StripStart(s, 0);
    s[lo..StripEnd(s, lo, |s|)]
  }

  /** `StripStart` skips whitespace only, and stops at a non-whitespace
      character or at the end. */
  lemma {:induction false} StripStartSkipsSpace(s: string, i: nat)
    requires i <= |s|
    ensures var j := StripStart(s, i);
      (forall k :: i <= k < j ==> IsSpace(s[k])) && (j < |s| ==> !IsSpace(s[j]))
    decreases |s| - i
  {
    if i < |s| && IsSpace(s[i]) { StripStartSkipsSpace(s, i + 1); }
  }

  /** `StripEnd` drops whitespace only, and stops after a non-whitespace
      character or at `lo`. */
  lemma {:induction false} StripEndSkipsSpace(s: string, lo: nat, hi: nat)
    requires lo <= hi <= |s|
    ensures var j := StripEnd(s, lo, hi);
      (forall k :: j <= k < hi ==> IsSpace(s[k])) && (j > lo ==> !IsSpace(s[j - 1]))
    decreases hi - lo
  {
    if lo < hi && IsSpace(s[hi - 1]) { StripEndSkipsSpace(s, lo, hi - 1); }
  }

  /** `Strip` keeps one contiguous slice of its input, removes only
      whitespace around it, and leaves no whitespace at either end. */
  lemma StripSlice(s: string)
    ensures var lo := StripStart(s, 0); var hi := StripEnd(s, lo, |s|);
      && 0 <= lo <= hi <= |s|
      && Strip(s) == s[lo..hi]
      && (forall k :: 0 <= k < lo ==> IsSpace(s[k]))
      && (forall k :: hi <= k < |s| ==> IsSpace(s[k]))
      && (Strip(s) != [] ==> !IsSpace(Strip(s)[0]) && !IsSpace(Strip(s)[|Strip(s)| - 1]))
  {
    var lo := StripStart(s, 0);
    StripStartSkipsSpace(s, 0);
    StripEndSkipsSpace(s, lo, |s|);
  }

  /** Stripping twice is stripping once. */
  lemma StripIdempotent(s: string)
    ensures Strip(Strip(s)) == Strip(s)
  {
    var r := Strip(s);
    StripSlice(s);
    if r != [] {
      assert StripStart(r, 0) == 0;
      assert StripEnd(r, 0, |r|) == |r|;
    } else {
      assert StripStart(r, 0) == 0;
    }
  }

  /** A slice of a slice is a slice of the original. */
  lemma SliceOfSlice(s: string, a: nat, b: nat, c: nat, d: nat)
    requires a <= b <= |s| && c <= d <= b - a
    ensures s[a..b][c..d] == s[a + c..a + d]
  {
    assert forall i :: 0 <= i < d - c ==> s[a..b][c..d][i] == s[a + c + i];
  }

  /** `k` occurs in `t` starting at index `i`. */
  predicate MatchesAt(t: string, k: string, i: nat) {
    i + |k| <= |t| && t[i..i + |k|] == k
  }

  /** Python's `k in t`: `k` is a substring of `t` (the empty string is a
      substring of every string). */
  predicate Contains(t: string, k: string) {
    exists i | 0 <= i <= |t| :: MatchesAt(t, k, i)
  }

  /** Every slice of a string is contained in it. */
  lemma ContainsSlice(t: string, a: nat, b: nat)
    requires a <= b <= |t|
    ensures Contains(t, t[a..b])
  {
    assert MatchesAt(t, t[a..b], a);
  }

  /** A string contained in a part of a concatenation is contained in the whole. */
  lemma ContainsInConcat(x: string, y: string, k: string)
    requires Contains(x, k) || Contains(y, k)
    ensures Contains(x + y, k)
  {
    if Contains(x, k) {
      var i :| 0 <= i <= |x| && MatchesAt(x, k, i);
      assert (x + y)[i..i + |k|] == x[i..i + |k|];
      assert MatchesAt(x + y, k, i);
    } else {
      var i :| 0 <= i <= |y| && MatchesAt(y, k, i);
      assert (x + y)[|x| + i..|x| + i + |k|] == y[i..i + |k|];
      assert MatchesAt(x + y, k, |x| + i);
    }
  }

  /** The decimal digit for `d`. */
  function DigitChar(d: nat): (c: char)
    requires d < 10
    ensures '0' <= c <= '9' && c as int - '0' as int == d
  {
    ('0' as int + d) as char
  }

  /** `str(n)` for a non-negative integer: its decimal numeral. */
  function Decimal(n: nat): (s: string)
    ensures |s| > 0
    ensures forall i :: 0 <= i < |s| ==> '0' <= s[i] <= '9'
    ensures |s| > 1 ==> s[0] != '0'
  {
    if n < 10 then [DigitChar(n)] else Decimal(n / 10) + [DigitChar(n % 10)]
  }

  /** The value of a numeral of decimal digits (the inverse of `Decimal`). */
  function DecimalValue(s: string): (n: nat)
    requires forall i :: 0 <= i < |s| ==> '0' <= s[i] <= '9'
  {
    if s == [] then 0
    else DecimalValue(s[..|s| - 1]) * 10 + (s[|s| - 1] as int - '0' as int)
  }

  /** Reading back the numeral `str(n)` gives `n`. */
  lemma {:induction false} DecimalRoundTrip(n: nat)
    ensures DecimalValue(Decimal(n)) == n
  {
    if n >= 10 {
      DecimalRoundTrip(n / 10);
      var s := Decimal(n);
      assert s[..|s| - 1] == Decimal(n / 10);
    }
  }

  // ---------------------------------------------------------------------
  // Concatenation of a list of strings.

  /** The strings one after another, with nothing between them; defined
      from the back, as a loop appending them builds it. */
  function Concat(pieces: seq<string>): string
  {
    if pieces == [] then "" else Concat(pieces[..|pieces| - 1]) + pieces[|pieces| - 1]
  }

  function TotalLength(pieces: seq<string>): nat
  {
    if pieces == [] then 0 else TotalLength(pieces[..|pieces| - 1]) + |pieces[|pieces| - 1]|
  }

  /** Nothing is added or lost between two pieces. */
  lemma {:induction false} ConcatLength(pieces: seq<string>)
    ensures |Concat(pieces)| == TotalLength(pieces)
  {
    if pieces != [] { ConcatLength(pieces[..|pieces| - 1]); }
  }

  /** Concatenating two runs of pieces concatenates their concatenations. */
  lemma {:induction false} ConcatAppend(a: seq<string>, b: seq<string>)
    ensures Concat(a + b) == Concat(a) + Concat(b)
    decreases |b|
  {
    if b == [] {
      assert a + b == a;
    } else {
      var n := |b| - 1;
      assert (a + b)[..|a + b| - 1] == a + b[..n];
      ConcatAppend(a, b[..n]);
    }
  }

  /** One step of a loop that appends the pieces in turn. */
  lemma ConcatStep(pieces: seq<string>, i: nat)
    requires i < |pieces|
    ensures Concat(pieces[..i + 1]) == Concat(pieces[..i]) + pieces[i]
  {
    assert pieces[..i + 1][..i] == pieces[..i];
  }

  /** Every piece appears in the concatenation. */
  lemma ConcatContainsPiece(pieces: seq<string>, i: nat, k: string)
    requires i < |pieces| && Contains(pieces[i], k)
    ensures Contains(Concat(pieces), k)
  {
    var front, after := pieces[..i + 1], pieces[i + 1..];
    assert Contains(Concat(front), k) by {
      ConcatStep(pieces, i);
      ContainsInConcat(Concat(pieces[..i]), pieces[i], k);
    }
    assert Concat(pieces) == Concat(front) + Concat(after) by {
      ConcatAppend(front, after);
      TakeDrop(pieces, i + 1);
    }
    ContainsInConcat(Concat(front), Concat(after), k);
  }

  lemma TakeDrop<T>(s: seq<T>, n: nat)
    requires n <= |s|
    ensures s[..n] + s[n..] == s
  {
  }

  /** The concatenation starts with the first piece. */
  lemma ConcatFirst(pieces: seq<string>, j: nat)
    requires pieces != [] && j < |pieces[0]|
    ensures j < |Concat(pieces)| && Concat(pieces)[j] == pieces[0][j]
  {
    ConcatAppend([pieces[0]], pieces[1..]);
    assert [pieces[0]] + pieces[1..] == pieces;
    assert Concat([pieces[0]]) == pieces[0] by {
      assert [pieces[0]][..0] == [];
    }
  }
}
