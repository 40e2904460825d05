/** The fixed protocol pattern of main.py and the leftmost search that
    `re.search` performs with it:

        (\d{2}/\d{6}-\d{1})|([A-Z]{3}\d{10})|Protocolo:\s*(\d{2}/\d{6}-\d{1})

    The three alternatives are first described as languages (IsNumbered,
    IsCoded, IsLabelled); the matcher (MatchAt, FindFrom, Search) scans the
    text and is proved to return the leftmost match of that union. */
module Pattern {
  import opened Wrappers
  import opened Chars

  /** The literal that opens the third alternative. */
  const Label: string := "Protocolo:"

  /** First alternative, `\d{2}/\d{6}-\d{1}`, e.g. "10/003229-0". */
  predicate IsNumbered(t: string) {
    |t| == 11 &&
    IsDigit(t[0]) && IsDigit(t[1]) && t[2] == '/' &&
    (forall k | 3 <= k < 9 :: IsDigit(t[k])) &&
    t[9] == '-' && IsDigit(t[10])
  }

  /** Second alternative, `[A-Z]{3}\d{10}`, e.g. "PIP1902094449". */
  predicate IsCoded(t: string) {
    |t| == 13 &&
    (forall k | 0 <= k < 3 :: IsUpper(t[k])) &&
    (forall k | 3 <= k < 13 :: IsDigit(t[k]))
  }

  /** Third alternative, `Protocolo:\s*` followed by the first shape. */
  predicate IsLabelled(t: string) {
    |t| >= |Label| + 11 &&
    t[..|Label|] == Label &&
    (forall k | |Label| <= k < |t| - 11 :: IsSpace(t[k])) &&
    IsNumbered(t[|t| - 11..])
  }

  /** The language of the whole pattern. */
  predicate IsProtocol(t: string) {
    IsNumbered(t) || IsCoded(t) || IsLabelled(t)
  }

  /** No substring of `s` that starts at a position in [lo, hi) is a match. */
  predicate NoMatchBetween(s: string, lo: nat, hi: nat) {
    forall q, e | lo <= q < hi && q <= e <= |s| :: !IsProtocol(s[q..e])
  }

  /** Where a match object starts and ends (`m.start()`, `m.end()`). */
  datatype Span = Span(start: nat, end: nat)

  /** `\s*` taken greedily from `j`: the end of the longest run of spaces. */
  function SkipSpaces(s: string, j: nat): (k: nat)
    requires j <= |s|
    ensures j <= k <= |s|
    ensures forall m | j <= m < k :: IsSpace(s[m])
    ensures k < |s| ==> !IsSpace(s[k])
    decreases |s| - j
  {
    if j < |s| && IsSpace(s[j]) then SkipSpaces(s, j + 1) else j
  }

  /** The three alternatives tried in order at position `i`; the end of the
      match, if any. The regex engine would backtrack into `\s*` when the
      greedy run fails, but no shorter run can succeed: the identifier after
      the run must start with a digit, and a digit is not a space. */
  function MatchAt(s: string, i: nat): (r: Option<nat>)
    requires i <= |s|
    ensures r.Some? ==> i <= r.value <= |s| && IsProtocol(s[i..r.value])
    ensures r.None? ==> forall e | i <= e <= |s| :: !IsProtocol(s[i..e])
  {
    if i + 11 <= |s| && IsNumbered(s[i..i + 11]) then Some(i + 11)
    else if i + 13 <= |s| && IsCoded(s[i..i + 13]) then Some(i + 13)
    else if i + |Label| <= |s| && s[i..i + |Label|] == Label then
      var j := SkipSpaces(s, i + |Label|);
      if j + 11 <= |s| && IsNumbered(s[j..j + 11]) then
        LabelledFound(s, i, j);
        Some(j + 11)
      else
        NotLabelledAt(s, i);
        None
    else
      NotLabelledAt(s, i);
      None
  }

  /** The greedy run followed by an identifier is a labelled match. */
  lemma LabelledFound(s: string, i: nat, j: nat)
    requires i + |Label| <= |s| && s[i..i + |Label|] == Label
    requires j == SkipSpaces(s, i + |Label|)
    requires j + 11 <= |s| && IsNumbered(s[j..j + 11])
    ensures IsLabelled(s[i..j + 11])
  {
    var t := s[i..j + 11];
    assert t[..|Label|] == s[i..i + |Label|];
    assert t[|t| - 11..] == s[j..j + 11];
    forall k | |Label| <= k < |t| - 11 ensures IsSpace(t[k]) {
      assert t[k] == s[i + k];
    }
  }

  /** Every labelled match at `i` ends 11 characters after the greedy run of
      spaces that follows the label. */
  lemma LabelledEnd(s: string, i: nat, e: nat)
    requires i <= e <= |s| && IsLabelled(s[i..e])
    ensures i + |Label| <= |s| && s[i..i + |Label|] == Label
    ensures SkipSpaces(s, i + |Label|) == e - 11
    ensures IsNumbered(s[e - 11..e])
  {
    var t := s[i..e];
    assert s[i..i + |Label|] == t[..|Label|];
    assert s[e - 11..e] == t[|t| - 11..];
    // The run cannot stop before e - 11, where t still has a space, nor pass
    // it, where the identifier starts with a digit, and a digit is no space.
    assert IsDigit(s[e - 11]) && !IsSpace(s[e - 11]);
  }

  /** Where MatchAt finds no labelled match, there is none. */
  lemma NotLabelledAt(s: string, i: nat)
    requires i <= |s|
    requires !(i + |Label| <= |s| && s[i..i + |Label|] == Label) ||
             var j := SkipSpaces(s, i + |Label|); !(j + 11 <= |s| && IsNumbered(s[j..j + 11]))
    ensures forall e | i <= e <= |s| :: !IsLabelled(s[i..e])
  {
    forall e | i <= e <= |s| && IsLabelled(s[i..e]) ensures false {
      LabelledEnd(s, i, e);
    }
  }

  /** What each alternative demands at the start of a match, and its end. */
  lemma ShapeAt(s: string, p: nat, e: nat)
    requires p <= e <= |s| && IsProtocol(s[p..e])
    ensures p + 2 <= e
    ensures IsNumbered(s[p..e]) ==> IsDigit(s[p]) && e == p + 11
    ensures IsCoded(s[p..e]) ==> IsUpper(s[p + 1]) && e == p + 13
    ensures IsLabelled(s[p..e]) ==>
              s[p] == 'P' && s[p + 1] == 'r' && e == SkipSpaces(s, p + |Label|) + 11
  {
    var t := s[p..e];
    assert t[0] == s[p] && t[1] == s[p + 1];
    if IsLabelled(t) {
      LabelledStart(t);
      LabelledEnd(s, p, e);
    }
  }

  /** At any position at most one of the three alternatives can match, and it
      matches with one length only; so the order in which the alternatives are
      tried never changes what is found. */
  lemma MatchUnique(s: string, p: nat, e1: nat, e2: nat)
    requires p <= e1 <= |s| && p <= e2 <= |s|
    requires IsProtocol(s[p..e1]) && IsProtocol(s[p..e2])
    ensures e1 == e2
  {
    ShapeAt(s, p, e1);
    ShapeAt(s, p, e2);
  }

  /** A labelled match starts with "Pr": a capital that both other shapes
      reject as a digit, and a small letter that `[A-Z]{3}` rejects. */
  lemma LabelledStart(t: string)
    requires IsLabelled(t)
    ensures t[0] == 'P' && t[1] == 'r'
  {
    assert t[0] == t[..|Label|][0] && t[1] == t[..|Label|][1];
  }

  /** `re.search` from position `i`: the first position with a match, and that
      match. */
  function FindFrom(s: string, i: nat): (r: Option<Span>)
    requires i <= |s|
    ensures r.Some? ==> i <= r.value.start <= r.value.end <= |s|
    ensures r.Some? ==> IsProtocol(s[r.value.start..r.value.end])
    ensures r.Some? ==> NoMatchBetween(s, i, r.value.start)
    ensures r.None? ==> NoMatchBetween(s, i, |s| + 1)
    decreases |s| - i
  {
    match MatchAt(s, i)
    case Some(e) => Some(Span(i, e))
    case None => if i == |s| then None else FindFrom(s, i + 1)
  }

  /** `re.search(pattern, text)` followed by `group(0)`. */
  function Search(s: string): (r: Option<string>)
    ensures r.Some? ==> IsProtocol(r.value) && |r.value| >= 11
    ensures r.None? <==> NoMatchBetween(s, 0, |s| + 1)
  {
    match FindFrom(s, 0)
    case Some(sp) => Some(s[sp.start..sp.end])
    case None => None
  }

  /** The search result is determined by the pattern's language alone: it is
      the match that starts at the leftmost position where any match starts. */
  lemma SearchIsLeftmost(s: string, p: nat, e: nat)
    requires p <= e <= |s| && IsProtocol(s[p..e])
    requires NoMatchBetween(s, 0, p)
    ensures Search(s) == Some(s[p..e])
  {
    var r := FindFrom(s, 0);
    assert r.Some?;
    var sp := r.value;
    if sp.start == p {
      MatchUnique(s, p, e, sp.end);
    }
  }

  /** When the first match in the text is `Protocolo:` followed by spaces and an
      identifier, the label and the spaces are part of the result. */
  lemma LabelledWins(s: string, p: nat, e: nat)
    requires p <= e <= |s| && IsLabelled(s[p..e])
    requires NoMatchBetween(s, 0, p)
    ensures Search(s).Some? && Search(s).value[..|Label|] == Label
    ensures Search(s).value == s[p..e]
  {
    SearchIsLeftmost(s, p, e);
  }
}
