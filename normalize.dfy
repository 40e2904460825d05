/** The normalisation `re.sub(r'\W', '', protocolo)` applied to a found
    protocol before it becomes a file name: every character that is not a
    word character (ASCII letter, digit or underscore) is deleted. */
module Normalize {
  import opened Chars
  import opened Pattern

  /** The characters of `t` that are word characters, in their order. */
  function Strip(t: string): (r: string)
    ensures |r| <= |t|
    ensures AllWord(r)
  {
    if t == [] then []
    else (if IsWord(t[0]) then [t[0]] else []) + Strip(t[1..])
  }

  /** Stripping works piece by piece: what is kept of a concatenation is what
      is kept of each part, in the same order. */
  lemma {:induction false} StripAppend(a: string, b: string)
    ensures Strip(a + b) == Strip(a) + Strip(b)
  {
    if a == [] {
      assert a + b == b;
    } else {
      assert (a + b)[0] == a[0];
      assert (a + b)[1..] == a[1..] + b;
      StripAppend(a[1..], b);
    }
  }

  /** Each word character is kept as often as it occurs; every other
      character is removed. */
  lemma {:induction false} StripCounts(t: string, c: char)
    ensures multiset(Strip(t))[c] == if IsWord(c) then multiset(t)[c] else 0
  {
    if t != [] {
      StripCounts(t[1..], c);
      assert t == [t[0]] + t[1..];
    }
  }

  /** A string is left unchanged exactly when it holds only word characters. */
  lemma {:induction false} StripFixedPoint(t: string)
    ensures Strip(t) == t <==> AllWord(t)
  {
    if t != [] && AllWord(t) {
      StripFixedPoint(t[1..]);
    }
  }

  /** Stripping twice is stripping once. */
  lemma StripIdempotent(t: string)
    ensures Strip(Strip(t)) == Strip(t)
  {
    StripFixedPoint(Strip(t));
  }

  /** A string without word characters is removed entirely. */
  lemma {:induction false} StripNoWord(t: string)
    requires forall k | 0 <= k < |t| :: !IsWord(t[k])
    ensures Strip(t) == []
  {
    if t != [] {
      StripNoWord(t[1..]);
    }
  }

  /** A first-shape identifier "NN/NNNNNN-N" becomes its nine digits. */
  lemma StripNumbered(m: string)
    requires IsNumbered(m)
    ensures Strip(m) == m[..2] + m[3..9] + m[10..]
    ensures |Strip(m)| == 9 && AllDigits(Strip(m))
  {
    assert m == m[..2] + [m[2]] + m[3..9] + [m[9]] + m[10..];
    StripAppend(m[..2] + [m[2]] + m[3..9] + [m[9]], m[10..]);
    StripAppend(m[..2] + [m[2]] + m[3..9], [m[9]]);
    StripAppend(m[..2] + [m[2]], m[3..9]);
    StripAppend(m[..2], [m[2]]);
    StripNoWord([m[2]]);
    StripNoWord([m[9]]);
    StripFixedPoint(m[..2]);
    StripFixedPoint(m[3..9]);
    StripFixedPoint(m[10..]);
  }

  /** A second-shape identifier is already made of word characters. */
  lemma StripCoded(m: string)
    requires IsCoded(m)
    ensures Strip(m) == m
  {
    StripFixedPoint(m);
  }

  /** What the label contributes: nine word characters, then the colon and
      the spaces, none of which is a word character. */
  lemma LabelledClasses(m: string)
    requires IsLabelled(m)
    ensures AllWord(m[..9])
    ensures forall k | 9 <= k < |m| - 11 :: !IsWord(m[k])
  {
    assert m[..|Label|] == Label;
    assert forall k | 0 <= k < 9 :: m[k] == Label[k];
  }

  /** The word of the label. */
  lemma LabelledWord(m: string)
    requires IsLabelled(m)
    ensures m[..9] == "Protocolo"
  {
    assert m[..|Label|] == Label;
    assert m[..9] == Label[..9];
  }

  /** A labelled match keeps the label's word in front of the stripped
      identifier: the colon and the spaces go. */
  lemma StripLabelled(m: string)
    requires IsLabelled(m)
    ensures Strip(m) == m[..9] + Strip(m[|m| - 11..])
    ensures |Strip(m)| == 18
  {
    var n := |m|;
    var word, gap, number := m[..9], m[9..n - 11], m[n - 11..];
    LabelledClasses(m);
    assert forall k | 0 <= k < |gap| :: gap[k] == m[9 + k];
    assert m == word + gap + number;
    StripWordGapRest(word, gap, number);
    StripNumbered(number);
  }

  /** Word characters, then non-word characters, then anything: the first
      part is kept whole and the second dropped. */
  lemma StripWordGapRest(word: string, gap: string, rest: string)
    requires AllWord(word)
    requires forall k | 0 <= k < |gap| :: !IsWord(gap[k])
    ensures Strip(word + gap + rest) == word + Strip(rest)
  {
    assert Strip(word + gap) == word by {
      StripAppend(word, gap);
      StripFixedPoint(word);
      StripNoWord(gap);
      assert word + [] == word;
    }
    StripAppend(word + gap, rest);
  }

  /** The stem of a labelled match, spelled out: "Protocolo", then the nine
      digits of its identifier. */
  lemma StripLabelledDigits(m: string, number: string)
    requires IsLabelled(m) && number == m[|m| - 11..]
    ensures Strip(m) == "Protocolo" + number[..2] + number[3..9] + number[10..]
  {
    StripLabelled(m);
    StripNumbered(number);
    LabelledWord(m);
  }

  /** Whatever the search returns becomes a non-empty file stem made only of
      word characters: 9 digits, 13 letters and digits, or 18 characters. */
  lemma StripProtocol(m: string)
    requires IsProtocol(m)
    ensures |Strip(m)| == 9 || |Strip(m)| == 13 || |Strip(m)| == 18
    ensures Strip(m) != [] && AllWord(Strip(m))
  {
    if IsNumbered(m) {
      StripNumbered(m);
    } else if IsCoded(m) {
      StripCoded(m);
    } else {
      StripLabelled(m);
    }
  }
}
