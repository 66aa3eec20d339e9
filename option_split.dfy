/** The split `re.split(r',\s*|\s+', value)` that `Command.ensure_string_list`
    applies to a string option: the leftmost match is found, at a comma the first
    alternative takes the comma and all whitespace after it, at whitespace the
    second takes the whole run, and the text between matches is kept. */
module OptionSplit {
  import opened Wrappers

  /** The characters `\s` matches in a `str` pattern: the host's notion of
      whitespace (ASCII 9-13 and 28-32, and the Unicode spaces and separators). */
  const SpaceChars: set<char> := {
    '\U{0009}', '\U{000A}', '\U{000B}', '\U{000C}', '\U{000D}',
    '\U{001C}', '\U{001D}', '\U{001E}', '\U{001F}', '\U{0020}',
    '\U{0085}', '\U{00A0}', '\U{1680}',
    '\U{2000}', '\U{2001}', '\U{2002}', '\U{2003}', '\U{2004}', '\U{2005}',
    '\U{2006}', '\U{2007}', '\U{2008}', '\U{2009}', '\U{200A}',
    '\U{2028}', '\U{2029}', '\U{202F}', '\U{205F}', '\U{3000}'
  }

  predicate IsSpace(c: char)
  {
    c in SpaceChars
  }

  /** A character at which a match of the pattern can start. */
  predicate IsDelimiter(c: char)
  {
    c == ',' || IsSpace(c)
  }

  predicate Clean(s: string)
  {
    forall k :: 0 <= k < |s| ==> !IsDelimiter(s[k])
  }

  /** The greedy `\s*` starting at `i`: the length of the whitespace run there. */
  function SpaceRun(s: string, i: nat): (n: nat)
    requires i <= |s|
    decreases |s| - i
    ensures i + n <= |s|
  {
    if i < |s| && IsSpace(s[i]) then 1 + SpaceRun(s, i + 1) else 0
  }

  /** The run is all whitespace and stops before the next character that is not. */
  lemma {:induction false} SpaceRunMaximal(s: string, i: nat)
    requires i <= |s|
    ensures forall k :: i <= k < i + SpaceRun(s, i) ==> IsSpace(s[k])
    ensures i + SpaceRun(s, i) == |s| || !IsSpace(s[i + SpaceRun(s, i)])
    decreases |s| - i
  {
    if i < |s| && IsSpace(s[i]) {
      SpaceRunMaximal(s, i + 1);
    }
  }

  /** Conversely, a whitespace run that cannot be extended is the greedy one. */
  lemma {:induction false} SpaceRunExact(s: string, i: nat, n: nat)
    requires i + n <= |s|
    requires forall k :: i <= k < i + n ==> IsSpace(s[k])
    requires i + n == |s| || !IsSpace(s[i + n])
    ensures SpaceRun(s, i) == n
    decreases n
  {
    if n > 0 {
      SpaceRunExact(s, i + 1, n - 1);
    }
  }

  /** The length of the match starting at a delimiter: `,\s*` is tried first,
      then `\s+`. Both are greedy, so the match ends before the next character
      that is not whitespace. */
  function MatchLength(s: string, i: nat): (n: nat)
    requires i < |s| && IsDelimiter(s[i])
    ensures i + n <= |s|
  {
    if s[i] == ',' then 1 + SpaceRun(s, i + 1) else SpaceRun(s, i)
  }

  /** A match is a delimiter followed by whitespace only, is never empty, and
      takes all the whitespace that follows. */
  lemma MatchLengthMaximal(s: string, i: nat)
    requires i < |s| && IsDelimiter(s[i])
    ensures 1 <= MatchLength(s, i)
    ensures forall k :: i < k < i + MatchLength(s, i) ==> IsSpace(s[k])
    ensures i + MatchLength(s, i) == |s| || !IsSpace(s[i + MatchLength(s, i)])
  {
    if s[i] == ',' {
      SpaceRunMaximal(s, i + 1);
    } else {
      SpaceRunMaximal(s, i);
    }
  }

  /** The leftmost position at or after `from` where a match starts. */
  function FirstDelimiter(s: string, from: nat): (r: Option<nat>)
    requires from <= |s|
    decreases |s| - from
    ensures r.Some? ==> from <= r.value < |s| && IsDelimiter(s[r.value])
  {
    if from == |s| then None
    else if IsDelimiter(s[from]) then Some(from)
    else FirstDelimiter(s, from + 1)
  }

  /** No delimiter is skipped: none lies before the one found, and none at all
      when nothing is found. */
  lemma {:induction false} FirstDelimiterLeftmost(s: string, from: nat)
    requires from <= |s|
    ensures FirstDelimiter(s, from).Some? ==>
      forall k :: from <= k < FirstDelimiter(s, from).value ==> !IsDelimiter(s[k])
    ensures FirstDelimiter(s, from).None? ==> forall k :: from <= k < |s| ==> !IsDelimiter(s[k])
    decreases |s| - from
  {
    if from < |s| && !IsDelimiter(s[from]) {
      FirstDelimiterLeftmost(s, from + 1);
    }
  }

  /** A delimiter with none before it, from `from` on, is the leftmost one. */
  lemma {:induction false} FirstDelimiterAt(s: string, from: nat, i: nat)
    requires from <= i < |s| && IsDelimiter(s[i])
    requires forall k :: from <= k < i ==> !IsDelimiter(s[k])
    ensures FirstDelimiter(s, from) == Some(i)
    decreases i - from
  {
    if from < i {
      FirstDelimiterAt(s, from + 1, i);
    }
  }

  /** `re.split(r',\s*|\s+', s)` */
  function Split(s: string): seq<string>
    decreases |s|
  {
    match FirstDelimiter(s, 0)
    case None => [s]
    case Some(i) => [s[..i]] + Split(s[i + MatchLength(s, i)..])
  }

  /** One step of the split: a clean prefix up to a delimiter is the first piece. */
  lemma {:induction false} SplitStep(s: string, i: nat)
    requires i < |s| && IsDelimiter(s[i]) && Clean(s[..i])
    ensures Split(s) == [s[..i]] + Split(s[i + MatchLength(s, i)..])
  {
    forall k | 0 <= k < i ensures !IsDelimiter(s[k]) {
      assert s[..i][k] == s[k];
    }
    FirstDelimiterAt(s, 0, i);
  }

  /** No piece contains a comma or whitespace. */
  lemma {:induction false} SplitPiecesClean(s: string)
    ensures forall k :: 0 <= k < |Split(s)| ==> Clean(Split(s)[k])
    decreases |s|
  {
    FirstDelimiterLeftmost(s, 0);
    match FirstDelimiter(s, 0)
    case None =>
    case Some(i) =>
      var rest := s[i + MatchLength(s, i)..];
      SplitPiecesClean(rest);
      assert Split(s) == [s[..i]] + Split(rest);
      forall k | 0 <= k < i ensures !IsDelimiter(s[..i][k]) {
        assert s[..i][k] == s[k];
      }
      forall k | 0 <= k < |Split(s)| ensures Clean(Split(s)[k]) {
        if k > 0 {
          assert Split(s)[k] == Split(rest)[k - 1];
        }
      }
  }

  /** A string is left whole, as a one-element list, exactly when it contains
      neither a comma nor whitespace. */
  lemma {:induction false} SplitWholeIff(s: string)
    ensures Split(s) == [s] <==> Clean(s)
  {
    FirstDelimiterLeftmost(s, 0);
    match FirstDelimiter(s, 0)
    case None =>
    case Some(i) =>
      assert IsDelimiter(s[i]);
      var rest := s[i + MatchLength(s, i)..];
      SplitNonEmpty(rest);
      assert |Split(s)| == 1 + |Split(rest)| >= 2;
  }

  lemma {:induction false} SplitNonEmpty(s: string)
    ensures |Split(s)| >= 1
  {
    match FirstDelimiter(s, 0)
    case None =>
    case Some(i) =>
  }

  /** `s` with every comma and whitespace character removed. */
  function Stripped(s: string): (r: string)
    ensures |r| <= |s|
  {
    if s == [] then []
    else if IsDelimiter(s[0]) then Stripped(s[1..])
    else [s[0]] + Stripped(s[1..])
  }

  /** The pieces laid end to end. */
  function Concat(pieces: seq<string>): string
  {
    if pieces == [] then [] else pieces[0] + Concat(pieces[1..])
  }

  lemma {:induction false} StrippedAppend(a: string, b: string)
    ensures Stripped(a + b) == Stripped(a) + Stripped(b)
    decreases |a|
  {
    if a == [] {
      assert a + b == b;
    } else {
      assert (a + b)[0] == a[0] && (a + b)[1..] == a[1..] + b;
      StrippedAppend(a[1..], b);
      if IsDelimiter(a[0]) {
        assert Stripped(a + b) == Stripped(a[1..] + b);
      } else {
        assert Stripped(a + b) == [a[0]] + Stripped(a[1..] + b);
      }
    }
  }

  lemma {:induction false} StrippedClean(s: string)
    requires Clean(s)
    ensures Stripped(s) == s
    decreases |s|
  {
    if s != [] {
      StrippedClean(s[1..]);
    }
  }

  lemma {:induction false} StrippedDelimiters(s: string)
    requires forall k :: 0 <= k < |s| ==> IsDelimiter(s[k])
    ensures Stripped(s) == []
    decreases |s|
  {
    if s != [] {
      StrippedDelimiters(s[1..]);
    }
  }

  /** A clean string followed by delimiters strips to itself. */
  lemma StrippedCleanThenDelimiters(a: string, b: string)
    requires Clean(a)
    requires forall k :: 0 <= k < |b| ==> IsDelimiter(b[k])
    ensures Stripped(a + b) == a
  {
    StrippedAppend(a, b);
    StrippedClean(a);
    StrippedDelimiters(b);
    assert a + [] == a;
  }

  /** A clean prefix survives stripping, a run of delimiters after it vanishes. */
  lemma StrippedAroundMatch(a: string, b: string, c: string)
    requires Clean(a)
    requires forall k :: 0 <= k < |b| ==> IsDelimiter(b[k])
    ensures Stripped(a + b + c) == a + Stripped(c)
  {
    StrippedCleanThenDelimiters(a, b);
    StrippedAppend(a + b, c);
  }

  lemma ConcatCons(piece: string, pieces: seq<string>)
    ensures Concat([piece] + pieces) == piece + Concat(pieces)
  {
    assert ([piece] + pieces)[1..] == pieces;
  }

  /** Stripping the input drops the first match and keeps the text before it. */
  lemma StrippedAtFirstMatch(s: string, i: nat)
    requires FirstDelimiter(s, 0) == Some(i)
    ensures Stripped(s) == s[..i] + Stripped(s[i + MatchLength(s, i)..])
  {
    var e := i + MatchLength(s, i);
    var b := s[i..e];
    FirstDelimiterLeftmost(s, 0);
    MatchLengthMaximal(s, i);
    forall k | 0 <= k < |b| ensures IsDelimiter(b[k]) {
      assert b[k] == s[i + k];
    }
    forall k | 0 <= k < i ensures !IsDelimiter(s[..i][k]) {
      assert s[..i][k] == s[k];
    }
    assert s == s[..i] + b + s[e..];
    StrippedAroundMatch(s[..i], b, s[e..]);
  }

  /** Nothing but the delimiters is lost: the pieces, laid end to end, are the
      input with its commas and whitespace removed. */
  lemma {:induction false} SplitKeepsText(s: string)
    ensures Concat(Split(s)) == Stripped(s)
    decreases |s|
  {
    match FirstDelimiter(s, 0)
    case None =>
      FirstDelimiterLeftmost(s, 0);
      StrippedClean(s);
      ConcatCons(s, []);
    case Some(i) =>
      var rest := s[i + MatchLength(s, i)..];
      SplitKeepsText(rest);
      ConcatCons(s[..i], Split(rest));
      StrippedAtFirstMatch(s, i);
  }

  /** A clean word followed by one whole match: the word is the first piece and
      the split goes on after the match. */
  lemma {:induction false} SplitAfterMatch(word: string, delim: string, rest: string)
    requires Clean(word)
    requires |delim| >= 1 && IsDelimiter(delim[0])
    requires forall k :: 1 <= k < |delim| ==> IsSpace(delim[k])
    requires rest == [] || !IsSpace(rest[0])
    ensures Split(word + delim + rest) == [word] + Split(rest)
  {
    var s := word + delim + rest;
    var i := |word|;
    assert s[..i] == word;
    assert s[i] == delim[0];
    SplitStep(s, i);
    forall k | i < k < i + |delim| ensures IsSpace(s[k]) {
      assert s[k] == delim[k - i];
    }
    assert i + |delim| == |s| || s[i + |delim|] == rest[0];
    if delim[0] == ',' {
      SpaceRunExact(s, i + 1, |delim| - 1);
    } else {
      SpaceRunExact(s, i, |delim|);
    }
    assert s[i + MatchLength(s, i)..] == rest;
  }

  /** Three clean words separated by two whole matches split into those words;
      an empty last word is the empty piece a trailing match leaves. */
  lemma {:induction false} SplitThreeWords(a: string, d1: string, b: string, d2: string, c: string)
    requires Clean(a) && Clean(b) && Clean(c) && b != []
    requires |d1| >= 1 && IsDelimiter(d1[0]) && forall k :: 1 <= k < |d1| ==> IsSpace(d1[k])
    requires |d2| >= 1 && IsDelimiter(d2[0]) && forall k :: 1 <= k < |d2| ==> IsSpace(d2[k])
    ensures Split(a + d1 + b + d2 + c) == [a, b, c]
  {
    SplitWholeIff(c);
    SplitAfterMatch(b, d2, c);
    assert a + d1 + b + d2 + c == a + d1 + (b + d2 + c);
    assert (b + d2 + c)[0] == b[0];
    SplitAfterMatch(a, d1, b + d2 + c);
  }

  /* The three inputs named in the documentation of `ensure_string_list` all
     split into ["foo", "bar", "baz"]. */

  lemma SplitDocumentedSpaces()
    ensures Split("foo" + " " + "bar" + " " + "baz") == ["foo", "bar", "baz"]
  {
    SplitThreeWords("foo", " ", "bar", " ", "baz");
  }

  lemma SplitDocumentedCommas()
    ensures Split("foo" + "," + "bar" + "," + "baz") == ["foo", "bar", "baz"]
  {
    SplitThreeWords("foo", ",", "bar", ",", "baz");
  }

  lemma SplitDocumentedMixed()
    ensures Split("foo" + ",   " + "bar" + " " + "baz") == ["foo", "bar", "baz"]
  {
    SplitThreeWords("foo", ",   ", "bar", " ", "baz");
  }
}
