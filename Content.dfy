/**
  The counters under the editor in src/components/content.tsx: the
  character count is the content's length, and the word count is the
  number of non-empty pieces left by splitting on runs of white space.
*/
module Content {
  import opened JsString

  /** `content.length`: zero exactly for empty content. */
  function CharCount(content: string): (n: nat)
    ensures n == 0 <==> content == ""
  {
    |content|
  }

  /** The index of the first white-space character, or `|s|`. */
  function FirstSpace(s: string): (i: nat)
    ensures i <= |s|
    ensures i < |s| ==> IsSpace(s[i])
    ensures forall k :: 0 <= k < i ==> !IsSpace(s[k])
  {
    if |s| == 0 || IsSpace(s[0]) then 0 else 1 + FirstSpace(s[1..])
  }

  /** The end of the white-space run that starts at `i`. */
  function SpaceRunEnd(s: string, i: nat): (j: nat)
    requires i <= |s|
    ensures i <= j <= |s|
    ensures j < |s| ==> !IsSpace(s[j])
    ensures forall k :: i <= k < j ==> IsSpace(s[k])
    decreases |s| - i
  {
    if i < |s| && IsSpace(s[i]) then SpaceRunEnd(s, i + 1) else i
  }

  /** `s.split(/\s+/)`: the pieces between maximal runs of white space, empty ones at either end included. */
  function SplitOnSpace(s: string): (pieces: seq<string>)
    ensures |pieces| >= 1
    decreases |s|
  {
    var i := FirstSpace(s);
    if i == |s| then [s]
    else
      var j := SpaceRunEnd(s, i);
      [s[..i]] + SplitOnSpace(s[j..])
  }

  /** No piece of the split contains white space. */
  lemma {:induction false} SplitPiecesLackSpace(s: string)
    ensures forall n, k :: 0 <= n < |SplitOnSpace(s)| && 0 <= k < |SplitOnSpace(s)[n]| ==> !IsSpace(SplitOnSpace(s)[n][k])
    decreases |s|
  {
    var i := FirstSpace(s);
    if i < |s| {
      var j := SpaceRunEnd(s, i);
      var rest := SplitOnSpace(s[j..]);
      SplitPiecesLackSpace(s[j..]);
      assert SplitOnSpace(s) == [s[..i]] + rest;
      forall n, k | 0 <= n < |SplitOnSpace(s)| && 0 <= k < |SplitOnSpace(s)[n]|
        ensures !IsSpace(SplitOnSpace(s)[n][k])
      {
        if n > 0 {
          assert SplitOnSpace(s)[n] == rest[n - 1];
        }
      }
    }
  }

  /** `pieces.filter(w => w.length > 0).length`. */
  function NonEmptyCount(pieces: seq<string>): nat {
    if |pieces| == 0 then 0 else (if |pieces[0]| > 0 then 1 else 0) + NonEmptyCount(pieces[1..])
  }

  /** The word count shown under the editor: the number of maximal runs of non-space characters. */
  function WordCount(content: string): (n: nat)
    ensures n == RunStarts(content, true)
  {
    SplitCountIsRunCount(content);
    NonEmptyCount(SplitOnSpace(content))
  }

  /**
    The reference count: the positions where a word starts, that is, a
    non-space character at the start or after a space (`afterSpace` says
    whether the text before `s` ended in white space or was empty).
  */
  function RunStarts(s: string, afterSpace: bool): nat {
    if |s| == 0 then 0
    else (if !IsSpace(s[0]) && afterSpace then 1 else 0) + RunStarts(s[1..], IsSpace(s[0]))
  }

  /** Whether the text ends in white space, given how the text before it ended. */
  function EndsAfterSpace(s: string, afterSpace: bool): bool {
    if |s| == 0 then afterSpace else IsSpace(s[|s| - 1])
  }

  lemma {:induction false} RunStartsConcat(a: string, b: string, afterSpace: bool)
    ensures RunStarts(a + b, afterSpace) == RunStarts(a, afterSpace) + RunStarts(b, EndsAfterSpace(a, afterSpace))
    decreases |a|
  {
    if |a| > 0 {
      assert (a + b)[0] == a[0];
      assert (a + b)[1..] == a[1..] + b;
      RunStartsConcat(a[1..], b, IsSpace(a[0]));
      if |a| > 1 {
        assert a[1..][|a[1..]| - 1] == a[|a| - 1];
      }
    } else {
      assert a + b == b;
    }
  }

  /** A word without white space starts one run if it is non-empty. */
  lemma {:induction false} RunStartsOfWord(w: string)
    requires forall k :: 0 <= k < |w| ==> !IsSpace(w[k])
    ensures RunStarts(w, true) == if |w| > 0 then 1 else 0
  {
    if |w| > 0 {
      RunStartsNoneAfterWord(w[1..]);
    }
  }

  lemma {:induction false} RunStartsNoneAfterWord(w: string)
    requires forall k :: 0 <= k < |w| ==> !IsSpace(w[k])
    ensures RunStarts(w, false) == 0
  {
    if |w| > 0 {
      RunStartsNoneAfterWord(w[1..]);
    }
  }

  /** White space starts no run. */
  lemma {:induction false} RunStartsOfSpace(w: string, afterSpace: bool)
    requires forall k :: 0 <= k < |w| ==> IsSpace(w[k])
    ensures RunStarts(w, afterSpace) == 0
  {
    if |w| > 0 {
      RunStartsOfSpace(w[1..], true);
    }
  }

  lemma NonEmptyCountCons(w: string, pieces: seq<string>)
    ensures NonEmptyCount([w] + pieces) == (if |w| > 0 then 1 else 0) + NonEmptyCount(pieces)
  {
    assert ([w] + pieces)[1..] == pieces;
  }

  /** A word, then a non-empty run of white space: the word's run, and counting starts afresh after it. */
  lemma RunStartsWordThenSpace(word: string, space: string, rest: string)
    requires forall k :: 0 <= k < |word| ==> !IsSpace(word[k])
    requires |space| > 0 && forall k :: 0 <= k < |space| ==> IsSpace(space[k])
    ensures RunStarts(word + space + rest, true) == (if |word| > 0 then 1 else 0) + RunStarts(rest, true)
  {
    RunStartsConcat(word + space, rest, true);
    RunStartsConcat(word, space, true);
    RunStartsOfWord(word);
    RunStartsOfSpace(space, EndsAfterSpace(word, true));
    assert (word + space)[|word + space| - 1] == space[|space| - 1];
  }

  /** Past the first word and the white space after it, both counts go on from the rest. */
  lemma CountsPastFirstWord(s: string, i: nat, j: nat)
    requires i == FirstSpace(s) < |s| && j == SpaceRunEnd(s, i)
    ensures NonEmptyCount(SplitOnSpace(s)) == (if i > 0 then 1 else 0) + NonEmptyCount(SplitOnSpace(s[j..]))
    ensures RunStarts(s, true) == (if i > 0 then 1 else 0) + RunStarts(s[j..], true)
  {
    var word, space, rest := s[..i], s[i..j], s[j..];
    assert s == word + space + rest;
    assert SplitOnSpace(s) == [word] + SplitOnSpace(rest);
    NonEmptyCountCons(word, SplitOnSpace(rest));
    RunStartsWordThenSpace(word, space, rest);
  }

  /** The non-empty pieces of the split are the maximal runs of non-space characters. */
  lemma {:induction false} SplitCountIsRunCount(s: string)
    ensures NonEmptyCount(SplitOnSpace(s)) == RunStarts(s, true)
    decreases |s|
  {
    var i := FirstSpace(s);
    if i == |s| {
      assert SplitOnSpace(s) == [s];
      NonEmptyCountCons(s, []);
      assert [s] + [] == [s];
      assert NonEmptyCount([]) == 0;
      RunStartsOfWord(s);
    } else {
      var j := SpaceRunEnd(s, i);
      CountsPastFirstWord(s, i, j);
      SplitCountIsRunCount(s[j..]);
    }
  }

  /** Empty or all-white-space content has no words. */
  lemma BlankHasNoWords(s: string)
    requires IsBlank(s)
    ensures WordCount(s) == 0
  {
    RunStartsOfSpace(s, true);
  }

  lemma {:induction false} RunStartsBounded(s: string, afterSpace: bool)
    ensures RunStarts(s, afterSpace) <= |s|
  {
    if |s| > 0 {
      RunStartsBounded(s[1..], IsSpace(s[0]));
    }
  }

  /** There are never more words than characters. */
  lemma WordsAtMostChars(s: string)
    ensures WordCount(s) <= CharCount(s)
  {
    RunStartsBounded(s, true);
  }
}
