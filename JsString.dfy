/**
  The few JavaScript string operations the viewer relies on, stated over
  Dafny strings: `toLowerCase` (on ASCII letters), `split` on one character,
  indexing the pieces of a split, `startsWith`/`endsWith`, and the white-space
  class that `\s` and `trim` use.
*/
module JsString {
  import opened Wrappers

  /** Lower-cases one ASCII upper-case letter; every other character is kept. */
  function LowerChar(c: char): (r: char)
    ensures !('A' <= r <= 'Z')
    ensures 'A' <= c <= 'Z' || r == c
  {
    if 'A' <= c <= 'Z' then (c as int - 'A' as int + 'a' as int) as char else c
  }

  /** `s.toLowerCase()` restricted to ASCII letters. */
  function ToLower(s: string): (r: string)
    ensures |r| == |s|
    ensures forall i :: 0 <= i < |s| ==> r[i] == LowerChar(s[i])
  {
    seq(|s|, i requires 0 <= i < |s| => LowerChar(s[i]))
  }

  /** Lower-casing twice is lower-casing once. */
  lemma ToLowerIdempotent(s: string)
    ensures ToLower(ToLower(s)) == ToLower(s)
  {
    var t := ToLower(s);
    assert forall i :: 0 <= i < |t| ==> LowerChar(t[i]) == t[i];
  }

  /** Lower-casing works character by character, so it distributes over concatenation. */
  lemma ToLowerConcat(a: string, b: string)
    ensures ToLower(a + b) == ToLower(a) + ToLower(b)
  {
  }

  /** Lower-casing keeps the dots of a name where they are. */
  lemma ToLowerKeepsDots(s: string)
    ensures forall i :: 0 <= i < |s| ==> (ToLower(s)[i] == '.' <==> s[i] == '.')
  {
  }

  /** `s.startsWith(p)`. */
  predicate StartsWith(s: string, p: string) {
    |p| <= |s| && s[..|p|] == p
  }

  /** `s.endsWith(p)`. */
  predicate EndsWith(s: string, p: string) {
    |p| <= |s| && s[|s| - |p|..] == p
  }

  /** `s` ends with `c` followed by `e` exactly when it ends with `e` and `c` comes right before it. */
  lemma EndsWithCharThen(s: string, c: char, e: string)
    ensures EndsWith(s, [c] + e) <==> EndsWith(s, e) && |e| < |s| && s[|s| - |e| - 1] == c
  {
    if |e| < |s| {
      assert s[|s| - |e| - 1..] == [s[|s| - |e| - 1]] + s[|s| - |e|..];
    }
  }

  /** The index of the first `c` in `s`, or `|s|` when there is none. */
  function IndexOf(s: string, c: char): (r: nat)
    ensures r <= |s|
    ensures r < |s| ==> s[r] == c
    ensures forall i :: 0 <= i < r ==> s[i] != c
  {
    if |s| == 0 then 0 else if s[0] == c then 0 else 1 + IndexOf(s[1..], c)
  }

  /** `s.split(sep)` for a one-character separator: the pieces between the separators, at least one. */
  function Split(s: string, sep: char): (pieces: seq<string>)
    ensures |pieces| >= 1
    decreases |s|
  {
    var i := IndexOf(s, sep);
    if i == |s| then [s] else [s[..i]] + Split(s[i + 1..], sep)
  }

  /** No piece of a split holds the separator. */
  lemma {:induction false} SplitPiecesLackSeparator(s: string, sep: char)
    ensures forall k :: 0 <= k < |Split(s, sep)| ==> sep !in Split(s, sep)[k]
    decreases |s|
  {
    var i := IndexOf(s, sep);
    if i < |s| {
      SplitPiecesLackSeparator(s[i + 1..], sep);
      assert sep !in s[..i];
    }
  }

  /** `pieces.join(sep)`. */
  function Join(pieces: seq<string>, sep: char): string
    requires |pieces| >= 1
  {
    if |pieces| == 1 then pieces[0] else pieces[0] + [sep] + Join(pieces[1..], sep)
  }

  /** Splitting loses nothing: joining the pieces gives the string back. */
  lemma {:induction false} JoinSplit(s: string, sep: char)
    ensures Join(Split(s, sep), sep) == s
    decreases |s|
  {
    var i := IndexOf(s, sep);
    if i < |s| {
      var rest := Split(s[i + 1..], sep);
      var pieces := [s[..i]] + rest;
      assert Split(s, sep) == pieces;
      assert pieces[0] == s[..i] && pieces[1..] == rest && |pieces| > 1;
      assert Join(pieces, sep) == s[..i] + [sep] + Join(rest, sep);
      JoinSplit(s[i + 1..], sep);
      assert s == s[..i] + [sep] + s[i + 1..];
    }
  }

  /** A string without the separator is its own single piece. */
  lemma SplitWithoutSeparator(s: string, sep: char)
    requires sep !in s
    ensures Split(s, sep) == [s]
  {
    assert IndexOf(s, sep) == |s|;
  }

  /** A leading piece without the separator comes off as the first piece. */
  lemma SplitFirstPiece(p: string, sep: char, t: string)
    requires sep !in p
    ensures Split(p + [sep] + t, sep) == [p] + Split(t, sep)
  {
    var s := p + [sep] + t;
    assert s[|p|] == sep;
    var i := IndexOf(s, sep);
    assert i == |p|;
    assert s[..i] == p;
    assert s[i + 1..] == t;
  }

  /** `last` ends `s`, and unless it is all of `s` the character before it is `sep`. */
  predicate SuffixAfter(s: string, last: string, sep: char) {
    EndsWith(s, last) && (|last| < |s| ==> s[|s| - |last| - 1] == sep)
  }

  /** What ends the tail after a separator, right after a separator, ends the whole string the same way. */
  lemma SuffixAfterOfTail(s: string, i: nat, t: string, last: string, sep: char)
    requires i < |s| && s[i] == sep && t == s[i + 1..] && SuffixAfter(t, last, sep)
    ensures SuffixAfter(s, last, sep)
  {
    assert s[|s| - |last|..] == t[|t| - |last|..];
    if |last| < |t| {
      assert s[|s| - |last| - 1] == t[|t| - |last| - 1];
    }
  }

  /** The last piece of a split is a suffix without the separator, preceded by one unless it is the whole string. */
  lemma {:induction false} SplitLastPiece(s: string, sep: char)
    ensures SuffixAfter(s, Split(s, sep)[|Split(s, sep)| - 1], sep)
    decreases |s|
  {
    var i := IndexOf(s, sep);
    if i < |s| {
      var t := s[i + 1..];
      var rest := Split(t, sep);
      SplitLastPiece(t, sep);
      var last := rest[|rest| - 1];
      assert Split(s, sep) == [s[..i]] + rest;
      assert Split(s, sep)[|Split(s, sep)| - 1] == last;
      SuffixAfterOfTail(s, i, t, last, sep);
    } else {
      assert s[0..] == s;
    }
  }

  /** `s.split(sep)[k]`; `None` stands for the `undefined` of an index past the last piece. */
  function Piece(s: string, sep: char, k: nat): (r: Option<string>)
    ensures r.Some? <==> k < |Split(s, sep)|
    ensures r.Some? ==> sep !in r.value
  {
    var pieces := Split(s, sep);
    SplitPiecesLackSeparator(s, sep);
    if k < |pieces| then Some(pieces[k]) else None
  }

  /** The characters matched by `\s` in a JavaScript regular expression, which are also what `trim` removes. */
  predicate IsSpace(c: char) {
    var n := c as int;
    (9 <= n <= 13) || n == 0x20 || n == 0xA0 || n == 0x1680 || (0x2000 <= n <= 0x200A)
    || n == 0x2028 || n == 0x2029 || n == 0x202F || n == 0x205F || n == 0x3000 || n == 0xFEFF
  }

  /** `s.trim() === ""`: the string holds white space only. */
  predicate IsBlank(s: string) {
    forall i :: 0 <= i < |s| ==> IsSpace(s[i])
  }
}
