/**
  The Markdown toolbar of src/components/toolbar.tsx: each button wraps the
  textarea's selection in a prefix and a suffix and hands the new text to
  the content updater, and the clear button empties the content. The
  textarea is an input: its presence and its selection range.
*/
module Toolbar {
  import opened Wrappers

  /** A position clamped to `[0, n]`, as `substring` does with its arguments. */
  function Clamp(a: int, n: nat): (r: nat)
    ensures r <= n
    ensures 0 <= a <= n ==> r == a
  {
    if a < 0 then 0 else if a > n then n else a
  }

  /** `s.substring(a, b)`: both ends clamped to the string, then taken in increasing order. */
  function Substring(s: string, a: int, b: int): (r: string)
    ensures 0 <= a <= b <= |s| ==> r == s[a..b]
    ensures |r| <= |s|
  {
    var x := Clamp(a, |s|);
    var y := Clamp(b, |s|);
    if x <= y then s[x..y] else s[y..x]
  }

  /** The textarea's `selectionStart` and `selectionEnd`. */
  datatype Selection = Selection(start: nat, end: nat)

  /** The text passed to the content updater and the selection range then set. */
  datatype Edit = Edit(newText: string, selStart: int, selEnd: int)

  /** `insertSyntax(prefix, suffix)`; `None` when there is no textarea and nothing is updated. */
  function InsertSyntax(content: string, textarea: Option<Selection>, prefix: string, suffix: string): (r: Option<Edit>)
    ensures r.Some? <==> textarea.Some?
  {
    match textarea
    case None => None
    case Some(sel) =>
      var selectedText := Substring(content, sel.start, sel.end);
      var beforeText := Substring(content, 0, sel.start);
      var afterText := Substring(content, sel.end, |content|);
      Some(Edit(beforeText + prefix + selectedText + suffix + afterText, sel.start + |prefix|, sel.end + |prefix|))
  }

  /**
    For a selection inside the content: the selection is wrapped, the text
    grows by exactly the prefix and suffix, and the new selection covers the
    originally selected text; the text around it is untouched.
  */
  lemma InsertSyntaxWraps(content: string, start: nat, end: nat, prefix: string, suffix: string)
    requires start <= end <= |content|
    ensures var e := InsertSyntax(content, Some(Selection(start, end)), prefix, suffix).value;
      e.newText == content[..start] + prefix + content[start..end] + suffix + content[end..]
      && |e.newText| == |content| + |prefix| + |suffix|
      && e.selStart == start + |prefix| && e.selEnd == end + |prefix|
      && e.newText[e.selStart..e.selEnd] == content[start..end]
      && e.newText[..start] == content[..start]
      && e.newText[start..e.selStart] == prefix
      && e.newText[e.selEnd..e.selEnd + |suffix|] == suffix
      && e.newText[e.selEnd + |suffix|..] == content[end..]
  {
    var e := InsertSyntax(content, Some(Selection(start, end)), prefix, suffix).value;
    assert Substring(content, 0, start) == content[..start];
    assert Substring(content, end, |content|) == content[end..];
    var t := e.newText;
    assert t == content[..start] + prefix + content[start..end] + suffix + content[end..];
    assert t[e.selStart..e.selEnd] == content[start..end];
  }

  /** Removing the inserted prefix and suffix gives the content back. */
  lemma InsertSyntaxUndo(content: string, start: nat, end: nat, prefix: string, suffix: string)
    requires start <= end <= |content|
    ensures var e := InsertSyntax(content, Some(Selection(start, end)), prefix, suffix).value;
      e.newText[..start] + e.newText[e.selStart..e.selEnd] + e.newText[e.selEnd + |suffix|..] == content
  {
    InsertSyntaxWraps(content, start, end, prefix, suffix);
    assert content[..start] + content[start..end] + content[end..] == content;
  }

  /** The toolbar's buttons. */
  datatype Button = Bold | Italic | Heading | Quote | ListItem | CodeBlock | Link | Clear

  /** The prefix and suffix each formatting button inserts; the suffix defaults to "". */
  function Markup(b: Button): (ps: (string, string))
    requires b != Clear
    ensures ps.0 != ""
    ensures ps.1 == "" <==> b == Heading || b == Quote || b == ListItem
  {
    match b
    case Bold => ("**", "**")
    case Italic => ("*", "*")
    case Heading => ("## ", "")
    case Quote => ("> ", "")
    case ListItem => ("- ", "")
    case CodeBlock => ("```\n", "\n```")
    case Link => ("[", "](url)")
  }

  /** The content handed to the updater when a button is pressed, or `None` when it is not called. */
  function Press(b: Button, content: string, textarea: Option<Selection>): (r: Option<string>)
    ensures b == Clear ==> r == Some("")
    ensures b != Clear ==> (r.Some? <==> textarea.Some?)
  {
    if b == Clear then Some("")
    else
      match InsertSyntax(content, textarea, Markup(b).0, Markup(b).1)
      case Some(e) => Some(e.newText)
      case None => None
  }

  /** Heading, Quote and List only insert their marker before the selection. */
  lemma LineMarkersInsertOnlyPrefix(b: Button, content: string, start: nat, end: nat)
    requires b == Heading || b == Quote || b == ListItem
    requires start <= end <= |content|
    ensures Press(b, content, Some(Selection(start, end))) == Some(content[..start] + Markup(b).0 + content[start..])
  {
    var prefix := Markup(b).0;
    assert Markup(b) == (prefix, "");
    var selected := Substring(content, start, end);
    var before := Substring(content, 0, start);
    var after := Substring(content, end, |content|);
    assert selected == content[start..end] && before == content[..start] && after == content[end..];
    var e := InsertSyntax(content, Some(Selection(start, end)), prefix, "").value;
    assert e.newText == before + prefix + selected + "" + after;
    assert Press(b, content, Some(Selection(start, end))) == Some(e.newText);
    assert content[start..end] + content[end..] == content[start..];
    assert e.newText == content[..start] + prefix + (content[start..end] + content[end..]);
  }

  /** The paired buttons wrap the selection between their two markers. */
  lemma PairedMarkersWrap(b: Button, content: string, start: nat, end: nat)
    requires b == Bold || b == Italic || b == CodeBlock || b == Link
    requires start <= end <= |content|
    ensures Markup(b).1 != ""
    ensures Press(b, content, Some(Selection(start, end)))
      == Some(content[..start] + Markup(b).0 + content[start..end] + Markup(b).1 + content[end..])
  {
    InsertSyntaxWraps(content, start, end, Markup(b).0, Markup(b).1);
  }
}
