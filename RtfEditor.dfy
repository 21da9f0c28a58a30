/**
  The RTF editor of src/components/rtf-editor.tsx. Its parse effect turns
  the RTF parser's tree into HTML with `convertNode`; its change handler
  turns the edited HTML back into RTF with `convertToRTF`. The parser's
  tree, the browser's parse of the edited HTML and the regular-expression
  fallback text are inputs; both converters are folds over closed trees.
*/
module RtfEditor {
  import opened Wrappers
  import opened JsString

  /**
    A node of the parser's document tree, as `convertNode` sees it: a
    string, a paragraph, a formatted text run, another object with a
    `content` array, or anything else. A missing `content` array is
    modelled as the empty one, which converts the same way; a missing or
    empty `value` as "".
  */
  datatype RtfNode =
    | Str(s: string)
    | Paragraph(content: seq<RtfNode>)
    | TextRun(value: string, bold: bool, italic: bool, underline: bool)
    | Group(content: seq<RtfNode>)
    | Opaque

  /** `text` inside `<tag>…</tag>` when `flag` is set. */
  function Wrap(text: string, flag: bool, tag: string): string {
    if flag then "<" + tag + ">" + text + "</" + tag + ">" else text
  }

  /** `convertNode`. */
  function ConvertNode(n: RtfNode): string
    decreases n
  {
    match n
    case Str(s) => s
    case Paragraph(content) => "<p>" + ConvertNodes(content) + "</p>"
    case TextRun(value, bold, italic, underline) =>
      Wrap(Wrap(Wrap(value, bold, "strong"), italic, "em"), underline, "u")
    case Group(content) => ConvertNodes(content)
    case Opaque => ""
  }

  /** `nodes.map(convertNode).join("")`. */
  function ConvertNodes(nodes: seq<RtfNode>): string
    decreases nodes
  {
    if |nodes| == 0 then "" else ConvertNode(nodes[0]) + ConvertNodes(nodes[1..])
  }

  /** Converting a list of nodes is converting each part and concatenating. */
  lemma {:induction false} ConvertNodesConcat(a: seq<RtfNode>, b: seq<RtfNode>)
    ensures ConvertNodes(a + b) == ConvertNodes(a) + ConvertNodes(b)
    decreases |a|
  {
    if |a| > 0 {
      assert (a + b)[0] == a[0];
      assert (a + b)[1..] == a[1..] + b;
      ConvertNodesConcat(a[1..], b);
    } else {
      assert a + b == b;
    }
  }

  /** A set flag puts the text between the opening and the closing tag. */
  lemma WrapSet(text: string, tag: string)
    ensures Wrap(text, true, tag) == ("<" + tag + ">") + text + ("</" + tag + ">")
  {
  }

  /** With all three flags, underline is outermost and bold innermost. */
  lemma FormattingNests(value: string)
    ensures ConvertNode(TextRun(value, true, true, true)) == "<u>" + ("<em>" + ("<strong>" + value + "</strong>") + "</em>") + "</u>"
  {
    var bold := Wrap(value, true, "strong");
    WrapSet(value, "strong");
    assert "<" + "strong" + ">" == "<strong>" && "</" + "strong" + ">" == "</strong>";
    var italic := Wrap(bold, true, "em");
    WrapSet(bold, "em");
    assert "<" + "em" + ">" == "<em>" && "</" + "em" + ">" == "</em>";
    WrapSet(italic, "u");
    assert "<" + "u" + ">" == "<u>" && "</" + "u" + ">" == "</u>";
  }

  /** The text of a tree without markup: its strings and text values, in order. */
  function PlainText(n: RtfNode): string
    decreases n
  {
    match n
    case Str(s) => s
    case Paragraph(content) => PlainTexts(content)
    case TextRun(value, _, _, _) => value
    case Group(content) => PlainTexts(content)
    case Opaque => ""
  }

  function PlainTexts(nodes: seq<RtfNode>): string
    decreases nodes
  {
    if |nodes| == 0 then "" else PlainText(nodes[0]) + PlainTexts(nodes[1..])
  }

  /** No string or text value of the tree contains '<'. */
  predicate NoMarkup(n: RtfNode)
    decreases n
  {
    match n
    case Str(s) => '<' !in s
    case Paragraph(content) => NoMarkups(content)
    case TextRun(value, _, _, _) => '<' !in value
    case Group(content) => NoMarkups(content)
    case Opaque => true
  }

  predicate NoMarkups(nodes: seq<RtfNode>)
    decreases nodes
  {
    |nodes| == 0 || (NoMarkup(nodes[0]) && NoMarkups(nodes[1..]))
  }

  /** HTML with its tags removed: everything from a '<' up to the next '>' is dropped. */
  function StripTags(s: string, inTag: bool): string {
    if |s| == 0 then ""
    else if inTag then StripTags(s[1..], s[0] != '>')
    else if s[0] == '<' then StripTags(s[1..], true)
    else [s[0]] + StripTags(s[1..], false)
  }

  /** Whether a tag is still open at the end of `s`. */
  function InTagAfter(s: string, inTag: bool): bool {
    if |s| == 0 then inTag
    else if inTag then InTagAfter(s[1..], s[0] != '>')
    else InTagAfter(s[1..], s[0] == '<')
  }

  lemma {:induction false} StripTagsConcat(a: string, b: string, inTag: bool)
    ensures StripTags(a + b, inTag) == StripTags(a, inTag) + StripTags(b, InTagAfter(a, inTag))
    ensures InTagAfter(a + b, inTag) == InTagAfter(b, InTagAfter(a, inTag))
    decreases |a|
  {
    if |a| > 0 {
      assert (a + b)[0] == a[0];
      assert (a + b)[1..] == a[1..] + b;
      var next := if inTag then a[0] != '>' else a[0] == '<';
      StripTagsConcat(a[1..], b, next);
    } else {
      assert a + b == b;
    }
  }

  /** Text without '<' passes through unchanged and opens no tag. */
  lemma {:induction false} StripPlain(s: string)
    requires '<' !in s
    ensures StripTags(s, false) == s && !InTagAfter(s, false)
  {
    if |s| > 0 {
      assert s == [s[0]] + s[1..];
      StripPlain(s[1..]);
    }
  }

  /** The inside of a tag, up to and including '>', is dropped and closes the tag. */
  lemma {:induction false} StripTagBody(name: string)
    requires '>' !in name
    ensures StripTags(name + ">", true) == "" && !InTagAfter(name + ">", true)
  {
    if |name| > 0 {
      assert (name + ">")[1..] == name[1..] + ">";
      StripTagBody(name[1..]);
    }
  }

  /** A whole tag `<name>` disappears. */
  lemma StripTag(name: string)
    requires '>' !in name
    ensures StripTags("<" + name + ">", false) == "" && !InTagAfter("<" + name + ">", false)
  {
    assert ("<" + name + ">")[1..] == name + ">";
    StripTagBody(name);
  }

  /** Wrapping text between a tag and its closing tag adds nothing to the stripped text. */
  lemma StripWrapped(open: string, text: string, close: string)
    requires '>' !in open && '>' !in close
    requires !InTagAfter(text, false)
    ensures StripTags("<" + open + ">" + text + "<" + close + ">", false) == StripTags(text, false)
    ensures !InTagAfter("<" + open + ">" + text + "<" + close + ">", false)
  {
    var o, c := "<" + open + ">", "<" + close + ">";
    StripTag(open);
    StripTag(close);
    StripTagsConcat(o, text, false);
    StripTagsConcat(o + text, c, false);
    assert "<" + open + ">" + text + "<" + close + ">" == (o + text) + c;
  }

  lemma StripWrap(text: string, flag: bool, tag: string)
    requires '>' !in tag && !InTagAfter(text, false)
    ensures StripTags(Wrap(text, flag, tag), false) == StripTags(text, false)
    ensures !InTagAfter(Wrap(text, flag, tag), false)
  {
    if flag {
      assert '>' !in "/" + tag;
      StripWrapped(tag, text, "/" + tag);
      assert Wrap(text, flag, tag) == "<" + tag + ">" + text + "<" + ("/" + tag) + ">";
    }
  }

  /**
    `convertNode` only adds markup: removing the tags from its HTML gives the
    tree's text, in order, as long as the text itself has no '<'.
  */
  lemma {:induction false} ConvertKeepsText(n: RtfNode)
    requires NoMarkup(n)
    ensures StripTags(ConvertNode(n), false) == PlainText(n)
    ensures !InTagAfter(ConvertNode(n), false)
    decreases n, 1
  {
    match n
    case Str(s) => StripPlain(s);
    case Paragraph(content) =>
      ConvertsKeepText(content);
      StripWrapped("p", ConvertNodes(content), "/p");
      assert ConvertNode(n) == "<" + "p" + ">" + ConvertNodes(content) + "<" + "/p" + ">";
    case TextRun(value, bold, italic, underline) =>
      StripPlain(value);
      StripWrap(value, bold, "strong");
      StripWrap(Wrap(value, bold, "strong"), italic, "em");
      StripWrap(Wrap(Wrap(value, bold, "strong"), italic, "em"), underline, "u");
    case Group(content) => ConvertsKeepText(content);
    case Opaque =>
  }

  lemma {:induction false} ConvertsKeepText(nodes: seq<RtfNode>)
    requires NoMarkups(nodes)
    ensures StripTags(ConvertNodes(nodes), false) == PlainTexts(nodes)
    ensures !InTagAfter(ConvertNodes(nodes), false)
    decreases nodes, 0
  {
    if |nodes| > 0 {
      ConvertKeepsText(nodes[0]);
      ConvertsKeepText(nodes[1..]);
      StripTagsConcat(ConvertNode(nodes[0]), ConvertNodes(nodes[1..]), false);
    }
  }

  /** The parser's document: an optional `content` list and an optional list of paragraphs' contents. */
  datatype ParsedDoc = ParsedDoc(content: Option<seq<RtfNode>>, paragraphs: Option<seq<seq<RtfNode>>>)

  /** `paragraphs.map(p => "<p>" + convert(p.content) + "</p>").join("")`. */
  function ParagraphsHtml(paragraphs: seq<seq<RtfNode>>): string
    decreases |paragraphs|
  {
    if |paragraphs| == 0 then ""
    else "<p>" + ConvertNodes(paragraphs[0]) + "</p>" + ParagraphsHtml(paragraphs[1..])
  }

  /** The paragraph list converts exactly as the same paragraphs as `paragraph` nodes of a content list would. */
  lemma {:induction false} ParagraphsAsNodes(paragraphs: seq<seq<RtfNode>>)
    ensures ParagraphsHtml(paragraphs) == ConvertNodes(seq(|paragraphs|, i requires 0 <= i < |paragraphs| => Paragraph(paragraphs[i])))
    decreases |paragraphs|
  {
    var nodes := seq(|paragraphs|, i requires 0 <= i < |paragraphs| => Paragraph(paragraphs[i]));
    if |paragraphs| > 0 {
      ParagraphsAsNodes(paragraphs[1..]);
      assert nodes[1..] == seq(|paragraphs[1..]|, i requires 0 <= i < |paragraphs[1..]| => Paragraph(paragraphs[1..][i]));
    }
  }

  /**
    The HTML the parse callback settles on for a document (`None`: no
    document): `content` is preferred, then `paragraphs`, then the fallback
    text; an empty result becomes "<p></p>".
  */
  function DocHtml(doc: Option<ParsedDoc>, fallback: string): (html: string)
    ensures html != ""
    ensures doc.Some? && doc.value.content.Some? && ConvertNodes(doc.value.content.value) != "" ==>
      html == ConvertNodes(doc.value.content.value)
    ensures doc.Some? && doc.value.content.None? && doc.value.paragraphs.Some? && |doc.value.paragraphs.value| > 0 ==>
      html == ParagraphsHtml(doc.value.paragraphs.value)
    ensures (doc.None? || (doc.value.content.None? && doc.value.paragraphs.None?)) ==>
      html == (if fallback == "" then "<p></p>" else fallback)
    ensures doc.Some? && doc.value.content.Some? && ConvertNodes(doc.value.content.value) == "" ==> html == "<p></p>"
    ensures doc.Some? && doc.value.content.None? && doc.value.paragraphs == Some([]) ==> html == "<p></p>"
  {
    var converted :=
      if doc.Some? && doc.value.content.Some? then ConvertNodes(doc.value.content.value)
      else if doc.Some? && doc.value.paragraphs.Some? then ParagraphsHtml(doc.value.paragraphs.value)
      else fallback;
    if converted == "" then "<p></p>" else converted
  }

  /** A non-empty paragraph list always yields HTML starting with a paragraph. */
  lemma ParagraphsStartWithP(paragraphs: seq<seq<RtfNode>>)
    requires |paragraphs| > 0
    ensures StartsWith(ParagraphsHtml(paragraphs), "<p>")
  {
    var h := ParagraphsHtml(paragraphs);
    assert h == "<p>" + (ConvertNodes(paragraphs[0]) + "</p>" + ParagraphsHtml(paragraphs[1..]));
  }

  /** What `parseRTF.string` did: called back with a document or an error, or threw (`None`: not an Error). */
  datatype ParseOutcome = Parsed(doc: Option<ParsedDoc>) | ParseError(message: string) | ParserThrew(thrown: Option<string>)

  /** The message a callback error is shown with. */
  function CallbackMessage(message: string): string {
    if message == "" then "Failed to parse RTF" else message
  }

  /** A node of the browser's parse of the edited HTML. */
  datatype DomNode = TextNode(text: string) | Element(tagName: string, children: seq<DomNode>) | OtherNode

  const RtfHeader: string := "{\\rtf1\\ansi\\deff0\n"
  const RtfTrailer: string := "\n}"

  /** The RTF for an element with lower-cased tag `tag` and converted children `content`. */
  function RtfElement(tag: string, content: string): string {
    if tag == "p" then "\\par " + content
    else if tag == "strong" || tag == "b" then "{\\b " + content + "}"
    else if tag == "em" || tag == "i" then "{\\i " + content + "}"
    else if tag == "u" then "{\\ul " + content + "}"
    else content
  }

  /** `convertToRTF`: tags are compared in lower case; text is emitted as it is. */
  function ToRtf(n: DomNode): string
    decreases n
  {
    match n
    case TextNode(text) => text
    case Element(tagName, children) => RtfElement(ToLower(tagName), ToRtfs(children))
    case OtherNode => ""
  }

  /** `Array.from(childNodes).map(convertToRTF).join("")`. */
  function ToRtfs(nodes: seq<DomNode>): string
    decreases nodes
  {
    if |nodes| == 0 then "" else ToRtf(nodes[0]) + ToRtfs(nodes[1..])
  }

  /** The number of occurrences of `c` in `s`. */
  function Count(s: string, c: char): nat {
    if |s| == 0 then 0 else (if s[0] == c then 1 else 0) + Count(s[1..], c)
  }

  /**
    The group depth after reading `s` from depth `depth`, or `None` as soon
    as a '}' closes a group that was never opened.
  */
  function Depth(s: string, depth: nat): Option<nat>
    decreases |s|
  {
    if |s| == 0 then Some(depth)
    else if s[0] == '{' then Depth(s[1..], depth + 1)
    else if s[0] == '}' then (if depth == 0 then None else Depth(s[1..], depth - 1))
    else Depth(s[1..], depth)
  }

  /** Every '}' closes a group opened before it, and every group opened is closed. */
  predicate Balanced(s: string) {
    Depth(s, 0) == Some(0)
  }

  /** Reading `a + b` is reading `a`, then `b` from where `a` left off. */
  lemma {:induction false} DepthConcat(a: string, b: string, depth: nat)
    ensures Depth(a + b, depth) == (if Depth(a, depth).Some? then Depth(b, Depth(a, depth).value) else None)
    decreases |a|
  {
    if |a| > 0 {
      assert (a + b)[0] == a[0];
      assert (a + b)[1..] == a[1..] + b;
      if a[0] == '{' {
        DepthConcat(a[1..], b, depth + 1);
      } else if a[0] == '}' {
        if depth > 0 {
          DepthConcat(a[1..], b, depth - 1);
        }
      } else {
        DepthConcat(a[1..], b, depth);
      }
    } else {
      assert a + b == b;
    }
  }

  /** Reading from a deeper start ends just as much deeper. */
  lemma {:induction false} DepthShift(s: string, depth: nat, extra: nat)
    requires Depth(s, depth).Some?
    ensures Depth(s, depth + extra) == Some(Depth(s, depth).value + extra)
    decreases |s|
  {
    if |s| > 0 {
      if s[0] == '{' {
        DepthShift(s[1..], depth + 1, extra);
      } else if s[0] == '}' {
        DepthShift(s[1..], depth - 1, extra);
      } else {
        DepthShift(s[1..], depth, extra);
      }
    }
  }

  /** Text without braces leaves the depth as it is. */
  lemma {:induction false} DepthPlain(s: string, depth: nat)
    requires '{' !in s && '}' !in s
    ensures Depth(s, depth) == Some(depth)
    decreases |s|
  {
    if |s| > 0 {
      DepthPlain(s[1..], depth);
    }
  }

  /** Every '{' read raises the depth by one and every '}' lowers it by one. */
  lemma {:induction false} DepthCounts(s: string, depth: nat, end: nat)
    requires Depth(s, depth) == Some(end)
    ensures depth + Count(s, '{') == end + Count(s, '}')
    decreases |s|
  {
    if |s| > 0 {
      if s[0] == '{' {
        DepthCounts(s[1..], depth + 1, end);
      } else if s[0] == '}' {
        DepthCounts(s[1..], depth - 1, end);
      } else {
        DepthCounts(s[1..], depth, end);
      }
    }
  }

  /** A balanced string holds as many '}' as '{'. */
  lemma BalancedCounts(s: string)
    requires Balanced(s)
    ensures Count(s, '{') == Count(s, '}')
  {
    DepthCounts(s, 0, 0);
  }

  /** Equal counts are not enough: a '}' before its '{' is unbalanced. */
  lemma CloseBeforeOpenIsUnbalanced()
    ensures Count("}{", '{') == Count("}{", '}') && !Balanced("}{")
  {
  }

  lemma BalancedConcat(a: string, b: string)
    requires Balanced(a) && Balanced(b)
    ensures Balanced(a + b)
  {
    DepthConcat(a, b, 0);
  }

  /** A group `open + content + "}"` is balanced when its content is and `open` is a '{' followed by no braces. */
  lemma GroupBalanced(open: string, content: string)
    requires |open| >= 1 && open[0] == '{' && '{' !in open[1..] && '}' !in open[1..]
    requires Balanced(content)
    ensures Balanced(open + content + "}")
  {
    var control := open[1..];
    var body := control + (content + "}");
    assert open + content + "}" == [open[0]] + body;
    assert ([open[0]] + body)[1..] == body;
    DepthConcat(control, content + "}", 1);
    DepthPlain(control, 1);
    DepthConcat(content, "}", 1);
    DepthShift(content, 0, 1);
  }

  lemma RtfElementBalanced(tag: string, content: string)
    requires Balanced(content)
    ensures Balanced(RtfElement(tag, content))
  {
    if tag == "p" {
      DepthConcat("\\par ", content, 0);
      DepthPlain("\\par ", 0);
    } else if tag == "strong" || tag == "b" {
      GroupBalanced("{\\b ", content);
    } else if tag == "em" || tag == "i" {
      GroupBalanced("{\\i ", content);
    } else if tag == "u" {
      GroupBalanced("{\\ul ", content);
    }
  }

  /** No text node of the tree holds a brace. */
  predicate NoBraces(n: DomNode)
    decreases n
  {
    match n
    case TextNode(text) => '{' !in text && '}' !in text
    case Element(_, children) => forall i :: 0 <= i < |children| ==> NoBraces(children[i])
    case OtherNode => true
  }

  /** Every group the converter opens it closes, and no '}' comes before its '{', when the text brings no braces of its own. */
  lemma {:induction false} ToRtfBalanced(n: DomNode)
    requires NoBraces(n)
    ensures Balanced(ToRtf(n))
    decreases n, 1
  {
    match n
    case TextNode(text) =>
      DepthPlain(text, 0);
    case Element(tagName, children) =>
      ToRtfsBalanced(children);
      RtfElementBalanced(ToLower(tagName), ToRtfs(children));
    case OtherNode =>
  }

  lemma {:induction false} ToRtfsBalanced(nodes: seq<DomNode>)
    requires forall i :: 0 <= i < |nodes| ==> NoBraces(nodes[i])
    ensures Balanced(ToRtfs(nodes))
    decreases nodes, 0
  {
    if |nodes| > 0 {
      ToRtfBalanced(nodes[0]);
      ToRtfsBalanced(nodes[1..]);
      BalancedConcat(ToRtf(nodes[0]), ToRtfs(nodes[1..]));
    }
  }

  /** The header opens the document's one outer group and the trailer closes it. */
  lemma DocumentBalanced(body: string)
    requires Balanced(body)
    ensures Balanced(RtfHeader + body + RtfTrailer)
  {
    var tail := RtfHeader[1..];
    assert forall i :: 0 <= i < |tail| ==> tail[i] != '{' && tail[i] != '}';
    DepthPlain("\n", 0);
    BalancedConcat(body, "\n");
    GroupBalanced(RtfHeader, body + "\n");
    assert RtfTrailer == "\n" + "}";
    assert RtfHeader + body + RtfTrailer == RtfHeader + (body + "\n") + "}";
  }

  /** An unescaped brace in the text breaks the balance. */
  lemma BraceInTextUnbalances()
    ensures !Balanced(ToRtf(Element("p", [TextNode("{")])))
  {
    assert ToLower("p") == "p";
    assert ToRtfs([TextNode("{")]) == "{" by {
      assert [TextNode("{")][1..] == [];
    }
    DepthConcat("\\par ", "{", 0);
    DepthPlain("\\par ", 0);
  }

  /** The editor's displayed HTML, whether it is loading, and its error message. */
  class RtfView {
    var html: string
    var loading: bool
    var error: Option<string>

    constructor()
      ensures html == "" && loading && error.None?
    {
      html := "";
      loading := true;
      error := None;
    }

    /**
      The parse effect for the record's content: blank content shows
      nothing and skips the parser; otherwise the parser's outcome decides
      the HTML and the error. Loading is over on every path.
    */
    method ParseFile(content: string, outcome: ParseOutcome, fallback: string)
      modifies this
      ensures !loading
      ensures IsBlank(content) ==> html == "" && error.None?
      ensures !IsBlank(content) && outcome.Parsed? ==> html == DocHtml(outcome.doc, fallback) && error.None?
      ensures !IsBlank(content) && outcome.ParseError? ==>
        html == (if fallback == "" then "<p></p>" else fallback) && error == Some(CallbackMessage(outcome.message))
      ensures !IsBlank(content) && outcome.ParserThrew? ==>
        html == "<pre>" + content + "</pre>"
        && error == Some(if outcome.thrown.Some? then outcome.thrown.value else "Failed to parse RTF")
    {
      loading := true;
      error := None;
      if IsBlank(content) {
        html := "";
        loading := false;
        return;
      }
      match outcome {
        case Parsed(doc) =>
          html := DocHtml(doc, fallback);
        case ParseError(message) =>
          error := Some(CallbackMessage(message));
          html := if fallback == "" then "<p></p>" else fallback;
        case ParserThrew(thrown) =>
          error := Some(if thrown.Some? then thrown.value else "Failed to parse RTF");
          html := "<pre>" + content + "</pre>";
      }
      loading := false;
    }

    /**
      `handleEditorChange`: shows the edited HTML and returns the RTF handed
      to the content updater, built by appending the converted body and the
      closing brace to the header. `dom` is the browser's parse of `innerHtml`.
    */
    method EditorChange(innerHtml: string, dom: seq<DomNode>) returns (rtf: string)
      modifies this
      ensures html == innerHtml && loading == old(loading) && error == old(error)
      ensures rtf == RtfHeader + ToRtfs(dom) + RtfTrailer
      ensures StartsWith(rtf, RtfHeader) && EndsWith(rtf, RtfTrailer)
      ensures (forall i :: 0 <= i < |dom| ==> NoBraces(dom[i])) ==> Balanced(rtf)
    {
      html := innerHtml;
      rtf := RtfHeader;
      var root := Element("div", dom);
      assert ToLower("div") == "div";
      rtf := rtf + ToRtf(root);
      rtf := rtf + RtfTrailer;
      assert rtf[..|RtfHeader|] == RtfHeader;
      assert rtf[|rtf| - |RtfTrailer|..] == RtfTrailer;
      if forall i :: 0 <= i < |dom| ==> NoBraces(dom[i]) {
        ToRtfsBalanced(dom);
        DocumentBalanced(ToRtfs(dom));
      }
    }
  }
}
