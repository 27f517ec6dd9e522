/** Rewriting of relative link and image targets when a document is moved
    into another directory (`packages/core/src/paths.ts`). Each of the four
    `replace` passes is modelled as a scan that cuts the text into pieces:
    untouched text, and the targets the callback rewrites. */
module Paths {
  import opened Common
  import opened PosixPath

  /** A stretch of the output of one pass: text the callback emits as it
      was, or a target it hands to `rewriteSinglePath`. */
  datatype Piece = Text(text: string) | Target(target: string)

  /** The text a pass produces from its pieces, with `rw` applied to every target. */
  function Render(ps: seq<Piece>, rw: string -> string): string {
    if ps == [] then ""
    else
      (match ps[0]
       case Text(t) => t
       case Target(t) => rw(t))
      + Render(ps[1..], rw)
  }

  function Identity(t: string): string {
    t
  }

  // ---------------------------------------------------------------------
  // rewriteSinglePath
  // ---------------------------------------------------------------------

  /** Targets that are never rewritten: absolute URLs, protocol-relative
      URLs, in-page anchors and data URIs. */
  predicate Skipped(href: string) {
    StartsWith(href, "http://") || StartsWith(href, "https://") || StartsWith(href, "//")
    || StartsWith(href, "#") || StartsWith(href, "data:")
  }

  /** The file part of a target: everything before its first `#`. */
  function FilePart(href: string): string {
    match IndexOf(href, '#')
    case Some(k) => href[..k]
    case None => href
  }

  /** The fragment of a target: everything from its first `#` on. */
  function Fragment(href: string): string {
    match IndexOf(href, '#')
    case Some(k) => href[k..]
    case None => ""
  }

  /** `rewriteSinglePath(href, relativePrefix)` */
  function RewriteSinglePath(href: string, prefix: string): (r: string)
    ensures Skipped(href) ==> r == href
    ensures !Skipped(href) && FilePart(href) == "" ==> r == href
    ensures !Skipped(href) && FilePart(href) != "" ==>
      r == PosixJoin(prefix, FilePart(href)) + Fragment(href) && EndsWith(r, Fragment(href))
  {
    if Skipped(href) then href
    else
      var filePart := FilePart(href);
      if filePart == "" then href
      else PosixJoin(prefix, filePart) + Fragment(href)
  }

  /** Splitting at the first `#` loses nothing, and the file part holds no `#`. */
  lemma {:induction false} FragmentSplit(href: string)
    ensures FilePart(href) + Fragment(href) == href
    ensures '#' !in FilePart(href)
    ensures Fragment(href) != [] ==> Fragment(href)[0] == '#'
  {
    match IndexOf(href, '#')
    case Some(k) =>
      assert href[..k] + href[k..] == href;
    case None =>
  }

  // ---------------------------------------------------------------------
  // Markdown images and links: ![alt](href) and [text](href)
  // ---------------------------------------------------------------------

  /** `[^X]*` followed by `X`, starting at `i`: the position of the first `X`
      at or after `i`, if there is one. */
  function FindFrom(s: string, i: nat, x: char): (r: Option<nat>)
    requires i <= |s|
    ensures r.Some? ==> i <= r.value < |s| && s[r.value] == x
    ensures r.Some? ==> forall k :: i <= k < r.value ==> s[k] != x
    ensures r.None? ==> forall k :: i <= k < |s| ==> s[k] != x
    decreases |s| - i
  {
    if i == |s| then None else if s[i] == x then Some(i) else FindFrom(s, i + 1, x)
  }

  /** `\[([^\]]*)\]\(([^)]+)\)` at position `p`: the positions of the `]` and
      the closing `)`. The text and the target are `s[p+1..q]` and `s[q+2..r]`. */
  function BracketAt(s: string, p: nat): (r: Option<(nat, nat)>)
    requires p < |s|
    ensures r.Some? ==> var (q, e) := r.value;
      && s[p] == '[' && p < q && q + 2 < e < |s|
      && s[q] == ']' && s[q + 1] == '(' && s[e] == ')'
      && (forall k :: p < k < q ==> s[k] != ']')
      && (forall k :: q + 2 <= k < e ==> s[k] != ')')
  {
    if s[p] != '[' then None
    else
      match FindFrom(s, p + 1, ']')
      case None => None
      case Some(q) =>
        if q + 1 < |s| && s[q + 1] == '(' then
          match FindFrom(s, q + 2, ')')
          case None => None
          case Some(e) => if e > q + 2 then Some((q, e)) else None
        else None
  }

  /** An image `![alt](href)` starting at `p`. */
  function ImageAt(s: string, p: nat): (r: Option<(nat, nat)>)
    requires p < |s|
    ensures r.Some? ==> s[p] == '!' && p + 1 < |s| && BracketAt(s, p + 1) == r
  {
    if s[p] == '!' && p + 1 < |s| then BracketAt(s, p + 1) else None
  }

  /** A link `[text](href)` starting at `p`, which the lookbehind `(?<!!)`
      refuses right after a `!`. */
  function LinkAt(s: string, p: nat): (r: Option<(nat, nat)>)
    requires p < |s|
    ensures r.Some? ==> (p == 0 || s[p - 1] != '!') && BracketAt(s, p) == r
  {
    if p > 0 && s[p - 1] == '!' then None else BracketAt(s, p)
  }

  /** What the image pass emits at `i`, `![${alt}](${rewritten})` for a
      match and the character otherwise, and where it resumes. */
  function ImageStep(s: string, i: nat): (r: (seq<Piece>, nat))
    requires i < |s|
    ensures i < r.1 <= |s|
  {
    match ImageAt(s, i)
    case Some((q, e)) => ([Text("![" + s[i + 2..q] + "]("), Target(s[q + 2..e]), Text(")")], e + 1)
    case None => ([Text([s[i]])], i + 1)
  }

  /** The image pass. */
  function ImagePieces(s: string, i: nat): seq<Piece>
    requires i <= |s|
    decreases |s| - i
  {
    if i == |s| then []
    else
      var (head, next) := ImageStep(s, i);
      head + ImagePieces(s, next)
  }

  /** What the link pass emits at `i`, `[${text}](${rewritten})` for a match
      and the character otherwise, and where it resumes. */
  function LinkStep(s: string, i: nat): (r: (seq<Piece>, nat))
    requires i < |s|
    ensures i < r.1 <= |s|
  {
    match LinkAt(s, i)
    case Some((q, e)) => ([Text("[" + s[i + 1..q] + "]("), Target(s[q + 2..e]), Text(")")], e + 1)
    case None => ([Text([s[i]])], i + 1)
  }

  /** The link pass. */
  function LinkPieces(s: string, i: nat): seq<Piece>
    requires i <= |s|
    decreases |s| - i
  {
    if i == |s| then []
    else
      var (head, next) := LinkStep(s, i);
      head + LinkPieces(s, next)
  }

  // ---------------------------------------------------------------------
  // HTML: <img ... src="..."> and <a ... href="...">
  // ---------------------------------------------------------------------

  predicate IsQuote(c: char) {
    c == '"' || c == '\''
  }

  /** `attr` (such as `src=`), an opening quote, a non-empty value free of
      quotes and a closing quote, with the attribute name at `e`. */
  predicate AttrMatch(s: string, e: nat, attr: string) {
    && e + |attr| + 1 < |s| && s[e..e + |attr|] == attr && IsQuote(s[e + |attr|])
    && FindQuote(s, e + |attr| + 1).Some? && FindQuote(s, e + |attr| + 1).value > e + |attr| + 1
  }

  /** The first quote character at or after `i`. */
  function FindQuote(s: string, i: nat): (r: Option<nat>)
    requires i <= |s|
    ensures r.Some? ==> i <= r.value < |s| && IsQuote(s[r.value])
    ensures r.Some? ==> forall k :: i <= k < r.value ==> !IsQuote(s[k])
    ensures r.None? ==> forall k :: i <= k < |s| ==> !IsQuote(s[k])
    decreases |s| - i
  {
    if i == |s| then None else if IsQuote(s[i]) then Some(i) else FindQuote(s, i + 1)
  }

  /** `[^>]*` may cover `s[lo..e]`. */
  predicate NoCloseBetween(s: string, lo: nat, e: nat) {
    lo <= e <= |s| && forall k :: lo <= k < e ==> s[k] != '>'
  }

  /** Where `[^>]*attr["']` stops after the greedy `[^>]*` gives back what it
      must: the LAST attribute position before the first `>`. */
  function AttrAt(s: string, lo: nat, attr: string): (r: Option<nat>)
    requires lo <= |s|
    ensures r.Some? ==> NoCloseBetween(s, lo, r.value) && AttrMatch(s, r.value, attr)
    ensures r.Some? ==> forall e: nat :: NoCloseBetween(s, lo, e) && AttrMatch(s, e, attr) ==> e <= r.value
    ensures r.None? ==> forall e: nat :: NoCloseBetween(s, lo, e) ==> !AttrMatch(s, e, attr)
  {
    var g := match FindFrom(s, lo, '>') case Some(k) => k case None => |s|;
    LastAttr(s, lo, g, attr)
  }

  /** The largest `e` in `[lo, hi]` where the attribute matches. */
  function LastAttr(s: string, lo: nat, hi: nat, attr: string): (r: Option<nat>)
    requires lo <= hi <= |s|
    ensures r.Some? ==> lo <= r.value <= hi && AttrMatch(s, r.value, attr)
    ensures r.Some? ==> forall e: nat :: r.value < e <= hi ==> !AttrMatch(s, e, attr)
    ensures r.None? ==> forall e: nat :: lo <= e <= hi ==> !AttrMatch(s, e, attr)
    decreases hi - lo
  {
    if AttrMatch(s, hi, attr) then Some(hi)
    else if hi == lo then None
    else LastAttr(s, lo, hi - 1, attr)
  }

  /** `(<tag\s[^>]*attr["'])([^"']+)(["'])` at `p`: the attribute position and
      the position of the closing quote. */
  function TagAt(s: string, p: nat, tag: string, attr: string): (r: Option<(nat, nat)>)
    requires p < |s|
    ensures r.Some? ==> var (e, v) := r.value;
      && p + |tag| + 1 <= e && e + |attr| + 1 < v < |s| && IsQuote(s[v])
      && forall k :: e + |attr| + 1 <= k < v ==> !IsQuote(s[k])
  {
    if p + |tag| < |s| && s[p..p + |tag|] == tag && IsSpace(s[p + |tag|]) then
      match AttrAt(s, p + |tag| + 1, attr)
      case Some(e) => Some((e, FindQuote(s, e + |attr| + 1).value))
      case None => None
    else None
  }

  /** What an HTML pass emits at `i`, `${prefix}${rewritten}${suffix}` for a
      match and the character otherwise, and where it resumes. */
  function TagStep(s: string, i: nat, tag: string, attr: string): (r: (seq<Piece>, nat))
    requires i < |s|
    ensures i < r.1 <= |s|
  {
    match TagAt(s, i, tag, attr)
    case Some((e, v)) => ([Text(s[i..e + |attr| + 1]), Target(s[e + |attr| + 1..v]), Text([s[v]])], v + 1)
    case None => ([Text([s[i]])], i + 1)
  }

  /** An HTML pass. */
  function TagPieces(s: string, i: nat, tag: string, attr: string): seq<Piece>
    requires i <= |s|
    decreases |s| - i
  {
    if i == |s| then []
    else
      var (head, next) := TagStep(s, i, tag, attr);
      head + TagPieces(s, next, tag, attr)
  }

  // ---------------------------------------------------------------------
  // rewritePaths
  // ---------------------------------------------------------------------

  /** The two Markdown passes as the source runs them: the image pass, then
      the link pass over its output. */
  function MarkdownAsWritten(s: string, rw: string -> string): string {
    Render(LinkPieces(Render(ImagePieces(s, 0), rw), 0), rw)
  }

  /** One scan that tries an image first and a link second at every
      position, so that no target is handed to `rw` twice. */
  function MarkdownPieces(s: string, i: nat): seq<Piece>
    requires i <= |s|
    decreases |s| - i
  {
    if i == |s| then []
    else
      var (head, next) := MarkdownStep(s, i);
      head + MarkdownPieces(s, next)
  }

  /** What the fused scan emits at `i`, and where it resumes: an image if one
      starts here, otherwise what the link pass would emit. */
  function MarkdownStep(s: string, i: nat): (r: (seq<Piece>, nat))
    requires i < |s|
    ensures i < r.1 <= |s|
  {
    if ImageAt(s, i).Some? then ImageStep(s, i) else LinkStep(s, i)
  }

  /** The HTML passes, `<img src>` then `<a href>`, after the Markdown ones. */
  function HtmlPasses(s: string, rw: string -> string): string {
    var withImg := Render(TagPieces(s, 0, "<img", "src="), rw);
    Render(TagPieces(withImg, 0, "<a", "href="), rw)
  }

  /** The relative prefix from the output directory to the source directory,
      or nothing when the content is left as it is. */
  function RelativePrefix(sourceDir: AbsPath, outputDir: AbsPath): Option<string> {
    if sourceDir == outputDir then None
    else
      var prefix := Relative(outputDir, sourceDir);
      if prefix == "" then None else Some(prefix)
  }

  /** The callback every pass applies to a target. */
  function Rewriter(prefix: string): string -> string {
    h => RewriteSinglePath(h, prefix)
  }

  /** `rewritePaths` exactly as written: four `replace` passes in a row. */
  function RewritePathsAsWritten(content: string, sourceDir: AbsPath, outputDir: AbsPath): string {
    match RelativePrefix(sourceDir, outputDir)
    case None => content
    case Some(prefix) =>
      HtmlPasses(MarkdownAsWritten(content, Rewriter(prefix)), Rewriter(prefix))
  }

  /** `rewritePaths` with the two Markdown passes fused into one scan, so that
      each Markdown target is rewritten at most once. */
  function RewritePaths(content: string, sourceDir: AbsPath, outputDir: AbsPath): string {
    match RelativePrefix(sourceDir, outputDir)
    case None => content
    case Some(prefix) =>
      HtmlPasses(Render(MarkdownPieces(content, 0), Rewriter(prefix)), Rewriter(prefix))
  }

  /** When the content moves by `prefix`, both versions run their passes
      with the callback for that prefix. */
  lemma {:induction false} RewritePathsMoved(content: string, sourceDir: AbsPath, outputDir: AbsPath, prefix: string)
    requires RelativePrefix(sourceDir, outputDir) == Some(prefix)
    ensures RewritePaths(content, sourceDir, outputDir)
         == HtmlPasses(Render(MarkdownPieces(content, 0), Rewriter(prefix)), Rewriter(prefix))
    ensures RewritePathsAsWritten(content, sourceDir, outputDir)
         == HtmlPasses(MarkdownAsWritten(content, Rewriter(prefix)), Rewriter(prefix))
  {
  }

  /** Content is returned untouched when the directories coincide; for
      resolved directories that is also the only case with an empty prefix. */
  lemma {:induction false} RewritePathsSameDir(content: string, sourceDir: AbsPath, outputDir: AbsPath)
    requires Resolved(sourceDir) && Resolved(outputDir)
    ensures RelativePrefix(sourceDir, outputDir).None? <==> sourceDir == outputDir
    ensures sourceDir == outputDir ==> RewritePaths(content, sourceDir, outputDir) == content
  {
    RelativeEmptyIff(outputDir, sourceDir);
  }

  /** From an ancestor output directory the prefix is the source's remaining
      segments. */
  lemma {:induction false} PrefixFromAncestor(sourceDir: AbsPath, outputDir: AbsPath)
    requires Resolved(sourceDir) && Resolved(outputDir)
    requires |outputDir.segments| < |sourceDir.segments|
    requires sourceDir.segments[..|outputDir.segments|] == outputDir.segments
    ensures RelativePrefix(sourceDir, outputDir) == Some(Join(sourceDir.segments[|outputDir.segments|..], "/"))
  {
    RelativeFromAncestor(outputDir, sourceDir);
    RelativeEmptyIff(outputDir, sourceDir);
  }

  // ---------------------------------------------------------------------
  // Only targets change
  // ---------------------------------------------------------------------

  lemma {:induction false} RenderAppend(a: seq<Piece>, b: seq<Piece>, rw: string -> string)
    ensures Render(a + b, rw) == Render(a, rw) + Render(b, rw)
  {
    if a != [] {
      assert (a + b)[1..] == a[1..] + b;
      RenderAppend(a[1..], b, rw);
    } else {
      assert a + b == b;
    }
  }

  /** Rendering three pieces. */
  lemma {:induction false} RenderMatch(t1: string, target: string, t2: string, rest: seq<Piece>, rw: string -> string)
    ensures Render([Text(t1), Target(target), Text(t2)] + rest, rw) == t1 + rw(target) + t2 + Render(rest, rw)
  {
    var ps := [Text(t1), Target(target), Text(t2)] + rest;
    assert ps[1..] == [Target(target), Text(t2)] + rest;
    assert ps[1..][1..] == [Text(t2)] + rest;
    assert ps[1..][1..][1..] == rest;
    assert Render(ps[1..][1..], rw) == t2 + Render(rest, rw);
    assert Render(ps[1..], rw) == rw(target) + t2 + Render(rest, rw);
  }

  lemma {:induction false} RenderChar(c: char, rest: seq<Piece>, rw: string -> string)
    ensures Render([Text([c])] + rest, rw) == [c] + Render(rest, rw)
  {
    assert ([Text([c])] + rest)[1..] == rest;
  }

  /** A slice is the concatenation of its two halves. */
  lemma {:induction false} SliceSplit(s: string, a: nat, b: nat, c: nat)
    requires a <= b <= c <= |s|
    ensures s[a..c] == s[a..b] + s[b..c]
  {
  }

  /** The text the image pass emits around an unchanged target is the match. */
  lemma {:induction false} ImageText(s: string, i: nat, q: nat, e: nat)
    requires i + 1 < q && q + 2 < e < |s| && s[i] == '!' && s[i + 1] == '[' && s[q] == ']' && s[q + 1] == '(' && s[e] == ')'
    ensures "![" + s[i + 2..q] + "](" + s[q + 2..e] + ")" == s[i..e + 1]
  {
    SliceFive(s, i, i + 2, q, q + 2, e, e + 1);
    assert s[i..i + 2] == "![" && s[q..q + 2] == "](" && s[e..e + 1] == ")";
  }

  /** The same for the link pass. */
  lemma {:induction false} LinkText(s: string, i: nat, q: nat, e: nat)
    requires i < q && q + 2 < e < |s| && s[i] == '[' && s[q] == ']' && s[q + 1] == '(' && s[e] == ')'
    ensures "[" + s[i + 1..q] + "](" + s[q + 2..e] + ")" == s[i..e + 1]
  {
    SliceFive(s, i, i + 1, q, q + 2, e, e + 1);
    assert s[i..i + 1] == "[" && s[q..q + 2] == "](" && s[e..e + 1] == ")";
  }

  /** A slice cut at four inner points is the concatenation of the five
      pieces. */
  lemma {:induction false} SliceFive(s: string, a: nat, b: nat, c: nat, d: nat, e: nat, f: nat)
    requires a <= b <= c <= d <= e <= f <= |s|
    ensures s[a..f] == s[a..b] + s[b..c] + s[c..d] + s[d..e] + s[e..f]
  {
    SliceSplit(s, a, b, f);
    SliceSplit(s, b, c, f);
    SliceSplit(s, c, d, f);
    SliceSplit(s, d, e, f);
  }

  /** One step of a scan: the match (or the character) followed by the rest. */
  lemma {:induction false} ScanStep(s: string, i: nat, e: nat, head: string, rest: string)
    requires i <= e < |s|
    requires head == s[i..e + 1] && rest == s[e + 1..]
    ensures head + rest == s[i..]
  {
    SliceSplit(s, i, e + 1, |s|);
  }

  /** A character passed through renders back to itself. */
  lemma {:induction false} CharRender(s: string, i: nat)
    requires i < |s|
    ensures Render([Text([s[i]])], Identity) == s[i..i + 1]
  {
    RenderChar(s[i], [], Identity);
    assert [Text([s[i]])] + [] == [Text([s[i]])];
  }

  /** Pieces that render to the text up to `n`, followed by pieces that
      render to the rest, render to the text from `i` on. */
  lemma {:induction false} PiecesStep(s: string, i: nat, n: nat, head: seq<Piece>, rest: seq<Piece>, whole: seq<Piece>)
    requires i <= n <= |s| && whole == head + rest
    requires Render(head, Identity) == s[i..n] && Render(rest, Identity) == s[n..]
    ensures Render(whole, Identity) == s[i..]
  {
    RenderAppend(head, rest, Identity);
    SliceSplit(s, i, n, |s|);
  }

  /** A matched image renders back to the text it matched. */
  lemma {:induction false} ImageHeadRender(s: string, i: nat, q: nat, e: nat)
    requires i + 1 < q && q + 2 < e < |s| && s[i] == '!' && s[i + 1] == '[' && s[q] == ']' && s[q + 1] == '(' && s[e] == ')'
    ensures Render([Text("![" + s[i + 2..q] + "]("), Target(s[q + 2..e]), Text(")")], Identity) == s[i..e + 1]
  {
    ImageText(s, i, q, e);
    RenderMatch("![" + s[i + 2..q] + "](", s[q + 2..e], ")", [], Identity);
    assert [Text("![" + s[i + 2..q] + "]("), Target(s[q + 2..e]), Text(")")] + []
        == [Text("![" + s[i + 2..q] + "]("), Target(s[q + 2..e]), Text(")")];
  }

  /** A matched link renders back to the text it matched. */
  lemma {:induction false} LinkHeadRender(s: string, i: nat, q: nat, e: nat)
    requires i < q && q + 2 < e < |s| && s[i] == '[' && s[q] == ']' && s[q + 1] == '(' && s[e] == ')'
    ensures Render([Text("[" + s[i + 1..q] + "]("), Target(s[q + 2..e]), Text(")")], Identity) == s[i..e + 1]
  {
    LinkText(s, i, q, e);
    RenderMatch("[" + s[i + 1..q] + "](", s[q + 2..e], ")", [], Identity);
    assert [Text("[" + s[i + 1..q] + "]("), Target(s[q + 2..e]), Text(")")] + []
        == [Text("[" + s[i + 1..q] + "]("), Target(s[q + 2..e]), Text(")")];
  }

  /** A matched tag renders back to the text it matched. */
  lemma {:induction false} TagHeadRender(s: string, i: nat, a: nat, v: nat)
    requires i <= a <= v < |s|
    ensures Render([Text(s[i..a]), Target(s[a..v]), Text([s[v]])], Identity) == s[i..v + 1]
  {
    TagText(s, i, a, v);
    RenderMatch(s[i..a], s[a..v], [s[v]], [], Identity);
    assert [Text(s[i..a]), Target(s[a..v]), Text([s[v]])] + [] == [Text(s[i..a]), Target(s[a..v]), Text([s[v]])];
  }

  /** The image pass with the identity callback gives back its input: only
      targets can change, and the alt text and brackets are kept. */
  lemma {:induction false} ImagePiecesRoundTrip(s: string, i: nat)
    requires i <= |s|
    ensures Render(ImagePieces(s, i), Identity) == s[i..]
    decreases |s| - i
  {
    if i < |s| {
      var (head, next) := ImageStep(s, i);
      ImagePiecesRoundTrip(s, next);
      ImageStepRoundTrip(s, i);
      PiecesStep(s, i, next, head, ImagePieces(s, next), ImagePieces(s, i));
    }
  }

  lemma {:induction false} ImageStepRoundTrip(s: string, i: nat)
    requires i < |s|
    ensures Render(ImageStep(s, i).0, Identity) == s[i..ImageStep(s, i).1]
  {
    var m := ImageAt(s, i);
    if m.Some? {
      var (q, e) := m.value;
      assert ImageStep(s, i) == ([Text("![" + s[i + 2..q] + "]("), Target(s[q + 2..e]), Text(")")], e + 1);
      ImageHeadRender(s, i, q, e);
    } else {
      assert ImageStep(s, i) == ([Text([s[i]])], i + 1);
      CharRender(s, i);
    }
  }

  /** The same for the link pass. */
  lemma {:induction false} LinkPiecesRoundTrip(s: string, i: nat)
    requires i <= |s|
    ensures Render(LinkPieces(s, i), Identity) == s[i..]
    decreases |s| - i
  {
    if i < |s| {
      var (head, next) := LinkStep(s, i);
      LinkPiecesRoundTrip(s, next);
      LinkStepRoundTrip(s, i);
      PiecesStep(s, i, next, head, LinkPieces(s, next), LinkPieces(s, i));
    }
  }

  lemma {:induction false} LinkStepRoundTrip(s: string, i: nat)
    requires i < |s|
    ensures Render(LinkStep(s, i).0, Identity) == s[i..LinkStep(s, i).1]
  {
    var m := LinkAt(s, i);
    if m.Some? {
      var (q, e) := m.value;
      assert LinkStep(s, i) == ([Text("[" + s[i + 1..q] + "]("), Target(s[q + 2..e]), Text(")")], e + 1);
      LinkHeadRender(s, i, q, e);
    } else {
      assert LinkStep(s, i) == ([Text([s[i]])], i + 1);
      CharRender(s, i);
    }
  }

  /** The same for the fused Markdown scan. */
  lemma {:induction false} MarkdownPiecesRoundTrip(s: string, i: nat)
    requires i <= |s|
    ensures Render(MarkdownPieces(s, i), Identity) == s[i..]
    decreases |s| - i
  {
    if i < |s| {
      var step := MarkdownStep(s, i);
      MarkdownPiecesRoundTrip(s, step.1);
      MarkdownStepRoundTrip(s, i);
      RenderAppend(step.0, MarkdownPieces(s, step.1), Identity);
      SliceSplit(s, i, step.1, |s|);
    }
  }

  lemma {:induction false} MarkdownStepRoundTrip(s: string, i: nat)
    requires i < |s|
    ensures Render(MarkdownStep(s, i).0, Identity) == s[i..MarkdownStep(s, i).1]
  {
    if ImageAt(s, i).Some? {
      ImageStepRoundTrip(s, i);
    } else {
      LinkStepRoundTrip(s, i);
    }
  }

  /** The same for the HTML passes: the `<tag ... attr=` prefix and the
      quotes are kept. */
  lemma {:induction false} TagPiecesRoundTrip(s: string, i: nat, tag: string, attr: string)
    requires i <= |s|
    ensures Render(TagPieces(s, i, tag, attr), Identity) == s[i..]
    decreases |s| - i
  {
    if i < |s| {
      var (head, next) := TagStep(s, i, tag, attr);
      TagPiecesRoundTrip(s, next, tag, attr);
      TagStepRoundTrip(s, i, tag, attr);
      PiecesStep(s, i, next, head, TagPieces(s, next, tag, attr), TagPieces(s, i, tag, attr));
    }
  }

  lemma {:induction false} TagStepRoundTrip(s: string, i: nat, tag: string, attr: string)
    requires i < |s|
    ensures Render(TagStep(s, i, tag, attr).0, Identity) == s[i..TagStep(s, i, tag, attr).1]
  {
    var m := TagAt(s, i, tag, attr);
    if m.Some? {
      TagStepAtMatch(s, i, tag, attr, m.value.0, m.value.1);
    } else {
      assert TagStep(s, i, tag, attr) == ([Text([s[i]])], i + 1);
      CharRender(s, i);
    }
  }

  /** What an HTML pass emits where its tag matches. */
  lemma {:induction false} TagStepOfMatch(s: string, i: nat, tag: string, attr: string, e: nat, v: nat)
    requires i < |s| && TagAt(s, i, tag, attr) == Some((e, v))
    ensures e + |attr| + 1 <= v < |s|
    ensures TagStep(s, i, tag, attr) == ([Text(s[i..e + |attr| + 1]), Target(s[e + |attr| + 1..v]), Text([s[v]])], v + 1)
  {
  }

  lemma {:induction false} TagStepAtMatch(s: string, i: nat, tag: string, attr: string, e: nat, v: nat)
    requires i < |s| && TagAt(s, i, tag, attr) == Some((e, v))
    ensures Render(TagStep(s, i, tag, attr).0, Identity) == s[i..TagStep(s, i, tag, attr).1]
  {
    var a := e + |attr| + 1;
    assert TagStep(s, i, tag, attr) == ([Text(s[i..a]), Target(s[a..v]), Text([s[v]])], v + 1);
    TagHeadRender(s, i, a, v);
  }

  lemma {:induction false} TagText(s: string, i: nat, a: nat, v: nat)
    requires i <= a <= v < |s|
    ensures s[i..a] + s[a..v] + [s[v]] == s[i..v + 1]
  {
    SliceSplit(s, i, a, v);
    SliceSplit(s, i, v, v + 1);
    assert s[v..v + 1] == [s[v]];
  }

  /** With a callback that changes nothing, all four passes give back the
      content: everything outside the targets is preserved. */
  lemma {:induction false} RewritePassesPreserveText(content: string)
    ensures HtmlPasses(Render(MarkdownPieces(content, 0), Identity), Identity) == content
    ensures HtmlPasses(MarkdownAsWritten(content, Identity), Identity) == content
  {
    MarkdownPiecesRoundTrip(content, 0);
    ImagePiecesRoundTrip(content, 0);
    assert content[0..] == content;
    LinkPiecesRoundTrip(content, 0);
    TagPiecesRoundTrip(content, 0, "<img", "src=");
    TagPiecesRoundTrip(content, 0, "<a", "href=");
  }

  // ---------------------------------------------------------------------
  // Single occurrences
  // ---------------------------------------------------------------------

  lemma {:induction false} FindFromFirst(s: string, i: nat, x: char, v: nat)
    requires i <= v < |s| && s[v] == x
    requires forall k :: i <= k < v ==> s[k] != x
    ensures FindFrom(s, i, x) == Some(v)
  {
  }

  /** `[text](href)` starting at `p` of `s`, with the bracketed text free of
      `]` and a non-empty target free of `)`, is matched exactly. */
  lemma {:induction false} BracketOfOne(s: string, p: nat, text: string, href: string)
    requires ']' !in text && ')' !in href && href != []
    requires p + |text| + |href| + 4 <= |s|
    requires s[p..p + |text| + |href| + 4] == "[" + text + "](" + href + ")"
    ensures BracketAt(s, p) == Some((p + 1 + |text|, p + 3 + |text| + |href|))
    ensures s[p + 1..p + 1 + |text|] == text
    ensures s[p + 3 + |text|..p + 3 + |text| + |href|] == href
  {
    BracketParts(s, p, text, href);
    BracketFromParts(s, p, p + 1 + |text|, p + 3 + |text| + |href|);
  }

  /** Where the pieces of `[text](href)` sit once it is found at `p`. */
  lemma {:induction false} BracketParts(s: string, p: nat, text: string, href: string)
    requires p + |text| + |href| + 4 <= |s|
    requires s[p..p + |text| + |href| + 4] == "[" + text + "](" + href + ")"
    ensures var q, e := p + 1 + |text|, p + 3 + |text| + |href|;
      && s[p] == '[' && s[q] == ']' && s[q + 1] == '(' && s[e] == ')'
      && s[p + 1..q] == text && s[q + 2..e] == href
  {
    var m := "[" + text + "](" + href + ")";
    var q, e := p + 1 + |text|, p + 3 + |text| + |href|;
    var w := s[p..e + 1];
    assert w == m;
    assert s[p] == w[0] == '[';
    assert s[q] == w[q - p] == ']';
    assert s[q + 1] == w[q + 1 - p] == '(';
    assert s[e] == w[e - p] == ')';
    SliceOfSlice(s, p, e + 1, 1, q - p);
    SliceOfSlice(s, p, e + 1, q + 2 - p, e - p);
    assert m[1..q - p] == text by {
      forall j | 0 <= j < |text| ensures m[1..q - p][j] == text[j] { assert m[1 + j] == text[j]; }
    }
    assert m[q + 2 - p..e - p] == href by {
      forall j | 0 <= j < |href| ensures m[q + 2 - p..e - p][j] == href[j] { assert m[q + 2 - p + j] == href[j]; }
    }
  }

  /** The characters of a bracket match found at `p` make `BracketAt` find it. */
  lemma {:induction false} BracketFromParts(s: string, p: nat, q: nat, e: nat)
    requires p < q && q + 2 < e < |s|
    requires s[p] == '[' && s[q] == ']' && s[q + 1] == '(' && s[e] == ')'
    requires ']' !in s[p + 1..q] && ')' !in s[q + 2..e]
    ensures BracketAt(s, p) == Some((q, e))
  {
    forall k | p + 1 <= k < q
      ensures s[k] != ']'
    {
      assert s[k] == s[p + 1..q][k - p - 1];
    }
    forall k | q + 2 <= k < e
      ensures s[k] != ')'
    {
      assert s[k] == s[q + 2..e][k - q - 2];
    }
    FindFromFirst(s, p + 1, ']', q);
    FindFromFirst(s, q + 2, ')', e);
  }

  /** A document that is a single image: the image pass hands its target to
      the callback and keeps the rest. */
  lemma {:induction false} ImagePassOfOne(alt: string, href: string, rw: string -> string)
    requires ']' !in alt && ')' !in href && href != []
    ensures Render(ImagePieces("![" + alt + "](" + href + ")", 0), rw) == "![" + alt + "](" + rw(href) + ")"
  {
    var s := "![" + alt + "](" + href + ")";
    assert s[1..] == "[" + alt + "](" + href + ")";
    BracketOfOne(s, 1, alt, href);
    var q := 2 + |alt|;
    var e := 4 + |alt| + |href|;
    assert ImageAt(s, 0) == Some((q, e));
    assert ImagePieces(s, e + 1) == [];
    assert ImagePieces(s, 0) == [Text("![" + alt + "]("), Target(href), Text(")")] + [];
    RenderMatch("![" + alt + "](", href, ")", [], rw);
  }

  /** With the fused scan a document that is a single image has its target
      handed to the callback once; the alt text is kept whatever brackets it
      holds. */
  lemma {:induction false} ImageRewrittenOnce(alt: string, href: string, rw: string -> string)
    requires ']' !in alt && ')' !in href && href != []
    ensures Render(MarkdownPieces("![" + alt + "](" + href + ")", 0), rw) == "![" + alt + "](" + rw(href) + ")"
  {
    var s := "![" + alt + "](" + href + ")";
    assert s[1..] == "[" + alt + "](" + href + ")";
    BracketOfOne(s, 1, alt, href);
    var q := 2 + |alt|;
    var e := 4 + |alt| + |href|;
    assert ImageAt(s, 0) == Some((q, e));
    assert ImageStep(s, 0) == ([Text("![" + alt + "]("), Target(href), Text(")")], e + 1);
    assert MarkdownStep(s, 0) == ([Text("![" + alt + "]("), Target(href), Text(")")], e + 1);
    assert MarkdownPieces(s, e + 1) == [];
    assert MarkdownPieces(s, 0) == [Text("![" + alt + "]("), Target(href), Text(")")] + [];
    RenderMatch("![" + alt + "](", href, ")", [], rw);
  }

  /** A document that is a single link: its target is handed to the callback
      once and the link text is kept. */
  lemma {:induction false} LinkRewrittenOnce(text: string, href: string, rw: string -> string)
    requires ']' !in text && ')' !in href && href != []
    ensures Render(MarkdownPieces("[" + text + "](" + href + ")", 0), rw) == "[" + text + "](" + rw(href) + ")"
  {
    var s := "[" + text + "](" + href + ")";
    assert s[0..] == s;
    BracketOfOne(s, 0, text, href);
    var q := 1 + |text|;
    var e := 3 + |text| + |href|;
    assert ImageAt(s, 0).None?;
    assert LinkAt(s, 0) == Some((q, e));
    assert LinkStep(s, 0) == ([Text("[" + text + "]("), Target(href), Text(")")], e + 1);
    assert MarkdownStep(s, 0) == ([Text("[" + text + "]("), Target(href), Text(")")], e + 1);
    assert MarkdownPieces(s, e + 1) == [];
    assert MarkdownPieces(s, 0) == [Text("[" + text + "]("), Target(href), Text(")")] + [];
    RenderMatch("[" + text + "](", href, ")", [], rw);
  }

  /** Text without `<` goes through an HTML pass unchanged. */
  lemma {:induction false} TagPiecesWithoutTag(s: string, i: nat, tag: string, attr: string, rw: string -> string)
    requires i <= |s| && '<' !in s
    requires tag != [] && tag[0] == '<'
    ensures Render(TagPieces(s, i, tag, attr), rw) == s[i..]
    decreases |s| - i
  {
    if i < |s| {
      assert s[i] != '<';
      assert TagAt(s, i, tag, attr).None?;
      var rest := TagPieces(s, i + 1, tag, attr);
      assert TagPieces(s, i, tag, attr) == [Text([s[i]])] + rest;
      TagPiecesWithoutTag(s, i + 1, tag, attr, rw);
      RenderChar(s[i], rest, rw);
      ScanStep(s, i, i, [s[i]], s[i + 1..]);
    }
  }

  lemma {:induction false} HtmlPassesWithoutTag(s: string, rw: string -> string)
    requires '<' !in s
    ensures HtmlPasses(s, rw) == s
  {
    TagPiecesWithoutTag(s, 0, "<img", "src=", rw);
    assert s[0..] == s;
    TagPiecesWithoutTag(s, 0, "<a", "href=", rw);
  }

  /** Text where no tag match starts goes through an HTML pass unchanged. */
  lemma {:induction false} TagPiecesNoMatch(s: string, i: nat, tag: string, attr: string, rw: string -> string)
    requires i <= |s|
    requires forall p :: i <= p < |s| ==> TagAt(s, p, tag, attr).None?
    ensures Render(TagPieces(s, i, tag, attr), rw) == s[i..]
    decreases |s| - i
  {
    if i < |s| {
      assert TagAt(s, i, tag, attr).None?;
      TagPiecesNoMatch(s, i + 1, tag, attr, rw);
      TagPiecesSkip(s, i, tag, attr, rw);
    }
  }

  /** Where no tag starts, the pass copies the character and goes on. */
  lemma {:induction false} TagPiecesSkip(s: string, i: nat, tag: string, attr: string, rw: string -> string)
    requires i < |s| && TagAt(s, i, tag, attr).None?
    requires Render(TagPieces(s, i + 1, tag, attr), rw) == s[i + 1..]
    ensures Render(TagPieces(s, i, tag, attr), rw) == s[i..]
  {
    var rest := TagPieces(s, i + 1, tag, attr);
    assert TagPieces(s, i, tag, attr) == [Text([s[i]])] + rest;
    RenderChar(s[i], rest, rw);
    ScanStep(s, i, i, [s[i]], s[i + 1..]);
  }

  /** A tag such as `<img` cannot start where the text has no `<`, or a `<`
      followed by a different character. */
  lemma {:induction false} NoTagAt(s: string, p: nat, tag: string, attr: string)
    requires p < |s| && |tag| >= 2 && tag[0] == '<'
    requires s[p] != '<' || (p + 1 < |s| && s[p + 1] != tag[1])
    ensures TagAt(s, p, tag, attr).None?
  {
    if p + |tag| < |s| {
      assert s[p..p + |tag|][0] == s[p] && s[p..p + |tag|][1] == s[p + 1];
    }
  }

  /** Text without quote characters, which would end an attribute value. */
  predicate QuoteFree(s: string) {
    forall k :: 0 <= k < |s| ==> !IsQuote(s[k])
  }

  /** Every `<` opens a closing tag such as `</a>`. */
  predicate ClosingOnly(s: string) {
    forall k :: 0 <= k < |s| && s[k] == '<' ==> k + 1 < |s| && s[k + 1] == '/'
  }

  /** `<tag attr"value">` followed by `tail`, as in `<a href="./page.md">link</a>`. */
  function Element(tag: string, attr: string, value: string, tail: string): (r: string)
    ensures |r| == |tag| + |attr| + |value| + 4 + |tail|
  {
    tag + " " + attr + "\"" + value + "\">" + tail
  }

  /** Where each part of an element sits. */
  lemma {:induction false} ElementSlices(tag: string, attr: string, v: string, t: string)
    ensures var s, n, m := Element(tag, attr, v, t), |tag|, |attr|;
      && |s| == n + m + |v| + 4 + |t|
      && s[..n] == tag && s[n] == ' ' && s[n + 1..n + 1 + m] == attr && s[n + 1 + m] == '"'
      && s[n + 2 + m..n + 2 + m + |v|] == v && s[n + 2 + m + |v|] == '"' && s[n + 3 + m + |v|] == '>'
      && s[n + 3 + m + |v|..] == ">" + t
      && s[..n + 2 + m] == tag + " " + attr + "\""
  {
    var s := Element(tag, attr, v, t);
    var a := tag + " " + attr + "\"";
    assert s == a + v + "\">" + t;
    assert a[..|tag|] == tag;
  }

  /** The character at each position of an element. */
  lemma {:induction false} ElementChar(tag: string, attr: string, v: string, t: string, q: nat)
    requires q < |Element(tag, attr, v, t)|
    ensures var s, n, m := Element(tag, attr, v, t), |tag|, |attr|;
      && (q < n ==> s[q] == tag[q])
      && (q == n ==> s[q] == ' ')
      && (n < q < n + 1 + m ==> s[q] == attr[q - n - 1])
      && (q == n + 1 + m ==> s[q] == '"')
      && (n + 1 + m < q < n + 2 + m + |v| ==> s[q] == v[q - n - 2 - m])
      && (q == n + 2 + m + |v| ==> s[q] == '"')
      && (q == n + 3 + m + |v| ==> s[q] == '>')
      && (q > n + 3 + m + |v| ==> s[q] == t[q - n - 4 - m - |v|])
  {
    var a := tag + " " + attr + "\"";
    assert Element(tag, attr, v, t) == a + v + "\">" + t;
  }

  /** An element with plain parts has no quote but the two around its value. */
  lemma {:induction false} ElementNonQuote(tag: string, attr: string, v: string, t: string, q: nat)
    requires QuoteFree(tag) && QuoteFree(attr) && QuoteFree(v) && QuoteFree(t)
    requires q < |Element(tag, attr, v, t)|
    requires q != |tag| + 1 + |attr| && q != |tag| + 2 + |attr| + |v|
    ensures !IsQuote(Element(tag, attr, v, t)[q])
  {
    ElementChar(tag, attr, v, t, q);
  }

  lemma {:induction false} FindQuoteFirst(s: string, i: nat, v: nat)
    requires i <= v < |s| && IsQuote(s[v])
    requires forall k :: i <= k < v ==> !IsQuote(s[k])
    ensures FindQuote(s, i) == Some(v)
  {
  }

  /** The value of an element runs to the next quote. */
  lemma {:induction false} ElementFindQuote(tag: string, attr: string, v: string, t: string)
    requires QuoteFree(tag) && QuoteFree(attr) && QuoteFree(v) && QuoteFree(t)
    ensures FindQuote(Element(tag, attr, v, t), |tag| + |attr| + 2) == Some(|tag| + |attr| + |v| + 2)
  {
    var s, n, m := Element(tag, attr, v, t), |tag|, |attr|;
    ElementSlices(tag, attr, v, t);
    forall k | n + m + 2 <= k < n + m + |v| + 2
      ensures !IsQuote(s[k])
    {
      ElementNonQuote(tag, attr, v, t, k);
    }
    FindQuoteFirst(s, n + m + 2, n + m + |v| + 2);
  }

  /** The attribute of an element matches right after the tag name. */
  lemma {:induction false} ElementAttrMatch(tag: string, attr: string, v: string, t: string)
    requires QuoteFree(tag) && QuoteFree(attr) && QuoteFree(v) && QuoteFree(t) && v != []
    ensures AttrMatch(Element(tag, attr, v, t), |tag| + 1, attr)
  {
    ElementSlices(tag, attr, v, t);
    ElementFindQuote(tag, attr, v, t);
  }

  /** The attribute of an element is found right after the tag name. */
  lemma {:induction false} ElementAttr(tag: string, attr: string, v: string, t: string)
    requires QuoteFree(tag) && QuoteFree(attr) && QuoteFree(v) && QuoteFree(t) && v != []
    ensures AttrAt(Element(tag, attr, v, t), |tag| + 1, attr) == Some(|tag| + 1)
  {
    var s, n := Element(tag, attr, v, t), |tag|;
    ElementAttrMatch(tag, attr, v, t);
    assert NoCloseBetween(s, n + 1, n + 1);
    forall e: nat | n + 1 < e
      ensures !AttrMatch(s, e, attr)
    {
      ElementNoLaterAttr(tag, attr, v, t, e);
    }
  }

  /** No attribute match starts after the element's own: the closing quote
      is the last quote of the text. */
  lemma {:induction false} ElementNoLaterAttr(tag: string, attr: string, v: string, t: string, e: nat)
    requires QuoteFree(tag) && QuoteFree(attr) && QuoteFree(v) && QuoteFree(t)
    requires e > |tag| + 1
    ensures !AttrMatch(Element(tag, attr, v, t), e, attr)
  {
    var s, n, m := Element(tag, attr, v, t), |tag|, |attr|;
    forall q: nat | q < |s| && q != n + 1 + m && q != n + 2 + m + |v|
      ensures !IsQuote(s[q])
    {
      ElementNonQuote(tag, attr, v, t, q);
    }
  }

  /** An element's own tag matches at its start. */
  lemma {:induction false} ElementTagAt(tag: string, attr: string, v: string, t: string)
    requires QuoteFree(tag) && QuoteFree(attr) && QuoteFree(v) && QuoteFree(t) && v != []
    ensures TagAt(Element(tag, attr, v, t), 0, tag, attr) == Some((|tag| + 1, |tag| + |attr| + |v| + 2))
  {
    var s, n := Element(tag, attr, v, t), |tag|;
    ElementSlices(tag, attr, v, t);
    ElementAttr(tag, attr, v, t);
    ElementFindQuote(tag, attr, v, t);
    assert s[0..n] == tag && IsSpace(s[n]);
    TagAtStart(s, tag, attr, n + 1, n + |attr| + |v| + 2);
  }

  /** The tag matches at the start when the text opens with it and a space,
      and the attribute and the closing quote are found after it. */
  lemma {:induction false} TagAtStart(s: string, tag: string, attr: string, e: nat, q: nat)
    requires |tag| < |s| && s[0..|tag|] == tag && IsSpace(s[|tag|])
    requires AttrAt(s, |tag| + 1, attr) == Some(e) && FindQuote(s, e + |attr| + 1) == Some(q)
    ensures TagAt(s, 0, tag, attr) == Some((e, q))
  {
  }

  /** No tag of the kind `tag` starts in an element's `>` and tail. */
  lemma {:induction false} ElementTailNoTag(tag: string, attr: string, v: string, t: string, p: nat)
    requires |tag| >= 2 && tag[0] == '<' && tag[1] != '/' && ClosingOnly(t)
    requires |tag| + |attr| + |v| + 3 <= p < |Element(tag, attr, v, t)|
    ensures TagAt(Element(tag, attr, v, t), p, tag, attr).None?
  {
    var s := Element(tag, attr, v, t);
    ElementChar(tag, attr, v, t, p);
    if p + 1 < |s| {
      ElementChar(tag, attr, v, t, p + 1);
    }
    NoTagAt(s, p, tag, attr);
  }

  /** An HTML pass over one element of its own kind hands its value to `rw`
      and leaves the rest of the text as it is. */
  lemma {:induction false} TagPassOfElement(tag: string, attr: string, v: string, t: string, rw: string -> string)
    requires QuoteFree(tag) && QuoteFree(attr) && QuoteFree(v) && QuoteFree(t) && v != []
    requires |tag| >= 2 && tag[0] == '<' && tag[1] != '/' && ClosingOnly(t)
    ensures Render(TagPieces(Element(tag, attr, v, t), 0, tag, attr), rw) == Element(tag, attr, rw(v), t)
  {
    ElementPiecesHead(tag, attr, v, t, rw);
    ElementPiecesTail(tag, attr, v, t, rw);
    ElementRegroup(tag, attr, rw(v), t);
  }

  lemma {:induction false} ElementRegroup(tag: string, attr: string, v: string, t: string)
    ensures Element(tag, attr, v, t) == (tag + " " + attr + "\"") + v + "\"" + (">" + t)
  {
    assert "\">" + t == "\"" + (">" + t);
  }

  lemma {:induction false} TagPiecesUnfold(s: string, i: nat, tag: string, attr: string)
    requires i < |s|
    ensures TagPieces(s, i, tag, attr) == TagStep(s, i, tag, attr).0 + TagPieces(s, TagStep(s, i, tag, attr).1, tag, attr)
  {
  }

  /** The pass cuts the element's tag, attribute and value off its front. */
  lemma {:induction false} ElementPiecesHead(tag: string, attr: string, v: string, t: string, rw: string -> string)
    requires QuoteFree(tag) && QuoteFree(attr) && QuoteFree(v) && QuoteFree(t) && v != []
    ensures var s := Element(tag, attr, v, t);
      |tag| + |attr| + |v| + 3 <= |s| &&
      Render(TagPieces(s, 0, tag, attr), rw)
      == (tag + " " + attr + "\"") + rw(v) + "\"" + Render(TagPieces(s, |tag| + |attr| + |v| + 3, tag, attr), rw)
  {
    var s, g := Element(tag, attr, v, t), |tag| + |attr| + |v| + 3;
    var head := tag + " " + attr + "\"";
    ElementTagStep(tag, attr, v, t);
    TagPiecesOfStep(s, tag, attr, [Text(head), Target(v), Text("\"")], g);
    RenderMatch(head, v, "\"", TagPieces(s, g, tag, attr), rw);
  }

  /** A pass is its first step followed by the pass from where that step
      ends. */
  lemma {:induction false} TagPiecesOfStep(s: string, tag: string, attr: string, ps: seq<Piece>, g: nat)
    requires 0 < |s| && TagStep(s, 0, tag, attr) == (ps, g)
    ensures g <= |s| && TagPieces(s, 0, tag, attr) == ps + TagPieces(s, g, tag, attr)
  {
    TagPiecesUnfold(s, 0, tag, attr);
  }

  /** After the value, the pass keeps the element's `>` and tail as they are. */
  lemma {:induction false} ElementPiecesTail(tag: string, attr: string, v: string, t: string, rw: string -> string)
    requires |tag| >= 2 && tag[0] == '<' && tag[1] != '/' && ClosingOnly(t)
    ensures var s := Element(tag, attr, v, t);
      |tag| + |attr| + |v| + 3 <= |s| &&
      Render(TagPieces(s, |tag| + |attr| + |v| + 3, tag, attr), rw) == ">" + t
  {
    var s := Element(tag, attr, v, t);
    var g := |tag| + |attr| + |v| + 3;
    ElementSlices(tag, attr, v, t);
    forall p | g <= p < |s|
      ensures TagAt(s, p, tag, attr).None?
    {
      ElementTailNoTag(tag, attr, v, t, p);
    }
    TagPiecesNoMatch(s, g, tag, attr, rw);
  }

  /** What an HTML pass emits for an element of its own kind. */
  lemma {:induction false} ElementTagStep(tag: string, attr: string, v: string, t: string)
    requires QuoteFree(tag) && QuoteFree(attr) && QuoteFree(v) && QuoteFree(t) && v != []
    ensures TagStep(Element(tag, attr, v, t), 0, tag, attr)
         == ([Text(tag + " " + attr + "\""), Target(v), Text("\"")], |tag| + |attr| + |v| + 3)
  {
    var s, head := Element(tag, attr, v, t), tag + " " + attr + "\"";
    assert |head| == |tag| + |attr| + 2;
    ElementTagAt(tag, attr, v, t);
    ElementRegroup(tag, attr, v, t);
    StepOfHead(s, tag, attr, head, v, ">" + t, |tag| + 1, |head| + |v|);
  }

  /** Where the tag matches at the start of `head`, value and quote, the step
      cuts those three pieces. */
  lemma {:induction false} StepOfHead(s: string, tag: string, attr: string, head: string, v: string, rest: string, e: nat, q: nat)
    requires s == head + v + "\"" + rest && e + |attr| + 1 == |head| && q == |head| + |v|
    requires TagAt(s, 0, tag, attr) == Some((e, q))
    ensures TagStep(s, 0, tag, attr) == ([Text(head), Target(v), Text("\"")], q + 1)
  {
    TagStepOfMatch(s, 0, tag, attr, e, q);
    MatchPieces(s, head, v, rest, e + |attr| + 1, q);
  }

  /** The pieces cut from a text made of a head, a value and a closing
      quote are exactly those three. */
  lemma {:induction false} MatchPieces(s: string, head: string, v: string, rest: string, a: nat, q: nat)
    requires s == head + v + "\"" + rest && a == |head| && q == |head| + |v|
    ensures a <= q < |s|
    ensures [Text(s[0..a]), Target(s[a..q]), Text([s[q]])] == [Text(head), Target(v), Text("\"")]
  {
    assert s[0..a] == head;
    assert s[a..q] == v;
    assert s[q] == '"';
  }

  /** An HTML pass for another tag finds nothing in an element whose tag
      and value differ from it at their first `<`. */
  lemma {:induction false} OtherTagPass(tag: string, attr: string, v: string, t: string, other: string, oattr: string, rw: string -> string)
    requires |tag| >= 2 && tag[0] == '<' && '<' !in tag[1..] && '<' !in attr && '<' !in v && ClosingOnly(t)
    requires |other| >= 2 && other[0] == '<' && other[1] != tag[1] && other[1] != '/'
    ensures Render(TagPieces(Element(tag, attr, v, t), 0, other, oattr), rw) == Element(tag, attr, v, t)
  {
    var s := Element(tag, attr, v, t);
    forall p | 0 <= p < |s|
      ensures TagAt(s, p, other, oattr).None?
    {
      OtherTagAt(tag, attr, v, t, other, oattr, p);
    }
    TagPiecesNoMatch(s, 0, other, oattr, rw);
    assert s[0..] == s;
  }

  lemma {:induction false} OtherTagAt(tag: string, attr: string, v: string, t: string, other: string, oattr: string, p: nat)
    requires |tag| >= 2 && tag[0] == '<' && '<' !in tag[1..] && '<' !in attr && '<' !in v && ClosingOnly(t)
    requires |other| >= 2 && other[0] == '<' && other[1] != tag[1] && other[1] != '/'
    requires p < |Element(tag, attr, v, t)|
    ensures TagAt(Element(tag, attr, v, t), p, other, oattr).None?
  {
    var s := Element(tag, attr, v, t);
    ElementChar(tag, attr, v, t, p);
    if 0 < p < |tag| {
      assert tag[p] == tag[1..][p - 1];
    }
    if p + 1 < |s| {
      ElementChar(tag, attr, v, t, p + 1);
    }
    NoTagAt(s, p, other, oattr);
  }

  /** Text without `[` goes through the Markdown scan unchanged. */
  lemma {:induction false} MarkdownPiecesWithoutBracket(s: string, i: nat, rw: string -> string)
    requires i <= |s| && '[' !in s
    ensures Render(MarkdownPieces(s, i), rw) == s[i..]
    decreases |s| - i
  {
    if i < |s| {
      MarkdownPiecesWithoutBracket(s, i + 1, rw);
      PlainPiecesStep(s, i, rw);
    }
  }

  /** Where neither this character nor the next is `[`, the scan copies the
      character and goes on. */
  lemma {:induction false} PlainPiecesStep(s: string, i: nat, rw: string -> string)
    requires i < |s| && s[i] != '[' && (i + 1 < |s| ==> s[i + 1] != '[')
    requires Render(MarkdownPieces(s, i + 1), rw) == s[i + 1..]
    ensures Render(MarkdownPieces(s, i), rw) == s[i..]
  {
    var rest := MarkdownPieces(s, i + 1);
    assert MarkdownPieces(s, i) == [Text([s[i]])] + rest by {
      PlainStep(s, i);
    }
    RenderChar(s[i], rest, rw);
    ScanStep(s, i, i, [s[i]], s[i + 1..]);
  }

  /** Where neither this character nor the next is `[`, the fused scan
      passes one character through. */
  lemma {:induction false} PlainStep(s: string, i: nat)
    requires i < |s| && s[i] != '[' && (i + 1 < |s| ==> s[i + 1] != '[')
    ensures MarkdownStep(s, i) == ([Text([s[i]])], i + 1)
  {
    assert ImageAt(s, i).None?;
    assert LinkAt(s, i).None?;
  }

  /** An element's characters come from its parts and the fixed ones. */
  lemma {:induction false} ElementChars(tag: string, attr: string, v: string, t: string, c: char)
    requires c != ' ' && c != '"' && c != '>'
    requires c !in tag && c !in attr && c !in v && c !in t
    ensures c !in Element(tag, attr, v, t)
  {
  }

  /** The HTML passes over `<img src="value">tail`: the image pass rewrites
      the value and the link pass leaves the result alone. */
  lemma {:induction false} HtmlPassesOfImgElement(v: string, t: string, rw: string -> string)
    requires QuoteFree(v) && QuoteFree(t) && v != [] && ClosingOnly(t) && '<' !in rw(v)
    ensures HtmlPasses(Element("<img", "src=", v, t), rw) == Element("<img", "src=", rw(v), t)
  {
    TagPassOfElement("<img", "src=", v, t, rw);
    assert "<img"[1..] == "img";
    OtherTagPass("<img", "src=", rw(v), t, "<a", "href=", rw);
  }

  /** The HTML passes over `<a href="value">tail`: the image pass leaves it
      alone and the link pass rewrites the value. */
  lemma {:induction false} HtmlPassesOfAnchorElement(v: string, t: string, rw: string -> string)
    requires QuoteFree(v) && QuoteFree(t) && v != [] && ClosingOnly(t) && '<' !in v
    ensures HtmlPasses(Element("<a", "href=", v, t), rw) == Element("<a", "href=", rw(v), t)
  {
    var s := Element("<a", "href=", v, t);
    assert "<a"[1..] == "a";
    assert QuoteFree("<a") && QuoteFree("href=");
    OtherTagPass("<a", "href=", v, t, "<img", "src=", rw);
    assert Render(TagPieces(s, 0, "<img", "src="), rw) == s;
    TagPassOfElement("<a", "href=", v, t, rw);
  }

  /** `<img src="value">tail`, moved by `prefix`: the value is rewritten
      once, by the passes as written and by the fused scan. */
  lemma {:induction false} RewritePathsOfImgElement(v: string, t: string, sourceDir: AbsPath, outputDir: AbsPath, prefix: string)
    requires RelativePrefix(sourceDir, outputDir) == Some(prefix)
    requires QuoteFree(v) && QuoteFree(t) && v != [] && ClosingOnly(t) && '[' !in v && '[' !in t
    requires '<' !in RewriteSinglePath(v, prefix)
    ensures RewritePathsAsWritten(Element("<img", "src=", v, t), sourceDir, outputDir)
         == Element("<img", "src=", RewriteSinglePath(v, prefix), t)
    ensures RewritePaths(Element("<img", "src=", v, t), sourceDir, outputDir)
         == Element("<img", "src=", RewriteSinglePath(v, prefix), t)
  {
    var s := Element("<img", "src=", v, t);
    RewritePathsMoved(s, sourceDir, outputDir, prefix);
    ElementChars("<img", "src=", v, t, '[');
    RewritePathsAgreeWithoutBracket(s, sourceDir, outputDir);
    MarkdownPiecesWithoutBracket(s, 0, Rewriter(prefix));
    assert s[0..] == s;
    HtmlPassesOfImgElement(v, t, Rewriter(prefix));
  }

  /** `<a href="value">tail`, moved by `prefix`: the value is rewritten
      once, by the passes as written and by the fused scan. */
  lemma {:induction false} RewritePathsOfAnchorElement(v: string, t: string, sourceDir: AbsPath, outputDir: AbsPath, prefix: string)
    requires RelativePrefix(sourceDir, outputDir) == Some(prefix)
    requires QuoteFree(v) && QuoteFree(t) && v != [] && ClosingOnly(t) && '[' !in v && '[' !in t && '<' !in v
    ensures RewritePathsAsWritten(Element("<a", "href=", v, t), sourceDir, outputDir)
         == Element("<a", "href=", RewriteSinglePath(v, prefix), t)
    ensures RewritePaths(Element("<a", "href=", v, t), sourceDir, outputDir)
         == Element("<a", "href=", RewriteSinglePath(v, prefix), t)
  {
    var s := Element("<a", "href=", v, t);
    RewritePathsMoved(s, sourceDir, outputDir, prefix);
    ElementChars("<a", "href=", v, t, '[');
    RewritePathsAgreeWithoutBracket(s, sourceDir, outputDir);
    MarkdownPiecesWithoutBracket(s, 0, Rewriter(prefix));
    assert s[0..] == s;
    HtmlPassesOfAnchorElement(v, t, Rewriter(prefix));
  }

  /** A document that is a single image, moved by `prefix`: only its target
      is rewritten, once, by the passes as written and by the fused scan
      alike, as long as no `[` lies inside the image. */
  lemma {:induction false} RewritePathsOfImage(alt: string, href: string, sourceDir: AbsPath, outputDir: AbsPath, prefix: string)
    requires RelativePrefix(sourceDir, outputDir) == Some(prefix)
    requires ']' !in alt && ')' !in href && href != []
    requires '<' !in alt && '<' !in RewriteSinglePath(href, prefix)
    requires '[' !in alt && '[' !in RewriteSinglePath(href, prefix)
    ensures RewritePathsAsWritten("![" + alt + "](" + href + ")", sourceDir, outputDir)
         == "![" + alt + "](" + RewriteSinglePath(href, prefix) + ")"
    ensures RewritePaths("![" + alt + "](" + href + ")", sourceDir, outputDir)
         == "![" + alt + "](" + RewriteSinglePath(href, prefix) + ")"
  {
    var rw := Rewriter(prefix);
    var md := "![" + alt + "](" + RewriteSinglePath(href, prefix) + ")";
    FusedRewriteOfImage(alt, href, sourceDir, outputDir, prefix);
    assert rw(href) == RewriteSinglePath(href, prefix);
    ImageAsWrittenOnce(alt, href, rw);
    assert HtmlPasses(md, rw) == md by {
      NoTagInImage(alt, RewriteSinglePath(href, prefix));
      HtmlPassesWithoutTag(md, rw);
    }
    RewritePathsMoved("![" + alt + "](" + href + ")", sourceDir, outputDir, prefix);
  }

  /** The fused scan on a single image rewrites its target once, whatever
      brackets the alt text holds. */
  lemma {:induction false} FusedRewriteOfImage(alt: string, href: string, sourceDir: AbsPath, outputDir: AbsPath, prefix: string)
    requires RelativePrefix(sourceDir, outputDir) == Some(prefix)
    requires ']' !in alt && ')' !in href && href != []
    requires '<' !in alt && '<' !in RewriteSinglePath(href, prefix)
    ensures RewritePaths("![" + alt + "](" + href + ")", sourceDir, outputDir)
         == "![" + alt + "](" + RewriteSinglePath(href, prefix) + ")"
  {
    var rw := Rewriter(prefix);
    var s := "![" + alt + "](" + href + ")";
    var md := "![" + alt + "](" + RewriteSinglePath(href, prefix) + ")";
    ImageRewrittenOnce(alt, href, rw);
    assert Render(MarkdownPieces(s, 0), rw) == md;
    NotInConcat('<', "![", alt);
    NotInConcat('<', "![" + alt, "](");
    NotInConcat('<', "![" + alt + "](", RewriteSinglePath(href, prefix));
    NotInConcat('<', "![" + alt + "](" + RewriteSinglePath(href, prefix), ")");
    HtmlPassesWithoutTag(md, rw);
    RewritePathsMoved(s, sourceDir, outputDir, prefix);
  }

  /** An image with no `<` in its alt text and target has none at all. */
  lemma {:induction false} NoTagInImage(alt: string, h: string)
    requires '<' !in alt && '<' !in h
    ensures '<' !in "![" + alt + "](" + h + ")"
  {
    NotInConcat('<', "![", alt);
    NotInConcat('<', "![" + alt, "](");
    NotInConcat('<', "![" + alt + "](", h);
    NotInConcat('<', "![" + alt + "](" + h, ")");
  }

  lemma {:induction false} NotInConcat(c: char, a: string, b: string)
    requires c !in a && c !in b
    ensures c !in a + b
  {
  }

  /** The same for a document that is a single link, as long as no `[`
      lies inside it after its first character. */
  lemma {:induction false} RewritePathsOfLink(text: string, href: string, sourceDir: AbsPath, outputDir: AbsPath, prefix: string)
    requires RelativePrefix(sourceDir, outputDir) == Some(prefix)
    requires ']' !in text && ')' !in href && href != []
    requires '<' !in text && '<' !in RewriteSinglePath(href, prefix)
    requires '[' !in text && '[' !in href
    ensures RewritePathsAsWritten("[" + text + "](" + href + ")", sourceDir, outputDir)
         == "[" + text + "](" + RewriteSinglePath(href, prefix) + ")"
    ensures RewritePaths("[" + text + "](" + href + ")", sourceDir, outputDir)
         == "[" + text + "](" + RewriteSinglePath(href, prefix) + ")"
  {
    var rw := Rewriter(prefix);
    var md := "[" + text + "](" + RewriteSinglePath(href, prefix) + ")";
    FusedRewriteOfLink(text, href, sourceDir, outputDir, prefix);
    assert rw(href) == RewriteSinglePath(href, prefix);
    LinkAsWrittenOnce(text, href, rw);
    NotInConcat('<', "[", text);
    NotInConcat('<', "[" + text, "](");
    NotInConcat('<', "[" + text + "](", RewriteSinglePath(href, prefix));
    NotInConcat('<', "[" + text + "](" + RewriteSinglePath(href, prefix), ")");
    HtmlPassesWithoutTag(md, rw);
    RewritePathsMoved("[" + text + "](" + href + ")", sourceDir, outputDir, prefix);
  }

  /** The fused scan on a single link rewrites its target once. */
  lemma {:induction false} FusedRewriteOfLink(text: string, href: string, sourceDir: AbsPath, outputDir: AbsPath, prefix: string)
    requires RelativePrefix(sourceDir, outputDir) == Some(prefix)
    requires ']' !in text && ')' !in href && href != []
    requires '<' !in text && '<' !in RewriteSinglePath(href, prefix)
    ensures RewritePaths("[" + text + "](" + href + ")", sourceDir, outputDir)
         == "[" + text + "](" + RewriteSinglePath(href, prefix) + ")"
  {
    var rw := Rewriter(prefix);
    var s := "[" + text + "](" + href + ")";
    var md := "[" + text + "](" + RewriteSinglePath(href, prefix) + ")";
    LinkRewrittenOnce(text, href, rw);
    assert Render(MarkdownPieces(s, 0), rw) == md;
    NotInConcat('<', "[", text);
    NotInConcat('<', "[" + text, "](");
    NotInConcat('<', "[" + text + "](", RewriteSinglePath(href, prefix));
    NotInConcat('<', "[" + text + "](" + RewriteSinglePath(href, prefix), ")");
    HtmlPassesWithoutTag(md, rw);
    RewritePathsMoved(s, sourceDir, outputDir, prefix);
  }

  // ---------------------------------------------------------------------
  // The Markdown passes as written
  // ---------------------------------------------------------------------

  /** Where no image starts, the image pass copies the character. */
  lemma {:induction false} ImagePiecesSkip(s: string, i: nat, rw: string -> string)
    requires i < |s| && ImageAt(s, i).None?
    requires Render(ImagePieces(s, i + 1), rw) == s[i + 1..]
    ensures Render(ImagePieces(s, i), rw) == s[i..]
  {
    var rest := ImagePieces(s, i + 1);
    assert ImagePieces(s, i) == [Text([s[i]])] + rest;
    RenderChar(s[i], rest, rw);
    ScanStep(s, i, i, [s[i]], s[i + 1..]);
  }

  /** Where no link starts, the link pass copies the character. */
  lemma {:induction false} LinkPiecesSkip(s: string, i: nat, rw: string -> string)
    requires i < |s| && LinkAt(s, i).None?
    requires Render(LinkPieces(s, i + 1), rw) == s[i + 1..]
    ensures Render(LinkPieces(s, i), rw) == s[i..]
  {
    var rest := LinkPieces(s, i + 1);
    assert LinkPieces(s, i) == [Text([s[i]])] + rest;
    RenderChar(s[i], rest, rw);
    ScanStep(s, i, i, [s[i]], s[i + 1..]);
  }

  /** From `i` on, text without `[` goes through the image pass unchanged. */
  lemma {:induction false} ImagePiecesWithoutBracket(s: string, i: nat, rw: string -> string)
    requires i <= |s| && '[' !in s[i..]
    ensures Render(ImagePieces(s, i), rw) == s[i..]
    decreases |s| - i
  {
    if i < |s| {
      assert s[i..] == [s[i]] + s[i + 1..];
      assert i + 1 < |s| ==> s[i + 1] == s[i..][1];
      ImagePiecesWithoutBracket(s, i + 1, rw);
      ImagePiecesSkip(s, i, rw);
    }
  }

  /** From `i` on, text without `[` goes through the link pass unchanged. */
  lemma {:induction false} LinkPiecesWithoutBracket(s: string, i: nat, rw: string -> string)
    requires i <= |s| && '[' !in s[i..]
    ensures Render(LinkPieces(s, i), rw) == s[i..]
    decreases |s| - i
  {
    if i < |s| {
      assert s[i..] == [s[i]] + s[i + 1..];
      LinkPiecesWithoutBracket(s, i + 1, rw);
      LinkPiecesSkip(s, i, rw);
    }
  }

  /** Text without `[` goes through both Markdown passes unchanged. */
  lemma {:induction false} MarkdownAsWrittenWithoutBracket(s: string, rw: string -> string)
    requires '[' !in s
    ensures MarkdownAsWritten(s, rw) == s
  {
    assert s[0..] == s;
    ImagePiecesWithoutBracket(s, 0, rw);
    LinkPiecesWithoutBracket(s, 0, rw);
  }

  /** On content without `[` the passes as written and the fused scan give
      the same result: the two differ only where a `[` lies inside a match. */
  lemma {:induction false} RewritePathsAgreeWithoutBracket(content: string, sourceDir: AbsPath, outputDir: AbsPath)
    requires '[' !in content
    ensures RewritePathsAsWritten(content, sourceDir, outputDir) == RewritePaths(content, sourceDir, outputDir)
  {
    match RelativePrefix(sourceDir, outputDir)
    case None =>
    case Some(prefix) =>
      RewritePathsMoved(content, sourceDir, outputDir, prefix);
      MarkdownAsWrittenWithoutBracket(content, Rewriter(prefix));
      MarkdownPiecesWithoutBracket(content, 0, Rewriter(prefix));
      assert content[0..] == content;
  }

  /** The link pass leaves an image alone when its only `[` is the one
      after `!`. */
  lemma {:induction false} LinkPassOfImage(alt: string, h: string, rw: string -> string)
    requires '[' !in alt && '[' !in h
    ensures Render(LinkPieces("![" + alt + "](" + h + ")", 0), rw) == "![" + alt + "](" + h + ")"
  {
    var t := "![" + alt + "](" + h + ")";
    assert t[2..] == alt + "](" + h + ")";
    NotInConcat('[', alt, "](");
    NotInConcat('[', alt + "](", h);
    NotInConcat('[', alt + "](" + h, ")");
    LinkPiecesWithoutBracket(t, 2, rw);
    assert t[0] == '!' && t[1] == '[';
    LinkPiecesSkip(t, 1, rw);
    LinkPiecesSkip(t, 0, rw);
    assert t[0..] == t;
  }

  /** The image pass leaves a link alone when its only `[` is its first
      character. */
  lemma {:induction false} ImagePassOfLink(text: string, href: string, rw: string -> string)
    requires '[' !in text && '[' !in href
    ensures Render(ImagePieces("[" + text + "](" + href + ")", 0), rw) == "[" + text + "](" + href + ")"
  {
    var s := "[" + text + "](" + href + ")";
    assert s[1..] == text + "](" + href + ")";
    NotInConcat('[', text, "](");
    NotInConcat('[', text + "](", href);
    NotInConcat('[', text + "](" + href, ")");
    ImagePiecesWithoutBracket(s, 1, rw);
    assert s[0] == '[';
    ImagePiecesSkip(s, 0, rw);
    assert s[0..] == s;
  }

  /** A document that is a single link: the link pass hands its target to
      the callback and keeps the rest. */
  lemma {:induction false} LinkPassOfOne(text: string, href: string, rw: string -> string)
    requires ']' !in text && ')' !in href && href != []
    ensures Render(LinkPieces("[" + text + "](" + href + ")", 0), rw) == "[" + text + "](" + rw(href) + ")"
  {
    var s := "[" + text + "](" + href + ")";
    assert s[0..] == s;
    BracketOfOne(s, 0, text, href);
    var q := 1 + |text|;
    var e := 3 + |text| + |href|;
    assert LinkAt(s, 0) == Some((q, e));
    assert LinkPieces(s, e + 1) == [];
    assert LinkPieces(s, 0) == [Text("[" + text + "]("), Target(href), Text(")")] + [];
    RenderMatch("[" + text + "](", href, ")", [], rw);
  }

  /** The passes as written on a single image: the image pass rewrites its
      target, and the link pass, finding no other `[`, keeps the result. */
  lemma {:induction false} ImageAsWrittenOnce(alt: string, href: string, rw: string -> string)
    requires ']' !in alt && ')' !in href && href != []
    requires '[' !in alt && '[' !in rw(href)
    ensures MarkdownAsWritten("![" + alt + "](" + href + ")", rw) == "![" + alt + "](" + rw(href) + ")"
  {
    ImagePassOfOne(alt, href, rw);
    LinkPassOfImage(alt, rw(href), rw);
  }

  /** The passes as written on a single link: the image pass finds nothing,
      and the link pass rewrites its target. */
  lemma {:induction false} LinkAsWrittenOnce(text: string, href: string, rw: string -> string)
    requires ']' !in text && ')' !in href && href != []
    requires '[' !in text && '[' !in href
    ensures MarkdownAsWritten("[" + text + "](" + href + ")", rw) == "[" + text + "](" + rw(href) + ")"
  {
    ImagePassOfLink(text, href, rw);
    LinkPassOfOne(text, href, rw);
  }

  // ---------------------------------------------------------------------
  // The double rewrite of the two Markdown passes
  // ---------------------------------------------------------------------

  /** After the image pass has rewritten `![a[b](x)` to `![a[b](h)`, the
      link pass still finds the link `[b](h)` inside it and rewrites `h`. */
  lemma {:induction false} LinkPassInsideImage(h: string, rw: string -> string)
    requires ')' !in h && h != []
    ensures Render(LinkPieces("![a[b](" + h + ")", 0), rw) == "![a[b](" + rw(h) + ")"
  {
    var t := "![a[b](" + h + ")";
    var tail := [Text("[b]("), Target(h), Text(")")];
    InnerLinkPieces(h);
    LeadingLinkPieces(h);
    RenderMatch("[b](", h, ")", [], rw);
    assert tail + [] == tail;
    RenderChar('a', tail, rw);
    RenderChar('[', [Text("a")] + tail, rw);
    RenderChar('!', [Text("[")] + ([Text("a")] + tail), rw);
  }

  /** The link pass matches `[b](h)` at position 3 of `![a[b](h)`. */
  lemma {:induction false} InnerLinkPieces(h: string)
    requires ')' !in h && h != []
    ensures var t := "![a[b](" + h + ")";
      |t| == 8 + |h| && LinkPieces(t, 3) == [Text("[b]("), Target(h), Text(")")]
  {
    var t := "![a[b](" + h + ")";
    assert t[3..] == "[b](" + h + ")";
    BracketOfOne(t, 3, "b", h);
    assert LinkAt(t, 3) == Some((5, 7 + |h|));
    assert LinkPieces(t, 8 + |h|) == [];
    assert "[" + t[4..5] + "](" == "[b](";
    assert LinkPieces(t, 3) == [Text("[b]("), Target(h), Text(")")] + [];
  }

  /** The link pass passes the first three characters of `![a[b](h)` through. */
  lemma {:induction false} LeadingLinkPieces(h: string)
    ensures var t := "![a[b](" + h + ")";
      LinkPieces(t, 0) == [Text("!")] + ([Text("[")] + ([Text("a")] + LinkPieces(t, 3)))
  {
    var t := "![a[b](" + h + ")";
    assert t[0] == '!' && t[1] == '[' && t[2] == 'a';
    assert LinkAt(t, 0).None? && LinkAt(t, 1).None? && LinkAt(t, 2).None?;
    assert LinkPieces(t, 2) == [Text("a")] + LinkPieces(t, 3);
    assert LinkPieces(t, 1) == [Text("[")] + LinkPieces(t, 2);
  }

  /** The directories of the source's own tests: `/project/docs/sub` merged
      into `/project/docs`. */
  function DocsSub(): AbsPath {
    AbsPath(["project", "docs", "sub"])
  }

  function Docs(): AbsPath {
    AbsPath(["project", "docs"])
  }

  lemma {:induction false} DocsPrefix()
    ensures RelativePrefix(DocsSub(), Docs()) == Some("sub")
  {
    PrefixFromAncestor(DocsSub(), Docs());
    assert DocsSub().segments[2..] == ["sub"];
  }

  /** Targets that start with none of the skipped prefixes' first
      characters are rewritten. */
  lemma {:induction false} NotSkipped(h: string)
    requires h != [] && h[0] != 'h' && h[0] != '/' && h[0] != '#' && h[0] != 'd'
    ensures !Skipped(h)
  {
    assert !StartsWith(h, "http://") by { if |h| >= 7 { assert h[..7][0] == h[0]; } }
    assert !StartsWith(h, "https://") by { if |h| >= 8 { assert h[..8][0] == h[0]; } }
    assert !StartsWith(h, "//") by { if |h| >= 2 { assert h[..2][0] == h[0]; } }
    assert !StartsWith(h, "#") by { if |h| >= 1 { assert h[..1][0] == h[0]; } }
    assert !StartsWith(h, "data:") by { if |h| >= 5 { assert h[..5][0] == h[0]; } }
  }

  /** A relative file path of plain names, with or without a fragment, is
      placed under the prefix and keeps its fragment. */
  lemma {:induction false} RewriteUnder(pre: seq<string>, segs: seq<string>, frag: string)
    requires PlainSegments(pre) && PlainSegments(segs)
    requires '#' !in Join(segs, "/") && !Skipped(Join(segs, "/") + frag)
    requires frag == [] || frag[0] == '#'
    ensures RewriteSinglePath(Join(segs, "/") + frag, Join(pre, "/")) == Join(pre + segs, "/") + frag
  {
    FragmentOf(Join(segs, "/"), frag);
    PosixJoinPlain(pre, segs);
  }

  /** The same for a path written with a leading `./`. */
  lemma {:induction false} RewriteDotUnder(pre: seq<string>, segs: seq<string>, frag: string)
    requires PlainSegments(pre) && PlainSegments(segs)
    requires '#' !in Join(segs, "/")
    requires frag == [] || frag[0] == '#'
    ensures RewriteSinglePath("./" + Join(segs, "/") + frag, Join(pre, "/")) == Join(pre + segs, "/") + frag
  {
    var f := "./" + Join(segs, "/");
    assert '#' !in f;
    assert (f + frag)[0] == '.';
    NotSkipped(f + frag);
    FragmentOf(f, frag);
    PosixJoinDotPlain(pre, segs);
  }

  /** The first `#` of a file part followed by a fragment starts the fragment. */
  lemma {:induction false} FragmentOf(f: string, frag: string)
    requires '#' !in f && (frag == [] || frag[0] == '#')
    ensures FilePart(f + frag) == f && Fragment(f + frag) == frag
  {
    var h := f + frag;
    if frag == [] {
      assert h == f;
    } else {
      assert h[|f|] == '#';
      var k := IndexOf(h, '#').value;
      assert k == |f|;
      assert h[..|f|] == f && h[|f|..] == frag;
    }
  }

  lemma {:induction false} RewriteXInSub()
    ensures RewriteSinglePath("x.png", "sub") == "sub/x.png"
  {
    assert "sub/" + "x.png" == "sub/x.png";
    RewriteNameInSub("x.png");
  }

  lemma {:induction false} RewriteXInSubTwice()
    ensures RewriteSinglePath("sub/x.png", "sub") == "sub/sub/x.png"
  {
    assert "sub/" + "x.png" == "sub/x.png";
    assert "sub/sub/" + "x.png" == "sub/sub/x.png";
    RewriteNameInSub2("x.png");
  }

  lemma {:induction false} RewriteNameInSub(name: string)
    requires IsName(name) && '#' !in name && name[0] != 'h' && name[0] != 'd'
    ensures RewriteSinglePath(name, "sub") == "sub/" + name
  {
    NotSkipped(name);
    assert Join(["sub"], "/") == "sub";
    assert Join([name], "/") == name;
    assert Join(["sub"] + [name], "/") == "sub/" + name;
    RewriteUnder(["sub"], [name], "");
    assert name + "" == name;
  }

  lemma {:induction false} RewriteNameInSub2(name: string)
    requires IsName(name) && '#' !in name && name[0] != 'h' && name[0] != 'd'
    ensures RewriteSinglePath("sub/" + name, "sub") == "sub/sub/" + name
  {
    var h := "sub/" + name;
    JoinUnderSub("sub", name);
    SubSlash(name);
    NotSkipped(h);
    NotInConcat('#', "sub/", name);
    RewriteUnder(["sub"], ["sub", name], "");
  }

  /** The two ways of writing the joined paths below `sub`. */
  lemma {:induction false} JoinUnderSub(a: string, b: string)
    ensures Join(["sub"], "/") == "sub"
    ensures Join([a, b], "/") == a + "/" + b
    ensures Join(["sub"] + [a, b], "/") == "sub/" + a + "/" + b
  {
    assert ["sub"] + [a, b] == ["sub", a, b];
    assert ["sub", a, b][1..] == [a, b] && [a, b][1..] == [b];
    assert Join([a, b], "/") == a + "/" + b;
    assert Join(["sub", a, b], "/") == "sub" + "/" + (a + "/" + b);
  }

  lemma {:induction false} SubSlash(name: string)
    ensures "sub" + "/" + name + "" == "sub/" + name
    ensures "sub/" + "sub" + "/" + name + "" == "sub/sub/" + name
  {
  }

  /** Found: in an image whose alt text holds `[` followed by text, here
      `![a[b](h)`, the passes as written hand the target to the callback
      twice: once in the image pass, and again in the link pass, which sees
      `[b](...)` inside the rewritten image. */
  lemma {:induction false} RewriteTwiceAsWritten(h: string, sourceDir: AbsPath, outputDir: AbsPath, prefix: string, once: string, twice: string)
    requires RelativePrefix(sourceDir, outputDir) == Some(prefix)
    requires ')' !in h && h != []
    requires RewriteSinglePath(h, prefix) == once && RewriteSinglePath(once, prefix) == twice
    requires ')' !in once && once != [] && '<' !in twice
    ensures RewritePathsAsWritten("![a[b](" + h + ")", sourceDir, outputDir) == "![a[b](" + twice + ")"
  {
    var rw := Rewriter(prefix);
    MarkdownTwiceAsWritten(h, rw, once, twice);
    NotInConcat('<', "![a[b](", twice);
    NotInConcat('<', "![a[b](" + twice, ")");
    HtmlPassesWithoutTag("![a[b](" + twice + ")", rw);
    RewritePathsMoved("![a[b](" + h + ")", sourceDir, outputDir, prefix);
  }

  /** The two Markdown passes as written, on `![a[b](h)`. */
  lemma {:induction false} MarkdownTwiceAsWritten(h: string, rw: string -> string, once: string, twice: string)
    requires ')' !in h && h != [] && ')' !in once && once != []
    requires rw(h) == once && rw(once) == twice
    ensures MarkdownAsWritten("![a[b](" + h + ")", rw) == "![a[b](" + twice + ")"
  {
    var s := "![a[b](" + h + ")";
    assert "![" + "a[b" + "](" == "![a[b](";
    ImagePassOfOne("a[b", h, rw);
    assert Render(ImagePieces(s, 0), rw) == "![a[b](" + once + ")";
    LinkPassInsideImage(once, rw);
  }

  /** The input that shows it: `![a[b](x.png)` moved by `sub` comes out as
      `![a[b](sub/sub/x.png)`. */
  lemma {:induction false} DoubleRewriteAsWritten()
    ensures RewritePathsAsWritten("![a[b](x.png)", DocsSub(), Docs()) == "![a[b](sub/sub/x.png)"
  {
    ConcatExamples();
    DocsPrefix();
    RewriteXInSub();
    RewriteXInSubTwice();
    RewriteTwiceAsWritten("x.png", DocsSub(), Docs(), "sub", "sub/x.png", "sub/sub/x.png");
  }

  lemma {:induction false} ConcatExamples()
    ensures "![a[b](x.png)" == "![a[b](" + "x.png" + ")"
    ensures "![a[b](" + "sub/sub/x.png" + ")" == "![a[b](sub/sub/x.png)"
    ensures "![a[b](x.png)" == "![" + "a[b" + "](" + "x.png" + ")"
    ensures "![" + "a[b" + "](" + "sub/x.png" + ")" == "![a[b](sub/x.png)"
    ensures ')' !in "x.png" && ')' !in "sub/x.png" && '<' !in "sub/sub/x.png"
  {
  }

  /** The fused scan prefixes the same target once. */
  lemma {:induction false} SingleRewriteCorrected()
    ensures RewritePaths("![a[b](x.png)", DocsSub(), Docs()) == "![a[b](sub/x.png)"
  {
    assert RewritePaths("![" + "a[b" + "](" + "x.png" + ")", DocsSub(), Docs())
        == "![" + "a[b" + "](" + RewriteSinglePath("x.png", "sub") + ")" by {
      DocsPrefix();
      ExampleImageParts();
      RewriteXInSub();
      FusedRewriteOfImage("a[b", "x.png", DocsSub(), Docs(), "sub");
    }
    ConcatExamples();
    RewriteXInSub();
  }

  /** The alt text and target of the example image meet the conditions of
      `FusedRewriteOfImage`. */
  lemma {:induction false} ExampleImageParts()
    ensures ']' !in "a[b" && '<' !in "a[b" && ')' !in "x.png" && "x.png" != []
    ensures '<' !in "sub/x.png"
  {
  }

  // ---------------------------------------------------------------------
  // The behaviour the source's tests describe, for `/project/docs/sub`
  // merged into `/project/docs`
  // ---------------------------------------------------------------------

  /** `./name#frag` is placed under `sub` and keeps its fragment. */
  lemma {:induction false} DotNameUnderSub(name: string, frag: string)
    requires IsName(name) && '#' !in name && (frag == [] || frag[0] == '#')
    ensures RewriteSinglePath("./" + name + frag, "sub") == "sub/" + name + frag
  {
    assert Join(["sub"], "/") == "sub";
    assert Join([name], "/") == name;
    assert Join(["sub"] + [name], "/") == "sub/" + name;
    RewriteDotUnder(["sub"], [name], frag);
  }

  /** `./dir/name` is placed under `sub`. */
  lemma {:induction false} DotPathUnderSub(dir: string, name: string)
    requires IsName(dir) && IsName(name) && '#' !in dir && '#' !in name
    ensures RewriteSinglePath("./" + dir + "/" + name, "sub") == "sub/" + dir + "/" + name
  {
    JoinUnderSub(dir, name);
    NotInConcat('#', dir, "/");
    NotInConcat('#', dir + "/", name);
    RewriteDotUnder(["sub"], [dir, name], "");
    DotSlash(dir, name);
  }

  lemma {:induction false} DotSlash(dir: string, name: string)
    ensures "./" + (dir + "/" + name) + "" == "./" + dir + "/" + name
    ensures "sub/" + dir + "/" + name + "" == "sub/" + dir + "/" + name
  {
  }

  lemma {:induction false} ImageTestFacts1()
    ensures "![alt](./images/diagram.png)" == "![" + "alt" + "](" + "./images/diagram.png" + ")"
  {
  }

  lemma {:induction false} ImageTestFacts2()
    ensures "![" + "alt" + "](" + "sub/images/diagram.png" + ")" == "![alt](sub/images/diagram.png)"
  {
  }

  lemma {:induction false} ImageTestFacts3()
    ensures "./images/diagram.png" == "./" + "images" + "/" + "diagram.png"
  {
  }

  lemma {:induction false} ImageTestFacts4()
    ensures "sub/images/diagram.png" == "sub/" + "images" + "/" + "diagram.png"
  {
  }

  lemma {:induction false} ImageTestFacts5()
    ensures '<' !in "sub/images/diagram.png" && ')' !in "./images/diagram.png"
    ensures ']' !in "alt" && '<' !in "alt" && '[' !in "alt" && '[' !in "sub/images/diagram.png"
  {
  }

  lemma {:induction false} ImageTestFacts6()
    ensures IsName("images") && IsName("diagram.png") && '#' !in "images" && '#' !in "diagram.png"
  {
  }

  /** `![alt](./images/diagram.png)` becomes `![alt](sub/images/diagram.png)`. */
  lemma {:induction false} ImageTest()
    ensures RewritePathsAsWritten("![alt](./images/diagram.png)", DocsSub(), Docs()) == "![alt](sub/images/diagram.png)"
    ensures RewritePaths("![alt](./images/diagram.png)", DocsSub(), Docs()) == "![alt](sub/images/diagram.png)"
  {
    DocsPrefix();
    assert RewriteSinglePath("./images/diagram.png", "sub") == "sub/images/diagram.png" by {
      ImageTestFacts3();
      ImageTestFacts4();
      ImageTestFacts6();
      DotPathUnderSub("images", "diagram.png");
    }
    ImageTestFacts5();
    RewritePathsOfImage("alt", "./images/diagram.png", DocsSub(), Docs(), "sub");
    ImageTestFacts1();
    ImageTestFacts2();
  }

  lemma {:induction false} FragmentTestFacts1()
    ensures "[link](./page.md#section)" == "[" + "link" + "](" + "./page.md#section" + ")"
  {
  }

  lemma {:induction false} FragmentTestFacts2()
    ensures "[" + "link" + "](" + "sub/page.md#section" + ")" == "[link](sub/page.md#section)"
  {
  }

  lemma {:induction false} FragmentTestFacts3()
    ensures "./page.md#section" == "./" + "page.md" + "#section"
  {
  }

  lemma {:induction false} FragmentTestFacts4()
    ensures "sub/page.md#section" == "sub/" + "page.md" + "#section"
  {
  }

  lemma {:induction false} FragmentTestFacts5()
    ensures '<' !in "sub/page.md#section" && ')' !in "./page.md#section"
    ensures ']' !in "link" && '<' !in "link" && '[' !in "link" && '[' !in "./page.md#section"
  {
  }

  lemma {:induction false} FragmentTestFacts6()
    ensures IsName("page.md") && '#' !in "page.md" && "#section"[0] == '#'
  {
  }

  lemma {:induction false} FragmentTestRewrite()
    ensures RewriteSinglePath("./page.md#section", "sub") == "sub/page.md#section"
  {
    FragmentTestFacts3();
    FragmentTestFacts4();
    FragmentTestFacts6();
    DotNameUnderSub("page.md", "#section");
  }

  /** `[link](./page.md#section)` becomes `[link](sub/page.md#section)`. */
  lemma {:induction false} FragmentTest()
    ensures RewritePathsAsWritten("[link](./page.md#section)", DocsSub(), Docs()) == "[link](sub/page.md#section)"
    ensures RewritePaths("[link](./page.md#section)", DocsSub(), Docs()) == "[link](sub/page.md#section)"
  {
    FragmentTestFacts1();
    FragmentTestFacts2();
    DocsPrefix();
    FragmentTestRewrite();
    FragmentTestFacts5();
    RewritePathsOfLink("link", "./page.md#section", DocsSub(), Docs(), "sub");
  }

  /** Absolute URLs, anchors and data URIs are left as they are. */
  lemma {:induction false} SkippedTargetsTest()
    ensures RewriteSinglePath("https://example.com/photo.jpg", "sub") == "https://example.com/photo.jpg"
    ensures RewriteSinglePath("#heading", "sub") == "#heading"
    ensures RewriteSinglePath("data:image/png;base64,abc", "sub") == "data:image/png;base64,abc"
  {
    assert StartsWith("https://example.com/photo.jpg", "https://");
    assert StartsWith("#heading", "#");
    assert StartsWith("data:image/png;base64,abc", "data:");
  }

  lemma {:induction false} ImgTestInput()
    ensures "<img src=\"./photo.jpg\">" == Element("<img", "src=", "./photo.jpg", "")
  {
  }

  lemma {:induction false} ImgTestOutput()
    ensures Element("<img", "src=", "sub/photo.jpg", "") == "<img src=\"sub/photo.jpg\">"
  {
  }

  lemma {:induction false} AnchorTestInput()
    ensures "<a href=\"./page.md\">link</a>" == Element("<a", "href=", "./page.md", "link</a>")
  {
  }

  lemma {:induction false} AnchorTestOutput()
    ensures Element("<a", "href=", "sub/page.md", "link</a>") == "<a href=\"sub/page.md\">link</a>"
  {
  }

  lemma {:induction false} ImgTestChars()
    ensures QuoteFree("./photo.jpg") && QuoteFree("") && ClosingOnly("") && '[' !in "./photo.jpg"
    ensures '<' !in "sub/photo.jpg"
  {
  }

  lemma {:induction false} ImgTestPath()
    ensures IsName("photo.jpg") && '#' !in "photo.jpg"
    ensures "./photo.jpg" == "./" + "photo.jpg" + "" && "sub/photo.jpg" == "sub/" + "photo.jpg" + ""
  {
  }

  lemma {:induction false} AnchorTestChars()
    ensures QuoteFree("./page.md") && QuoteFree("link</a>") && '[' !in "./page.md" && '[' !in "link</a>"
    ensures '<' !in "./page.md"
  {
  }

  lemma {:induction false} AnchorTestPath()
    ensures IsName("page.md") && '#' !in "page.md"
    ensures "./page.md" == "./" + "page.md" + "" && "sub/page.md" == "sub/" + "page.md" + ""
  {
  }

  lemma {:induction false} HtmlTestClosing()
    ensures ClosingOnly("link</a>")
  {
    var t := "link</a>";
    assert t[4] == '<' && t[5] == '/';
    forall k | 0 <= k < |t| && t[k] == '<'
      ensures k + 1 < |t| && t[k + 1] == '/'
    {
      assert k == 4;
    }
  }

  /** `<img src="./photo.jpg">` becomes `<img src="sub/photo.jpg">`. */
  lemma {:induction false} HtmlImageTest()
    ensures RewritePathsAsWritten("<img src=\"./photo.jpg\">", DocsSub(), Docs()) == "<img src=\"sub/photo.jpg\">"
    ensures RewritePaths("<img src=\"./photo.jpg\">", DocsSub(), Docs()) == "<img src=\"sub/photo.jpg\">"
  {
    ImgTestInput();
    ImgTestOutput();
    ImgTestChars();
    ImgTestPath();
    DocsPrefix();
    DotNameUnderSub("photo.jpg", "");
    RewritePathsOfImgElement("./photo.jpg", "", DocsSub(), Docs(), "sub");
  }

  /** `<a href="./page.md">link</a>` becomes `<a href="sub/page.md">link</a>`. */
  lemma {:induction false} HtmlAnchorTest()
    ensures RewritePathsAsWritten("<a href=\"./page.md\">link</a>", DocsSub(), Docs()) == "<a href=\"sub/page.md\">link</a>"
    ensures RewritePaths("<a href=\"./page.md\">link</a>", DocsSub(), Docs()) == "<a href=\"sub/page.md\">link</a>"
  {
    AnchorTestInput();
    AnchorTestOutput();
    AnchorTestChars();
    AnchorTestPath();
    HtmlTestClosing();
    DocsPrefix();
    DotNameUnderSub("page.md", "");
    RewritePathsOfAnchorElement("./page.md", "link</a>", DocsSub(), Docs(), "sub");
  }
}
