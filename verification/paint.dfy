/**
 The paint dispatch of index.js (`renderElment` and the four render
 functions it calls) as a generator of drawing commands.

 The capture library's tree is an immutable datatype; every call the
 source makes on the PDF document becomes one `Cmd` in a log, in call
 order. A walk either finishes or stops where the source would throw (an
 inline image source the type regex does not match); commands issued
 before the throw stay in the log.
 */
module Paint {

  import opened Optional
  import Color
  import opened Geometry
  import opened ImageSource

  /** Pixel bounds of a node or of one line of text. */
  datatype Bounds = Bounds(left: real, top: real, width: real, height: real)

  /** The computed styles the walk reads. Colours are packed RGBA
      integers; zero is the transparent "no colour" value. */
  datatype Styles = Styles(backgroundColor: nat, color: nat, fontSize: FontSize)

  /** One visual line of a text run. */
  datatype TextBound = TextBound(text: string, bounds: Bounds)

  /** A text run, wrapped over one or more lines. */
  datatype TextContainer = TextContainer(text: string, textBounds: seq<TextBound>)

  /** A node of the capture tree. */
  datatype ElementContainer = ElementContainer(
    bounds: Bounds,
    styles: Styles,
    src: Option<string>,
    textNodes: seq<TextContainer>,
    elements: seq<ElementContainer>)

  /** What `addImage` receives: the data URL itself, or the hidden canvas
      the SVG is drawn on, tagged with the node's pixel width and height
      (the canvas keeps only their whole-pixel parts). */
  datatype ImageData = DataUrl(url: string) | SvgCanvas(url: string, width: real, height: real)

  /** The calls on the PDF document, in millimetres and points. `Text` is
      always drawn with `baseline: 'top'`. */
  datatype Cmd =
    | SetFillColor(fill: Color.Rgb)
    | FillRect(x: real, y: real, w: real, h: real)
    | AddImage(data: ImageData, format: string, x: real, y: real, w: real, h: real)
    | SetTextColor(textColor: Color.Rgb)
    | SetFontSize(points: real)
    | Text(text: string, x: real, y: real)

  /** The commands issued so far and whether the walk threw. */
  datatype Walk = Walk(log: seq<Cmd>, threw: bool)

  const MaxColor: nat := 0x1_0000_0000

  /** The page rectangle `(x, y, w, h)` spans exactly the transformed
      edges of the pixel box `b`. */
  predicate Covers(ctx: Context, b: Bounds, x: real, y: real, w: real, h: real) {
    && x == TransformLeft(ctx, b.left) && x + w == TransformLeft(ctx, b.left + b.width)
    && y == TransformTop(ctx, b.top) && y + h == TransformTop(ctx, b.top + b.height)
  }

  /** The rectangle the source draws for `b` covers it. */
  lemma PlacementCovers(ctx: Context, b: Bounds)
    ensures Covers(ctx, b, TransformLeft(ctx, b.left), TransformTop(ctx, b.top),
                   TransformSize(ctx, b.width), TransformSize(ctx, b.height))
  {
    SizeIsLinear(ctx, b.left - ctx.offsetLeft, b.width, 1.0);
    SizeIsLinear(ctx, b.top - ctx.offsetTop, b.height, 1.0);
  }

  // ---------------------------------------------------------------------
  // The four render functions of one node.
  // ---------------------------------------------------------------------

  /** `renderBackgroundColor`: a falsy colour (zero) draws nothing;
      otherwise the fill colour is set to the colour's R, G, B bytes and
      the node's box is filled. */
  function RenderBackgroundColor(ctx: Context, b: Bounds, st: Styles): (cmds: seq<Cmd>)
    ensures cmds == [] <==> st.backgroundColor == 0
    ensures st.backgroundColor != 0 ==> |cmds| == 2 && cmds[0].SetFillColor? && cmds[1].FillRect?
    ensures st.backgroundColor != 0 ==> Covers(ctx, b, cmds[1].x, cmds[1].y, cmds[1].w, cmds[1].h)
    ensures 0 < st.backgroundColor < MaxColor ==>
      var c := st.backgroundColor;
      cmds[0].fill == Color.Rgb((c / 0x100_0000) % 256, (c / 0x1_0000) % 256, (c / 0x100) % 256)
  {
    if st.backgroundColor == 0 then []
    else
      PlacementCovers(ctx, b);
      [ SetFillColor(Color.Color2Rgb(st.backgroundColor)),
        FillRect(TransformLeft(ctx, b.left), TransformTop(ctx, b.top),
                 TransformSize(ctx, b.width), TransformSize(ctx, b.height)) ]
  }

  /** `renderBorder`: reads the border properties and draws nothing. */
  function RenderBorder(b: Bounds, st: Styles): (cmds: seq<Cmd>)
    ensures cmds == []
  {
    []
  }

  /** `renderImage`: `None` when the source throws. JPEG, PNG and WebP
      data URLs are added as they are; an SVG is added as PNG from a canvas
      sized from the node's pixel box once it has loaded; everything else
      draws nothing. */
  function RenderImage(ctx: Context, b: Bounds, src: Option<string>): (r: Option<seq<Cmd>>)
    ensures r == None <==> Classify(src) == Unmatched
    ensures r.Some? ==> |r.value| <= 1
    ensures r.Some? && |r.value| == 1 <==> Classify(src).Raster? || Classify(src) == Svg
    ensures r.Some? && |r.value| == 1 ==>
      var c := r.value[0];
      && c.AddImage?
      && Covers(ctx, b, c.x, c.y, c.w, c.h)
      && (c.format == "JPEG" || c.format == "PNG" || c.format == "WEBP")
    ensures Classify(src).Raster? ==>
      r == Some([AddImage(DataUrl(src.value), Classify(src).format,
                          r.value[0].x, r.value[0].y, r.value[0].w, r.value[0].h)])
    ensures Classify(src) == Svg ==>
      r == Some([AddImage(SvgCanvas(src.value, b.width, b.height), "PNG",
                          r.value[0].x, r.value[0].y, r.value[0].w, r.value[0].h)])
  {
    PlacementCovers(ctx, b);
    var x, y := TransformLeft(ctx, b.left), TransformTop(ctx, b.top);
    var w, h := TransformSize(ctx, b.width), TransformSize(ctx, b.height);
    match Classify(src)
    case Unmatched => None
    case Raster(format) => Some([AddImage(DataUrl(src.value), format, x, y, w, h)])
    case Svg => Some([AddImage(SvgCanvas(src.value, b.width, b.height), "PNG", x, y, w, h)])
    case _ => Some([])
  }

  /** The `doc.text` calls for the lines of one run, each at the
      transformed top-left corner of its line. */
  function PlaceLines(ctx: Context, lines: seq<TextBound>): (cmds: seq<Cmd>)
    ensures |cmds| == |lines|
    ensures forall i :: 0 <= i < |lines| ==> cmds[i].Text? && cmds[i].text == lines[i].text
    ensures forall i :: 0 <= i < |lines| ==>
      cmds[i].x == TransformLeft(ctx, lines[i].bounds.left) && cmds[i].y == TransformTop(ctx, lines[i].bounds.top)
  {
    seq(|lines|, i requires 0 <= i < |lines| =>
      Text(lines[i].text, TransformLeft(ctx, lines[i].bounds.left), TransformTop(ctx, lines[i].bounds.top)))
  }

  /** What every run issues first: the node's text colour, then its font
      size in points. */
  function TextHead(ctx: Context, st: Styles): (head: seq<Cmd>)
    ensures |head| == 2 && head[0].SetTextColor? && head[1].SetFontSize?
  {
    [ SetTextColor(Color.Color2Rgb(st.color)),
      SetFontSize(TransformSize2pt(ctx, FontSize2px(st.fontSize))) ]
  }

  /** The commands of one text run: colour, size, then its lines. */
  function RenderTextNode(ctx: Context, st: Styles, node: TextContainer): (cmds: seq<Cmd>)
    ensures |cmds| == 2 + |node.textBounds|
    ensures cmds[0].SetTextColor? && cmds[1].SetFontSize?
    ensures forall i :: 2 <= i < |cmds| ==> cmds[i].Text? && cmds[i].text == node.textBounds[i - 2].text
    ensures cmds[..2] == TextHead(ctx, st)
    ensures cmds[2..] == PlaceLines(ctx, node.textBounds)
  {
    var head := TextHead(ctx, st);
    var lines := PlaceLines(ctx, node.textBounds);
    assert (head + lines)[..2] == head;
    assert (head + lines)[2..] == lines;
    assert forall i :: 2 <= i < |head + lines| ==> (head + lines)[i] == lines[i - 2];
    head + lines
  }

  /** Total number of lines over a list of runs. */
  function LineCount(nodes: seq<TextContainer>): nat {
    if |nodes| == 0 then 0 else |nodes[0].textBounds| + LineCount(nodes[1..])
  }

  predicate IsTextCommand(c: Cmd) {
    c.SetTextColor? || c.SetFontSize? || c.Text?
  }

  /** Every command is a text command, and every colour and size set is
      the node's own. */
  predicate TextUniform(ctx: Context, st: Styles, cmds: seq<Cmd>) {
    forall i :: 0 <= i < |cmds| ==>
      && IsTextCommand(cmds[i])
      && (cmds[i].SetTextColor? ==> cmds[i].textColor == Color.Color2Rgb(st.color))
      && (cmds[i].SetFontSize? ==> cmds[i].points == TransformSize2pt(ctx, FontSize2px(st.fontSize)))
  }

  lemma TextUniformAppend(ctx: Context, st: Styles, a: seq<Cmd>, b: seq<Cmd>)
    requires TextUniform(ctx, st, a) && TextUniform(ctx, st, b)
    ensures TextUniform(ctx, st, a + b)
  {
    var ab := a + b;
    forall i | 0 <= i < |ab|
      ensures ab[i] == if i < |a| then a[i] else b[i - |a|]
    {
    }
  }

  /** Every command one run issues is a text command, and every colour
      and size it sets is the node's. */
  lemma TextNodeUniform(ctx: Context, st: Styles, node: TextContainer)
    ensures TextUniform(ctx, st, RenderTextNode(ctx, st, node))
  {
    var head := TextHead(ctx, st);
    var lines := PlaceLines(ctx, node.textBounds);
    var cmds := RenderTextNode(ctx, st, node);
    assert cmds[..2] == head;
    assert cmds[2..] == lines;
  }

  /** `renderText`: every run sets the node's text colour and font size
      (in points) and then writes each of its lines; no runs, no commands. */
  function RenderText(ctx: Context, st: Styles, nodes: seq<TextContainer>): (cmds: seq<Cmd>)
    ensures cmds == [] <==> |nodes| == 0
    ensures |cmds| == 2 * |nodes| + LineCount(nodes)
    ensures |nodes| > 0 ==> cmds[..2] == TextHead(ctx, st)
    ensures TextUniform(ctx, st, cmds)
  {
    if |nodes| == 0 then []
    else
      var head := RenderTextNode(ctx, st, nodes[0]);
      var rest := RenderText(ctx, st, nodes[1..]);
      TextNodeUniform(ctx, st, nodes[0]);
      TextUniformAppend(ctx, st, head, rest);
      assert (head + rest)[..2] == head[..2];
      head + rest
  }

  /** The runs are drawn one after another: drawing two lists of runs is
      drawing the first list, then the second. */
  lemma {:induction false} RenderTextAppend(ctx: Context, st: Styles, a: seq<TextContainer>, b: seq<TextContainer>)
    ensures RenderText(ctx, st, a + b) == RenderText(ctx, st, a) + RenderText(ctx, st, b)
  {
    if |a| == 0 {
      assert a + b == b;
    } else {
      assert (a + b)[1..] == a[1..] + b;
      RenderTextAppend(ctx, st, a[1..], b);
      AppendAssociative(RenderTextNode(ctx, st, a[0]), RenderText(ctx, st, a[1..]), RenderText(ctx, st, b));
    }
  }

  /** A single run is drawn as `RenderTextNode` draws it. */
  lemma RenderTextSingle(ctx: Context, st: Styles, n: TextContainer)
    ensures RenderText(ctx, st, [n]) == RenderTextNode(ctx, st, n)
  {
    assert [n][1..] == [];
    assert RenderTextNode(ctx, st, n) + [] == RenderTextNode(ctx, st, n);
  }

  // ---------------------------------------------------------------------
  // The walk.
  // ---------------------------------------------------------------------

  /** The walk's invariant on the log: every `fillRect` comes right after
      a `setFillColor`. */
  predicate FillsPaired(log: seq<Cmd>) {
    forall i :: 0 <= i < |log| && log[i].FillRect? ==> 0 < i && log[i - 1].SetFillColor?
  }

  lemma FillsPairedAppend(a: seq<Cmd>, b: seq<Cmd>)
    requires FillsPaired(a) && FillsPaired(b)
    requires |b| == 0 || !b[0].FillRect?
    ensures FillsPaired(a + b)
  {
    var ab := a + b;
    forall i | 0 <= i < |ab| && ab[i].FillRect?
      ensures 0 < i && ab[i - 1].SetFillColor?
    {
      if i >= |a| {
        assert ab[i] == b[i - |a|];
        assert ab[i - 1] == b[i - |a| - 1];
      }
    }
  }

  /** A log with no `fillRect` at all keeps the pairing trivially. */
  lemma NoFillsPaired(s: seq<Cmd>)
    requires forall i :: 0 <= i < |s| ==> !s[i].FillRect?
    ensures FillsPaired(s)
  {
  }

  /** The background's fill is paired, and so is everything drawn after
      it when nothing after it fills. */
  lemma DrawnLogFacts(bg: seq<Cmd>, border: seq<Cmd>, img: seq<Cmd>, text: seq<Cmd>)
    requires FillsPaired(bg) && (|bg| > 0 ==> !bg[0].FillRect?)
    requires border == []
    requires forall i :: 0 <= i < |img| ==> !img[i].FillRect?
    requires forall i :: 0 <= i < |text| ==> !text[i].FillRect?
    ensures FillsPaired(bg + border + img + text)
    ensures bg <= bg + border + img + text
    ensures |bg + border + img + text| > 0 ==> !(bg + border + img + text)[0].FillRect?
  {
    assert bg + border == bg;
    NoFillsPaired(img);
    NoFillsPaired(text);
    FillsPairedAppend(bg, img);
    FillsPairedAppend(bg + img, text);
  }

  lemma BackgroundPaired(ctx: Context, b: Bounds, st: Styles)
    ensures FillsPaired(RenderBackgroundColor(ctx, b, st))
    ensures |RenderBackgroundColor(ctx, b, st)| > 0 ==> !RenderBackgroundColor(ctx, b, st)[0].FillRect?
  {
  }

  lemma TextNoFills(ctx: Context, st: Styles, nodes: seq<TextContainer>)
    ensures forall i :: 0 <= i < |RenderText(ctx, st, nodes)| ==> !RenderText(ctx, st, nodes)[i].FillRect?
  {
    assert TextUniform(ctx, st, RenderText(ctx, st, nodes));
  }

  /** A node's drawn log, when its image is at most one `addImage`. */
  lemma NodeLogFacts(ctx: Context, e: ElementContainer, img: seq<Cmd>)
    requires |img| <= 1 && (|img| == 1 ==> img[0].AddImage?)
    ensures var bg := RenderBackgroundColor(ctx, e.bounds, e.styles);
      var log := bg + RenderBorder(e.bounds, e.styles) + img + RenderText(ctx, e.styles, e.textNodes);
      && FillsPaired(log)
      && bg <= log
      && (|log| > 0 ==> !log[0].FillRect?)
  {
    BackgroundPaired(ctx, e.bounds, e.styles);
    TextNoFills(ctx, e.styles, e.textNodes);
    assert forall i :: 0 <= i < |img| ==> !img[i].FillRect?;
    DrawnLogFacts(RenderBackgroundColor(ctx, e.bounds, e.styles), RenderBorder(e.bounds, e.styles),
                  img, RenderText(ctx, e.styles, e.textNodes));
  }

  /** The node's own drawing, in the order of `renderElment`: background,
      border, image, text. It throws, after the background, exactly when
      the image source is an unmatched inline source. */
  function NodeStep(ctx: Context, e: ElementContainer): (w: Walk)
    ensures w.threw <==> Classify(e.src) == Unmatched
    ensures w.threw ==> w.log == RenderBackgroundColor(ctx, e.bounds, e.styles)
    ensures RenderBackgroundColor(ctx, e.bounds, e.styles) <= w.log
    ensures FillsPaired(w.log)
    ensures |w.log| > 0 ==> !w.log[0].FillRect?
    ensures !w.threw ==>
      w.log == RenderBackgroundColor(ctx, e.bounds, e.styles) + RenderImage(ctx, e.bounds, e.src).value
               + RenderText(ctx, e.styles, e.textNodes)
  {
    var bg := RenderBackgroundColor(ctx, e.bounds, e.styles);
    var border := RenderBorder(e.bounds, e.styles);
    assert bg + border == bg;
    match RenderImage(ctx, e.bounds, e.src)
    case None =>
      Walk(bg + border, true)
    case Some(img) =>
      NodeLogFacts(ctx, e, img);
      Walk(bg + border + img + RenderText(ctx, e.styles, e.textNodes), false)
  }

  /** Sequencing: the second part runs only if the first did not throw. */
  function Then(w1: Walk, w2: Walk): (w: Walk)
    ensures w.threw <==> w1.threw || w2.threw
    ensures w1.log <= w.log
    ensures w1.threw ==> w == w1
  {
    if w1.threw then w1 else Walk(w1.log + w2.log, w2.threw)
  }

  /** `renderElment`: the node's own drawing, then its children in order. */
  function RenderElement(ctx: Context, e: ElementContainer): (w: Walk)
    ensures FillsPaired(w.log)
    ensures |w.log| > 0 ==> !w.log[0].FillRect?
    ensures NodeStep(ctx, e).log <= w.log
    decreases e
  {
    var own := NodeStep(ctx, e);
    var rest := RenderElements(ctx, e.elements);
    assert !own.threw ==> FillsPaired(own.log + rest.log) by {
      if !own.threw { FillsPairedAppend(own.log, rest.log); }
    }
    Then(own, rest)
  }

  /** `elements.forEach(renderElment)`: stops at the first throw. */
  function RenderElements(ctx: Context, es: seq<ElementContainer>): (w: Walk)
    ensures FillsPaired(w.log)
    ensures |w.log| > 0 ==> !w.log[0].FillRect?
    decreases es
  {
    if |es| == 0 then Walk([], false)
    else
      var first := RenderElement(ctx, es[0]);
      var rest := RenderElements(ctx, es[1..]);
      assert !first.threw ==> FillsPaired(first.log + rest.log) by {
        if !first.threw { FillsPairedAppend(first.log, rest.log); }
      }
      Then(first, rest)
  }

  /** The export run: fix the ratio from the root's width and the root's
      offset, then walk from the root. A root whose box starts at its
      offset and that has a background gets a fill spanning the page's
      content width from the padding corner. */
  function Export(options: PdfOptions, root: ElementContainer, offsetLeft: real, offsetTop: real): (w: Walk)
    requires root.bounds.width != 0.0
    ensures FillsPaired(w.log)
    ensures root.styles.backgroundColor != 0 && root.bounds.left == offsetLeft && root.bounds.top == offsetTop ==>
      |w.log| >= 2 && w.log[1].FillRect?
      && w.log[1].x == options.padding.left && w.log[1].y == options.padding.top
      && w.log[1].w == ContentWidth(options)
  {
    var ctx := NewContext(options, root.bounds.width, offsetLeft, offsetTop);
    var w := RenderElement(ctx, root);
    assert root.styles.backgroundColor != 0 ==> w.log[..2] == RenderBackgroundColor(ctx, root.bounds, root.styles) by {
      assert NodeStep(ctx, root).log <= w.log;
    }
    OffsetMapsToPadding(ctx);
    w
  }

  // ---------------------------------------------------------------------
  // Text lines come out in order.
  // ---------------------------------------------------------------------

  /** All lines of a list of runs, run by run. */
  function Lines(nodes: seq<TextContainer>): seq<TextBound> {
    if |nodes| == 0 then [] else nodes[0].textBounds + Lines(nodes[1..])
  }

  /** The `doc.text` calls of a log, in order. */
  function TextCalls(cmds: seq<Cmd>): seq<Cmd> {
    if |cmds| == 0 then []
    else (if cmds[0].Text? then [cmds[0]] else []) + TextCalls(cmds[1..])
  }

  lemma {:induction false} TextCallsAppend(a: seq<Cmd>, b: seq<Cmd>)
    ensures TextCalls(a + b) == TextCalls(a) + TextCalls(b)
  {
    if |a| > 0 {
      TextCallsAppend(a[1..], b);
      assert (a + b)[1..] == a[1..] + b;
    } else {
      assert a + b == b;
    }
  }

  lemma {:induction false} TextCallsOfLines(ctx: Context, lines: seq<TextBound>)
    ensures TextCalls(PlaceLines(ctx, lines)) == PlaceLines(ctx, lines)
  {
    if |lines| > 0 {
      TextCallsOfLines(ctx, lines[1..]);
      assert PlaceLines(ctx, lines)[1..] == PlaceLines(ctx, lines[1..]);
    }
  }

  lemma PlaceLinesAppend(ctx: Context, a: seq<TextBound>, b: seq<TextBound>)
    ensures PlaceLines(ctx, a + b) == PlaceLines(ctx, a) + PlaceLines(ctx, b)
  {
  }

  /** The text calls of one run are its lines. */
  lemma TextCallsOfNode(ctx: Context, st: Styles, node: TextContainer)
    ensures TextCalls(RenderTextNode(ctx, st, node)) == PlaceLines(ctx, node.textBounds)
  {
    var head := TextHead(ctx, st);
    var lines := PlaceLines(ctx, node.textBounds);
    TextCallsAppend(head, lines);
    assert TextCalls(head) == [] by {
      assert head[1..][1..] == [];
    }
    TextCallsOfLines(ctx, node.textBounds);
  }

  /** No line is lost, duplicated or reordered: the text calls of
      `renderText` are the runs' lines in order, each at its transformed
      top-left corner. */
  lemma {:induction false} TextLinesInOrder(ctx: Context, st: Styles, nodes: seq<TextContainer>)
    ensures TextCalls(RenderText(ctx, st, nodes)) == PlaceLines(ctx, Lines(nodes))
  {
    if |nodes| > 0 {
      var first := RenderTextNode(ctx, st, nodes[0]);
      var rest := RenderText(ctx, st, nodes[1..]);
      assert TextCalls(RenderText(ctx, st, nodes)) == TextCalls(first) + TextCalls(rest) by {
        assert RenderText(ctx, st, nodes) == first + rest;
        TextCallsAppend(first, rest);
      }
      TextCallsOfNode(ctx, st, nodes[0]);
      TextLinesInOrder(ctx, st, nodes[1..]);
      PlaceLinesAppend(ctx, nodes[0].textBounds, Lines(nodes[1..]));
    }
  }

  // ---------------------------------------------------------------------
  // The walk is a pre-order replay.
  // ---------------------------------------------------------------------

  /** The nodes of a tree in pre-order: a node before its children, the
      children in list order. */
  function PreOrder(e: ElementContainer): (ns: seq<ElementContainer>)
    ensures |ns| >= 1 && ns[0] == e
    decreases e
  {
    [e] + PreOrderAll(e.elements)
  }

  function PreOrderAll(es: seq<ElementContainer>): seq<ElementContainer>
    decreases es
  {
    if |es| == 0 then [] else PreOrder(es[0]) + PreOrderAll(es[1..])
  }

  /** The nodes' own drawing, one after the other, with no tree. */
  function Replay(ctx: Context, ns: seq<ElementContainer>): Walk {
    if |ns| == 0 then Walk([], false) else Then(NodeStep(ctx, ns[0]), Replay(ctx, ns[1..]))
  }

  /** The reference log: every node's own commands, concatenated. */
  function ConcatLogs(ctx: Context, ns: seq<ElementContainer>): seq<Cmd> {
    if |ns| == 0 then [] else NodeStep(ctx, ns[0]).log + ConcatLogs(ctx, ns[1..])
  }

  lemma ThenAssociative(a: Walk, b: Walk, c: Walk)
    ensures Then(Then(a, b), c) == Then(a, Then(b, c))
  {
    if !a.threw && !b.threw {
      assert (a.log + b.log) + c.log == a.log + (b.log + c.log);
    }
  }

  lemma {:induction false} ReplayAppend(ctx: Context, a: seq<ElementContainer>, b: seq<ElementContainer>)
    ensures Replay(ctx, a + b) == Then(Replay(ctx, a), Replay(ctx, b))
  {
    if |a| == 0 {
      assert a + b == b;
      assert [] + Replay(ctx, b).log == Replay(ctx, b).log;
    } else {
      assert (a + b)[0] == a[0];
      assert (a + b)[1..] == a[1..] + b;
      ReplayAppend(ctx, a[1..], b);
      ThenAssociative(NodeStep(ctx, a[0]), Replay(ctx, a[1..]), Replay(ctx, b));
    }
  }

  /** `renderElment` replays the tree's nodes in pre-order. */
  lemma {:induction false} RenderIsReplay(ctx: Context, e: ElementContainer)
    ensures RenderElement(ctx, e) == Replay(ctx, PreOrder(e))
    decreases e
  {
    RenderAllIsReplay(ctx, e.elements);
    ReplayAppend(ctx, [e], PreOrderAll(e.elements));
    var own := NodeStep(ctx, e);
    assert Replay(ctx, [e]) == Then(own, Walk([], false));
    assert own.log + [] == own.log;
  }

  lemma {:induction false} RenderAllIsReplay(ctx: Context, es: seq<ElementContainer>)
    ensures RenderElements(ctx, es) == Replay(ctx, PreOrderAll(es))
    decreases es
  {
    if |es| > 0 {
      RenderIsReplay(ctx, es[0]);
      RenderAllIsReplay(ctx, es[1..]);
      ReplayAppend(ctx, PreOrder(es[0]), PreOrderAll(es[1..]));
    }
  }

  /** Some node of `ns` has an unmatched inline image source. */
  predicate SomeUnmatched(ns: seq<ElementContainer>) {
    exists i :: 0 <= i < |ns| && Classify(ns[i].src) == Unmatched
  }

  lemma SomeUnmatchedCons(ns: seq<ElementContainer>)
    requires |ns| > 0
    ensures SomeUnmatched(ns) <==> Classify(ns[0].src) == Unmatched || SomeUnmatched(ns[1..])
  {
    if SomeUnmatched(ns[1..]) {
      var i :| 0 <= i < |ns[1..]| && Classify(ns[1..][i].src) == Unmatched;
      assert ns[i + 1] == ns[1..][i];
    }
    if exists i :: 1 <= i < |ns| && Classify(ns[i].src) == Unmatched {
      var i :| 1 <= i < |ns| && Classify(ns[i].src) == Unmatched;
      assert ns[1..][i - 1] == ns[i];
    }
  }

  /** A replay throws exactly when one of its nodes has an unmatched
      inline image source. */
  lemma {:induction false} ReplayThrowsIff(ctx: Context, ns: seq<ElementContainer>)
    ensures Replay(ctx, ns).threw <==> exists i :: 0 <= i < |ns| && Classify(ns[i].src) == Unmatched
  {
    assert SomeUnmatched(ns) <==> exists i :: 0 <= i < |ns| && Classify(ns[i].src) == Unmatched;
    if |ns| > 0 {
      ReplayThrowsIff(ctx, ns[1..]);
      SomeUnmatchedCons(ns);
      assert Replay(ctx, ns).threw <==> NodeStep(ctx, ns[0]).threw || Replay(ctx, ns[1..]).threw;
    }
  }

  /** A replay with no throwing node logs every node's own commands. */
  lemma {:induction false} ReplayNoThrow(ctx: Context, ns: seq<ElementContainer>)
    requires forall i :: 0 <= i < |ns| ==> Classify(ns[i].src) != Unmatched
    ensures Replay(ctx, ns) == Walk(ConcatLogs(ctx, ns), false)
  {
    if |ns| > 0 {
      ReplayNoThrow(ctx, ns[1..]);
    }
  }

  /** One node that does not throw, then the rest. */
  lemma ReplayCons(ctx: Context, ns: seq<ElementContainer>)
    requires |ns| > 0 && !NodeStep(ctx, ns[0]).threw
    ensures Replay(ctx, ns) == Walk(NodeStep(ctx, ns[0]).log + Replay(ctx, ns[1..]).log, Replay(ctx, ns[1..]).threw)
  {
  }

  /** The first node's log, then the logs of the next `i - 1`. */
  lemma ConcatLogsCons(ctx: Context, ns: seq<ElementContainer>, i: nat)
    requires 0 < i <= |ns|
    ensures ConcatLogs(ctx, ns[..i]) == NodeStep(ctx, ns[0]).log + ConcatLogs(ctx, ns[1..][..i - 1])
  {
    var prefix := ns[..i];
    assert prefix[0] == ns[0];
    assert prefix[1..] == ns[1..][..i - 1];
  }

  /** Putting a node that does not throw in front of a replay that
      throws after `i - 1` nodes gives one that throws after `i`. */
  lemma PrependStep(ctx: Context, ns: seq<ElementContainer>, i: nat, last: seq<Cmd>)
    requires 0 < i <= |ns| && !NodeStep(ctx, ns[0]).threw
    requires Replay(ctx, ns[1..]) == Walk(ConcatLogs(ctx, ns[1..][..i - 1]) + last, true)
    ensures Replay(ctx, ns) == Walk(ConcatLogs(ctx, ns[..i]) + last, true)
  {
    var own := NodeStep(ctx, ns[0]);
    var rest := Replay(ctx, ns[1..]);
    var mid := ConcatLogs(ctx, ns[1..][..i - 1]);
    assert Replay(ctx, ns) == Walk(own.log + rest.log, true) by {
      ReplayCons(ctx, ns);
    }
    assert ConcatLogs(ctx, ns[..i]) == own.log + mid by {
      ConcatLogsCons(ctx, ns, i);
    }
    AppendAssociative(own.log, mid, last);
  }

  lemma AppendAssociative(a: seq<Cmd>, b: seq<Cmd>, c: seq<Cmd>)
    ensures a + (b + c) == (a + b) + c
  {
  }

  /** A replay stops at its first throwing node, after that node's
      background. */
  lemma {:induction false} ReplayFirstThrow(ctx: Context, ns: seq<ElementContainer>, i: nat)
    requires i < |ns| && Classify(ns[i].src) == Unmatched
    requires forall j :: 0 <= j < i ==> Classify(ns[j].src) != Unmatched
    ensures Replay(ctx, ns) ==
      Walk(ConcatLogs(ctx, ns[..i]) + RenderBackgroundColor(ctx, ns[i].bounds, ns[i].styles), true)
  {
    var bg := RenderBackgroundColor(ctx, ns[i].bounds, ns[i].styles);
    if i == 0 {
      assert ns[..0] == [];
      assert [] + bg == bg;
    } else {
      var tail := ns[1..];
      assert tail[i - 1] == ns[i];
      ReplayFirstThrow(ctx, tail, i - 1);
      assert Classify(ns[0].src) != Unmatched;
      PrependStep(ctx, ns, i, bg);
    }
  }

  /** The walk from a root in which no image source throws logs, node by
      node in pre-order, each node's background, image and text. */
  lemma WalkIsPreOrder(ctx: Context, root: ElementContainer)
    requires forall i :: 0 <= i < |PreOrder(root)| ==> Classify(PreOrder(root)[i].src) != Unmatched
    ensures RenderElement(ctx, root) == Walk(ConcatLogs(ctx, PreOrder(root)), false)
  {
    RenderIsReplay(ctx, root);
    ReplayNoThrow(ctx, PreOrder(root));
  }

  /** The walk throws exactly when some node has an unmatched inline image
      source, and then stops at the first such node in pre-order, after
      that node's background. */
  lemma WalkStopsAtFirstThrow(ctx: Context, root: ElementContainer, i: nat)
    requires i < |PreOrder(root)| && Classify(PreOrder(root)[i].src) == Unmatched
    requires forall j :: 0 <= j < i ==> Classify(PreOrder(root)[j].src) != Unmatched
    ensures RenderElement(ctx, root).threw
    ensures RenderElement(ctx, root).log ==
      ConcatLogs(ctx, PreOrder(root)[..i])
      + RenderBackgroundColor(ctx, PreOrder(root)[i].bounds, PreOrder(root)[i].styles)
  {
    RenderIsReplay(ctx, root);
    ReplayFirstThrow(ctx, PreOrder(root), i);
  }

  /** Whether the walk throws depends only on the image sources. */
  lemma WalkThrowsIff(ctx: Context, root: ElementContainer)
    ensures RenderElement(ctx, root).threw <==>
      exists i :: 0 <= i < |PreOrder(root)| && Classify(PreOrder(root)[i].src) == Unmatched
  {
    RenderIsReplay(ctx, root);
    ReplayThrowsIff(ctx, PreOrder(root));
  }

  /** A node with neither image nor text draws only its background. */
  lemma PlainBoxStep(ctx: Context, e: ElementContainer)
    requires e.src == None && e.textNodes == []
    ensures NodeStep(ctx, e) == Walk(RenderBackgroundColor(ctx, e.bounds, e.styles), false)
  {
    assert Classify(e.src) == NoSource;
  }

  /** Nodes without an image source never throw. */
  lemma NoSourceNeverThrows(ns: seq<ElementContainer>)
    requires forall i :: 0 <= i < |ns| ==> ns[i].src == None
    ensures forall i :: 0 <= i < |ns| ==> Classify(ns[i].src) != Unmatched
  {
  }

  lemma ConcatLogsPair(ctx: Context, a: ElementContainer, b: ElementContainer)
    ensures ConcatLogs(ctx, [a, b]) == NodeStep(ctx, a).log + NodeStep(ctx, b).log
  {
    var ab := [a, b];
    assert ab[1..] == [b];
    var lb := NodeStep(ctx, b).log;
    assert ConcatLogs(ctx, [b]) == lb + ConcatLogs(ctx, []);
    assert lb + [] == lb;
    assert ConcatLogs(ctx, ab) == NodeStep(ctx, a).log + ConcatLogs(ctx, [b]);
  }

  /** A root with one child, neither holding image or text, draws the
      root's background and then the child's. */
  lemma OneChildWalk(ctx: Context, root: ElementContainer, child: ElementContainer)
    requires root.src == None && root.textNodes == [] && root.elements == [child]
    requires child.src == None && child.textNodes == [] && child.elements == []
    ensures RenderElement(ctx, root).log
      == RenderBackgroundColor(ctx, root.bounds, root.styles) + RenderBackgroundColor(ctx, child.bounds, child.styles)
  {
    assert PreOrder(root) == [root, child] by {
      assert PreOrderAll([child]) == [child] + PreOrderAll([]);
    }
    PlainBoxStep(ctx, root);
    PlainBoxStep(ctx, child);
    NoSourceNeverThrows([root, child]);
    WalkIsPreOrder(ctx, root);
    ConcatLogsPair(ctx, root, child);
  }

  /** Under a transparent root, the log is the only child's background. */
  lemma ChildOnlyLog(ctx: Context, root: ElementContainer, child: ElementContainer)
    requires root.src == None && root.textNodes == [] && root.elements == [child]
    requires child.src == None && child.textNodes == [] && child.elements == []
    requires root.styles.backgroundColor == 0
    ensures RenderElement(ctx, root).log == RenderBackgroundColor(ctx, child.bounds, child.styles)
  {
    OneChildWalk(ctx, root, child);
    assert [] + RenderBackgroundColor(ctx, child.bounds, child.styles) == RenderBackgroundColor(ctx, child.bounds, child.styles);
  }

  /** The child's background at ratio 0.2625: its colour, filled from
      26.25 mm across 52.5 mm. */
  lemma ChildFill(ctx: Context, st: Styles)
    requires ctx == Context(DefaultOptions, 0.2625, 0.0, 0.0) && st.backgroundColor != 0
    ensures RenderBackgroundColor(ctx, Bounds(100.0, 0.0, 200.0, 40.0), st)
      == [SetFillColor(Color.Color2Rgb(st.backgroundColor)), FillRect(26.25, 0.0, 52.5, 10.5)]
  {
  }

  /** The export walks the whole tree, in pre-order, under the context
      `setPx2mmRatio` and `setOffset` build from the root. */
  lemma ExportIsReplay(options: PdfOptions, root: ElementContainer, offsetLeft: real, offsetTop: real)
    requires root.bounds.width != 0.0
    ensures Export(options, root, offsetLeft, offsetTop)
      == Replay(NewContext(options, root.bounds.width, offsetLeft, offsetTop), PreOrder(root))
  {
    RenderIsReplay(NewContext(options, root.bounds.width, offsetLeft, offsetTop), root);
  }

  /** The export of an 800-pixel root at the origin, with no padding, is
      the walk at ratio 0.2625. */
  lemma Export800(root: ElementContainer)
    requires root.bounds.width == 800.0
    ensures Export(DefaultOptions, root, 0.0, 0.0) == RenderElement(Context(DefaultOptions, 0.2625, 0.0, 0.0), root)
  {
    Root800Example();
  }

  /** A transparent root with one coloured child 100 pixels in, at ratio
      0.2625: only the child's fill is drawn. */
  lemma OneChildExample(c: nat, size: FontSize)
    requires c != 0
    ensures
      var child := ElementContainer(Bounds(100.0, 0.0, 200.0, 40.0), Styles(c, 0, size), None, [], []);
      var root := ElementContainer(Bounds(0.0, 0.0, 800.0, 600.0), Styles(0, 0, size), None, [], [child]);
      RenderElement(Context(DefaultOptions, 0.2625, 0.0, 0.0), root).log
        == [SetFillColor(Color.Color2Rgb(c)), FillRect(26.25, 0.0, 52.5, 10.5)]
  {
    var child := ElementContainer(Bounds(100.0, 0.0, 200.0, 40.0), Styles(c, 0, size), None, [], []);
    var root := ElementContainer(Bounds(0.0, 0.0, 800.0, 600.0), Styles(0, 0, size), None, [], [child]);
    var ctx := Context(DefaultOptions, 0.2625, 0.0, 0.0);
    ChildOnlyLog(ctx, root, child);
    ChildFill(ctx, child.styles);
  }

  /** An 800-pixel root at the origin with one coloured child 100 pixels
      in: the root draws nothing, the child is filled from 26.25 mm. */
  lemma ExportOneChild(c: nat, size: FontSize)
    requires c != 0
    ensures
      var child := ElementContainer(Bounds(100.0, 0.0, 200.0, 40.0), Styles(c, 0, size), None, [], []);
      var root := ElementContainer(Bounds(0.0, 0.0, 800.0, 600.0), Styles(0, 0, size), None, [], [child]);
      Export(DefaultOptions, root, 0.0, 0.0).log
        == [SetFillColor(Color.Color2Rgb(c)), FillRect(26.25, 0.0, 52.5, 10.5)]
  {
    var child := ElementContainer(Bounds(100.0, 0.0, 200.0, 40.0), Styles(c, 0, size), None, [], []);
    var root := ElementContainer(Bounds(0.0, 0.0, 800.0, 600.0), Styles(0, 0, size), None, [], [child]);
    Export800(root);
    OneChildExample(c, size);
  }

  /** A page-wide root at the origin with one red child 100 pixels in:
      the root draws nothing, the child is filled red from 26.25 mm. The
      colour is `0xff0000` followed by any alpha byte. */
  lemma ExportExample(red: nat)
    requires red / 0x100 == 0xff_0000
    ensures
      var size := FontSize(16.0, "px");
      var child := ElementContainer(Bounds(100.0, 0.0, 200.0, 40.0), Styles(red, 0, size), None, [], []);
      var root := ElementContainer(Bounds(0.0, 0.0, 800.0, 600.0), Styles(0, 0, size), None, [], [child]);
      Export(DefaultOptions, root, 0.0, 0.0).log
        == [SetFillColor(Color.Rgb(255, 0, 0)), FillRect(26.25, 0.0, 52.5, 10.5)]
  {
    var size := FontSize(16.0, "px");
    var child := ElementContainer(Bounds(100.0, 0.0, 200.0, 40.0), Styles(red, 0, size), None, [], []);
    var root := ElementContainer(Bounds(0.0, 0.0, 800.0, 600.0), Styles(0, 0, size), None, [], [child]);
    var fill := Color.Color2Rgb(red);
    assert fill == Color.Rgb(255, 0, 0) by { RedBytes(red); }
    assert Export(DefaultOptions, root, 0.0, 0.0).log == [SetFillColor(fill), FillRect(26.25, 0.0, 52.5, 10.5)] by {
      ExportOneChild(red, size);
    }
  }

  /** The top three bytes of `0xff0000` followed by any alpha byte. */
  lemma RedBytes(red: nat)
    requires red / 0x100 == 0xff_0000
    ensures red < 0x1_0000_0000
    ensures (red / 0x100_0000) % 256 == 255 && (red / 0x1_0000) % 256 == 0 && (red / 0x100) % 256 == 0
  {
    assert 0xff00_0000 <= red < 0xff00_0100;
  }
}
