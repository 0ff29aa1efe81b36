/**
 * Document assembly of pdftolatex/pdf.py: the block classifier
 * `Block.determine_content`, the `Block`, `Page` and `PDF` objects, and the
 * `generate_latex` methods that turn pages into LaTeX objects while the PDF
 * counts the figures it writes out.
 *
 * The OCR engine is a function parameter `ocr` from a region to its words
 * and confidences, the working directory is the parameter `cwd`, and the
 * figure images the source writes to disk are recorded in the ghost log
 * `Pdf.written`.
 */
module Document {
  import opened Sequences
  import opened Geometry
  import opened Segmentation
  import opened Strings
  import opened Escaping
  import opened Latex

  /** `local_store_folder`. */
  const LocalStoreFolder := "localstore"

  /** The two block types, 0 (text) and 1 (figure) in the source. */
  datatype BlockType = TextBlock | FigureBlock

  /** The content string of a figure block. */
  const FigurePayload := "--Block Type is Figure--"

  /** What the OCR engine reports for a region: its words and one confidence per token. */
  datatype OcrResult = OcrResult(words: seq<string>, confs: seq<int>)

  // ---------------------------------------------------------------------
  // Block.determine_content

  function Abs(x: int): nat {
    if x < 0 then -x else x
  }

  /** The sum of the absolute confidences. */
  function SumAbs(confs: seq<int>): nat {
    if confs == [] then 0 else SumAbs(confs[..|confs| - 1]) + Abs(confs[|confs| - 1])
  }

  /**
   * `np.mean([abs(c) for c in confs]) > 40`, compared exactly on integers;
   * the mean of an empty list is NaN, and the comparison is then false.
   */
  predicate IsText(confs: seq<int>) {
    |confs| > 0 && SumAbs(confs) > 40 * |confs|
  }

  lemma MulMono(x: real, y: real, z: real)
    requires x <= y && z > 0.0
    ensures x * z <= y * z
  {
  }

  lemma DivMul(a: real, k: real)
    requires k > 0.0
    ensures (a / k) * k == a
  {
  }

  /** For `k > 0` values summing to `a`, the mean exceeds 40 exactly when `a > 40 * k`. */
  lemma MeanAbove40(a: nat, k: nat)
    requires k > 0
    ensures (a as real) / (k as real) > 40.0 <==> a > 40 * k
  {
    var q, r := (a as real) / (k as real), k as real;
    DivMul(a as real, r);
    assert (40 * k) as real == 40.0 * r;
    if q > 40.0 {
      MulMono(40.0, q, r);
      assert 40.0 * r != q * r;
    } else {
      MulMono(q, 40.0, r);
    }
  }

  /** The integer rule is the mean rule: text exactly when the mean absolute confidence exceeds 40. */
  lemma IsTextIsMeanAbove40(confs: seq<int>)
    ensures |confs| == 0 ==> !IsText(confs)
    ensures |confs| > 0 ==> (IsText(confs) <==> (SumAbs(confs) as real) / (|confs| as real) > 40.0)
  {
    if |confs| > 0 {
      MeanAbove40(SumAbs(confs), |confs|);
    }
  }

  /** Confident tokens make a text block, weak or missing ones a figure; signs do not matter. */
  lemma IsTextExamples()
    ensures IsText([90, 85, 95])
    ensures IsText([-90, 85, -95])
    ensures !IsText([5, 10, 0])
    ensures !IsText([40, 40])
    ensures !IsText([])
  {
    assert [90, 85, 95][..2] == [90, 85] && [90, 85][..1] == [90] && [90][..0] == [];
    assert [-90, 85, -95][..2] == [-90, 85] && [-90, 85][..1] == [-90] && [-90][..0] == [];
    assert [5, 10, 0][..2] == [5, 10] && [5, 10][..1] == [5] && [5][..0] == [];
    assert [40, 40][..1] == [40] && [40][..0] == [];
  }

  /** The text payload: each word followed by one space (`s += word + " "`). */
  function JoinWords(words: seq<string>): string {
    if words == [] then "" else JoinWords(words[..|words| - 1]) + words[|words| - 1] + " "
  }

  /** The payload is the words joined with spaces, with one space after the last. */
  lemma {:induction false} JoinWordsIsJoin(words: seq<string>)
    ensures JoinWords(words) == Join(words + [""], ' ')
  {
    if words != [] {
      var w, x := words[..|words| - 1], words[|words| - 1];
      JoinWordsIsJoin(w);
      SnocLast(words);
      JoinSnoc(words, "", ' ');
      AppendEmpty(Join(words, ' ') + " ");
      if w == [] {
        AppendEmpty(x);
      } else {
        JoinSnoc(w, x, ' ');
        JoinSnoc(w, "", ' ');
        AppendEmpty(Join(w, ' ') + " ");
      }
    }
  }

  /** Splitting the payload at spaces gives back the (space-free) words, then an empty piece. */
  lemma TextPayloadWords(words: seq<string>)
    requires forall i :: 0 <= i < |words| ==> ' ' !in words[i]
    ensures Split(JoinWords(words), ' ') == words + [""]
  {
    JoinWordsIsJoin(words);
    var parts := words + [""];
    assert forall i :: 0 <= i < |parts| ==> ' ' !in parts[i] by {
      forall i | 0 <= i < |parts| ensures ' ' !in parts[i] {
        if i < |words| {
          assert parts[i] == words[i];
        }
      }
    }
    SplitJoin(parts, ' ');
  }

  /** `Block.determine_content` on the OCR result of the block's region. */
  method DetermineContent(ocr: OcrResult) returns (kind: BlockType, s: string)
    ensures kind == TextBlock <==> IsText(ocr.confs)
    ensures kind == TextBlock ==> s == JoinWords(ocr.words)
    ensures kind == FigureBlock ==> s == FigurePayload
  {
    if IsText(ocr.confs) {
      s := "";
      for i := 0 to |ocr.words|
        invariant s == JoinWords(ocr.words[..i])
      {
        assert ocr.words[..i + 1][..i] == ocr.words[..i];
        s := s + ocr.words[i] + " ";
      }
      assert ocr.words[..|ocr.words|] == ocr.words;
      kind := TextBlock;
    } else {
      kind, s := FigureBlock, FigurePayload;
    }
  }

  // ---------------------------------------------------------------------
  // Block and Page

  /** A block: its box, the band of the page image it covers, its type and content string. */
  datatype Block = Block(bbox: BBox, region: Image, kind: BlockType, content: string)

  /** What `Block(bbox, page)` holds for a page image and an OCR engine. */
  predicate BlockOf(img: Image, bbox: BBox, ocr: Image -> OcrResult, b: Block) {
    b.bbox == bbox &&
    b.region == PySlice(img, bbox.y, bbox.yBottom) &&
    (b.kind == TextBlock <==> IsText(ocr(b.region).confs)) &&
    (b.kind == TextBlock ==> b.content == JoinWords(ocr(b.region).words)) &&
    (b.kind == FigureBlock ==> b.content == FigurePayload)
  }

  /** `Block(bbox, page)`: `make_block` cuts the rows `y .. y_bottom`, then `determine_content`. */
  method NewBlock(img: Image, bbox: BBox, ocr: Image -> OcrResult) returns (b: Block)
    ensures BlockOf(img, bbox, ocr, b)
  {
    var region := PySlice(img, bbox.y, bbox.yBottom);
    var kind, content := DetermineContent(ocr(region));
    b := Block(bbox, region, kind, content);
  }

  /** A page: its image, height, width and blocks. */
  datatype Page = Page(img: Image, height: nat, width: nat, blocks: seq<Block>)

  /**
   * `Page(page_img, pdf)`: one block per content band that
   * `find_content_blocks` reports, in the same order; `rects` are the
   * bounding rectangles the image-library part of `segment` would find.
   */
  method NewPage(img: Image, rects: seq<Rect>, ocr: Image -> OcrResult) returns (page: Page)
    ensures page.img == img && page.height == |img| && page.width == Width(img)
    ensures var boxes := Process(SortByY(SegmentKept(img, rects)));
      |page.blocks| == |boxes| &&
      forall i :: 0 <= i < |boxes| ==> BlockOf(img, boxes[i], ocr, page.blocks[i])
    ensures forall i :: 0 <= i < |page.blocks| - 1 ==> page.blocks[i].bbox.yBottom <= page.blocks[i + 1].bbox.y
  {
    var bboxes := FindContentBlocks(img, rects);
    var blocks: seq<Block> := [];
    for i := 0 to |bboxes|
      invariant |blocks| == i
      invariant forall k :: 0 <= k < i ==> BlockOf(img, bboxes[k], ocr, blocks[k])
    {
      var b := NewBlock(img, bboxes[i], ocr);
      blocks := blocks + [b];
    }
    forall i | 0 <= i < |blocks| - 1 ensures blocks[i].bbox.yBottom <= blocks[i + 1].bbox.y {
      assert BlockOf(img, bboxes[i], ocr, blocks[i]) && BlockOf(img, bboxes[i + 1], ocr, blocks[i + 1]);
    }
    page := Page(img, |img|, Width(img), blocks);
  }

  // ---------------------------------------------------------------------
  // The LaTeX a block, a page and a document turn into

  /** `Command('textwidth')`. */
  function TextWidth(): Command {
    Command("textwidth", [], [])
  }

  /** The `figure` environment of a figure block whose image is included from `path`. */
  function FigureEnv(path: string): Node {
    EnvNode("figure",
      [CommandNode(Command("includegraphics", [StrArg(path)], [Opt("width", CmdArg(TextWidth()))])),
       CommandNode(Command("centering", [], []))],
      [Opt("", StrArg("h"))])
  }

  /** The file of figure number `n`: `os.path.join(asset_folder, str(n) + '.jpg')`. */
  function FigPath(assetFolder: string, n: nat): string {
    PathJoin(assetFolder, DecimalString(n) + ".jpg")
  }

  /** 1 for a figure block, 0 for a text block: what a block adds to the figure counter. */
  function IsFigure(b: Block): nat {
    if b.kind == FigureBlock then 1 else 0
  }

  /** The number of figure blocks. */
  function FigCount(bs: seq<Block>): nat {
    if |bs| == 0 then 0 else IsFigure(bs[0]) + FigCount(bs[1..])
  }

  /**
   * `Block.generate_latex` when the document's figure counter stands at `n`.
   */
  function BlockNodes(b: Block, assetFolder: string, cwd: string, n: nat): seq<Node> {
    if b.kind == TextBlock then [Latex.Text(b.content), CommandNode(Vspace())]
    else [FigureEnv(PathJoin(cwd, FigPath(assetFolder, n)))]
  }

  /** The blocks' outputs in order, the counter starting at `n` and advancing at each figure. */
  function BlocksNodes(bs: seq<Block>, assetFolder: string, cwd: string, n: nat): seq<Node> {
    if |bs| == 0 then []
    else BlockNodes(bs[0], assetFolder, cwd, n) + BlocksNodes(bs[1..], assetFolder, cwd, n + IsFigure(bs[0]))
  }

  /** `Page.generate_latex`: the blocks' outputs, then `\par` and `\vspace{10pt}`. */
  function PageNodes(p: Page, assetFolder: string, cwd: string, n: nat): seq<Node> {
    BlocksNodes(p.blocks, assetFolder, cwd, n) + [CommandNode(Command("par", [], [])), CommandNode(Vspace())]
  }

  /** The blocks of all pages, page after page. */
  function AllBlocks(ps: seq<Page>): seq<Block> {
    if |ps| == 0 then [] else ps[0].blocks + AllBlocks(ps[1..])
  }

  /** The pages' outputs in order, each page numbering its figures after those of earlier pages. */
  function PagesNodes(ps: seq<Page>, assetFolder: string, cwd: string, n: nat): seq<Node> {
    if |ps| == 0 then []
    else PageNodes(ps[0], assetFolder, cwd, n) + PagesNodes(ps[1..], assetFolder, cwd, n + FigCount(ps[0].blocks))
  }

  /** `PDF.generate_latex`: the graphics path, then one `document` environment around all pages. */
  function DocumentNodes(ps: seq<Page>, assetFolder: string, cwd: string, n: nat): seq<Node> {
    [CommandNode(Command("graphicspath", [StrArg(PathJoin(cwd, assetFolder))], [])),
     EnvNode("document", PagesNodes(ps, assetFolder, cwd, n), [])]
  }

  /** The figure file a block writes when the counter stands at `n`: one for a figure, none for text. */
  function BlockWrites(b: Block, assetFolder: string, n: nat): seq<(string, Image)> {
    if b.kind == FigureBlock then [(FigPath(assetFolder, n), b.region)] else []
  }

  /** The figure files written for the blocks: a (path, image) pair per figure block, in order. */
  function FigureWrites(bs: seq<Block>, assetFolder: string, n: nat): seq<(string, Image)> {
    if |bs| == 0 then []
    else BlockWrites(bs[0], assetFolder, n) + FigureWrites(bs[1..], assetFolder, n + IsFigure(bs[0]))
  }

  /** The figure files written for the pages, page after page. */
  function PagesWrites(ps: seq<Page>, assetFolder: string, n: nat): seq<(string, Image)> {
    if |ps| == 0 then []
    else FigureWrites(ps[0].blocks, assetFolder, n) + PagesWrites(ps[1..], assetFolder, n + FigCount(ps[0].blocks))
  }

  lemma {:induction false} FigCountAppend(a: seq<Block>, b: seq<Block>)
    ensures FigCount(a + b) == FigCount(a) + FigCount(b)
  {
    if a == [] {
      assert a + b == b;
    } else {
      assert (a + b)[1..] == a[1..] + b;
      FigCountAppend(a[1..], b);
    }
  }

  /** Writing the figures of `a` then those of `b` numbers `b`'s after `a`'s. */
  lemma {:induction false} FigureWritesAppend(a: seq<Block>, b: seq<Block>, assetFolder: string, n: nat)
    ensures FigureWrites(a + b, assetFolder, n) ==
      FigureWrites(a, assetFolder, n) + FigureWrites(b, assetFolder, n + FigCount(a))
  {
    if a == [] {
      assert a + b == b;
    } else {
      assert (a + b)[1..] == a[1..] + b;
      FigureWritesAppend(a[1..], b, assetFolder, n + IsFigure(a[0]));
      SeqAssoc(BlockWrites(a[0], assetFolder, n),
        FigureWrites(a[1..], assetFolder, n + IsFigure(a[0])),
        FigureWrites(b, assetFolder, n + FigCount(a)));
    }
  }

  /**
   * One file per figure block, and the `k`-th figure written is file number
   * `n + k`: numbers run upward from the counter without gaps.
   */
  lemma {:induction false} FigureWritesNumbered(bs: seq<Block>, assetFolder: string, n: nat)
    ensures |FigureWrites(bs, assetFolder, n)| == FigCount(bs)
    ensures forall k :: 0 <= k < FigCount(bs) ==> FigureWrites(bs, assetFolder, n)[k].0 == FigPath(assetFolder, n + k)
  {
    if bs != [] {
      var d := IsFigure(bs[0]);
      FigureWritesNumbered(bs[1..], assetFolder, n + d);
      var head, rest := BlockWrites(bs[0], assetFolder, n), FigureWrites(bs[1..], assetFolder, n + d);
      assert FigureWrites(bs, assetFolder, n) == head + rest;
      forall k | 0 <= k < FigCount(bs)
        ensures FigureWrites(bs, assetFolder, n)[k].0 == FigPath(assetFolder, n + k)
      {
        if k >= d {
          assert (head + rest)[k] == rest[k - d];
        }
      }
    }
  }

  /** Each figure written carries the image band of a figure block. */
  lemma {:induction false} FigureWritesImages(bs: seq<Block>, assetFolder: string, n: nat)
    ensures forall w :: w in FigureWrites(bs, assetFolder, n) ==>
      exists i :: 0 <= i < |bs| && bs[i].kind == FigureBlock && bs[i].region == w.1
  {
    if bs != [] {
      var d := IsFigure(bs[0]);
      FigureWritesImages(bs[1..], assetFolder, n + d);
      var head, rest := BlockWrites(bs[0], assetFolder, n), FigureWrites(bs[1..], assetFolder, n + d);
      assert FigureWrites(bs, assetFolder, n) == head + rest;
      forall w | w in FigureWrites(bs, assetFolder, n)
        ensures exists i :: 0 <= i < |bs| && bs[i].kind == FigureBlock && bs[i].region == w.1
      {
        if w in rest {
          var i :| 0 <= i < |bs[1..]| && bs[1..][i].kind == FigureBlock && bs[1..][i].region == w.1;
          assert bs[i + 1] == bs[1..][i];
        } else {
          assert w in head;
          assert bs[0].kind == FigureBlock && bs[0].region == w.1;
        }
      }
    }
  }

  lemma JpgSuffixInjective(a: string, b: string)
    requires a + ".jpg" == b + ".jpg"
    ensures a == b
  {
    assert |a| == |b|;
    assert a == (a + ".jpg")[..|a|];
    assert b == (b + ".jpg")[..|b|];
  }

  /**
   * Different figure numbers give different files, and different include
   * paths in the LaTeX output, whatever the asset folder and the working
   * directory.
   */
  lemma FigurePathsDistinct(assetFolder: string, cwd: string, i: nat, j: nat)
    requires i != j
    ensures FigPath(assetFolder, i) != FigPath(assetFolder, j)
    ensures PathJoin(cwd, FigPath(assetFolder, i)) != PathJoin(cwd, FigPath(assetFolder, j))
  {
    var di, dj := DecimalString(i) + ".jpg", DecimalString(j) + ".jpg";
    DecimalStringInjective(i, j);
    if di == dj {
      JpgSuffixInjective(DecimalString(i), DecimalString(j));
    }
    assert IsDigit(di[0]) && IsDigit(dj[0]);
    PathJoinInjective(assetFolder, di, dj);
    var pi, pj := FigPath(assetFolder, i), FigPath(assetFolder, j);
    if assetFolder != [] {
      assert pi[0] == assetFolder[0] && pj[0] == assetFolder[0];
    } else {
      assert pi == di && pj == dj;
    }
    PathJoinSameKindInjective(cwd, pi, pj);
  }

  /** Page by page, the files written are those of all blocks in page-then-block order. */
  lemma {:induction false} PagesWritesInOrder(ps: seq<Page>, assetFolder: string, n: nat)
    ensures PagesWrites(ps, assetFolder, n) == FigureWrites(AllBlocks(ps), assetFolder, n)
  {
    if ps != [] {
      var first, rest := ps[0].blocks, AllBlocks(ps[1..]);
      var m := n + FigCount(first);
      calc {
        PagesWrites(ps, assetFolder, n);
        FigureWrites(first, assetFolder, n) + PagesWrites(ps[1..], assetFolder, m);
        { PagesWritesInOrder(ps[1..], assetFolder, m); }
        FigureWrites(first, assetFolder, n) + FigureWrites(rest, assetFolder, m);
        { FigureWritesAppend(first, rest, assetFolder, n); }
        FigureWrites(first + rest, assetFolder, n);
      }
    }
  }

  /** Moving a piece from the front of what remains onto what is done keeps the whole. */
  lemma AppendStep<T>(done: seq<T>, piece: seq<T>, remaining: seq<T>, after: seq<T>, whole: seq<T>)
    requires done + remaining == whole
    requires remaining == piece + after
    ensures (done + piece) + after == whole
  {
    SeqAssoc(done, piece, after);
  }

  /** What blocks `i` onwards produce with the counter at `n`: their nodes, figure count and files. */
  ghost function BlocksNodesFrom(bs: seq<Block>, i: nat, assetFolder: string, cwd: string, n: nat): seq<Node>
    requires i <= |bs|
  {
    BlocksNodes(bs[i..], assetFolder, cwd, n)
  }

  ghost function FigCountFrom(bs: seq<Block>, i: nat): nat
    requires i <= |bs|
  {
    FigCount(bs[i..])
  }

  ghost function FigureWritesFrom(bs: seq<Block>, i: nat, assetFolder: string, n: nat): seq<(string, Image)>
    requires i <= |bs|
  {
    FigureWrites(bs[i..], assetFolder, n)
  }

  /**
   * The state of the loop of `Page.generate_latex` before block `i`: the
   * nodes, counter and files so far, followed by what blocks `i` onwards
   * produce from counter `n`, give the totals of the whole page.
   */
  ghost predicate BlocksLoop(bs: seq<Block>, i: nat, assetFolder: string, cwd: string,
                             done: seq<Node>, n: nat, written: seq<(string, Image)>,
                             totalNodes: seq<Node>, total: nat, totalWritten: seq<(string, Image)>)
    requires i <= |bs|
  {
    && done + BlocksNodesFrom(bs, i, assetFolder, cwd, n) == totalNodes
    && n + FigCountFrom(bs, i) == total
    && written + FigureWritesFrom(bs, i, assetFolder, n) == totalWritten
  }

  /** One turn of the loop of `Page.generate_latex` keeps its state. */
  lemma BlocksLoopStep(bs: seq<Block>, i: nat, assetFolder: string, cwd: string,
                       done: seq<Node>, k: nat, written: seq<(string, Image)>,
                       blockNodes: seq<Node>, k': nat, written': seq<(string, Image)>,
                       totalNodes: seq<Node>, total: nat, totalWritten: seq<(string, Image)>)
    requires i < |bs|
    requires BlocksLoop(bs, i, assetFolder, cwd, done, k, written, totalNodes, total, totalWritten)
    requires blockNodes == BlockNodes(bs[i], assetFolder, cwd, k)
    requires k' == k + IsFigure(bs[i])
    requires written' == written + BlockWrites(bs[i], assetFolder, k)
    ensures BlocksLoop(bs, i + 1, assetFolder, cwd, done + blockNodes, k', written', totalNodes, total, totalWritten)
  {
    assert bs[i..][1..] == bs[i + 1..];
    AppendStep(done, blockNodes, BlocksNodes(bs[i..], assetFolder, cwd, k),
      BlocksNodes(bs[i + 1..], assetFolder, cwd, k'), totalNodes);
    AppendStep(written, BlockWrites(bs[i], assetFolder, k), FigureWrites(bs[i..], assetFolder, k),
      FigureWrites(bs[i + 1..], assetFolder, k'), totalWritten);
  }

  /** What pages `i` onwards produce with the counter at `n`: their nodes, figure count and files. */
  ghost function PagesNodesFrom(ps: seq<Page>, i: nat, assetFolder: string, cwd: string, n: nat): seq<Node>
    requires i <= |ps|
  {
    PagesNodes(ps[i..], assetFolder, cwd, n)
  }

  ghost function PagesFigCountFrom(ps: seq<Page>, i: nat): nat
    requires i <= |ps|
  {
    FigCount(AllBlocks(ps[i..]))
  }

  ghost function PagesWritesFrom(ps: seq<Page>, i: nat, assetFolder: string, n: nat): seq<(string, Image)>
    requires i <= |ps|
  {
    PagesWrites(ps[i..], assetFolder, n)
  }

  /** The state of the loop of `PDF.generate_latex` before page `i`. */
  ghost predicate PagesLoop(ps: seq<Page>, i: nat, assetFolder: string, cwd: string,
                            done: seq<Node>, n: nat, written: seq<(string, Image)>,
                            totalNodes: seq<Node>, total: nat, totalWritten: seq<(string, Image)>)
    requires i <= |ps|
  {
    && done + PagesNodesFrom(ps, i, assetFolder, cwd, n) == totalNodes
    && n + PagesFigCountFrom(ps, i) == total
    && written + PagesWritesFrom(ps, i, assetFolder, n) == totalWritten
  }

  /** One turn of the loop of `PDF.generate_latex` keeps its state. */
  lemma PagesLoopStep(ps: seq<Page>, i: nat, assetFolder: string, cwd: string,
                      done: seq<Node>, k: nat, written: seq<(string, Image)>,
                      pageNodes: seq<Node>, k': nat, written': seq<(string, Image)>,
                      totalNodes: seq<Node>, total: nat, totalWritten: seq<(string, Image)>)
    requires i < |ps|
    requires PagesLoop(ps, i, assetFolder, cwd, done, k, written, totalNodes, total, totalWritten)
    requires pageNodes == PageNodes(ps[i], assetFolder, cwd, k)
    requires k' == k + FigCount(ps[i].blocks)
    requires written' == written + FigureWrites(ps[i].blocks, assetFolder, k)
    ensures PagesLoop(ps, i + 1, assetFolder, cwd, done + pageNodes, k', written', totalNodes, total, totalWritten)
  {
    assert ps[i..][1..] == ps[i + 1..];
    FigCountAppend(ps[i].blocks, AllBlocks(ps[i + 1..]));
    AppendStep(done, pageNodes, PagesNodes(ps[i..], assetFolder, cwd, k),
      PagesNodes(ps[i + 1..], assetFolder, cwd, k'), totalNodes);
    AppendStep(written, FigureWrites(ps[i].blocks, assetFolder, k), PagesWrites(ps[i..], assetFolder, k),
      PagesWrites(ps[i + 1..], assetFolder, k'), totalWritten);
  }

  // ---------------------------------------------------------------------
  // PDF

  /** A PDF: its name, asset folder, pages, and the figure counter its blocks advance. */
  class Pdf {
    const name: string
    const assetFolder: string
    const pages: seq<Page>
    var numFigs: nat
    /** The figure images written to disk so far, with their paths, in order. */
    ghost var written: seq<(string, Image)>

    /** `PDF(filename)` for pages already converted from the file. */
    constructor (filename: string, pages: seq<Page>)
      ensures name == GetFileName(filename)
      ensures assetFolder == PathJoin(LocalStoreFolder, name + "assets")
      ensures this.pages == pages
      ensures numFigs == 0 && written == []
    {
      name := Split(filename, '.')[0];
      this.pages := pages;
      assetFolder := PathJoin(LocalStoreFolder, Split(filename, '.')[0] + "assets");
      numFigs := 0;
      written := [];
    }

    /** `Block.generate_latex` of a block of one of this PDF's pages. */
    method BlockLatex(b: Block, cwd: string) returns (nodes: seq<Node>)
      modifies this
      ensures nodes == BlockNodes(b, assetFolder, cwd, old(numFigs))
      ensures numFigs == old(numFigs) + IsFigure(b)
      ensures written == old(written) + BlockWrites(b, assetFolder, old(numFigs))
    {
      if b.kind == TextBlock {
        var text := EscapeSpecialChars(b.content);
        nodes := [TextNode(text), CommandNode(Vspace())];
      } else {
        var figPath := PathJoin(assetFolder, DecimalString(numFigs) + ".jpg");
        written := written + [(figPath, b.region)];
        numFigs := numFigs + 1;
        nodes := [FigureEnv(PathJoin(cwd, figPath))];
      }
    }

    /** `Page.generate_latex` of one of this PDF's pages. */
    method PageLatex(p: Page, cwd: string) returns (nodes: seq<Node>)
      modifies this
      ensures nodes == PageNodes(p, assetFolder, cwd, old(numFigs))
      ensures numFigs == old(numFigs) + FigCount(p.blocks)
      ensures written == old(written) + FigureWrites(p.blocks, assetFolder, old(numFigs))
    {
      ghost var totalNodes := BlocksNodes(p.blocks, assetFolder, cwd, numFigs);
      ghost var total := numFigs + FigCount(p.blocks);
      ghost var totalWritten := written + FigureWrites(p.blocks, assetFolder, numFigs);
      var content: seq<Node> := [];
      assert p.blocks[0..] == p.blocks;
      for i := 0 to |p.blocks|
        invariant BlocksLoop(p.blocks, i, assetFolder, cwd, content, numFigs, written, totalNodes, total, totalWritten)
      {
        ghost var k, w := numFigs, written;
        var blockNodes := BlockLatex(p.blocks[i], cwd);
        BlocksLoopStep(p.blocks, i, assetFolder, cwd, content, k, w, blockNodes, numFigs, written,
          totalNodes, total, totalWritten);
        content := content + blockNodes;
      }
      assert content + [] == content && written + [] == written;
      nodes := content + [CommandNode(Command("par", [], [])), CommandNode(Vspace())];
    }

    /** `PDF.generate_latex`. */
    method GenerateLatex(cwd: string) returns (nodes: seq<Node>)
      modifies this
      ensures nodes == DocumentNodes(pages, assetFolder, cwd, old(numFigs))
      ensures numFigs == old(numFigs) + FigCount(AllBlocks(pages))
      ensures written == old(written) + FigureWrites(AllBlocks(pages), assetFolder, old(numFigs))
    {
      ghost var n0 := numFigs;
      ghost var totalNodes := PagesNodes(pages, assetFolder, cwd, numFigs);
      ghost var total := numFigs + FigCount(AllBlocks(pages));
      ghost var totalWritten := written + PagesWrites(pages, assetFolder, numFigs);
      var content: seq<Node> := [];
      assert pages[0..] == pages;
      for i := 0 to |pages|
        invariant PagesLoop(pages, i, assetFolder, cwd, content, numFigs, written, totalNodes, total, totalWritten)
      {
        ghost var k, w := numFigs, written;
        var pageNodes := PageLatex(pages[i], cwd);
        PagesLoopStep(pages, i, assetFolder, cwd, content, k, w, pageNodes, numFigs, written,
          totalNodes, total, totalWritten);
        content := content + pageNodes;
      }
      assert content + [] == content && written + [] == written;
      PagesWritesInOrder(pages, assetFolder, n0);
      var graphicsCommand := Command("graphicspath", [StrArg(PathJoin(cwd, assetFolder))], []);
      nodes := [CommandNode(graphicsCommand), EnvNode("document", content, [])];
    }
  }
}
