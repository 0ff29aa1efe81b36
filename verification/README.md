# pdftolatex, post-image-processing pipeline, in Dafny

pdftolatex turns the pages of a PDF into a LaTeX file. OpenCV finds the
bounding rectangles of the content on each page image. Everything after that
is modelled here:

- the rectangles are filtered, widened to page-width bands and sorted
  (`segment`);
- the bands are cleaned up (`process_bboxes`): duplicate tops removed,
  nested bands merged, adjacent overlaps fixed in place;
- each band becomes a text or figure block, classified from the OCR
  confidences (`determine_content`);
- blocks, pages and the PDF produce LaTeX objects (`generate_latex`), while
  the PDF numbers the figure files it writes with its `num_figs` counter;
- LaTeX objects are rendered and flattened into the lines of the `.tex` file
  (`Command.make_text`, `Environment.make_content`, `TexFile.unpack_content`).

Files, one module each, in dependency order:

| file | module | models |
|---|---|---|
| `sequences.dfy` | `Sequences` | order-preserving sub-sequences (`Select` with a mask) and Python/numpy slicing (`PySlice`) |
| `geometry.dfy` | `Geometry` | `BBox`, strict vertical containment, images of pixels, `pct_white` as an exact fraction |
| `bbox_filters.dfy` | `BBoxFilters` | `remove_duplicate_bboxes` and `merge_bboxes`: loop methods, proved equal to spec functions |
| `segmentation.dfy` | `Segmentation` | the tail of `segment`, the in-place overlap fix on an `array`, `process_bboxes`, `find_content_blocks` |
| `strings.dfy` | `Strings` | `str.split`, `str.join`, `str(n)`, `os.path.join`, `str.replace`, and `get_file_name` |
| `escaping.dfy` | `Escaping` | `escape_special_chars`: the replace loop, proved equal to a per-character map |
| `latex.dfy` | `Latex` | `Text`, `Command.make_text`, `Environment.make_content`, `make_default_preamble`, `TexFile.unpack_content` |
| `document.dfy` | `Document` | `determine_content`, `Block`, `Page`, and the `PDF` class with its figure counter and `generate_latex` methods |

Modelling choices:

- Loops in the source become Dafny methods with loop invariants. Each method
  is proved equal to a specification function, and the properties are proved
  about that function.
- `BBox` is a value. The overlap fix of `process_bboxes` mutates boxes of a
  list in place; it is modelled as a method over an `array<BBox>`.
- `PDF` is a class. Its field `numFigs` is advanced by the block method; the
  figure images the source writes with `cv2.imwrite` are recorded, with
  their paths, in the ghost field `written`.
- The OCR engine is a function parameter from an image region to its words
  and confidences. The current directory (`os.getcwd()`) is a parameter
  `cwd`. The rectangles OpenCV would find are a parameter `rects`.
- A `Block` or `Page` keeps no pointer to its parent. The source reaches the
  PDF through `parent_page.parent_pdf`; here `Block.generate_latex` and
  `Page.generate_latex` are the methods `Pdf.BlockLatex` and `Pdf.PageLatex`.
- Python's `int((a + b) / 2)` truncates toward zero. It is written out in
  `Segmentation.Mid`, because Dafny's `/` on `int` is Euclidean.
- The mean-confidence test `np.mean(confs) > 40` is modelled exactly on
  integers as `sum |conf| > 40 * n`, with `n > 0`. The lemma
  `Document.IsTextIsMeanAbove40` relates it to the real-valued mean. An empty
  list gives a figure, since NaN compares false.

## Model

| member | source | states |
|---|---|---|
| `Geometry.NewBBox` | pdftolatex/utils.py:19-24 | the box stores `x`, `y`, `width`, `height` unchanged and `yBottom == y + height` |
| `Geometry.InsideTransitive` | pdftolatex/utils.py:66 | strict vertical containment (`y` strictly greater, `y_bottom` strictly smaller) is transitive |
| `Geometry.PctWhiteBounds` | pdftolatex/utils.py:27-37 | the white count is at most the pixel count; the fraction is below 1 iff some pixel is not white (a colour pixel only when all three channels are 255) |
| `Geometry.BelowOneIsQuotient` | pdftolatex/utils.py:37 | the integer test on the fraction agrees with the real quotient `white_count / imsize < 1` |
| `Geometry.RowWhiteBounds` | pdftolatex/utils.py:31-36 | a row has at most as many white pixels as pixels, fewer iff one of them is not white |
| `Geometry.SelectKeepsSorted` | pdftolatex/utils.py:57-67 | keeping any order-preserving sub-sequence of a `y`-sorted list keeps it `y`-sorted |
| `Sequences.SelectMembers` | pdftolatex/utils.py:60 | a masked sub-sequence is no longer than its input and holds exactly the flagged input elements |
| `Sequences.PySlice` | pdftolatex/pdf.py:76 | a Python slice `s[lo:hi]` is no longer than `s`, is exactly `s[lo..hi]` for in-range bounds, and is empty for an inverted range |
| `BBoxFilters.RemoveDuplicateBBoxes` | pdftolatex/utils.py:57-61 | the scan returns `Dedup(boxes)`, the input filtered by the mask "no earlier box has this `y`" |
| `BBoxFilters.DedupKeepsFirst` | pdftolatex/utils.py:60 | `Dedup` is the order-preserving sub-sequence that keeps exactly the first box for each `y` |
| `BBoxFilters.DedupDistinctYs` | pdftolatex/utils.py:57-61 | the `y` values of the result are pairwise distinct |
| `BBoxFilters.DedupSameYs` | pdftolatex/utils.py:57-61 | a `y` occurs in the result iff it occurs in the input |
| `BBoxFilters.DedupProperties` | pdftolatex/utils.py:57-61 | the result is no longer than the input, holds only input boxes, and loses no input `y` |
| `BBoxFilters.DedupStrictlySorted` | pdftolatex/utils.py:57-61 | on `y`-sorted input the result is strictly increasing in `y` |
| `BBoxFilters.MergeBBoxes` | pdftolatex/utils.py:63-67 | the scan returns `Merge(lst)`, the input filtered by the mask "not strictly inside any earlier input box" |
| `BBoxFilters.MergeKeepsUnnested` | pdftolatex/utils.py:65-66 | a box is dropped iff it is strictly inside an earlier box, so the result is that masked sub-sequence |
| `BBoxFilters.NestedInKeptIffNestedInInput` | pdftolatex/utils.py:65-66 | being strictly inside some kept box is the same as being strictly inside some earlier input box |
| `BBoxFilters.MergeKeepsHead` | pdftolatex/utils.py:64-65 | a non-empty input keeps its first box first |
| `BBoxFilters.MergeUnnested` | pdftolatex/utils.py:66 | no kept box is strictly inside an earlier kept box |
| `BBoxFilters.MergeCovers` | pdftolatex/utils.py:63-67 | every input box is kept or lies strictly inside a kept box |
| `BBoxFilters.MergeFromInput` | pdftolatex/utils.py:63-67 | every kept box is an input box |
| `BBoxFilters.MergeProperties` | pdftolatex/utils.py:63-67 | the result is no longer than the input and stays `y`-sorted when the input is |
| `Segmentation.Segment` | pdftolatex/segment_pdf.py:40-53 | the loop returns the kept boxes sorted by `y`: sorted, a permutation of the kept boxes, each with `x == 0`, the image width, height at least 10 and `yBottom == y + height` |
| `Segmentation.SegmentKeptMembers` | pdftolatex/segment_pdf.py:41-51 | a box is kept iff it is `BBox(0, by, img_width, bh)` of a rectangle that is at least 10 high and not entirely white |
| `Segmentation.SegmentKeptOnlyContributed` | pdftolatex/segment_pdf.py:41-51 | every kept box comes from a rectangle that passed both filters |
| `Segmentation.SegmentKeptAllContributed` | pdftolatex/segment_pdf.py:41-51 | every rectangle that passes both filters contributes its band |
| `Segmentation.SegmentKeptShape` | pdftolatex/segment_pdf.py:45-51 | every kept box has `x == 0`, the image width, height at least 10 (`MIN_TEXT_SIZE`), and a consistent bottom |
| `Segmentation.WhiteRegionDropped` | pdftolatex/segment_pdf.py:48-49 | a rectangle whose region is entirely white is not kept |
| `Segmentation.SortByYCorrect` | pdftolatex/segment_pdf.py:53 | `sorted(bboxes, key=y)` yields a `y`-sorted permutation of its input |
| `Segmentation.InsertByYSorted` | pdftolatex/segment_pdf.py:53 | inserting one box into a `y`-sorted list keeps it sorted |
| `Segmentation.InsertByYMultiset` | pdftolatex/segment_pdf.py:53 | insertion adds exactly that box to the multiset |
| `Segmentation.MidBounds` | pdftolatex/segment_pdf.py:65-66 | for an overlap (`a > b`) the truncated midpoint lies in `[b, a]`, and in `[b, a)` when `a + b >= 0` |
| `Segmentation.MidMonotone` | pdftolatex/segment_pdf.py:65-66 | the truncated midpoint is monotone in both arguments |
| `Segmentation.FixOverlap` | pdftolatex/segment_pdf.py:62-66 | the in-place loop over the array leaves exactly `FixedOverlaps` of the old contents |
| `Segmentation.FixedOverlapsFields` | pdftolatex/segment_pdf.py:64-66 | the fix leaves `x`, `width` and `height` of every box unchanged |
| `Segmentation.FixedOverlapsSeparated` | pdftolatex/segment_pdf.py:62-66 | after the fix every adjacent pair has `boxes[i].yBottom <= boxes[i+1].y` |
| `Segmentation.FixedOverlapsMidpoint` | pdftolatex/segment_pdf.py:64-66 | an overlapping pair gets both edges set to the midpoint, which lies in `[next.y, curr.yBottom)` |
| `Segmentation.FixedOverlapsSorted` | pdftolatex/segment_pdf.py:56-68 | on strictly `y`-sorted, unnested input the fix keeps the list `y`-sorted |
| `Segmentation.AdjacentSorted` | pdftolatex/segment_pdf.py:62-66 | adjacent pairs in `y` order make the whole list `y`-sorted |
| `Segmentation.SelectKeepsStrictlySorted` | pdftolatex/segment_pdf.py:58-59 | a masked sub-sequence of a strictly `y`-sorted list is strictly `y`-sorted |
| `Segmentation.ProcessShape` | pdftolatex/segment_pdf.py:56-68 | the result is as long as `merge_bboxes(remove_duplicate_bboxes(s))`, no longer than `s`, has those boxes with only `y`/`yBottom` changed, and each keeps an input box's `x`, `width`, `height` |
| `Segmentation.ProcessKeepsSorted` | pdftolatex/segment_pdf.py:56-68 | `y`-sorted input gives `y`-sorted output |
| `Segmentation.ProcessBBoxes` | pdftolatex/segment_pdf.py:56-68 | the method returns `Process(bboxes)`: no longer than its input, no adjacent overlap, sorted when the input is |
| `Segmentation.FindContentBlocks` | pdftolatex/segment_pdf.py:70-72 | the bands are `process_bboxes(segment(img))`, `y`-sorted, without adjacent overlap, each page-wide at `x == 0` and at least 10 high |
| `Strings.Split` | pdftolatex/utils.py:83 | `s.split(sep)` always has at least one piece |
| `Strings.JoinSplit` | pdftolatex/utils.py:83 | joining the pieces of `s.split(sep)` with `sep` gives `s` back |
| `Strings.SplitJoin` | pdftolatex/utils.py:83 | splitting a join of separator-free pieces gives the pieces back |
| `Strings.SplitHead` | pdftolatex/utils.py:83 | the first piece is the prefix before the first separator, has no separator, and is all of `s` when there is none |
| `Strings.GetFileNameIsStem` | pdftolatex/utils.py:83 | `get_file_name(x)` is the prefix of `x` before its first `.`, contains no `.`, and is `x` itself when `x` has no `.` |
| `Strings.PathJoinInjective` | pdftolatex/pdf.py:84-85 | below one directory, different relative names give different paths |
| `Strings.PathJoinSameKindInjective` | pdftolatex/pdf.py:88 | below one directory, different names of the same kind (both absolute or both relative) give different paths |
| `Strings.DecimalRoundTrip` | pdftolatex/pdf.py:85 | `str(n)` reads back as `n` |
| `Strings.DecimalStringInjective` | pdftolatex/pdf.py:85 | different counters give different `str(n)` |
| `Strings.ReplaceAbsent` | pdftolatex/utils.py:89 | replacing a character that does not occur changes nothing |
| `Strings.ReplaceAppend` | pdftolatex/utils.py:89 | `replace` distributes over concatenation |
| `Escaping.EscapeSpecialChars` | pdftolatex/utils.py:85-90 | the seven sequential replacements give the per-character map `Escape`: each of `& % $ # _ { }` gets a backslash in front, every other character is kept |
| `Escaping.ReplaceStep` | pdftolatex/utils.py:88-89 | one more `replace` on a partial escape escapes one more character |
| `Escaping.EscapeNoSpecials` | pdftolatex/utils.py:85-90 | a string with no special character comes back unchanged |
| `Escaping.EscapeLength` | pdftolatex/utils.py:87-89 | the output is longer than the input by the number of special characters |
| `Escaping.UnescapeEscape` | pdftolatex/utils.py:87-89 | removing the inserted backslashes gives back the input |
| `Escaping.EscapeGuardsSpecials` | pdftolatex/utils.py:87-89 | every special character of the output sits right after a backslash |
| `Escaping.EscapeHeadNotSpecial` | pdftolatex/utils.py:87-89 | the output never starts with a special character |
| `Escaping.EscapeNotIdempotent` | pdftolatex/utils.py:89 | escaping twice differs from escaping once (`&` gives `\&`, then `\\&`) |
| `Latex.Text` | pdftolatex/latex.py:7-9 | `Text(s).text` is the escaped `s`: it unescapes to `s` and is longer by the number of special characters |
| `Latex.MakeText` | pdftolatex/latex.py:24-44 | the two accumulating loops compute `CommandText(c)`: `\name`, then options and arguments, arguments first for `begin` |
| `Latex.BareCommand` | pdftolatex/latex.py:26-43 | a command with no arguments and no options renders as `\` + name, e.g. `\par` |
| `Latex.ArgsTextGroups` | pdftolatex/latex.py:29-32 | each argument is wrapped in its own braces in list order: when no argument text holds `}`, the rendered arguments parse back into exactly the argument texts, a command argument giving its own rendered text |
| `Latex.ArgsTextCons` | pdftolatex/latex.py:30-32 | the first argument's group comes first, followed by the rest |
| `Latex.OptionsBlock` | pdftolatex/latex.py:34-41 | no options render as nothing; otherwise `[` + items + `]`, and when no item holds a comma, splitting between the brackets at commas gives back the items |
| `Latex.OptionItem` | pdftolatex/latex.py:37-39 | an item reads back: for a non-empty key without `=`, the text before the first `=` is the key and the rest is the value, and splitting at `=` gives exactly `[key, value]` when the value has no `=`; an empty key gives the value alone |
| `Latex.BeginEndText` | pdftolatex/latex.py:43 | `begin` puts arguments before options (`\begin{name}[opts]`); `end` renders `\end{name}` |
| `Latex.RenderOneArgCommand` | pdftolatex/latex.py:43 | any other name puts the options before the argument |
| `Latex.RenderTwoValues` | pdftolatex/latex.py:39-43 | two unkeyed options render as `[v1,v2]` before the argument |
| `Latex.RenderKeyedOption` | pdftolatex/latex.py:39-43 | a keyed option renders as `[key=val]` before the argument |
| `Latex.RenderTwoArgs` | pdftolatex/latex.py:29-32 | two arguments render as two brace groups in order |
| `Latex.EnvContent` | pdftolatex/latex.py:59-63 | `make_content` is begin, the unchanged body, end: `len(body) + 2` items |
| `Latex.VspaceText` | pdftolatex/latex.py:96 | the replacement line is `\vspace{10pt}` |
| `Latex.PatchClean` | pdftolatex/latex.py:96 | a patched line has no form feed, and patching again changes nothing |
| `Latex.UnpackContent` | pdftolatex/latex.py:87-96 | the recursive method returns `Unpack(lst)`: the gathered lines of all objects, environments expanded recursively, form feeds replaced |
| `Latex.UnpackEnvContent` | pdftolatex/latex.py:91-93 | unpacking an environment's `content` list gives exactly the lines of that environment |
| `Latex.GatherAppend` | pdftolatex/latex.py:89-95 | the gathered lines of a concatenation are the concatenation of the gathered lines |
| `Latex.UnpackAppend` | pdftolatex/latex.py:85-96 | the preamble and the body unpack separately, in order |
| `Latex.UnpackIsPatchedFlat` | pdftolatex/latex.py:87-96 | unpacking equals patching, once, the recursively flattened lines |
| `Latex.UnpackLeaves` | pdftolatex/latex.py:90-95 | objects that are not environments give one patched line each, in order |
| `Latex.UnpackEnv` | pdftolatex/latex.py:87-96 | an environment whose body has N non-environment objects gives N + 2 lines: begin, one per object, end |
| `Latex.UnpackSingleEnv` | pdftolatex/latex.py:87-96 | an environment gives its begin line, its body's lines, its end line |
| `Latex.UnpackNoFormFeed` | pdftolatex/latex.py:96 | no output line contains a form feed |
| `Latex.DefaultPreambleLines` | pdftolatex/latex.py:65-74 | the default preamble unpacks to its six lines, from `\documentclass[a4paper,12pt]{article}` to `\setlength{\parindent}{0pt}` |
| `Latex.PreambleTexts` | pdftolatex/latex.py:68-73 | each preamble command renders as its expected line |
| `Latex.PreambleFlat` | pdftolatex/latex.py:65-74 | flattening the default preamble gives its six lines |
| `Latex.RenderDocumentclass` | pdftolatex/latex.py:68 | the first preamble command renders as `\documentclass[a4paper,12pt]{article}` |
| `Latex.RenderUsepackage` | pdftolatex/latex.py:69-71 | `usepackage` with one argument and no options renders as `\usepackage{pkg}` |
| `Latex.RenderGeometry` | pdftolatex/latex.py:72 | the geometry command renders as `\usepackage[margin=1in]{geometry}` |
| `Latex.RenderSetlength` | pdftolatex/latex.py:73 | the last preamble command renders as `\setlength{\parindent}{0pt}`, the nested command giving `\parindent` |
| `Document.MeanAbove40` | pdftolatex/pdf.py:96 | for `k > 0`, `a / k > 40` on reals iff `a > 40 * k` on integers |
| `Document.IsTextIsMeanAbove40` | pdftolatex/pdf.py:94-96 | the integer test is false on no confidences and otherwise agrees with `mean |conf| > 40` |
| `Document.IsTextExamples` | pdftolatex/pdf.py:94-96 | concrete cases: negative confidences count by magnitude, a mean of exactly 40 is a figure, no confidences is a figure |
| `Document.DetermineContent` | pdftolatex/pdf.py:92-102 | type Text iff `sum |conf| > 40 * n` with `n > 0`; a text payload is each word followed by a space, in order; a figure payload is `--Block Type is Figure--` |
| `Document.JoinWordsIsJoin` | pdftolatex/pdf.py:97-99 | the text payload is the words joined by spaces, with one trailing space |
| `Document.TextPayloadWords` | pdftolatex/pdf.py:97-99 | splitting a payload of space-free words at spaces gives back the words, then one empty piece |
| `Document.NewBlock` | pdftolatex/pdf.py:67-76 | the block holds its band, the rows `y .. y_bottom` of the page image, and the type and payload of `determine_content` on that region |
| `Document.NewPage` | pdftolatex/pdf.py:46-56 | the page holds its image and size and one block per band of `find_content_blocks`, in order, the blocks separated vertically |
| `Document.FigCountAppend` | pdftolatex/pdf.py:87 | the figure count of a concatenation is the sum of the counts |
| `Document.FigureWritesAppend` | pdftolatex/pdf.py:83-87 | the figures of a concatenation are those of the first part, then those of the second part numbered after them |
| `Document.FigureWritesNumbered` | pdftolatex/pdf.py:83-87 | one file is written per figure block, and the k-th is named `str(n + k) + '.jpg'` in the asset folder |
| `Document.FigureWritesImages` | pdftolatex/pdf.py:86 | every image written is the region of a figure block |
| `Document.FigurePathsDistinct` | pdftolatex/pdf.py:84-88 | different counter values give different figure paths, also after joining with the working directory |
| `Document.JpgSuffixInjective` | pdftolatex/pdf.py:85 | equal names with the `.jpg` suffix have equal stems |
| `Document.PagesWritesInOrder` | pdftolatex/pdf.py:35-38 | the figures of all pages are numbered in page-then-block order |
| `Document.Pdf.constructor` | pdftolatex/pdf.py:19-26 | the name is `get_file_name(filename)`, the asset folder is `localstore/<name>assets`, and the counter starts at 0 |
| `Document.Pdf.BlockLatex` | pdftolatex/pdf.py:78-90 | text: `[Text(content), \vspace{10pt}]`, counter unchanged, nothing written; figure: one `figure` environment with option `h` including the file named by the current counter, that file written with the block's region, counter advanced by 1 |
| `Document.Pdf.PageLatex` | pdftolatex/pdf.py:58-62 | the blocks' outputs in order, then `\par` and `\vspace{10pt}`; the counter grows by the page's figure count and the writes follow in order |
| `Document.Pdf.GenerateLatex` | pdftolatex/pdf.py:35-42 | `[graphicspath, document environment of all pages' outputs]`; the counter grows by the number of figure blocks, and the files written are numbered from the starting counter in page-then-block order |

## Left out

- The OpenCV part of `segment` (grayscale conversion, thresholding, blur, morphology, `findContours`, `boundingRect`) is a foreign image library; its output, the list of bounding rectangles, is the parameter `rects`.
- `pdf2image.convert_from_path` and `PDF.pdftopages` are not part of this model: the constructor takes the converted pages.
- `pytesseract.image_to_data` is a foreign call; the OCR engine is a function parameter returning the words and confidences of a region.
- `cv2.imwrite`, `os.mkdir`, `save_pil_images` and `write_all` are file I/O. The figure writes are kept as a ghost log; the directory creation and the final file write are not modelled.
- `os.getcwd()` is the parameter `cwd`.
- `PDF.path` (the input path `docs/<filename>`) is not modelled, since nothing in the pipeline reads it after conversion.
- The `print` of the mean confidence in `determine_content` is output only and is left out.
- `np.mean` as a float: the comparison is made exactly on integers.
- `expand_bbox` is not used by the pipeline and works on a float factor.
- `simple_plot`, `plot_all_boxes` and `test` are visualisation with random colours.
- `make_strlist` (pdftolatex/utils.py:92-94) turns list items into strings. Nothing in the repository calls it, so it is not modelled.
- `convert_pdf.py` and `main.py` are command-line plumbing and are not part of this model.
- `TexFile.__init__` and `generate_tex_file` only call `generate_latex`, `make_default_preamble`, `unpack_content` and `write_all`. They are not modelled separately.
- `add_to_preamble` cannot be called as written, because it lacks `self`.
- Segmentation.SortByYCorrect: states that the result is sorted and a permutation, but not that Python's `sorted` is stable. The model's insertion sort is stable; the lemma does not say so.
- Segmentation.FixOverlap: the source mutates `BBox` objects shared with the caller's list. The model mutates an array of box values, so aliasing is not captured.
- Document.Pdf.BlockLatex: `Block` and `Page` hold no parent pointers, so the counter lives on the `Pdf` receiver.
- Escaping.EscapeSpecialChars: escaping is not idempotent. The model follows the code, and `Escaping.EscapeNotIdempotent` shows the difference.
