/** Turning an OCR result into the ordered list of chunks
    (`process_ocr_results_for_embedding`, the same in the three copies of
    the service). Pages are visited in order. A page with non-blank content
    is sent to the language model behind the rate gate; the sections of its
    reply are stamped with the page number, and any failure adds one
    fallback chunk holding the page verbatim. Then every table and every
    image of the page becomes a chunk of its own, blank page or not.

    The language model, the clock and the JSON decoder are the inputs held
    in `Services`. */
module Chunker {
  import opened Base
  import opened JsonValues
  import opened RateGate
  import Repair

  // ---------------------------------------------------------------------
  // OCR input
  // ---------------------------------------------------------------------

  /** An image of a page: the `caption` and `base64` keys, when present. */
  datatype PageImage = PageImage(caption: Option<Json>, base64: Option<Json>)

  /** One OCR page: `text` and `markdown` when present, and its tables and
      images (a missing or null list reads as empty, which the source treats
      the same as an empty one). */
  datatype Page = Page(text: Option<string>, markdown: Option<string>, tables: seq<Json>, images: seq<PageImage>)

  /** The OCR result: its `pages` list, when the key is present. */
  datatype OcrResult = OcrResult(pages: Option<seq<Page>>)

  function PagesOf(ocr: OcrResult): seq<Page> {
    ocr.pages.GetOr([])
  }

  /** `page.get("text") or page.get("markdown")`: the text when it is a
      non-empty string, else whatever the markdown key holds. */
  function PageContent(p: Page): Option<string> {
    if p.text.Some? && p.text.value != "" then p.text else p.markdown
  }

  /** `page_content and page_content.strip()`: some non-whitespace content. */
  predicate HasText(p: Page) {
    PageContent(p).Some? && !IsBlank(PageContent(p).value)
  }

  // ---------------------------------------------------------------------
  // Chunks
  // ---------------------------------------------------------------------

  /** What a chunk carries besides its page number: a section of the model's
      reply (its dict as returned), the fallback for a page the model could
      not split, a table, or an image. */
  datatype Body =
    | Section(fields: map<string, Json>)
    | Fallback(content: string)
    | Table(tableIndex: nat, table: Json)
    | Image(imageIndex: nat, caption: Option<Json>, imageData: Option<Json>)

  /** A chunk of page `page` (1-based). */
  datatype Chunk = Chunk(page: nat, body: Body)

  const FallbackMeaning: string := "Full page text without further chunking."
  const FallbackSummary: string := "Fallback chunk."
  const TableMeaning: string := "Table data extracted from the page."
  const TableSummary: string := "Table representation."
  const ImageMeaning: string := "Visual content on the page."
  const ImageSummary: string := "Extracted image."

  /** The dict the source appends for a chunk. A section is the model's dict
      with its `page` key overwritten; the others are built field by field. */
  function AsDict(c: Chunk): (d: map<string, Json>)
    ensures "page" in d && d["page"] == Int(c.page)
    ensures c.body.Fallback? ==> d.Keys == {"type", "page", "content", "meaning", "summary"}
    ensures c.body.Fallback? ==> d["type"] == JStr("text") && d["content"] == JStr(c.body.content)
    ensures c.body.Fallback? ==> d["meaning"] == JStr(FallbackMeaning) && d["summary"] == JStr(FallbackSummary)
    ensures c.body.Table? ==> d.Keys == {"type", "page", "table_index", "content", "meaning", "summary"}
    ensures c.body.Table? ==> d["type"] == JStr("table")
    ensures c.body.Table? ==> d["table_index"] == Int(c.body.tableIndex) && d["content"] == c.body.table
    ensures c.body.Table? ==> d["meaning"] == JStr(TableMeaning) && d["summary"] == JStr(TableSummary)
    ensures c.body.Image? ==>
              d.Keys == {"type", "page", "image_index", "meaning", "summary"}
                        + (if c.body.caption.Some? then {"caption"} else {})
                        + (if c.body.imageData.Some? then {"image_data"} else {})
    ensures c.body.Image? ==> d["type"] == JStr("image") && d["image_index"] == Int(c.body.imageIndex)
    ensures c.body.Image? ==> d["meaning"] == JStr(ImageMeaning) && d["summary"] == JStr(ImageSummary)
    ensures c.body.Image? && c.body.caption.Some? ==> d["caption"] == c.body.caption.value
    ensures c.body.Image? && c.body.imageData.Some? ==> d["image_data"] == c.body.imageData.value
    ensures c.body.Section? ==> d.Keys == c.body.fields.Keys + {"page"}
    ensures c.body.Section? ==> forall k | k in c.body.fields && k != "page" :: d[k] == c.body.fields[k]
  {
    var page := Int(c.page);
    match c.body
    case Section(fields) => fields["page" := page]
    case Fallback(content) =>
      map["type" := JStr("text"), "page" := page, "content" := JStr(content),
          "meaning" := JStr(FallbackMeaning), "summary" := JStr(FallbackSummary)]
    case Table(i, table) =>
      map["type" := JStr("table"), "page" := page, "table_index" := Int(i), "content" := table,
          "meaning" := JStr(TableMeaning), "summary" := JStr(TableSummary)]
    case Image(i, caption, data) =>
      var base := map["type" := JStr("image"), "page" := page, "image_index" := Int(i),
                      "meaning" := JStr(ImageMeaning), "summary" := JStr(ImageSummary)];
      var withCaption := if caption.Some? then base["caption" := caption.value] else base;
      if data.Some? then withCaption["image_data" := data.value] else withCaption
  }

  /** Order of the kinds within one page: text chunks, then tables, then images. */
  function Rank(b: Body): nat {
    match b
    case Section(_) => 0
    case Fallback(_) => 0
    case Table(_, _) => 1
    case Image(_, _, _) => 2
  }

  predicate IsText(c: Chunk) {
    c.body.Section? || c.body.Fallback?
  }

  predicate RankOrdered(cs: seq<Chunk>) {
    forall a, b | 0 <= a < b < |cs| :: Rank(cs[a].body) <= Rank(cs[b].body)
  }

  predicate PageOrdered(cs: seq<Chunk>) {
    forall a, b | 0 <= a < b < |cs| :: cs[a].page <= cs[b].page
  }

  // ---------------------------------------------------------------------
  // The sections of one reply
  // ---------------------------------------------------------------------

  /** The loop `for chunk in ...: chunk["page"] = page_number; chunks.append(chunk)`
      over a list: dicts are stamped and appended in order, and the first
      element that is not a dict raises, leaving the earlier ones appended. */
  datatype Stamped = Stamped(chunks: seq<Chunk>, complete: bool)

  function StampEach(items: seq<Json>, page: nat): (r: Stamped)
    ensures |r.chunks| <= |items|
    ensures forall k | 0 <= k < |r.chunks| :: items[k].JObj? && r.chunks[k] == Chunk(page, Section(items[k].fields))
    ensures r.complete <==> forall k | 0 <= k < |items| :: items[k].JObj?
    ensures r.complete ==> |r.chunks| == |items|
    ensures !r.complete ==> |r.chunks| < |items| && !items[|r.chunks|].JObj?
  {
    if |items| == 0 then Stamped([], true)
    else if items[0].JObj? then
      var rest := StampEach(items[1..], page);
      Stamped([Chunk(page, Section(items[0].fields))] + rest.chunks, rest.complete)
    else Stamped([], false)
  }

  /** `llm_chunks_data.get("chunks", [])` and the loop over it. A reply that
      is not a dict raises at `.get`; a missing key yields nothing; an empty
      string or dict iterates nothing; a non-empty string or dict raises at
      its first element; anything else is not iterable. */
  function SectionsOf(data: Json, page: nat): (r: Stamped)
    ensures forall k | 0 <= k < |r.chunks| :: r.chunks[k].page == page && r.chunks[k].body.Section?
    ensures !data.JObj? ==> r == Stamped([], false)
    ensures data.JObj? && "chunks" !in data.fields ==> r == Stamped([], true)
    ensures data.JObj? && "chunks" in data.fields && data.fields["chunks"].JArr? ==>
              r == StampEach(data.fields["chunks"].items, page)
    ensures data.JObj? && "chunks" in data.fields && !data.fields["chunks"].JArr? ==>
              r.chunks == [] &&
              (r.complete <==> data.fields["chunks"] == JStr("") || data.fields["chunks"] == JObj(map[]))
  {
    match data
    case JObj(fields) =>
      var listed := if "chunks" in fields then fields["chunks"] else JArr([]);
      (match listed
       case JArr(items) => StampEach(items, page)
       case JObj(keys) => Stamped([], |keys| == 0)
       case JStr(t) => Stamped([], |t| == 0)
       case _ => Stamped([], false))
    case _ => Stamped([], false)
  }

  // ---------------------------------------------------------------------
  // One page
  // ---------------------------------------------------------------------

  /** What `generate_content` did for a page: returned a reply text, or raised. */
  datatype LlmReply = Replied(text: string) | CallFailed(error: string)

  /** Everything outside the model's reach: the API key read from the
      environment, the clock (its reading when the pass starts, and at the
      gate of each page, by page index), the language model's answer for each
      page, the JSON decoder, and which copy of the service is running. */
  datatype Services = Services(
    geminiKey: Option<string>,
    startTime: real,
    clock: nat -> real,
    llm: nat -> LlmReply,
    decode: Decoder,
    variant: Repair.Variant)

  /** The text chunks of a page with content, the window after its request,
      and the request as it went out. */
  datatype Asked = Asked(chunks: seq<Chunk>, window: Window, issued: Issued)

  /** The `try` block for page index `idx`: gate, request, count, repair and
      decode, stamp; on any exception one fallback chunk. */
  function AskModel(content: string, idx: nat, w: Window, svc: Services): (r: Asked)
    ensures forall k | 0 <= k < |r.chunks| :: r.chunks[k].page == idx + 1 && IsText(r.chunks[k])
    ensures forall k | 0 <= k < |r.chunks| && r.chunks[k].body.Fallback? ::
              k == |r.chunks| - 1 && r.chunks[k].body.content == content
    ensures r.issued.window == Admit(w, svc.clock(idx)).window
    ensures r.issued.replied <==> svc.llm(idx).Replied?
    ensures r.window == (if svc.llm(idx).Replied? then Counted(r.issued.window) else r.issued.window)
    ensures svc.llm(idx).CallFailed? ==> r.chunks == [Chunk(idx + 1, Fallback(content))]
    ensures svc.llm(idx).Replied? && Repair.ExtractJson(svc.llm(idx).text, svc.decode, svc.variant).Err? ==>
              r.chunks == [Chunk(idx + 1, Fallback(content))]
  {
    var page := idx + 1;
    var fallback := Chunk(page, Fallback(content));
    var admitted := Admit(w, svc.clock(idx)).window;
    match svc.llm(idx)
    case CallFailed(_) => Asked([fallback], admitted, Issued(admitted, false))
    case Replied(text) =>
      var counted := Counted(admitted);
      match Repair.ExtractJson(text, svc.decode, svc.variant)
      case Err(_) => Asked([fallback], counted, Issued(admitted, true))
      case Ok(data) =>
        var stamped := SectionsOf(data, page);
        Asked(if stamped.complete then stamped.chunks else stamped.chunks + [fallback],
              counted, Issued(admitted, true))
  }

  function TableChunks(tables: seq<Json>, page: nat): (r: seq<Chunk>)
    ensures |r| == |tables|
    ensures forall k | 0 <= k < |r| :: r[k].page == page && r[k].body.Table? && !IsText(r[k])
  {
    seq(|tables|, k requires 0 <= k < |tables| => Chunk(page, Table(k, tables[k])))
  }

  function ImageChunks(images: seq<PageImage>, page: nat): (r: seq<Chunk>)
    ensures |r| == |images|
    ensures forall k | 0 <= k < |r| :: r[k].page == page && r[k].body.Image? && !IsText(r[k])
  {
    seq(|images|, k requires 0 <= k < |images| =>
          Chunk(page, Image(k, images[k].caption, images[k].base64)))
  }

  /** A page's chunks: its text chunks, then its tables, then its images,
      all of page `page`. */
  function Assemble(page: nat, text: seq<Chunk>, tables: seq<Chunk>, images: seq<Chunk>): (r: seq<Chunk>)
    requires forall k | 0 <= k < |text| :: IsText(text[k]) && text[k].page == page
    requires forall k | 0 <= k < |tables| :: tables[k].body.Table? && tables[k].page == page
    requires forall k | 0 <= k < |images| :: images[k].body.Image? && images[k].page == page
    ensures |r| == |text| + |tables| + |images|
    ensures r[..|text|] == text
    ensures r[|text|..|text| + |tables|] == tables
    ensures r[|text| + |tables|..] == images
    ensures forall k | 0 <= k < |r| :: r[k].page == page && (IsText(r[k]) <==> k < |text|)
    ensures RankOrdered(r)
  {
    var r := text + tables + images;
    forall k | 0 <= k < |r|
      ensures r[k].page == page && (IsText(r[k]) <==> k < |text|)
      ensures Rank(r[k].body) == (if k < |text| then 0 else if k < |text| + |tables| then 1 else 2)
    {
      if k < |text| {
        assert r[k] == text[k] && IsText(text[k]);
      } else if k < |text| + |tables| {
        var t := k - |text|;
        assert r[k] == tables[t] && tables[t].body.Table?;
      } else {
        var m := k - |text| - |tables|;
        assert r[k] == images[m] && images[m].body.Image?;
      }
    }
    assert r[..|text|] == text;
    assert r[|text|..|text| + |tables|] == tables;
    assert r[|text| + |tables|..] == images;
    r
  }

  /** The text part of a page: nothing for a page without text, else what
      the model's `try` block produced. */
  function PageText(p: Page, idx: nat, w: Window, svc: Services): (r: Asked)
    ensures forall k | 0 <= k < |r.chunks| :: r.chunks[k].page == idx + 1 && IsText(r.chunks[k])
  {
    if HasText(p) then AskModel(PageContent(p).value, idx, w, svc) else Asked([], w, Issued(w, false))
  }

  /** What one page contributes, read off the page itself: text chunks
      first, then exactly its tables and then exactly its images, in their
      order and with their indices; a page without text contributes only
      those. */
  predicate PageBlock(b: seq<Chunk>, p: Page, idx: nat) {
    var tail := TableChunks(p.tables, idx + 1) + ImageChunks(p.images, idx + 1);
    && RankOrdered(b)
    && |tail| <= |b|
    && b[|b| - |tail|..] == tail
    && (forall k | 0 <= k < |b| - |tail| :: IsText(b[k]))
    && (!HasText(p) ==> b == tail)
  }

  /** The chunks of page index `idx`, the window after it, and the request it
      made (none for a page without text). */
  datatype PageOutput = PageOutput(chunks: seq<Chunk>, window: Window, issued: seq<Issued>)

  function ChunkPage(p: Page, idx: nat, w: Window, svc: Services): (r: PageOutput)
    ensures forall k | 0 <= k < |r.chunks| :: r.chunks[k].page == idx + 1
    ensures RankOrdered(r.chunks)
    ensures !HasText(p) ==> r.window == w && r.issued == []
    ensures !HasText(p) ==> forall k | 0 <= k < |r.chunks| :: !IsText(r.chunks[k])
    ensures HasText(p) ==> |r.issued| == 1
  {
    var asked := PageText(p, idx, w, svc);
    var tables := TableChunks(p.tables, idx + 1);
    var images := ImageChunks(p.images, idx + 1);
    var all := Assemble(idx + 1, asked.chunks, tables, images);
    PageOutput(all, asked.window, if HasText(p) then [asked.issued] else [])
  }

  /** Whatever the model answers, a page's chunks are its text chunks, then
      exactly its tables, then exactly its images. */
  lemma ChunkPageIsBlock(p: Page, idx: nat, w: Window, svc: Services)
    ensures PageBlock(ChunkPage(p, idx, w, svc).chunks, p, idx)
  {
    var text := PageText(p, idx, w, svc).chunks;
    assert ChunkPage(p, idx, w, svc).chunks
           == Assemble(idx + 1, text, TableChunks(p.tables, idx + 1), ImageChunks(p.images, idx + 1));
    AssembledIsBlock(p, idx, text);
  }

  /** The assembly step alone: whatever text chunks it is given, and none
      for a blank page, it yields the page's block. */
  lemma AssembledIsBlock(p: Page, idx: nat, text: seq<Chunk>)
    requires forall k | 0 <= k < |text| :: IsText(text[k]) && text[k].page == idx + 1
    requires !HasText(p) ==> text == []
    ensures PageBlock(Assemble(idx + 1, text, TableChunks(p.tables, idx + 1), ImageChunks(p.images, idx + 1)), p, idx)
  {
    var tables := TableChunks(p.tables, idx + 1);
    var images := ImageChunks(p.images, idx + 1);
    var r := Assemble(idx + 1, text, tables, images);
    assert r[|text|..] == r[|text|..|text| + |tables|] + r[|text| + |tables|..];
    assert r[|r| - |tables + images|..] == tables + images;
    if !HasText(p) {
      assert r == r[|text|..];
    }
  }

  // ---------------------------------------------------------------------
  // The whole document
  // ---------------------------------------------------------------------

  /** The state carried from page to page: chunks so far, the rate window,
      and the requests made so far. */
  datatype Progress = Progress(chunks: seq<Chunk>, window: Window, log: seq<Issued>)

  /** Appending the chunks of page `i + 1` after chunks of pages up to `i`
      keeps the list ordered by page. */
  lemma AppendPage(before: seq<Chunk>, chunks: seq<Chunk>, i: nat)
    requires forall k | 0 <= k < |chunks| :: chunks[k].page == i + 1
    ensures forall k | 0 <= k < |chunks| :: (before + chunks)[|before| + k] == chunks[k]
    ensures forall k | 0 <= k < |before| :: (before + chunks)[k] == before[k]
    ensures PageOrdered(before) && (forall k | 0 <= k < |before| :: before[k].page <= i) ==>
              PageOrdered(before + chunks)
  {
  }

  /** Chunking one page keeps the requests sent so far well spaced. */
  lemma ChunkPageKeepsSpacing(p: Page, idx: nat, log: seq<Issued>, w: Window, svc: Services)
    requires SpacedBefore(log, w)
    ensures SpacedBefore(log + ChunkPage(p, idx, w, svc).issued, ChunkPage(p, idx, w, svc).window)
  {
    var out := ChunkPage(p, idx, w, svc);
    if HasText(p) {
      RequestKeepsSpacing(log, w, svc.clock(idx), svc.llm(idx).Replied?);
    } else {
      assert log + out.issued == log;
    }
  }

  /** One step of the loop: page `i`'s chunks are appended after the earlier
      ones, keeping the order by page and the spacing of the request log. */
  lemma PageStep(p: Page, i: nat, acc: Progress, svc: Services)
    ensures var out := ChunkPage(p, i, acc.window, svc);
            && (forall k | |acc.chunks| <= k < |acc.chunks + out.chunks| :: (acc.chunks + out.chunks)[k].page == i + 1)
            && (PageOrdered(acc.chunks) && (forall k | 0 <= k < |acc.chunks| :: acc.chunks[k].page <= i) ==>
                  PageOrdered(acc.chunks + out.chunks))
            && (SpacedBefore(acc.log, acc.window) ==> SpacedBefore(acc.log + out.issued, out.window))
  {
    var out := ChunkPage(p, i, acc.window, svc);
    AppendPage(acc.chunks, out.chunks, i);
    if SpacedBefore(acc.log, acc.window) {
      ChunkPageKeepsSpacing(p, i, acc.log, acc.window, svc);
    }
  }

  /** The loop over the pages from index `i` on. */
  function ChunkPagesFrom(pages: seq<Page>, i: nat, acc: Progress, svc: Services): (r: Progress)
    requires i <= |pages|
    ensures acc.chunks <= r.chunks
    ensures forall k | |acc.chunks| <= k < |r.chunks| :: i < r.chunks[k].page <= |pages|
    ensures PageOrdered(acc.chunks) && (forall k | 0 <= k < |acc.chunks| :: acc.chunks[k].page <= i) ==>
              PageOrdered(r.chunks)
    ensures SpacedBefore(acc.log, acc.window) ==> SpacedBefore(r.log, r.window)
    decreases |pages| - i
  {
    if i == |pages| then acc
    else
      var out := ChunkPage(pages[i], i, acc.window, svc);
      var next := Progress(acc.chunks + out.chunks, out.window, acc.log + out.issued);
      PageStep(pages[i], i, acc, svc);
      ChunkPagesFrom(pages, i + 1, next, svc)
  }

  /** The chunks of `cs` that belong to page `page`, in order. */
  function ChunksOfPage(cs: seq<Chunk>, page: nat): seq<Chunk>
    decreases |cs|
  {
    if |cs| == 0 then []
    else (if cs[0].page == page then [cs[0]] else []) + ChunksOfPage(cs[1..], page)
  }

  lemma {:induction false} ChunksOfPageAppend(a: seq<Chunk>, b: seq<Chunk>, page: nat)
    ensures ChunksOfPage(a + b, page) == ChunksOfPage(a, page) + ChunksOfPage(b, page)
    decreases |a|
  {
    if |a| == 0 {
      assert a + b == b;
    } else {
      var head := if a[0].page == page then [a[0]] else [];
      assert (a + b)[0] == a[0] && (a + b)[1..] == a[1..] + b;
      ChunksOfPageAppend(a[1..], b, page);
      var x, y := ChunksOfPage(a[1..], page), ChunksOfPage(b, page);
      assert ChunksOfPage(a + b, page) == head + (x + y);
      assert ChunksOfPage(a, page) == head + x;
      assert head + (x + y) == (head + x) + y;
    }
  }

  lemma {:induction false} ChunksOfOnePage(cs: seq<Chunk>, page: nat)
    requires forall k | 0 <= k < |cs| :: cs[k].page == page
    ensures ChunksOfPage(cs, page) == cs
    decreases |cs|
  {
    if |cs| > 0 {
      ChunksOfOnePage(cs[1..], page);
      assert cs == [cs[0]] + cs[1..];
    }
  }

  lemma {:induction false} ChunksOfOtherPages(cs: seq<Chunk>, page: nat)
    requires forall k | 0 <= k < |cs| :: cs[k].page != page
    ensures ChunksOfPage(cs, page) == []
    decreases |cs|
  {
    if |cs| > 0 {
      ChunksOfOtherPages(cs[1..], page);
    }
  }

  /** In `before + chunks + later`, with earlier pages before, page `page`
      in the middle and later pages after, the middle is the page's block. */
  lemma OnlyBlockOfPage(before: seq<Chunk>, chunks: seq<Chunk>, all: seq<Chunk>, page: nat)
    requires forall k | 0 <= k < |before| :: before[k].page < page
    requires forall k | 0 <= k < |chunks| :: chunks[k].page == page
    requires before + chunks <= all
    requires forall k | |before + chunks| <= k < |all| :: page < all[k].page
    ensures ChunksOfPage(all, page) == chunks
  {
    var later := all[|before + chunks|..];
    assert all == (before + chunks) + later;
    ChunksOfPageAppend(before + chunks, later, page);
    ChunksOfPageAppend(before, chunks, page);
    ChunksOfOtherPages(before, page);
    ChunksOfOnePage(chunks, page);
    assert forall k | 0 <= k < |later| :: later[k] == all[|before + chunks| + k];
    ChunksOfOtherPages(later, page);
  }

  /** The window a page is chunked under decides only when its request may
      go out, never what the page contributes. */
  lemma ChunksIgnoreWindow(p: Page, idx: nat, w1: Window, w2: Window, svc: Services)
    ensures ChunkPage(p, idx, w1, svc).chunks == ChunkPage(p, idx, w2, svc).chunks
  {
    assert PageText(p, idx, w1, svc).chunks == PageText(p, idx, w2, svc).chunks;
  }

  /** From index `i` on, the chunks the loop records for each page are
      exactly what chunking that page alone yields, whatever the gate did
      before it. */
  lemma {:induction false} PagesFromAreChunkPages(pages: seq<Page>, i: nat, acc: Progress, svc: Services)
    requires i <= |pages|
    requires forall k | 0 <= k < |acc.chunks| :: acc.chunks[k].page <= i
    ensures forall k | i <= k < |pages| ::
              ChunksOfPage(ChunkPagesFrom(pages, i, acc, svc).chunks, k + 1)
              == ChunkPage(pages[k], k, Window(0, 0.0), svc).chunks
    decreases |pages| - i
  {
    if i < |pages| {
      var out := ChunkPage(pages[i], i, acc.window, svc);
      var next := Progress(acc.chunks + out.chunks, out.window, acc.log + out.issued);
      var r := ChunkPagesFrom(pages, i + 1, next, svc);
      assert ChunkPagesFrom(pages, i, acc, svc) == r;
      AppendPage(acc.chunks, out.chunks, i);
      PagesFromAreChunkPages(pages, i + 1, next, svc);
      OnlyBlockOfPage(acc.chunks, out.chunks, r.chunks, i + 1);
      ChunksIgnoreWindow(pages[i], i, acc.window, Window(0, 0.0), svc);
      forall k | i <= k < |pages|
        ensures ChunksOfPage(r.chunks, k + 1) == ChunkPage(pages[k], k, Window(0, 0.0), svc).chunks
      {
        if k == i {
          assert ChunksOfPage(r.chunks, k + 1) == out.chunks;
        }
      }
    }
  }

  /** Each page from index `i` on owns a block of the result, made of its
      text chunks, its tables and its images. */
  lemma PagesFromKeepBlocks(pages: seq<Page>, i: nat, acc: Progress, svc: Services)
    requires i <= |pages|
    requires forall k | 0 <= k < |acc.chunks| :: acc.chunks[k].page <= i
    ensures forall k | i <= k < |pages| ::
              PageBlock(ChunksOfPage(ChunkPagesFrom(pages, i, acc, svc).chunks, k + 1), pages[k], k)
  {
    PagesFromAreChunkPages(pages, i, acc, svc);
    forall k | i <= k < |pages|
      ensures PageBlock(ChunkPage(pages[k], k, Window(0, 0.0), svc).chunks, pages[k], k)
    {
      ChunkPageIsBlock(pages[k], k, Window(0, 0.0), svc);
    }
  }

  /** The pass over a whole OCR result, from an empty list and a fresh window. */
  function Chunking(ocr: OcrResult, svc: Services): Progress {
    ChunkPagesFrom(PagesOf(ocr), 0, Progress([], Window(0, svc.startTime), []), svc)
  }

  const MissingKeyMessage: string := "GEMINI_API_KEY not found in environment variables"

  /** `process_ocr_results_for_embedding`: fails only when the key is absent
      or empty, before any page is looked at. */
  function ProcessOcrResults(ocr: OcrResult, svc: Services): (r: Result<seq<Chunk>, string>)
    ensures r.Err? <==> svc.geminiKey.None? || svc.geminiKey.value == ""
    ensures r.Err? ==> r.error == MissingKeyMessage
    ensures r.Ok? && ocr.pages.None? ==> r.value == []
    ensures r.Ok? ==> PageOrdered(r.value)
    ensures r.Ok? ==> forall k | 0 <= k < |r.value| :: 1 <= r.value[k].page <= |PagesOf(ocr)|
    ensures r.Ok? ==> forall k | 0 <= k < |PagesOf(ocr)| ::
              ChunksOfPage(r.value, k + 1) == ChunkPage(PagesOf(ocr)[k], k, Window(0, 0.0), svc).chunks
    ensures r.Ok? ==> forall k | 0 <= k < |PagesOf(ocr)| :: PageBlock(ChunksOfPage(r.value, k + 1), PagesOf(ocr)[k], k)
  {
    if svc.geminiKey.None? || svc.geminiKey.value == "" then Err(MissingKeyMessage)
    else
      PagesFromAreChunkPages(PagesOf(ocr), 0, Progress([], Window(0, svc.startTime), []), svc);
      PagesFromKeepBlocks(PagesOf(ocr), 0, Progress([], Window(0, svc.startTime), []), svc);
      Ok(Chunking(ocr, svc).chunks)
  }

  /** Over a whole pass, the gate keeps its promise: every request went out
      with fewer than 15 counted, windows start at least 60 units apart, and
      no window holds more than 15 requests that returned. */
  lemma ChunkingRespectsBudget(ocr: OcrResult, svc: Services, start: real)
    ensures WellSpaced(Chunking(ocr, svc).log)
    ensures RepliedIn(Chunking(ocr, svc).log, start) <= Limit
  {
    assert SpacedBefore([], Window(0, svc.startTime));
    AtMostLimitPerWindow(Chunking(ocr, svc).log, start);
  }

  // ---------------------------------------------------------------------
  // Properties of a single page
  // ---------------------------------------------------------------------

  /** A page with text yields the text chunks of its model call, then its
      tables and images; the window and the request are the call's. */
  lemma TextPartIsModelOutput(p: Page, idx: nat, w: Window, svc: Services)
    requires HasText(p)
    ensures var r := ChunkPage(p, idx, w, svc);
            var asked := AskModel(PageContent(p).value, idx, w, svc);
            && r.chunks == asked.chunks + TableChunks(p.tables, idx + 1) + ImageChunks(p.images, idx + 1)
            && r.window == asked.window
            && r.issued == [asked.issued]
  {
  }

  /** A blank page makes no request and yields exactly its tables, then its
      images. */
  lemma BlankPageKeepsTablesAndImages(p: Page, idx: nat, w: Window, svc: Services)
    requires !HasText(p)
    ensures ChunkPage(p, idx, w, svc).chunks == TableChunks(p.tables, idx + 1) + ImageChunks(p.images, idx + 1)
    ensures ChunkPage(p, idx, w, svc).window == w
  {
  }

  /** Whitespace-only `text` shadows `markdown`: the page counts as blank
      even when its markdown has content. */
  lemma WhitespaceTextHidesMarkdown(p: Page)
    requires p.text.Some? && p.text.value != "" && IsBlank(p.text.value)
    ensures !HasText(p)
  {
  }

  /** `text or markdown`: a page whose `text` is absent or empty takes its
      markdown as content, so non-blank markdown gets the page chunked, and
      a failed call keeps that markdown verbatim in the fallback chunk. */
  lemma MarkdownStandsInForMissingText(p: Page, idx: nat, w: Window, svc: Services)
    requires p.text.None? || p.text.value == ""
    requires p.markdown.Some? && !IsBlank(p.markdown.value)
    requires svc.llm(idx).CallFailed?
    ensures HasText(p)
    ensures ChunkPage(p, idx, w, svc).chunks[0] == Chunk(idx + 1, Fallback(p.markdown.value))
  {
    var r := ChunkPage(p, idx, w, svc).chunks;
    assert PageText(p, idx, w, svc).chunks == [Chunk(idx + 1, Fallback(p.markdown.value))];
    assert r == Assemble(idx + 1, PageText(p, idx, w, svc).chunks, TableChunks(p.tables, idx + 1), ImageChunks(p.images, idx + 1));
  }

  /** When the model call raises, the page's text part is exactly one
      fallback chunk with the page content verbatim, and the call is not
      counted. */
  lemma FailedCallFallsBack(p: Page, idx: nat, w: Window, svc: Services)
    requires HasText(p) && svc.llm(idx).CallFailed?
    ensures ChunkPage(p, idx, w, svc).chunks
            == [Chunk(idx + 1, Fallback(PageContent(p).value))]
               + TableChunks(p.tables, idx + 1) + ImageChunks(p.images, idx + 1)
    ensures ChunkPage(p, idx, w, svc).window == Admit(w, svc.clock(idx)).window
  {
  }

  /** A reply is counted as soon as the call returns, whether or not it can
      then be decoded. */
  lemma ReplyCountsEvenIfUndecodable(p: Page, idx: nat, w: Window, svc: Services)
    requires HasText(p) && svc.llm(idx).Replied?
    ensures ChunkPage(p, idx, w, svc).window.count == Admit(w, svc.clock(idx)).window.count + 1
  {
  }

  /** When a listed section is not a dict, the sections before it stay and
      the fallback chunk follows them. */
  lemma PartialSectionsAreKept(p: Page, idx: nat, w: Window, svc: Services,
                               fields: map<string, Json>, items: seq<Json>)
    requires HasText(p) && svc.llm(idx).Replied?
    requires Repair.ExtractJson(svc.llm(idx).text, svc.decode, svc.variant) == Ok(JObj(fields))
    requires "chunks" in fields && fields["chunks"] == JArr(items)
    requires exists k | 0 <= k < |items| :: !items[k].JObj?
    ensures var text := AskModel(PageContent(p).value, idx, w, svc).chunks;
            && text == StampEach(items, idx + 1).chunks + [Chunk(idx + 1, Fallback(PageContent(p).value))]
            && |text| >= 1
  {
  }

  /** When the reply decodes to a dict whose `chunks` list holds only dicts,
      the page's text chunks are exactly those dicts, stamped with the page
      number, in order, and its tables and images follow. */
  lemma DecodedSectionsBecomeChunks(p: Page, idx: nat, w: Window, svc: Services,
                                    fields: map<string, Json>, items: seq<Json>)
    requires HasText(p) && svc.llm(idx).Replied?
    requires Repair.ExtractJson(svc.llm(idx).text, svc.decode, svc.variant) == Ok(JObj(fields))
    requires "chunks" in fields && fields["chunks"] == JArr(items)
    requires forall k | 0 <= k < |items| :: items[k].JObj?
    ensures ChunkPage(p, idx, w, svc).chunks
            == seq(|items|, k requires 0 <= k < |items| && items[k].JObj? => Chunk(idx + 1, Section(items[k].fields)))
               + TableChunks(p.tables, idx + 1) + ImageChunks(p.images, idx + 1)
  {
    var stamped := StampEach(items, idx + 1);
    assert stamped.chunks == seq(|items|, k requires 0 <= k < |items| && items[k].JObj? => Chunk(idx + 1, Section(items[k].fields)));
  }

  /** A decoded dict without a `chunks` key gives the page no text chunk
      and no fallback: only its tables and images remain. */
  lemma MissingChunksKeyYieldsNoText(p: Page, idx: nat, w: Window, svc: Services, fields: map<string, Json>)
    requires HasText(p) && svc.llm(idx).Replied?
    requires Repair.ExtractJson(svc.llm(idx).text, svc.decode, svc.variant) == Ok(JObj(fields))
    requires "chunks" !in fields
    ensures ChunkPage(p, idx, w, svc).chunks == TableChunks(p.tables, idx + 1) + ImageChunks(p.images, idx + 1)
  {
  }

  /** A `chunks` value that is not a list: an empty string or dict
      iterates nothing and leaves the page without text chunks, while any
      other value raises inside the `try` and leaves only the fallback. */
  lemma NonListChunksValue(p: Page, idx: nat, w: Window, svc: Services, fields: map<string, Json>)
    requires HasText(p) && svc.llm(idx).Replied?
    requires Repair.ExtractJson(svc.llm(idx).text, svc.decode, svc.variant) == Ok(JObj(fields))
    requires "chunks" in fields && !fields["chunks"].JArr?
    ensures var text := AskModel(PageContent(p).value, idx, w, svc).chunks;
            if fields["chunks"] == JStr("") || fields["chunks"] == JObj(map[]) then text == []
            else text == [Chunk(idx + 1, Fallback(PageContent(p).value))]
  {
  }

  // ---------------------------------------------------------------------
  // A worked scenario
  // ---------------------------------------------------------------------

  /** Two pages, the first with text and the second blank, neither with
      tables or images: every chunk belongs to page 1. */
  lemma BlankSecondPageContributesNothing(first: Page, second: Page, svc: Services)
    requires HasText(first) && !HasText(second)
    requires second.tables == [] && second.images == []
    requires svc.geminiKey.Some? && svc.geminiKey.value != ""
    ensures var r := ProcessOcrResults(OcrResult(Some([first, second])), svc);
            r.Ok? && forall k | 0 <= k < |r.value| :: r.value[k].page == 1
  {
    var pages := [first, second];
    var acc0 := Progress([], Window(0, svc.startTime), []);
    var out0 := ChunkPage(first, 0, acc0.window, svc);
    var acc1 := Progress(acc0.chunks + out0.chunks, out0.window, acc0.log + out0.issued);
    assert ChunkPagesFrom(pages, 0, acc0, svc) == ChunkPagesFrom(pages, 1, acc1, svc);
    assert acc1.chunks == out0.chunks;
    var out1 := ChunkPage(second, 1, acc1.window, svc);
    assert out1.chunks == [];
    var acc2 := Progress(acc1.chunks + out1.chunks, out1.window, acc1.log + out1.issued);
    assert ChunkPagesFrom(pages, 2, acc2, svc) == acc2;
    assert ChunkPagesFrom(pages, 1, acc1, svc) == acc2;
    assert acc2.chunks == out0.chunks;
    assert Chunking(OcrResult(Some(pages)), svc) == acc2;
  }
}
