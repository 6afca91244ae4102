/**
 * The element chunker: it packs the contents of parsed document elements into
 * chunks of at most `chunkSize` characters. Contents are appended to a buffer
 * while they fit; when one does not, the buffer is emitted, a new buffer starts
 * with the last `chunkOverlap` characters of the old one, and a buffer that is
 * still too long is cut into `chunkSize` pieces, each next piece starting
 * `chunkOverlap` characters before the cut. Each chunk carries the metadata of
 * the elements that filled it, merged with later keys winning.
 *
 * Every content is put through `lstrip` after a newline is put in front of it,
 * so the newline never survives: contents are joined with no separator and lose
 * their leading whitespace.
 */
module Chunking {
  import opened Wrappers
  import opened Strings

  /** Element and chunk metadata; values are kept as text. */
  type Metadata = map<string, string>

  /** A parsed element: its content and metadata, either of which may be missing. */
  datatype Element = Element(content: Option<string>, metadata: Option<Metadata>)

  datatype Chunk = Chunk(content: string, metadata: Metadata)

  function ContentOf(e: Element): string {
    if e.content.Some? then e.content.value else ""
  }

  function MetadataOf(e: Element): Metadata {
    if e.metadata.Some? then e.metadata.value else map[]
  }

  /** What an element adds to the buffer: its content behind a newline, left-stripped. */
  function Piece(e: Element): (r: string)
    ensures r == LStrip(ContentOf(e))
    ensures |r| <= |ContentOf(e)|
  {
    var s := "\n" + ContentOf(e);
    assert s[1..] == ContentOf(e);
    LStrip(s)
  }

  /** The last `overlap` characters of `text` (all of it when shorter); nothing when `overlap` is not positive. */
  function OverlapOf(text: string, overlap: int): (r: string)
    ensures overlap > 0 ==> |r| == (if overlap < |text| then overlap else |text|) && r == text[|text| - |r|..]
    ensures overlap <= 0 ==> r == ""
  {
    if overlap <= 0 then ""
    else if overlap < |text| then text[|text| - overlap..]
    else text
  }

  /** The chunker's state between elements: chunks so far, the buffer and its metadata. */
  datatype Acc = Acc(chunks: seq<Chunk>, text: string, meta: Metadata)

  /** Cutting an over-long buffer into `chunkSize` pieces. */
  function Split(chunks: seq<Chunk>, text: string, meta: Metadata, chunkSize: int, chunkOverlap: int): Acc
    requires 0 < chunkSize && chunkOverlap < chunkSize
    decreases |text|
  {
    if |text| <= chunkSize then Acc(chunks, text, meta)
    else
      var next := if chunkOverlap > 0 then text[chunkSize - chunkOverlap..] else text[chunkSize..];
      Split(chunks + [Chunk(text[..chunkSize], meta)], next, meta, chunkSize, chunkOverlap)
  }

  /** One element: merged into the buffer when it fits, otherwise the buffer is emitted and restarted. */
  function Step(acc: Acc, e: Element, chunkSize: int, chunkOverlap: int): Acc
    requires 0 < chunkSize && chunkOverlap < chunkSize
  {
    var merged := acc.meta + MetadataOf(e);
    if |acc.text| + |ContentOf(e)| <= chunkSize then Acc(acc.chunks, acc.text + Piece(e), merged)
    else
      var emitted := if acc.text != "" then acc.chunks + [Chunk(acc.text, merged)] else acc.chunks;
      Split(emitted, OverlapOf(acc.text, chunkOverlap) + Piece(e), MetadataOf(e), chunkSize, chunkOverlap)
  }

  /** The state after the elements `es`, in order. */
  function Run(es: seq<Element>, chunkSize: int, chunkOverlap: int): Acc
    requires 0 < chunkSize && chunkOverlap < chunkSize
  {
    if es == [] then Acc([], "", map[])
    else Step(Run(es[..|es| - 1], chunkSize, chunkOverlap), es[|es| - 1], chunkSize, chunkOverlap)
  }

  /** The chunks, with what is left in the buffer as the last one. */
  function Finish(acc: Acc): seq<Chunk> {
    if acc.text != "" then acc.chunks + [Chunk(acc.text, acc.meta)] else acc.chunks
  }

  /** `chunk_document_elements`. */
  function Chunks(es: seq<Element>, chunkSize: int := 512, chunkOverlap: int := 50): seq<Chunk>
    requires 0 < chunkSize && chunkOverlap < chunkSize
  {
    Finish(Run(es, chunkSize, chunkOverlap))
  }

  /**
   * `chunk_document_elements` as the loops of the source: for each element the
   * metadata is merged and the content is appended, or the buffer is emitted and
   * restarted; what is left in the buffer is the last chunk.
   */
  method ChunkDocumentElements(elements: seq<Element>, chunkSize: int := 512, chunkOverlap: int := 50) returns (chunks: seq<Chunk>)
    requires 0 < chunkSize && chunkOverlap < chunkSize
    ensures chunks == Chunks(elements, chunkSize, chunkOverlap)
  {
    chunks := [];
    var text := "";
    var meta: Metadata := map[];
    for i := 0 to |elements|
      invariant Acc(chunks, text, meta) == Run(elements[..i], chunkSize, chunkOverlap)
    {
      assert elements[..i + 1][..i] == elements[..i];
      chunks, text, meta := AddElement(chunks, text, meta, elements[i], chunkSize, chunkOverlap);
    }
    assert elements[..|elements|] == elements;
    if text != "" {
      chunks := chunks + [Chunk(text, meta)];
    }
  }

  /** The body of the element loop, for one element `e`. */
  method AddElement(chunks: seq<Chunk>, text: string, meta: Metadata, e: Element, chunkSize: int, chunkOverlap: int)
    returns (chunks': seq<Chunk>, text': string, meta': Metadata)
    requires 0 < chunkSize && chunkOverlap < chunkSize
    ensures Acc(chunks', text', meta') == Step(Acc(chunks, text, meta), e, chunkSize, chunkOverlap)
  {
    chunks', text', meta' := chunks, text, meta;
    var content := ContentOf(e);
    var metadata := MetadataOf(e);
    meta' := meta' + metadata;
    if |text'| + |content| <= chunkSize {
      text' := text' + Piece(e);
    } else {
      if text' != "" {
        chunks' := chunks' + [Chunk(text', meta')];
      }
      var overlapText := if chunkOverlap > 0 then OverlapOf(text', chunkOverlap) else "";
      text' := overlapText + Piece(e);
      meta' := metadata;
      chunks', text' := SplitLong(chunks', text', meta', chunkSize, chunkOverlap);
    }
  }

  /** The inner loop: cuts `chunkSize` pieces off the buffer while it is too long. */
  method SplitLong(chunks: seq<Chunk>, text: string, meta: Metadata, chunkSize: int, chunkOverlap: int)
    returns (chunks': seq<Chunk>, text': string)
    requires 0 < chunkSize && chunkOverlap < chunkSize
    ensures Acc(chunks', text', meta) == Split(chunks, text, meta, chunkSize, chunkOverlap)
  {
    chunks', text' := chunks, text;
    while |text'| > chunkSize
      invariant Split(chunks', text', meta, chunkSize, chunkOverlap) == Split(chunks, text, meta, chunkSize, chunkOverlap)
      decreases |text'|
    {
      chunks' := chunks' + [Chunk(text'[..chunkSize], meta)];
      text' := if chunkOverlap > 0 then text'[chunkSize - chunkOverlap..] else text'[chunkSize..];
    }
  }

  /** `chunk_text_by_tokens`: a placeholder that returns the text whole, whatever the sizes. */
  function ChunkTextByTokens(text: string, chunkSize: int := 512, chunkOverlap: int := 50): seq<string> {
    [text]
  }

  /** Token chunks put back together give the text. */
  lemma TokenChunksRejoin(text: string, chunkSize: int, chunkOverlap: int)
    ensures Join("", ChunkTextByTokens(text, chunkSize, chunkOverlap)) == text
    ensures |ChunkTextByTokens(text, chunkSize, chunkOverlap)| == 1
  {
  }

  // ---------------------------------------------------------------------------
  // Properties

  /** No elements, no chunks, whatever the sizes, and with the default sizes of 512 and 50. */
  lemma NoElementsNoChunks(chunkSize: int, chunkOverlap: int)
    requires 0 < chunkSize && chunkOverlap < chunkSize
    ensures Chunks([], chunkSize, chunkOverlap) == []
    ensures Chunks([]) == []
  {
  }

  /** Every chunk holds between 1 and `chunkSize` characters. */
  predicate Bounded(chunks: seq<Chunk>, chunkSize: int) {
    forall k :: 0 <= k < |chunks| ==> 0 < |chunks[k].content| <= chunkSize
  }

  lemma {:induction false} SplitBounded(chunks: seq<Chunk>, text: string, meta: Metadata, chunkSize: int, chunkOverlap: int)
    requires 0 < chunkSize && chunkOverlap < chunkSize
    requires Bounded(chunks, chunkSize)
    ensures var a := Split(chunks, text, meta, chunkSize, chunkOverlap);
            Bounded(a.chunks, chunkSize) && |a.text| <= chunkSize
    decreases |text|
  {
    if |text| > chunkSize {
      var next := if chunkOverlap > 0 then text[chunkSize - chunkOverlap..] else text[chunkSize..];
      SplitBounded(chunks + [Chunk(text[..chunkSize], meta)], next, meta, chunkSize, chunkOverlap);
    }
  }

  lemma {:induction false} RunBounded(es: seq<Element>, chunkSize: int, chunkOverlap: int)
    requires 0 < chunkSize && chunkOverlap < chunkSize
    ensures Bounded(Run(es, chunkSize, chunkOverlap).chunks, chunkSize)
    ensures |Run(es, chunkSize, chunkOverlap).text| <= chunkSize
  {
    if es != [] {
      var acc := Run(es[..|es| - 1], chunkSize, chunkOverlap);
      var e := es[|es| - 1];
      RunBounded(es[..|es| - 1], chunkSize, chunkOverlap);
      if |acc.text| + |ContentOf(e)| > chunkSize {
        var emitted := if acc.text != "" then acc.chunks + [Chunk(acc.text, acc.meta + MetadataOf(e))] else acc.chunks;
        SplitBounded(emitted, OverlapOf(acc.text, chunkOverlap) + Piece(e), MetadataOf(e), chunkSize, chunkOverlap);
      }
    }
  }

  /** With a positive size and an overlap below it, no chunk is empty and none is longer than the size. */
  lemma ChunksBounded(es: seq<Element>, chunkSize: int, chunkOverlap: int)
    requires 0 < chunkSize && chunkOverlap < chunkSize
    ensures forall c :: c in Chunks(es, chunkSize, chunkOverlap) ==> 0 < |c.content| <= chunkSize
  {
    RunBounded(es, chunkSize, chunkOverlap);
    var a := Run(es, chunkSize, chunkOverlap);
    var r := Chunks(es, chunkSize, chunkOverlap);
    assert r == if a.text != "" then a.chunks + [Chunk(a.text, a.meta)] else a.chunks;
    forall c | c in r
      ensures 0 < |c.content| <= chunkSize
    {
      var k :| 0 <= k < |r| && r[k] == c;
      if k < |a.chunks| {
        assert c == a.chunks[k];
      }
    }
  }

  /**
   * A lone element whose content fits gives one chunk: the content without its
   * leading whitespace, with the element's metadata (none when the content is
   * only whitespace).
   */
  lemma LoneElement(e: Element, chunkSize: int, chunkOverlap: int)
    requires 0 < chunkSize && chunkOverlap < chunkSize
    requires |ContentOf(e)| <= chunkSize
    ensures LStrip(ContentOf(e)) != "" ==> Chunks([e], chunkSize, chunkOverlap) == [Chunk(LStrip(ContentOf(e)), MetadataOf(e))]
    ensures LStrip(ContentOf(e)) == "" ==> Chunks([e], chunkSize, chunkOverlap) == []
  {
    assert [e][..0] == [];
    assert map[] + MetadataOf(e) == MetadataOf(e);
    assert Run([e], chunkSize, chunkOverlap) == Step(Acc([], "", map[]), e, chunkSize, chunkOverlap);
    assert "" + Piece(e) == LStrip(ContentOf(e));
  }

  /** The total length of the elements' contents, as given. */
  function TotalLength(es: seq<Element>): nat {
    if es == [] then 0 else TotalLength(es[..|es| - 1]) + |ContentOf(es[|es| - 1])|
  }

  lemma {:induction false} RunWhileFitting(es: seq<Element>, chunkSize: int, chunkOverlap: int)
    requires 0 < chunkSize && chunkOverlap < chunkSize
    requires TotalLength(es) <= chunkSize
    ensures Run(es, chunkSize, chunkOverlap) == Acc([], Stripped(es), Merged(es))
    ensures |Stripped(es)| <= TotalLength(es)
  {
    if es != [] {
      RunWhileFitting(es[..|es| - 1], chunkSize, chunkOverlap);
    }
  }

  /**
   * Elements whose contents add up to at most `chunkSize` characters all go into
   * one chunk: their left-stripped contents joined with no separator, with all
   * their metadata merged (no chunk when every content is blank).
   */
  lemma FittingElementsOneChunk(es: seq<Element>, chunkSize: int, chunkOverlap: int)
    requires 0 < chunkSize && chunkOverlap < chunkSize
    requires TotalLength(es) <= chunkSize
    ensures Stripped(es) != "" ==> Chunks(es, chunkSize, chunkOverlap) == [Chunk(Stripped(es), Merged(es))]
    ensures Stripped(es) == "" ==> Chunks(es, chunkSize, chunkOverlap) == []
  {
    RunWhileFitting(es, chunkSize, chunkOverlap);
  }

  /** Cutting a non-empty buffer leaves a non-empty buffer, and a too-long one yields at least one chunk. */
  lemma {:induction false} SplitLeavesText(chunks: seq<Chunk>, text: string, meta: Metadata, chunkSize: int, chunkOverlap: int)
    requires 0 < chunkSize && chunkOverlap < chunkSize
    requires text != ""
    ensures var a := Split(chunks, text, meta, chunkSize, chunkOverlap);
            a.text != "" && |a.chunks| >= |chunks| + (if |text| > chunkSize then 1 else 0)
    decreases |text|
  {
    if |text| > chunkSize {
      var next := if chunkOverlap > 0 then text[chunkSize - chunkOverlap..] else text[chunkSize..];
      SplitLeavesText(chunks + [Chunk(text[..chunkSize], meta)], next, meta, chunkSize, chunkOverlap);
    }
  }

  /** A lone element longer than `chunkSize` once left-stripped is cut into more than one chunk. */
  lemma LongElementSeveralChunks(e: Element, chunkSize: int, chunkOverlap: int)
    requires 0 < chunkSize && chunkOverlap < chunkSize
    requires |LStrip(ContentOf(e))| > chunkSize
    ensures |Chunks([e], chunkSize, chunkOverlap)| > 1
  {
    assert [e][..0] == [];
    assert Run([e], chunkSize, chunkOverlap) == Step(Acc([], "", map[]), e, chunkSize, chunkOverlap);
    assert "" + Piece(e) == Piece(e);
    SplitLeavesText([], Piece(e), MetadataOf(e), chunkSize, chunkOverlap);
  }

  /** The contents concatenated, each left-stripped: what the chunks hold, without overlap. */
  function Stripped(es: seq<Element>): string {
    if es == [] then "" else Stripped(es[..|es| - 1]) + Piece(es[|es| - 1])
  }

  function Concat(chunks: seq<Chunk>): string {
    if chunks == [] then "" else Concat(chunks[..|chunks| - 1]) + chunks[|chunks| - 1].content
  }

  lemma ConcatSnoc(chunks: seq<Chunk>, c: Chunk)
    ensures Concat(chunks + [c]) == Concat(chunks) + c.content
  {
    assert (chunks + [c])[..|chunks|] == chunks;
  }

  lemma {:induction false} SplitKeepsText(chunks: seq<Chunk>, text: string, meta: Metadata, chunkSize: int, chunkOverlap: int)
    requires 0 < chunkSize && chunkOverlap <= 0
    ensures var a := Split(chunks, text, meta, chunkSize, chunkOverlap);
            Concat(a.chunks) + a.text == Concat(chunks) + text
    decreases |text|
  {
    if |text| > chunkSize {
      var c := Chunk(text[..chunkSize], meta);
      SplitKeepsText(chunks + [c], text[chunkSize..], meta, chunkSize, chunkOverlap);
      ConcatSnoc(chunks, c);
      assert text[..chunkSize] + text[chunkSize..] == text;
    }
  }

  lemma {:induction false} RunKeepsText(es: seq<Element>, chunkSize: int, chunkOverlap: int)
    requires 0 < chunkSize && chunkOverlap <= 0
    ensures var a := Run(es, chunkSize, chunkOverlap);
            Concat(a.chunks) + a.text == Stripped(es)
  {
    if es != [] {
      var init := es[..|es| - 1];
      var e := es[|es| - 1];
      var acc := Run(init, chunkSize, chunkOverlap);
      assert Run(es, chunkSize, chunkOverlap) == Step(acc, e, chunkSize, chunkOverlap);
      assert Stripped(es) == Stripped(init) + Piece(e);
      RunKeepsText(init, chunkSize, chunkOverlap);
      StepKeepsText(acc, e, chunkSize, chunkOverlap);
    }
  }

  /** Without overlap one element adds exactly its stripped content to the chunks and buffer put together. */
  lemma StepKeepsText(acc: Acc, e: Element, chunkSize: int, chunkOverlap: int)
    requires 0 < chunkSize && chunkOverlap <= 0
    ensures var a := Step(acc, e, chunkSize, chunkOverlap);
            Concat(a.chunks) + a.text == Concat(acc.chunks) + acc.text + Piece(e)
  {
    if |acc.text| + |ContentOf(e)| > chunkSize {
      RestartKeepsText(acc, e, chunkSize, chunkOverlap);
    } else {
      assert Step(acc, e, chunkSize, chunkOverlap) == Acc(acc.chunks, acc.text + Piece(e), acc.meta + MetadataOf(e));
    }
  }

  /** The emit-and-restart case of `StepKeepsText`. */
  lemma RestartKeepsText(acc: Acc, e: Element, chunkSize: int, chunkOverlap: int)
    requires 0 < chunkSize && chunkOverlap <= 0
    requires |acc.text| + |ContentOf(e)| > chunkSize
    ensures var a := Step(acc, e, chunkSize, chunkOverlap);
            Concat(a.chunks) + a.text == Concat(acc.chunks) + acc.text + Piece(e)
  {
    var c := Chunk(acc.text, acc.meta + MetadataOf(e));
    var emitted := if acc.text != "" then acc.chunks + [c] else acc.chunks;
    if acc.text != "" {
      ConcatSnoc(acc.chunks, c);
    }
    assert Concat(emitted) == Concat(acc.chunks) + acc.text;
    assert OverlapOf(acc.text, chunkOverlap) + Piece(e) == Piece(e);
    SplitKeepsText(emitted, Piece(e), MetadataOf(e), chunkSize, chunkOverlap);
  }

  /**
   * Without overlap nothing is lost or repeated: the chunks put together are the
   * left-stripped contents put together, with no separator.
   */
  lemma ChunksWithoutOverlap(es: seq<Element>, chunkSize: int, chunkOverlap: int)
    requires 0 < chunkSize && chunkOverlap <= 0
    ensures Concat(Chunks(es, chunkSize, chunkOverlap)) == Stripped(es)
  {
    var a := Run(es, chunkSize, chunkOverlap);
    RunKeepsText(es, chunkSize, chunkOverlap);
    if a.text != "" {
      ConcatSnoc(a.chunks, Chunk(a.text, a.meta));
    }
  }

  /** Each chunk after the first begins with the overlap taken from the end of the one before. */
  predicate Overlapping(chunks: seq<Chunk>, chunkOverlap: int) {
    forall k :: 0 < k < |chunks| ==> StartsWith(chunks[k].content, OverlapOf(chunks[k - 1].content, chunkOverlap))
  }

  /** The buffer begins with the overlap of the last chunk, if there is one. */
  predicate Carries(acc: Acc, chunkOverlap: int) {
    acc.chunks != [] ==> StartsWith(acc.text, OverlapOf(acc.chunks[|acc.chunks| - 1].content, chunkOverlap))
  }

  lemma StartsWithAppend(s: string, prefix: string, more: string)
    requires StartsWith(s, prefix)
    ensures StartsWith(s + more, prefix)
  {
    assert (s + more)[..|prefix|] == s[..|prefix|];
  }

  lemma OverlappingSnoc(chunks: seq<Chunk>, c: Chunk, chunkOverlap: int)
    requires Overlapping(chunks, chunkOverlap)
    requires chunks != [] ==> StartsWith(c.content, OverlapOf(chunks[|chunks| - 1].content, chunkOverlap))
    ensures Overlapping(chunks + [c], chunkOverlap)
  {
    var r := chunks + [c];
    forall k | 0 < k < |r|
      ensures StartsWith(r[k].content, OverlapOf(r[k - 1].content, chunkOverlap))
    {
      if k < |chunks| {
        assert r[k] == chunks[k] && r[k - 1] == chunks[k - 1];
      } else {
        assert r[k] == c && r[k - 1] == chunks[|chunks| - 1];
      }
    }
  }

  lemma StartsWithCut(s: string, prefix: string, n: nat)
    requires StartsWith(s, prefix) && |prefix| <= n <= |s|
    ensures StartsWith(s[..n], prefix)
  {
    assert s[..n][..|prefix|] == s[..|prefix|];
  }

  /** A piece cut off a buffer, and what the buffer keeps, overlap by `chunkOverlap`. */
  lemma CutOverlaps(text: string, chunkSize: int, chunkOverlap: int)
    requires 0 < chunkOverlap < chunkSize < |text|
    ensures StartsWith(text[chunkSize - chunkOverlap..], OverlapOf(text[..chunkSize], chunkOverlap))
  {
    var piece := text[..chunkSize];
    assert OverlapOf(piece, chunkOverlap) == piece[chunkSize - chunkOverlap..];
    assert text[chunkSize - chunkOverlap..][..chunkOverlap] == piece[chunkSize - chunkOverlap..];
  }

  lemma {:induction false} SplitOverlaps(chunks: seq<Chunk>, text: string, meta: Metadata, chunkSize: int, chunkOverlap: int)
    requires 0 < chunkOverlap < chunkSize
    requires Overlapping(chunks, chunkOverlap) && Carries(Acc(chunks, text, meta), chunkOverlap)
    ensures var a := Split(chunks, text, meta, chunkSize, chunkOverlap);
            Overlapping(a.chunks, chunkOverlap) && Carries(a, chunkOverlap)
    decreases |text|
  {
    if |text| > chunkSize {
      var c := Chunk(text[..chunkSize], meta);
      var next := text[chunkSize - chunkOverlap..];
      if chunks != [] {
        StartsWithCut(text, OverlapOf(chunks[|chunks| - 1].content, chunkOverlap), chunkSize);
      }
      OverlappingSnoc(chunks, c, chunkOverlap);
      CutOverlaps(text, chunkSize, chunkOverlap);
      SplitOverlaps(chunks + [c], next, meta, chunkSize, chunkOverlap);
    }
  }

  lemma {:induction false} RunOverlaps(es: seq<Element>, chunkSize: int, chunkOverlap: int)
    requires 0 < chunkOverlap < chunkSize
    ensures var a := Run(es, chunkSize, chunkOverlap);
            Overlapping(a.chunks, chunkOverlap) && Carries(a, chunkOverlap)
  {
    if es != [] {
      var init := es[..|es| - 1];
      RunOverlaps(init, chunkSize, chunkOverlap);
      StepOverlaps(Run(init, chunkSize, chunkOverlap), es[|es| - 1], chunkSize, chunkOverlap);
    }
  }

  /** One element added to the buffer keeps the overlap between chunks. */
  lemma StepOverlaps(acc: Acc, e: Element, chunkSize: int, chunkOverlap: int)
    requires 0 < chunkOverlap < chunkSize
    requires Overlapping(acc.chunks, chunkOverlap) && Carries(acc, chunkOverlap)
    ensures var a := Step(acc, e, chunkSize, chunkOverlap);
            Overlapping(a.chunks, chunkOverlap) && Carries(a, chunkOverlap)
  {
    if |acc.text| + |ContentOf(e)| <= chunkSize {
      if acc.chunks != [] {
        StartsWithAppend(acc.text, OverlapOf(acc.chunks[|acc.chunks| - 1].content, chunkOverlap), Piece(e));
      }
    } else {
      RestartOverlaps(acc, e, chunkSize, chunkOverlap);
    }
  }

  /** The restarting case of `RunOverlaps`. */
  lemma RestartOverlaps(acc: Acc, e: Element, chunkSize: int, chunkOverlap: int)
    requires 0 < chunkOverlap < chunkSize
    requires Overlapping(acc.chunks, chunkOverlap) && Carries(acc, chunkOverlap)
    ensures var merged := acc.meta + MetadataOf(e);
            var emitted := if acc.text != "" then acc.chunks + [Chunk(acc.text, merged)] else acc.chunks;
            var a := Split(emitted, OverlapOf(acc.text, chunkOverlap) + Piece(e), MetadataOf(e), chunkSize, chunkOverlap);
            Overlapping(a.chunks, chunkOverlap) && Carries(a, chunkOverlap)
  {
    var merged := acc.meta + MetadataOf(e);
    var start := OverlapOf(acc.text, chunkOverlap) + Piece(e);
    var emitted := if acc.text != "" then acc.chunks + [Chunk(acc.text, merged)] else acc.chunks;
    EmitOverlaps(acc, merged, Piece(e), chunkOverlap);
    SplitOverlaps(emitted, start, MetadataOf(e), chunkSize, chunkOverlap);
  }

  /** Emitting a non-empty buffer keeps the chunks overlapping, and the next buffer carries the overlap of the last chunk. */
  lemma EmitOverlaps(acc: Acc, merged: Metadata, piece: string, chunkOverlap: int)
    requires Overlapping(acc.chunks, chunkOverlap) && Carries(acc, chunkOverlap)
    ensures var emitted := if acc.text != "" then acc.chunks + [Chunk(acc.text, merged)] else acc.chunks;
            var start := OverlapOf(acc.text, chunkOverlap) + piece;
            Overlapping(emitted, chunkOverlap) && Carries(Acc(emitted, start, merged), chunkOverlap)
  {
    var start := OverlapOf(acc.text, chunkOverlap) + piece;
    if acc.text != "" {
      OverlappingSnoc(acc.chunks, Chunk(acc.text, merged), chunkOverlap);
      StartsWithAppend(OverlapOf(acc.text, chunkOverlap), OverlapOf(acc.text, chunkOverlap), piece);
    } else if acc.chunks != [] {
      StartsWithAppend(acc.text, OverlapOf(acc.chunks[|acc.chunks| - 1].content, chunkOverlap), start);
      assert acc.text + start == start;
    }
  }

  /**
   * With an overlap between 0 and the size, every chunk after the first begins
   * with the last `chunkOverlap` characters of the chunk before it (all of that
   * chunk when it is shorter).
   */
  lemma ChunksOverlap(es: seq<Element>, chunkSize: int, chunkOverlap: int)
    requires 0 < chunkOverlap < chunkSize
    ensures Overlapping(Chunks(es, chunkSize, chunkOverlap), chunkOverlap)
  {
    var a := Run(es, chunkSize, chunkOverlap);
    RunOverlaps(es, chunkSize, chunkOverlap);
    if a.text != "" {
      OverlappingSnoc(a.chunks, Chunk(a.text, a.meta), chunkOverlap);
    }
  }

  /** The metadata of the elements `es`, merged in order: later keys win. */
  function Merged(es: seq<Element>): Metadata {
    if es == [] then map[] else Merged(es[..|es| - 1]) + MetadataOf(es[|es| - 1])
  }

  /** `m` is the merged metadata of a non-empty run of consecutive elements of `es`. */
  ghost predicate OfRun(m: Metadata, es: seq<Element>) {
    exists i, j :: 0 <= i < j <= |es| && m == Merged(es[i..j])
  }

  /** Every chunk carries the merged metadata of a non-empty run of consecutive elements. */
  ghost predicate FromRuns(chunks: seq<Chunk>, es: seq<Element>) {
    forall k :: 0 <= k < |chunks| ==> OfRun(chunks[k].metadata, es)
  }

  lemma OfRunIntro(es: seq<Element>, i: nat, j: nat)
    requires i < j <= |es|
    ensures OfRun(Merged(es[i..j]), es)
  {
  }

  lemma OfRunGrow(m: Metadata, es: seq<Element>, e: Element)
    requires OfRun(m, es)
    ensures OfRun(m, es + [e])
  {
    var i, j :| 0 <= i < j <= |es| && m == Merged(es[i..j]);
    assert (es + [e])[i..j] == es[i..j];
    OfRunIntro(es + [e], i, j);
  }

  lemma FromRunsSnoc(chunks: seq<Chunk>, c: Chunk, es: seq<Element>)
    requires FromRuns(chunks, es) && OfRun(c.metadata, es)
    ensures FromRuns(chunks + [c], es)
  {
  }

  lemma MergedSnoc(es: seq<Element>, i: nat, j: nat)
    requires i < j <= |es|
    ensures Merged(es[i..j]) == Merged(es[i..j - 1]) + MetadataOf(es[j - 1])
  {
    assert es[i..j][..j - 1 - i] == es[i..j - 1];
  }

  lemma FromRunsGrow(chunks: seq<Chunk>, es: seq<Element>, e: Element)
    requires FromRuns(chunks, es)
    ensures FromRuns(chunks, es + [e])
  {
    forall k | 0 <= k < |chunks|
      ensures OfRun(chunks[k].metadata, es + [e])
    {
      OfRunGrow(chunks[k].metadata, es, e);
    }
  }

  lemma {:induction false} SplitFromRuns(chunks: seq<Chunk>, text: string, es: seq<Element>, i: nat, j: nat, chunkSize: int, chunkOverlap: int)
    requires 0 < chunkSize && chunkOverlap < chunkSize
    requires i < j <= |es|
    requires FromRuns(chunks, es)
    ensures FromRuns(Split(chunks, text, Merged(es[i..j]), chunkSize, chunkOverlap).chunks, es)
    decreases |text|
  {
    if |text| > chunkSize {
      var next := if chunkOverlap > 0 then text[chunkSize - chunkOverlap..] else text[chunkSize..];
      var c := Chunk(text[..chunkSize], Merged(es[i..j]));
      OfRunIntro(es, i, j);
      FromRunsSnoc(chunks, c, es);
      SplitFromRuns(chunks + [c], next, es, i, j, chunkSize, chunkOverlap);
    }
  }

  /** Where the buffer's metadata starts: the last element that restarted the buffer. */
  function Restart(es: seq<Element>, chunkSize: int, chunkOverlap: int): (r: nat)
    requires 0 < chunkSize && chunkOverlap < chunkSize
    ensures r <= |es| && (es != [] ==> r < |es|)
  {
    if es == [] then 0
    else
      var init := es[..|es| - 1];
      if |Run(init, chunkSize, chunkOverlap).text| + |ContentOf(es[|es| - 1])| <= chunkSize then Restart(init, chunkSize, chunkOverlap)
      else |es| - 1
  }

  lemma {:induction false} RunFromRuns(es: seq<Element>, chunkSize: int, chunkOverlap: int)
    requires 0 < chunkSize && chunkOverlap < chunkSize
    ensures var a := Run(es, chunkSize, chunkOverlap);
            && FromRuns(a.chunks, es)
            && a.meta == Merged(es[Restart(es, chunkSize, chunkOverlap)..])
  {
    if es != [] {
      var n := |es|;
      var init := es[..n - 1];
      var e := es[n - 1];
      var acc := Run(init, chunkSize, chunkOverlap);
      var s := Restart(init, chunkSize, chunkOverlap);
      assert Run(es, chunkSize, chunkOverlap) == Step(acc, e, chunkSize, chunkOverlap);
      assert Restart(es, chunkSize, chunkOverlap) == if |acc.text| + |ContentOf(e)| <= chunkSize then s else n - 1;
      RunFromRuns(init, chunkSize, chunkOverlap);
      InitLast(es);
      FromRunsGrow(acc.chunks, init, e);
      assert es[s..n - 1] == init[s..];
      StepFromRuns(acc, es, s, chunkSize, chunkOverlap);
    }
  }

  /** One element keeps every chunk's metadata that of a run, and the buffer's that of the run since the last restart. */
  lemma StepFromRuns(acc: Acc, es: seq<Element>, s: nat, chunkSize: int, chunkOverlap: int)
    requires 0 < chunkSize && chunkOverlap < chunkSize
    requires s < |es| && acc.meta == Merged(es[s..|es| - 1])
    requires FromRuns(acc.chunks, es)
    ensures var e := es[|es| - 1];
            var a := Step(acc, e, chunkSize, chunkOverlap);
            && FromRuns(a.chunks, es)
            && a.meta == Merged(es[(if |acc.text| + |ContentOf(e)| <= chunkSize then s else |es| - 1)..])
  {
    var n := |es|;
    var e := es[n - 1];
    var merged := acc.meta + MetadataOf(e);
    MergedExtend(es, s);
    if |acc.text| + |ContentOf(e)| <= chunkSize {
      assert Step(acc, e, chunkSize, chunkOverlap) == Acc(acc.chunks, acc.text + Piece(e), merged);
    } else {
      assert es[s..n] == es[s..];
      RestartStep(acc, es, s, merged, chunkSize, chunkOverlap);
      MergedLast(es);
      var emitted := if acc.text != "" then acc.chunks + [Chunk(acc.text, merged)] else acc.chunks;
      SplitMeta(emitted, OverlapOf(acc.text, chunkOverlap) + Piece(e), MetadataOf(e), chunkSize, chunkOverlap);
    }
  }

  /** A non-empty sequence is its front followed by its last element. */
  lemma InitLast(es: seq<Element>)
    requires es != []
    ensures es[..|es| - 1] + [es[|es| - 1]] == es
  {
  }

  /** The metadata merged from `s` up to the last element, then the last element's. */
  lemma MergedExtend(es: seq<Element>, s: nat)
    requires s < |es|
    ensures Merged(es[s..|es| - 1]) + MetadataOf(es[|es| - 1]) == Merged(es[s..])
  {
    MergedSnoc(es, s, |es|);
    assert es[s..|es|] == es[s..];
  }

  /** The metadata of the run made of the last element alone is that element's. */
  lemma MergedLast(es: seq<Element>)
    requires es != []
    ensures Merged(es[|es| - 1..]) == MetadataOf(es[|es| - 1])
    ensures Merged(es[|es| - 1..|es|]) == MetadataOf(es[|es| - 1])
  {
    var n := |es|;
    MergedSnoc(es, n - 1, n);
    assert es[n - 1..n - 1] == [];
    assert map[] + MetadataOf(es[n - 1]) == MetadataOf(es[n - 1]);
    assert es[n - 1..n] == es[n - 1..];
  }

  lemma {:induction false} SplitMeta(chunks: seq<Chunk>, text: string, meta: Metadata, chunkSize: int, chunkOverlap: int)
    requires 0 < chunkSize && chunkOverlap < chunkSize
    ensures Split(chunks, text, meta, chunkSize, chunkOverlap).meta == meta
    decreases |text|
  {
    if |text| > chunkSize {
      var next := if chunkOverlap > 0 then text[chunkSize - chunkOverlap..] else text[chunkSize..];
      SplitMeta(chunks + [Chunk(text[..chunkSize], meta)], next, meta, chunkSize, chunkOverlap);
    }
  }

  /** Cutting keeps the chunks before it and gives every piece it cuts the buffer's metadata. */
  lemma {:induction false} SplitCuts(chunks: seq<Chunk>, text: string, meta: Metadata, chunkSize: int, chunkOverlap: int)
    requires 0 < chunkSize && chunkOverlap < chunkSize
    ensures var r := Split(chunks, text, meta, chunkSize, chunkOverlap).chunks;
            && |chunks| <= |r| && r[..|chunks|] == chunks
            && forall k :: |chunks| <= k < |r| ==> r[k].metadata == meta
    decreases |text|
  {
    if |text| > chunkSize {
      var next := if chunkOverlap > 0 then text[chunkSize - chunkOverlap..] else text[chunkSize..];
      var grown := chunks + [Chunk(text[..chunkSize], meta)];
      SplitCuts(grown, next, meta, chunkSize, chunkOverlap);
      var r := Split(grown, next, meta, chunkSize, chunkOverlap).chunks;
      assert r[..|chunks|] == r[..|grown|][..|chunks|];
    }
  }

  /** An element that does not fit, on the chunker's state: see `OverflowMetadata`. */
  lemma StepOverflowCuts(acc: Acc, e: Element, chunkSize: int, chunkOverlap: int)
    requires 0 < chunkSize && chunkOverlap < chunkSize
    requires |acc.text| + |ContentOf(e)| > chunkSize
    ensures var r := Step(acc, e, chunkSize, chunkOverlap).chunks;
            var m := |acc.chunks|;
            && m <= |r| && r[..m] == acc.chunks
            && (acc.text != "" ==> m < |r| && r[m] == Chunk(acc.text, acc.meta + MetadataOf(e)))
            && forall k :: m + (if acc.text != "" then 1 else 0) <= k < |r| ==> r[k].metadata == MetadataOf(e)
  {
    var emitted := if acc.text != "" then acc.chunks + [Chunk(acc.text, acc.meta + MetadataOf(e))] else acc.chunks;
    var r := Split(emitted, OverlapOf(acc.text, chunkOverlap) + Piece(e), MetadataOf(e), chunkSize, chunkOverlap).chunks;
    assert Step(acc, e, chunkSize, chunkOverlap).chunks == r;
    SplitCuts(emitted, OverlapOf(acc.text, chunkOverlap) + Piece(e), MetadataOf(e), chunkSize, chunkOverlap);
    assert r[..|acc.chunks|] == r[..|emitted|][..|acc.chunks|];
    if acc.text != "" {
      assert r[|acc.chunks|] == r[..|emitted|][|acc.chunks|];
    }
  }

  /**
   * An element that does not fit: the chunks so far stay; the buffer, when not
   * empty, is emitted with the metadata merged from the last restart through this
   * element; and every piece cut after it carries this element's metadata alone.
   */
  lemma OverflowMetadata(es: seq<Element>, chunkSize: int, chunkOverlap: int)
    requires 0 < chunkSize && chunkOverlap < chunkSize && es != []
    requires |Run(es[..|es| - 1], chunkSize, chunkOverlap).text| + |ContentOf(es[|es| - 1])| > chunkSize
    ensures var n := |es|;
            var init := es[..n - 1];
            var before := Run(init, chunkSize, chunkOverlap);
            var after := Run(es, chunkSize, chunkOverlap);
            var m := |before.chunks|;
            && m <= |after.chunks| && after.chunks[..m] == before.chunks
            && (before.text != "" ==>
                  m < |after.chunks| && after.chunks[m] == Chunk(before.text, Merged(es[Restart(init, chunkSize, chunkOverlap)..])))
            && forall k :: m + (if before.text != "" then 1 else 0) <= k < |after.chunks| ==>
                 after.chunks[k].metadata == MetadataOf(es[n - 1])
  {
    var n := |es|;
    var init := es[..n - 1];
    var before := Run(init, chunkSize, chunkOverlap);
    var s := Restart(init, chunkSize, chunkOverlap);
    assert Run(es, chunkSize, chunkOverlap) == Step(before, es[n - 1], chunkSize, chunkOverlap);
    StepOverflowCuts(before, es[n - 1], chunkSize, chunkOverlap);
    RunFromRuns(init, chunkSize, chunkOverlap);
    assert init[s..] == es[s..n - 1];
    MergedExtend(es, s);
  }

  /** The restarting case of `RunFromRuns`. */
  lemma RestartStep(acc: Acc, es: seq<Element>, s: nat, merged: Metadata, chunkSize: int, chunkOverlap: int)
    requires 0 < chunkSize && chunkOverlap < chunkSize
    requires es != [] && s < |es| && merged == Merged(es[s..|es|])
    requires FromRuns(acc.chunks, es)
    ensures var emitted := if acc.text != "" then acc.chunks + [Chunk(acc.text, merged)] else acc.chunks;
            var n := |es|;
            FromRuns(Split(emitted, OverlapOf(acc.text, chunkOverlap) + Piece(es[n - 1]), MetadataOf(es[n - 1]), chunkSize, chunkOverlap).chunks, es)
  {
    var n := |es|;
    var e := es[n - 1];
    var emitted := if acc.text != "" then acc.chunks + [Chunk(acc.text, merged)] else acc.chunks;
    OfRunIntro(es, s, n);
    if acc.text != "" {
      FromRunsSnoc(acc.chunks, Chunk(acc.text, merged), es);
    }
    MergedLast(es);
    SplitFromRuns(emitted, OverlapOf(acc.text, chunkOverlap) + Piece(e), es, n - 1, n, chunkSize, chunkOverlap);
  }

  /**
   * Every chunk's metadata is the metadata of a run of consecutive elements,
   * merged in order; `OverflowMetadata` says which run each chunk gets.
   */
  lemma ChunkMetadata(es: seq<Element>, chunkSize: int, chunkOverlap: int)
    requires 0 < chunkSize && chunkOverlap < chunkSize
    ensures FromRuns(Chunks(es, chunkSize, chunkOverlap), es)
  {
    var a := Run(es, chunkSize, chunkOverlap);
    RunFromRuns(es, chunkSize, chunkOverlap);
    if a.text != "" {
      var s := Restart(es, chunkSize, chunkOverlap);
      assert es[s..] == es[s..|es|];
      OfRunIntro(es, s, |es|);
      FromRunsSnoc(a.chunks, Chunk(a.text, a.meta), es);
    }
  }
}
