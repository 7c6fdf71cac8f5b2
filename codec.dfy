/**
 * The GDI+ TIFF codec seen from outside. A page is opaque; an encoded TIFF
 * is the list of encoder calls that produced it (Save of a first frame,
 * SaveAdd of a further frame, page-less SaveAdd that finalises the file),
 * and decoding gives back the frames in the order they were written. A
 * MemoryStream is that list together with its capacity and open flag.
 */
module Codec {
  import opened Wrappers
  import opened EncodingFormats

  /** One frame of a TIFF image; its pixels are not modelled. */
  datatype Page = Page(id: int)

  /** One call into the encoder and the parameter list it was given. */
  datatype Command =
    | SaveFrame(page: Page, params: seq<EncoderParameter>)     // Image.Save(stream, codec, params)
    | SaveAddFrame(page: Page, params: seq<EncoderParameter>)  // Image.SaveAdd(image, params)
    | SaveAddFlush(params: seq<EncoderParameter>)              // Image.SaveAdd(params)

  /** The frames a command list holds, in the order they were written. */
  function FramesOf(cmds: seq<Command>): (r: seq<Page>)
    ensures |r| <= |cmds|
  {
    if |cmds| == 0 then []
    else FramesOf(cmds[..|cmds| - 1]) + FrameOf(cmds[|cmds| - 1])
  }

  function FrameOf(c: Command): seq<Page>
  {
    if c.SaveAddFlush? then [] else [c.page]
  }

  lemma {:induction false} FramesOfConcat(a: seq<Command>, b: seq<Command>)
    ensures FramesOf(a + b) == FramesOf(a) + FramesOf(b)
    decreases |b|
  {
    if |b| == 0 {
      assert a + b == a;
    } else {
      assert (a + b)[..|a + b| - 1] == a + b[..|b| - 1];
      FramesOfConcat(a, b[..|b| - 1]);
    }
  }

  // ----- bytes ---------------------------------------------------------------

  /** A unit of a byte buffer: written by the encoder, or capacity never written (zero bytes). */
  datatype Cell = Written(cmd: Command) | Unused

  function Cells(cmds: seq<Command>): (r: seq<Cell>)
    ensures |r| == |cmds| && forall i :: 0 <= i < |r| ==> r[i] == Written(cmds[i])
  {
    seq(|cmds|, i requires 0 <= i < |cmds| => Written(cmds[i]))
  }

  function Slack(n: nat): (r: seq<Cell>)
    ensures |r| == n && forall i :: 0 <= i < n ==> r[i] == Unused
  {
    seq(n, _ => Unused)
  }

  /** The frames a byte buffer holds: trailing zero bytes hold none. */
  function CellFrames(cells: seq<Cell>): seq<Page>
  {
    if |cells| == 0 then []
    else
      var last := cells[|cells| - 1];
      CellFrames(cells[..|cells| - 1]) + (if last.Written? then FrameOf(last.cmd) else [])
  }

  lemma {:induction false} CellFramesOf(cmds: seq<Command>, slack: nat)
    ensures CellFrames(Cells(cmds) + Slack(slack)) == FramesOf(cmds)
    decreases |cmds| + slack
  {
    var cells := Cells(cmds) + Slack(slack);
    if slack > 0 {
      assert cells[..|cells| - 1] == Cells(cmds) + Slack(slack - 1);
      CellFramesOf(cmds, slack - 1);
    } else if |cmds| > 0 {
      assert cells[..|cells| - 1] == Cells(cmds[..|cmds| - 1]) + Slack(0);
      CellFramesOf(cmds[..|cmds| - 1], 0);
    }
  }

  /** Image.FromStream: a buffer with no frame is not an image. */
  function Decode(cells: seq<Cell>): (r: Result<seq<Page>>)
    ensures r.Failure? ==> r.error == CodecError
  {
    var frames := CellFrames(cells);
    if |frames| == 0 then Failure(CodecError) else Success(frames)
  }

  // ----- MemoryStream ----------------------------------------------------------

  /** A MemoryStream: what was written, the size of the buffer behind it, and whether it was disposed. */
  datatype Stream = Stream(data: seq<Command>, capacity: nat, open: bool) {
    ghost predicate Valid()
    {
      |data| <= capacity
    }
  }

  /** `new MemoryStream()`: empty, with no buffer at all. */
  const EmptyStream := Stream([], 0, true)

  /** The capacity after growing to hold `needed`: at least double the old one. */
  function Grow(capacity: nat, needed: nat): (r: nat)
    ensures needed <= r && capacity <= r
    ensures needed <= capacity ==> r == capacity
    ensures capacity < needed ==> 2 * capacity <= r
  {
    if needed <= capacity then capacity else Max(needed, 2 * capacity)
  }

  /** Writes `cmds` at the end of an open stream. */
  function Write(s: Stream, cmds: seq<Command>): (r: Stream)
    requires s.open
    ensures r.data == s.data + cmds && r.open
    ensures s.Valid() ==> r.Valid()
    ensures s.capacity <= r.capacity
  {
    s.(data := s.data + cmds, capacity := Grow(s.capacity, |s.data| + |cmds|))
  }

  /** MemoryStream.GetBuffer: the whole buffer, including the capacity never written. */
  function GetBuffer(s: Stream): (r: seq<Cell>)
    requires s.Valid()
    ensures |r| == s.capacity
  {
    Cells(s.data) + Slack(s.capacity - |s.data|)
  }

  /** Whatever the slack, the buffer decodes to the frames written. */
  lemma BufferFrames(s: Stream)
    requires s.Valid()
    ensures CellFrames(GetBuffer(s)) == FramesOf(s.data)
  {
    CellFramesOf(s.data, s.capacity - |s.data|);
  }

  // ----- what Merge writes ---------------------------------------------------

  function AddFrames(pages: seq<Page>, params: seq<EncoderParameter>): (r: seq<Command>)
    ensures |r| == |pages| && forall i :: 0 <= i < |r| ==> r[i] == SaveAddFrame(pages[i], params)
  {
    seq(|pages|, i requires 0 <= i < |pages| => SaveAddFrame(pages[i], params))
  }

  /**
   * The calls AbstractTiff.Merge makes: Save of the first page with the
   * FirstPage list, SaveAdd of each further page with the XPage list, then a
   * page-less SaveAdd with the LastPage list.
   */
  function MergeTrace(format: Profile, pages: seq<Page>): seq<Command>
    requires |pages| > 0
  {
    [SaveFrame(pages[0], format.firstPage)] + AddFrames(pages[1..], format.xPage) + [SaveAddFlush(format.lastPage)]
  }

  /** n pages take n+1 calls: one Save, n-1 page SaveAdds, one finalising SaveAdd; the last page uses XPage. */
  lemma MergeTraceShape(format: Profile, pages: seq<Page>)
    requires |pages| > 0
    ensures var t := MergeTrace(format, pages);
      && |t| == |pages| + 1
      && t[0] == SaveFrame(pages[0], format.firstPage)
      && (forall i :: 1 <= i < |pages| ==> t[i] == SaveAddFrame(pages[i], format.xPage))
      && t[|pages|] == SaveAddFlush(format.lastPage)
  {
    var t := MergeTrace(format, pages);
    var adds := AddFrames(pages[1..], format.xPage);
    assert forall i :: 1 <= i < |pages| ==> t[i] == adds[i - 1];
  }

  lemma {:induction false} AddFramesFrames(pages: seq<Page>, params: seq<EncoderParameter>)
    ensures FramesOf(AddFrames(pages, params)) == pages
    decreases |pages|
  {
    if |pages| > 0 {
      var adds := AddFrames(pages, params);
      assert adds[..|adds| - 1] == AddFrames(pages[..|pages| - 1], params);
      AddFramesFrames(pages[..|pages| - 1], params);
    }
  }

  /** Decoding what Merge wrote gives back exactly the pages merged, in order. */
  lemma MergeRoundTrip(format: Profile, pages: seq<Page>)
    requires |pages| > 0
    ensures FramesOf(MergeTrace(format, pages)) == pages
  {
    var first, flush := SaveFrame(pages[0], format.firstPage), SaveAddFlush(format.lastPage);
    var adds := AddFrames(pages[1..], format.xPage);
    FramesOfConcat([first] + adds, [flush]);
    FramesOfConcat([first], adds);
    AddFramesFrames(pages[1..], format.xPage);
    FramesOfOne(first);
    FramesOfOne(flush);
    assert [pages[0]] + pages[1..] == pages;
  }

  lemma FramesOfOne(c: Command)
    ensures FramesOf([c]) == FrameOf(c)
  {
    assert [c][..0] == [];
  }

  /** Each encoder call writes into the stream in turn, growing it as it goes. */
  function WriteCalls(s: Stream, cmds: seq<Command>): (r: Stream)
    requires s.open
    ensures r.data == s.data + cmds && r.open
    ensures s.Valid() ==> r.Valid()
    ensures s.capacity <= r.capacity
  {
    if |cmds| == 0 then s
    else Write(WriteCalls(s, cmds[..|cmds| - 1]), [cmds[|cmds| - 1]])
  }

  /**
   * The buffer AbstractTiff.GetPages makes for one page: a fresh stream,
   * one Save of the active frame, then Capacity set to Length.
   */
  function SinglePage(p: Page, encoder: seq<EncoderParameter>): (r: Stream)
    ensures r.Valid() && r.open
  {
    var s := Write(EmptyStream, [SaveFrame(p, encoder)]);
    s.(capacity := |s.data|)
  }

  /** The trimmed buffer holds exactly the encoded page: no slack, and it decodes to that one page. */
  lemma SinglePageBuffer(p: Page, encoder: seq<EncoderParameter>)
    ensures GetBuffer(SinglePage(p, encoder)) == [Written(SaveFrame(p, encoder))]
    ensures Decode(GetBuffer(SinglePage(p, encoder))) == Success([p])
  {
    var c := GetBuffer(SinglePage(p, encoder));
    assert c == [Written(SaveFrame(p, encoder))];
    assert c[..0] == [];
    assert CellFrames(c) == [p];
  }
}
