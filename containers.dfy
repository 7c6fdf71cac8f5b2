/**
 * The state behind an AbstractTiff (an InMemoryTiff or a FileSystemTiff):
 * the cached `image`, the `MemoryStream` and, for a file, the cached read
 * handle `fileStream`, and what each operation does to them and to the files
 * on disk. Every operation is a function from the old state to a Step: the
 * new fields, the new files and the result. The class in tiff.dfy performs
 * the same steps on its fields.
 */
module Containers {
  import opened Wrappers
  import opened EncodingFormats
  import opened Codec

  /** The files on disk, by full path. */
  type Files = map<string, seq<Cell>>

  /** InMemoryTiff, or FileSystemTiff over the file with this full name. */
  datatype Backing = InMemory | OnDisk(fullName: string)

  /** What reading an Image property gives: the decoded frames, null, or the exception the getter throws. */
  datatype Arg = Img(frames: seq<Page>) | Null | Throws(error: Error)

  /** A FileStream opened for reading: the file content it reads, and whether it was disposed. */
  datatype Handle = Handle(content: seq<Cell>, open: bool)

  /** The three fields AbstractTiff and FileSystemTiff keep. */
  datatype Fields = Fields(image: Option<seq<Page>>, memoryStream: Option<Stream>, fileStream: Option<Handle>)
  {
    ghost predicate Valid()
    {
      memoryStream.Some? ==> memoryStream.value.Valid()
    }
  }

  /** The fields the base constructor leaves: no image, a new empty MemoryStream, no handle. */
  const Fresh := Fields(None, Some(EmptyStream), None)

  /** The fields of `new InMemoryTiff(image)`. */
  function FromImage(image: Option<seq<Page>>): (r: Fields)
    ensures r.Valid() && r.memoryStream == Some(EmptyStream) && r.image == image && r.fileStream.None?
  {
    Fresh.(image := image)
  }

  /** The result of an operation: the new fields, the new files and what it returns or throws. */
  datatype Step<T> = Step(after: Fields, files: Files, result: Result<T>)

  // ----- the lazy Image getter ---------------------------------------------------

  datatype Loaded = Loaded(arg: Arg, after: Fields)

  /**
   * The Image getter. An InMemoryTiff decodes its MemoryStream when no image
   * is cached and a stream is there, and returns null with neither. A
   * FileSystemTiff opens its file once, keeps the handle, and decodes from it.
   * Only a successful decode is cached.
   */
  function Load(b: Backing, st: Fields, files: Files): (r: Loaded)
    ensures r.after.memoryStream == st.memoryStream
    ensures b.InMemory? ==> r.after.fileStream == st.fileStream
    ensures st.image.Some? ==> r == Loaded(Img(st.image.value), st)
    ensures r.arg.Img? ==> r.after.image == Some(r.arg.frames)
    ensures !r.arg.Img? ==> r.after.image.None?
    ensures b.InMemory? ==> (r.arg.Null? <==> st.image.None? && st.memoryStream.None?)
    ensures b.OnDisk? ==> !r.arg.Null?
  {
    if st.image.Some? then Loaded(Img(st.image.value), st)
    else
      match b
      case InMemory =>
        if st.memoryStream.None? then Loaded(Null, st)
        else if !st.memoryStream.value.open then Loaded(Throws(ObjectDisposed), st)
        else
          (match Decode(Cells(st.memoryStream.value.data))
           case Success(f) => Loaded(Img(f), st.(image := Some(f)))
           case Failure(e) => Loaded(Throws(e), st))
      case OnDisk(name) =>
        if st.fileStream.None? && name !in files then Loaded(Throws(FileNotFound), st)
        else
          var h := if st.fileStream.Some? then st.fileStream.value else Handle(files[name], true);
          var st1 := st.(fileStream := Some(h));
          if !h.open then Loaded(Throws(ObjectDisposed), st1)
          else
            match Decode(h.content)
            case Success(f) => Loaded(Img(f), st1.(image := Some(f)))
            case Failure(e) => Loaded(Throws(e), st1)
  }

  /** The getter decodes at most once: a second read returns the same frames and changes nothing, whatever the disk holds by then. */
  lemma LoadCaches(b: Backing, st: Fields, files: Files, later: Files)
    requires Load(b, st, files).arg.Img?
    ensures var l := Load(b, st, files); Load(b, l.after, later) == l
  {
  }

  /** A FileSystemTiff opens its file at most once: once a handle is cached, every read goes through it. */
  lemma LoadKeepsHandle(name: string, st: Fields, files: Files)
    requires st.fileStream.Some?
    ensures Load(OnDisk(name), st, files).after.fileStream == st.fileStream
    ensures st.image.None? ==>
      Load(OnDisk(name), st, files).arg ==
        if !st.fileStream.value.open then Throws(ObjectDisposed)
        else if Decode(st.fileStream.value.content).Success? then Img(Decode(st.fileStream.value.content).value)
        else Throws(CodecError)
  {
  }

  /** A container built on a buffer decodes, on first read, to the frames written into that buffer. */
  lemma LoadStream(s: Stream, h: Option<Handle>, files: Files)
    requires s.open && |FramesOf(s.data)| > 0
    ensures Load(InMemory, Fields(None, Some(s), h), files).arg == Img(FramesOf(s.data))
  {
    CellFramesOf(s.data, 0);
    assert Cells(s.data) + Slack(0) == Cells(s.data);
  }

  /** Dereferencing the Image: PageCount, FrameDimensionsList and GetFrameCount throw on null. */
  function ImageFrames(a: Arg): (r: Result<seq<Page>>)
    ensures r.Success? <==> a.Img?
    ensures a.Img? ==> r.value == a.frames
    ensures a.Null? ==> r == Failure(NullReference)
    ensures a.Throws? ==> r == Failure(a.error)
  {
    match a
    case Img(f) => Success(f)
    case Null => Failure(NullReference)
    case Throws(e) => Failure(e)
  }

  /** The PageCount property. */
  function PageCountStep(b: Backing, st: Fields, files: Files): (r: Step<nat>)
  {
    var l := Load(b, st, files);
    match ImageFrames(l.arg)
    case Success(f) => Step(l.after, files, Success(|f|))
    case Failure(e) => Step(l.after, files, Failure(e))
  }

  /** FileSystemTiff.GetPageCount: the frame count of a freshly opened file. */
  function GetPageCount(files: Files, file: string): Result<nat>
  {
    PageCountStep(OnDisk(file), Fresh, files).result
  }

  /** GetPageCount counts the frames stored in the file; a missing file or a buffer with no frame fails. */
  lemma GetPageCountMeaning(files: Files, file: string)
    ensures file !in files ==> GetPageCount(files, file) == Failure(FileNotFound)
    ensures file in files && Decode(files[file]).Success? ==>
      GetPageCount(files, file) == Success(|CellFrames(files[file])|)
    ensures file in files && Decode(files[file]).Failure? ==> GetPageCount(files, file) == Failure(CodecError)
  {
  }

  // ----- GetPages and Split ----------------------------------------------------

  predicate InRange(indexes: seq<int>, n: nat)
  {
    forall i :: 0 <= i < |indexes| ==> 0 <= indexes[i] < n
  }

  /** The single-page buffers GetPages yields for `indexes`, taken from `frames`. */
  function PagesFrom(frames: seq<Page>, indexes: seq<int>, encoder: seq<EncoderParameter>): Result<seq<Stream>>
  {
    if InRange(indexes, |frames|) then
      Success(seq(|indexes|, i requires 0 <= i < |indexes| && InRange(indexes, |frames|) => SinglePage(frames[indexes[i]], encoder)))
    else Failure(IndexError)
  }

  /**
   * GetPages yields one buffer per requested index, in the requested order and
   * repeating duplicates; each is trimmed to the one encoded page and decodes to
   * that page. An index outside [0, PageCount) fails.
   */
  lemma GetPagesMeaning(frames: seq<Page>, indexes: seq<int>, encoder: seq<EncoderParameter>)
    ensures var r := PagesFrom(frames, indexes, encoder);
      && (r.Success? <==> InRange(indexes, |frames|))
      && (r.Failure? ==> r.error == IndexError)
      && (r.Success? ==> |r.value| == |indexes|)
      && (r.Success? ==> forall i :: 0 <= i < |indexes| ==>
            && r.value[i].Valid() && r.value[i].open
            && GetBuffer(r.value[i]) == [Written(SaveFrame(frames[indexes[i]], encoder))]
            && Decode(GetBuffer(r.value[i])) == Success([frames[indexes[i]]]))
  {
    var r := PagesFrom(frames, indexes, encoder);
    if r.Success? {
      forall i | 0 <= i < |indexes|
        ensures GetBuffer(r.value[i]) == [Written(SaveFrame(frames[indexes[i]], encoder))]
        ensures Decode(GetBuffer(r.value[i])) == Success([frames[indexes[i]]])
      {
        SinglePageBuffer(frames[indexes[i]], encoder);
      }
    }
  }

  /** GetPages: the image is read once, then each index is selected and saved. */
  function GetPagesStep(b: Backing, st: Fields, files: Files, indexes: seq<int>, encoder: seq<EncoderParameter>): Step<seq<Stream>>
  {
    var l := Load(b, st, files);
    match ImageFrames(l.arg)
    case Success(f) => Step(l.after, files, PagesFrom(f, indexes, encoder))
    case Failure(e) => Step(l.after, files, Failure(e))
  }

  /** Enumerable.Range(0, n). */
  function Range(n: nat): (r: seq<int>)
    ensures |r| == n && forall i :: 0 <= i < n ==> r[i] == i
  {
    seq(n, i => i)
  }

  /** Split: PageCount reads the image, then GetPages over 0..PageCount-1. */
  function SplitStep(b: Backing, st: Fields, files: Files, encoder: seq<EncoderParameter>): Step<seq<Stream>>
  {
    var c := PageCountStep(b, st, files);
    match c.result
    case Success(n) => GetPagesStep(b, c.after, files, Range(n), encoder)
    case Failure(e) => Step(c.after, files, Failure(e))
  }

  /** Split of a readable image gives one buffer per frame, in frame order, each decoding to its frame. */
  lemma SplitMeaning(b: Backing, st: Fields, files: Files, encoder: seq<EncoderParameter>)
    requires Load(b, st, files).arg.Img?
    ensures var f := Load(b, st, files).arg.frames;
      var r := SplitStep(b, st, files, encoder);
      && r.after == Load(b, st, files).after
      && r.result.Success? && |r.result.value| == |f|
      && forall i :: 0 <= i < |f| ==> Decode(GetBuffer(r.result.value[i])) == Success([f[i]])
  {
    var l := Load(b, st, files);
    LoadCaches(b, st, files, files);
    GetPagesMeaning(l.arg.frames, Range(|l.arg.frames|), encoder);
  }

  // ----- Merge -------------------------------------------------------------------

  predicate AllImages(args: seq<Arg>)
  {
    forall i :: 0 <= i < |args| ==> args[i].Img?
  }

  /** The frames of the arguments, in argument order. */
  function Frames(args: seq<Arg>): seq<Page>
  {
    if |args| == 0 then [] else (if args[0].Img? then args[0].frames else []) + Frames(args[1..])
  }

  /** What a null Image or a throwing getter raises once Merge reaches it. */
  function ArgError(a: Arg): Error
    requires !a.Img?
  {
    // a null Image becomes `new InMemoryTiff(null)`, which decodes its empty MemoryStream
    if a.Null? then CodecError else a.error
  }

  /** The pages Merge enumerates before the first argument that fails, and that failure. */
  datatype Flat = Flat(pages: seq<Page>, stop: Option<Error>)

  function Enumerate(args: seq<Arg>): (r: Flat)
    ensures r.stop.None? <==> AllImages(args)
    ensures r.stop.None? ==> r.pages == Frames(args)
  {
    if |args| == 0 then Flat([], None)
    else
      match args[0]
      case Img(f) =>
        var rest := Enumerate(args[1..]);
        assert AllImages(args) <==> AllImages(args[1..]) by {
          assert forall i :: 1 <= i < |args| ==> args[i] == args[1..][i - 1];
        }
        Flat(f + rest.pages, rest.stop)
      case _ => Flat([], Some(ArgError(args[0])))
  }

  /** The index of the first argument that is not an image, or the number of arguments. */
  function FirstFailure(args: seq<Arg>): (j: nat)
    ensures j <= |args| && AllImages(args[..j]) && (j < |args| ==> !args[j].Img?)
  {
    if |args| == 0 || !args[0].Img? then 0
    else
      var j := FirstFailure(args[1..]);
      assert args[..j + 1] == [args[0]] + args[1..][..j];
      j + 1
  }

  /** Merge enumerates the frames of every argument up to the first failing one, and stops with that one's error. */
  lemma {:induction false} EnumerateStops(args: seq<Arg>)
    ensures var j := FirstFailure(args);
      && Enumerate(args).pages == Frames(args[..j])
      && Enumerate(args).stop == (if j < |args| then Some(ArgError(args[j])) else None)
    decreases |args|
  {
    if |args| > 0 && args[0].Img? {
      var j := FirstFailure(args[1..]);
      EnumerateStops(args[1..]);
      assert args[..j + 1][1..] == args[1..][..j];
    } else if |args| > 0 {
      assert args[..0] == [];
    }
  }

  datatype Merged = Merged(stream: Stream, status: Result<()>)

  /**
   * The static core Merge writing into an open `dataBuffer`: Save of the first
   * page, SaveAdd of each further page, then the finalising SaveAdd. No page at
   * all fails in First(); a failing argument stops the writing where it is met.
   */
  function MergeOutcome(format: Profile, dataBuffer: Stream, args: seq<Arg>): (r: Merged)
    requires dataBuffer.open
    ensures r.stream.open && (dataBuffer.Valid() ==> r.stream.Valid())
  {
    var e := Enumerate(args);
    if |e.pages| == 0 then Merged(dataBuffer, Failure(e.stop.GetOr(EmptyInput)))
    else
      var written := WriteCalls(dataBuffer, [SaveFrame(e.pages[0], format.firstPage)] + AddFrames(e.pages[1..], format.xPage));
      if e.stop.Some? then Merged(written, Failure(e.stop.value))
      else Merged(Write(written, [SaveAddFlush(format.lastPage)]), Success(()))
  }

  /**
   * Merge succeeds exactly when every argument is an image and there is at
   * least one page; it then appends the full trace for those pages. In every
   * case the buffer gains exactly the frames enumerated before Merge stopped.
   */
  lemma MergeOutcomeMeaning(format: Profile, dataBuffer: Stream, args: seq<Arg>)
    requires dataBuffer.open
    ensures var m := MergeOutcome(format, dataBuffer, args);
      && (m.status.Success? <==> AllImages(args) && |Frames(args)| > 0)
      && (m.status.Success? ==> m.stream.data == dataBuffer.data + MergeTrace(format, Frames(args)))
      && (AllImages(args) && |Frames(args)| == 0 ==> m == Merged(dataBuffer, Failure(EmptyInput)))
      && (!AllImages(args) ==> m.status == Failure(Enumerate(args).stop.value))
      && FramesOf(m.stream.data) == FramesOf(dataBuffer.data) + Enumerate(args).pages
  {
    MergeWritesTrace(format, dataBuffer, args);
    MergeWritesFrames(format, dataBuffer, args);
  }

  lemma MergeWritesTrace(format: Profile, dataBuffer: Stream, args: seq<Arg>)
    requires dataBuffer.open
    ensures var m := MergeOutcome(format, dataBuffer, args);
      && (m.status.Success? <==> AllImages(args) && |Frames(args)| > 0)
      && (m.status.Success? ==> m.stream.data == dataBuffer.data + MergeTrace(format, Frames(args)))
  {
    var e := Enumerate(args);
    var m := MergeOutcome(format, dataBuffer, args);
    if |e.pages| == 0 || e.stop.Some? {
      assert m.status.Failure?;
    } else {
      var head := [SaveFrame(e.pages[0], format.firstPage)] + AddFrames(e.pages[1..], format.xPage);
      var flush := [SaveAddFlush(format.lastPage)];
      assert m.stream == Write(WriteCalls(dataBuffer, head), flush);
      assert m.stream.data == dataBuffer.data + head + flush;
      assert head + flush == MergeTrace(format, e.pages);
    }
  }

  lemma MergeWritesFrames(format: Profile, dataBuffer: Stream, args: seq<Arg>)
    requires dataBuffer.open
    ensures FramesOf(MergeOutcome(format, dataBuffer, args).stream.data) == FramesOf(dataBuffer.data) + Enumerate(args).pages
  {
    var e := Enumerate(args);
    if |e.pages| > 0 {
      HeadFrames(format, dataBuffer.data, e.pages);
      if e.stop.None? {
        var head := [SaveFrame(e.pages[0], format.firstPage)] + AddFrames(e.pages[1..], format.xPage);
        FlushFrames(dataBuffer.data + head, format.lastPage);
      }
    } else {
      assert e.pages == [];
    }
  }

  /** The frames of the calls written before the finalising SaveAdd are the pages. */
  lemma HeadFrames(format: Profile, data: seq<Command>, pages: seq<Page>)
    requires |pages| > 0
    ensures FramesOf(data + ([SaveFrame(pages[0], format.firstPage)] + AddFrames(pages[1..], format.xPage))) == FramesOf(data) + pages
  {
    var first := [SaveFrame(pages[0], format.firstPage)];
    var adds := AddFrames(pages[1..], format.xPage);
    var h := first + adds;
    assert FramesOf(h) == pages by {
      FramesOfConcat(first, adds);
      AddFramesFrames(pages[1..], format.xPage);
      assert FramesOf(first) == [pages[0]] by {
        assert first[..0] == [];
      }
      assert [pages[0]] + pages[1..] == pages;
    }
    FramesOfConcat(data, h);
  }

  /** The finalising SaveAdd adds no frame. */
  lemma FlushFrames(data: seq<Command>, params: seq<EncoderParameter>)
    ensures FramesOf(data + [SaveAddFlush(params)]) == FramesOf(data)
  {
    assert (data + [SaveAddFlush(params)])[..|data|] == data;
  }

  /** The frames of an argument list that starts with an image put that image's frames first. */
  lemma FramesCons(a: Arg, rest: seq<Arg>)
    requires a.Img?
    ensures Frames([a] + rest) == a.frames + Frames(rest)
    ensures AllImages([a] + rest) <==> AllImages(rest)
  {
    assert ([a] + rest)[1..] == rest;
    assert forall i :: 1 <= i < |rest| + 1 ==> ([a] + rest)[i] == rest[i - 1];
  }

  // ----- Append, MergeToFile and the static Merge overloads ----------------------

  /** The protected core Append(images, dataBuffer): this.Image first, then the arguments. */
  datatype Core = Core(after: Fields, merged: Merged)

  function AppendCore(b: Backing, format: Profile, st: Fields, files: Files, args: seq<Arg>, dataBuffer: Stream): Core
    requires dataBuffer.open
  {
    var l := Load(b, st, files);
    Core(l.after, MergeOutcome(format, dataBuffer, [l.arg] + args))
  }

  /**
   * Append(images): MemoryStream is replaced by a new one BEFORE this.Image is
   * read, the merge is written into it, and on success the cached image is
   * dropped so the next read decodes the new buffer.
   */
  function AppendStep(b: Backing, format: Profile, st: Fields, files: Files, args: seq<Arg>): (r: Step<()>)
    ensures r.files == files
  {
    var c := AppendCore(b, format, st.(memoryStream := Some(EmptyStream)), files, args, EmptyStream);
    var after := c.after.(memoryStream := Some(c.merged.stream));
    if c.merged.status.Success? then Step(after.(image := None), files, Success(()))
    else Step(after, files, c.merged.status)
  }

  /**
   * With the image already cached, Append writes this image's pages and then
   * the arguments' pages with the given profile and drops the cache. The next
   * read of an InMemoryTiff decodes exactly those pages; a FileSystemTiff
   * reads its file instead (AppendOnDiskRereadsFile).
   */
  lemma AppendMeaning(b: Backing, format: Profile, st: Fields, files: Files, args: seq<Arg>)
    requires st.image.Some? && AllImages(args) && |st.image.value + Frames(args)| > 0
    ensures var r := AppendStep(b, format, st, files, args);
      var pages := st.image.value + Frames(args);
      && r.result.Success?
      && r.after.image.None? && r.after.fileStream == st.fileStream
      && r.after.memoryStream.Some? && r.after.memoryStream.value.open
      && r.after.memoryStream.value.data == MergeTrace(format, pages)
      && r.after.Valid()
      && (b.InMemory? ==> Load(b, r.after, files).arg == Img(pages))
  {
    var a := Img(st.image.value);
    FramesCons(a, args);
    MergeOutcomeMeaning(format, EmptyStream, [a] + args);
    var r := AppendStep(b, format, st, files, args);
    var s := r.after.memoryStream.value;
    assert [] + MergeTrace(format, st.image.value + Frames(args)) == MergeTrace(format, st.image.value + Frames(args));
    MergeRoundTrip(format, st.image.value + Frames(args));
    if b.InMemory? {
      assert r.after == Fields(None, Some(s), st.fileStream);
      LoadStream(s, st.fileStream, files);
    }
  }

  /**
   * A FileSystemTiff's next read after Append does not see the appended pages:
   * the getter decodes the file through the kept FileStream. When that file
   * holds the cached pages, and the arguments add at least one page, the
   * appended pages are lost to every later read until Save writes the buffer.
   */
  lemma AppendOnDiskRereadsFile(name: string, format: Profile, st: Fields, files: Files, args: seq<Arg>)
    requires st.image.Some? && AllImages(args) && |st.image.value + Frames(args)| > 0
    requires st.fileStream.Some? && st.fileStream.value.open && Decode(st.fileStream.value.content).Success?
    ensures var r := AppendStep(OnDisk(name), format, st, files, args);
      && r.result.Success?
      && Load(OnDisk(name), r.after, files).arg == Img(Decode(st.fileStream.value.content).value)
    ensures var r := AppendStep(OnDisk(name), format, st, files, args);
      Decode(st.fileStream.value.content) == Success(st.image.value) && |Frames(args)| > 0 ==>
        Load(OnDisk(name), r.after, files).arg != Img(st.image.value + Frames(args))
  {
    AppendMeaning(OnDisk(name), format, st, files, args);
    var r := AppendStep(OnDisk(name), format, st, files, args);
    LoadKeepsHandle(name, r.after, files);
  }

  /**
   * An InMemoryTiff built on a buffer and never read yet cannot be appended to:
   * the getter decodes the new, empty MemoryStream instead of the old one.
   */
  lemma AppendUnloadedFails(s: Stream, format: Profile, files: Files, args: seq<Arg>)
    requires s.open && |FramesOf(s.data)| > 0
    ensures Load(InMemory, Fields(None, Some(s), None), files).arg.Img?
    ensures AppendStep(InMemory, format, Fields(None, Some(s), None), files, args).result == Failure(CodecError)
  {
    LoadStream(s, None, files);
    assert Cells([]) == [];
    assert CellFrames([]) == [];
  }

  /** Append as evidently intended: read this.Image first, then replace the MemoryStream. */
  function AppendLoadedStep(b: Backing, format: Profile, st: Fields, files: Files, args: seq<Arg>): (r: Step<()>)
    ensures r.files == files
  {
    var c := AppendCore(b, format, st, files, args, EmptyStream);
    var after := c.after.(memoryStream := Some(c.merged.stream));
    if c.merged.status.Success? then Step(after.(image := None), files, Success(()))
    else Step(after, files, c.merged.status)
  }

  /** The corrected Append keeps the pages of a buffer-backed InMemoryTiff whether or not it was read before. */
  lemma AppendLoadedMeaning(format: Profile, st: Fields, files: Files, args: seq<Arg>)
    requires Load(InMemory, st, files).arg.Img? && AllImages(args)
    requires |Load(InMemory, st, files).arg.frames + Frames(args)| > 0
    ensures var r := AppendLoadedStep(InMemory, format, st, files, args);
      && r.result.Success?
      && Load(InMemory, r.after, files).arg == Img(Load(InMemory, st, files).arg.frames + Frames(args))
  {
    var l := Load(InMemory, st, files);
    var pages := l.arg.frames + Frames(args);
    FramesCons(l.arg, args);
    MergeOutcomeMeaning(format, EmptyStream, [l.arg] + args);
    var m := MergeOutcome(format, EmptyStream, [l.arg] + args);
    assert m.stream.data == MergeTrace(format, pages) by {
      assert [] + MergeTrace(format, pages) == MergeTrace(format, pages);
    }
    assert AppendLoadedStep(InMemory, format, st, files, args).after == Fields(None, Some(m.stream), l.after.fileStream);
    MergeRoundTrip(format, pages);
    LoadStream(m.stream, l.after.fileStream, files);
  }

  /** Where the image is already cached, Append as written and as corrected do the same. */
  lemma AppendAgreesWhenLoaded(b: Backing, format: Profile, st: Fields, files: Files, args: seq<Arg>)
    requires st.image.Some?
    ensures AppendStep(b, format, st, files, args) == AppendLoadedStep(b, format, st, files, args)
  {
  }

  /**
   * The static Merge(format, images): `format` is not used. The first image
   * becomes a new InMemoryTiff, whose Append (with its own default, TiffRegular)
   * takes the remaining images.
   */
  function StaticMerge(files: Files, args: seq<Arg>): Result<Fields>
  {
    if |args| == 0 then Failure(EmptyInput)
    else if args[0].Throws? then Failure(args[0].error)
    else
      var s := AppendStep(InMemory, TiffRegularProfile, FromImage(if args[0].Img? then Some(args[0].frames) else None), files, args[1..]);
      if s.result.Success? then Success(s.after) else Failure(s.result.error)
  }

  /**
   * Merging images gives a fresh InMemoryTiff whose buffer holds the
   * TiffRegular trace of all their pages, in argument order, and which decodes
   * to those pages; no image at all fails.
   */
  lemma StaticMergeMeaning(files: Files, args: seq<Arg>)
    ensures |args| == 0 ==> StaticMerge(files, args) == Failure(EmptyInput)
    ensures AllImages(args) && |Frames(args)| > 0 ==>
      var r := StaticMerge(files, args);
      && r.Success? && r.value.image.None? && r.value.fileStream.None? && r.value.Valid()
      && r.value.memoryStream.Some? && r.value.memoryStream.value.data == MergeTrace(TiffRegularProfile, Frames(args))
      && Load(InMemory, r.value, files).arg == Img(Frames(args))
  {
    if AllImages(args) && |Frames(args)| > 0 {
      assert args == [args[0]] + args[1..];
      FramesCons(args[0], args[1..]);
      AppendMeaning(InMemory, TiffRegularProfile, FromImage(Some(args[0].frames)), files, args[1..]);
    }
  }

  /** What the union of single-page containers yields as images. */
  function Singles(pages: seq<Page>): (r: seq<Arg>)
    ensures |r| == |pages| && forall i :: 0 <= i < |r| ==> r[i] == Img([pages[i]])
  {
    seq(|pages|, i requires 0 <= i < |pages| => Img([pages[i]]))
  }

  lemma {:induction false} SinglesFrames(pages: seq<Page>)
    ensures AllImages(Singles(pages)) && Frames(Singles(pages)) == pages
    decreases |pages|
  {
    if |pages| > 0 {
      SinglesFrames(pages[1..]);
      assert Singles(pages)[1..] == Singles(pages[1..]);
    }
  }

  /**
   * MergeToFile(outFile, images): the file is created (emptied) first, then
   * this.Image and the arguments are merged into it with the default profile.
   */
  function MergeToFileStep(b: Backing, format: Profile, st: Fields, files: Files, outFile: string, args: seq<Arg>): Step<()>
  {
    var files1 := files[outFile := []];
    var c := AppendCore(b, format, st, files1, args, EmptyStream);
    Step(c.after, files1[outFile := Cells(c.merged.stream.data)], c.merged.status)
  }

  /** What the static MergeToFile leaves on disk, and what it returns or throws. */
  datatype FileOutcome = FileOutcome(files: Files, result: Result<()>)

  /**
   * The static MergeToFile(format, outfile, images): `format` is not used
   * either. images.First() throws before the file is created; after that the
   * file keeps what was written even when the merge fails.
   */
  function StaticMergeToFile(files: Files, outFile: string, args: seq<Arg>): FileOutcome
  {
    if |args| == 0 then FileOutcome(files, Failure(EmptyInput))
    else if args[0].Throws? then FileOutcome(files, Failure(args[0].error))
    else
      var s := MergeToFileStep(InMemory, TiffRegularProfile, FromImage(if args[0].Img? then Some(args[0].frames) else None), files, outFile, args[1..]);
      FileOutcome(s.files, s.result)
  }

  /** The file MergeToFile writes holds the TiffRegular trace of all pages and no other file changes. */
  lemma StaticMergeToFileMeaning(files: Files, outFile: string, args: seq<Arg>)
    requires AllImages(args) && |Frames(args)| > 0
    ensures var r := StaticMergeToFile(files, outFile, args);
      && r.result.Success? && r.files == files[outFile := Cells(MergeTrace(TiffRegularProfile, Frames(args)))]
      && Decode(r.files[outFile]) == Success(Frames(args))
  {
    assert args == [args[0]] + args[1..];
    FramesCons(args[0], args[1..]);
    MergeIntoFile(InMemory, TiffRegularProfile, FromImage(Some(args[0].frames)), files, outFile, args[1..]);
    TraceDecodes(TiffRegularProfile, Frames(args));
  }

  /**
   * Whatever the outcome, MergeToFile changes no file but outFile. With no
   * image, or a first getter that throws, the call fails before creating it.
   * Otherwise outFile exists afterwards, even if the merge throws, and holds
   * the pages enumerated before the first failing image.
   */
  lemma StaticMergeToFileOutcome(files: Files, outFile: string, args: seq<Arg>)
    ensures var r := StaticMergeToFile(files, outFile, args);
      && (forall j :: j != outFile ==> (j in r.files <==> j in files))
      && (forall j :: j != outFile && j in files ==> r.files[j] == files[j])
      && ((|args| == 0 || args[0].Throws?) ==> r.files == files && r.result.Failure?)
      && (|args| > 0 && !args[0].Throws? ==>
            outFile in r.files && CellFrames(r.files[outFile]) == Enumerate(args).pages)
  {
    if |args| > 0 && !args[0].Throws? {
      var st := FromImage(if args[0].Img? then Some(args[0].frames) else None);
      var s := MergeToFileStep(InMemory, TiffRegularProfile, st, files, outFile, args[1..]);
      assert StaticMergeToFile(files, outFile, args) == FileOutcome(s.files, s.result);
      MergeToFileWrites(InMemory, TiffRegularProfile, st, files, outFile, args[1..]);
      FirstImageEnumerates(args, files[outFile := []]);
    }
  }

  /** The container built on the first image enumerates, with the rest, what the images themselves do. */
  lemma FirstImageEnumerates(args: seq<Arg>, files: Files)
    requires |args| > 0 && !args[0].Throws?
    ensures var st := FromImage(if args[0].Img? then Some(args[0].frames) else None);
      Enumerate([Load(InMemory, st, files).arg] + args[1..]).pages == Enumerate(args).pages
  {
    if args[0].Img? {
      assert [Img(args[0].frames)] + args[1..] == args;
    }
  }

  /**
   * MergeToFile changes only outFile, which afterwards holds the frames
   * enumerated from this.Image and the arguments, up to the first failure.
   */
  lemma MergeToFileWrites(b: Backing, format: Profile, st: Fields, files: Files, outFile: string, args: seq<Arg>)
    ensures var r := MergeToFileStep(b, format, st, files, outFile, args);
      && (forall j :: j != outFile ==> (j in r.files <==> j in files))
      && (forall j :: j != outFile && j in files ==> r.files[j] == files[j])
      && outFile in r.files
      && CellFrames(r.files[outFile]) == Enumerate([Load(b, st, files[outFile := []]).arg] + args).pages
  {
    var files1 := files[outFile := []];
    var c := AppendCore(b, format, st, files1, args, EmptyStream);
    var data := c.merged.stream.data;
    forall j | j != outFile
      ensures (j in files1[outFile := Cells(data)] <==> j in files)
      ensures j in files ==> files1[outFile := Cells(data)][j] == files[j]
    {
      OtherKey(files, outFile, [], j);
      OtherKey(files1, outFile, Cells(data), j);
    }
    MergeWritesFrames(format, EmptyStream, [Load(b, st, files1).arg] + args);
    CellFramesOf(data, 0);
    assert Cells(data) + Slack(0) == Cells(data);
  }

  /** MergeToFile with the image cached writes the trace of its pages and the arguments' pages. */
  lemma MergeIntoFile(b: Backing, format: Profile, st: Fields, files: Files, outFile: string, args: seq<Arg>)
    requires st.image.Some? && AllImages(args) && |st.image.value + Frames(args)| > 0
    ensures var r := MergeToFileStep(b, format, st, files, outFile, args);
      && r.result.Success? && r.after == st
      && r.files == files[outFile := Cells(MergeTrace(format, st.image.value + Frames(args)))]
  {
    var a := Img(st.image.value);
    var t := MergeTrace(format, st.image.value + Frames(args));
    FramesCons(a, args);
    var m := MergeOutcome(format, EmptyStream, [a] + args);
    assert m.stream.data == t by {
      MergeOutcomeMeaning(format, EmptyStream, [a] + args);
      assert [] + t == t;
    }
    assert m.status.Success? by {
      MergeOutcomeMeaning(format, EmptyStream, [a] + args);
    }
    var files1 := files[outFile := []];
    var l := Load(b, st, files1);
    assert l.arg == a && l.after == st;
    var c := AppendCore(b, format, st, files1, args, EmptyStream);
    assert c.after == st && c.merged == m;
    UpdateTwice(files, outFile, [], Cells(t));
  }

  /** Writing a key twice keeps only the second value. */
  lemma UpdateTwice<K, V>(m: map<K, V>, k: K, v: V, w: V)
    ensures m[k := v][k := w] == m[k := w]
  {
  }

  /** A file holding a merge trace decodes to the merged pages. */
  lemma TraceDecodes(format: Profile, pages: seq<Page>)
    requires |pages| > 0
    ensures Decode(Cells(MergeTrace(format, pages))) == Success(pages)
  {
    var t := MergeTrace(format, pages);
    MergeRoundTrip(format, pages);
    CellFramesOf(t, 0);
    assert Cells(t) + Slack(0) == Cells(t);
  }

  // ----- RemovePages -------------------------------------------------------------

  /** Enumerable.Range(0, n).Where(i => !removed.Contains(i)). */
  function KeptIndices(n: nat, removed: seq<int>): (r: seq<int>)
    ensures forall i :: 0 <= i < |r| ==> 0 <= r[i] < n && r[i] !in removed
    ensures forall i, j :: 0 <= i < j < |r| ==> r[i] < r[j]
  {
    if n == 0 then []
    else KeptIndices(n - 1, removed) + (if n - 1 in removed then [] else [n - 1])
  }

  /**
   * The kept indices are exactly those in [0, n) that are not listed, and
   * there are n minus the number of distinct listed indices in range.
   */
  lemma {:induction false} KeptIndicesMeaning(n: nat, removed: seq<int>)
    ensures forall k :: k in KeptIndices(n, removed) <==> 0 <= k < n && k !in removed
    decreases n
  {
    if n > 0 {
      KeptIndicesMeaning(n - 1, removed);
    }
  }

  lemma {:induction false} KeptIndicesCount(n: nat, removed: seq<int>)
    ensures |KeptIndices(n, removed)| + |set k | 0 <= k < n && k in removed| == n
    decreases n
  {
    if n == 0 {
      assert (set k | 0 <= k < n && k in removed) == {};
    } else {
      KeptIndicesCount(n - 1, removed);
      var before := set k | 0 <= k < n - 1 && k in removed;
      if n - 1 in removed {
        assert (set k | 0 <= k < n && k in removed) == before + {n - 1};
      } else {
        assert (set k | 0 <= k < n && k in removed) == before;
      }
    }
  }

  function Select(frames: seq<Page>, indexes: seq<int>): (r: seq<Page>)
    requires InRange(indexes, |frames|)
    ensures |r| == |indexes| && forall i :: 0 <= i < |r| ==> r[i] == frames[indexes[i]]
  {
    seq(|indexes|, i requires 0 <= i < |indexes| && InRange(indexes, |frames|) => frames[indexes[i]])
  }

  /**
   * RemovePages: the kept pages are cut out one by one, merged by the static
   * Merge, and this container takes the merged MemoryStream and the merged
   * container's Image.
   */
  function RemovePagesStep(b: Backing, st: Fields, files: Files, removed: seq<int>): Step<()>
  {
    var c := PageCountStep(b, st, files);
    match c.result
    case Failure(e) => Step(c.after, files, Failure(e))
    case Success(n) =>
      var f := c.after.image.value;
      var kept := KeptIndices(n, removed);
      match StaticMerge(files, Singles(Select(f, kept)))
      case Failure(e) => Step(c.after, files, Failure(e))
      case Success(m) =>
        match Load(InMemory, m, files).arg
        case Img(g) => Step(c.after.(memoryStream := m.memoryStream, image := Some(g)), files, Success(()))
        case Null => Step(c.after.(memoryStream := m.memoryStream, image := None), files, Success(()))
        case Throws(e) => Step(c.after.(memoryStream := m.memoryStream), files, Failure(e))
  }

  /**
   * RemovePages leaves the listed pages out and keeps the others in order,
   * re-encoded with TiffRegular; removing every page fails in the static Merge.
   */
  lemma RemovePagesMeaning(b: Backing, st: Fields, files: Files, removed: seq<int>)
    requires Load(b, st, files).arg.Img?
    ensures var f := Load(b, st, files).arg.frames;
      var kept := Select(f, KeptIndices(|f|, removed));
      var r := RemovePagesStep(b, st, files, removed);
      && (r.result.Success? <==> |kept| > 0)
      && (|kept| == 0 ==> r.result == Failure(EmptyInput))
      && (|kept| > 0 ==>
            && r.after.image == Some(kept) && r.after.memoryStream.Some?
            && r.after.memoryStream.value.data == MergeTrace(TiffRegularProfile, kept))
      && r.after.fileStream == Load(b, st, files).after.fileStream
  {
    var f := Load(b, st, files).arg.frames;
    var kept := Select(f, KeptIndices(|f|, removed));
    SinglesFrames(kept);
    StaticMergeMeaning(files, Singles(kept));
  }

  // ----- SaveTo ------------------------------------------------------------------

  /**
   * SaveTo(encoding, destinationFile): the file is created (emptied) first,
   * then this.Image is merged into it with `encoding`.
   */
  function SaveToFormatStep(b: Backing, st: Fields, files: Files, encoding: Profile, dest: string): Step<()>
  {
    MergeToFileStep(b, encoding, st, files, dest, [])
  }

  /**
   * SaveTo(destinationFile): a MemoryStream with a buffer is written out as it
   * is, whole buffer included; otherwise the image is re-encoded with the
   * default profile. Reading Capacity of a disposed MemoryStream throws.
   */
  function SaveToStep(b: Backing, defaultFormat: Profile, st: Fields, files: Files, dest: string): Step<()>
    requires st.Valid()
  {
    if st.memoryStream.Some? && !st.memoryStream.value.open then Step(st, files, Failure(ObjectDisposed))
    else if st.memoryStream.Some? && st.memoryStream.value.capacity > 0 then
      Step(st, files[dest := GetBuffer(st.memoryStream.value)], Success(()))
    else SaveToFormatStep(b, st, files, defaultFormat, dest)
  }

  /**
   * The cheap path writes the buffer, which decodes to the frames written
   * into it; a container built from an Image has an empty buffer and always
   * re-encodes its pages with the default profile.
   */
  lemma SaveToMeaning(b: Backing, defaultFormat: Profile, st: Fields, files: Files, dest: string)
    requires st.Valid()
    ensures st.memoryStream.Some? && st.memoryStream.value.open && st.memoryStream.value.capacity > 0 ==>
      var r := SaveToStep(b, defaultFormat, st, files, dest);
      r.files == files[dest := GetBuffer(st.memoryStream.value)] && r.after == st
      && CellFrames(r.files[dest]) == FramesOf(st.memoryStream.value.data)
    ensures st.memoryStream == Some(EmptyStream) && st.image.Some? && |st.image.value| > 0 ==>
      var r := SaveToStep(b, defaultFormat, st, files, dest);
      r.result.Success? && r.files == files[dest := Cells(MergeTrace(defaultFormat, st.image.value))]
  {
    if st.memoryStream.Some? && st.memoryStream.value.open && st.memoryStream.value.capacity > 0 {
      BufferFrames(st.memoryStream.value);
    }
    if st.memoryStream == Some(EmptyStream) && st.image.Some? && |st.image.value| > 0 {
      assert Frames([]) == [];
      MergeIntoFile(b, defaultFormat, st, files, dest, []);
      assert st.image.value + [] == st.image.value;
    }
  }

  /** The buffer of a page from GetPages has no slack: the cheap path writes exactly the encoded page. */
  lemma SaveToSinglePage(p: Page, encoder: seq<EncoderParameter>, defaultFormat: Profile, files: Files, dest: string)
    ensures var st := Fields(None, Some(SinglePage(p, encoder)), None);
      SaveToStep(InMemory, defaultFormat, st, files, dest).files == files[dest := [Written(SaveFrame(p, encoder))]]
  {
    SinglePageBuffer(p, encoder);
  }

  // ----- FileSystemTiff: Save, AppendToFile, Dispose ------------------------------

  function Close(h: Option<Handle>): Option<Handle>
  {
    if h.Some? then Some(h.value.(open := false)) else None
  }

  function CloseStream(s: Option<Stream>): Option<Stream>
  {
    if s.Some? then Some(s.value.(open := false)) else None
  }

  /**
   * FileSystemTiff.Save: the handle is disposed but kept, the buffer is
   * written over the file, the MemoryStream is disposed but kept, and the
   * cached image is dropped.
   */
  function SaveStep(name: string, st: Fields, files: Files): (r: Step<()>)
    requires st.Valid()
    ensures r.after.Valid()
  {
    var st1 := st.(fileStream := Close(st.fileStream), image := None);
    if st.memoryStream.Some? then
      Step(st1.(memoryStream := CloseStream(st.memoryStream)), files[name := GetBuffer(st.memoryStream.value)], Success(()))
    else Step(st1, files, Success(()))
  }

  /**
   * After Save the file holds the buffer's frames, but a FileSystemTiff that
   * had been read before can no longer read its image: the getter returns the
   * disposed handle.
   */
  lemma SaveLeavesDisposedHandle(name: string, st: Fields, files: Files)
    requires st.Valid() && st.fileStream.Some? && st.memoryStream.Some?
    ensures var r := SaveStep(name, st, files);
      && CellFrames(r.files[name]) == FramesOf(st.memoryStream.value.data)
      && Load(OnDisk(name), r.after, r.files).arg == Throws(ObjectDisposed)
  {
    BufferFrames(st.memoryStream.value);
  }

  /** Save as evidently intended: release the handle and the buffer so the container reads its file anew. */
  function SaveReleasingStep(name: string, st: Fields, files: Files): (r: Step<()>)
    requires st.Valid()
    ensures r.after.Valid()
  {
    var files1 := if st.memoryStream.Some? then files[name := GetBuffer(st.memoryStream.value)] else files;
    Step(Fresh, files1, Success(()))
  }

  /** After the corrected Save the container is as if newly opened, and its image is what was saved. */
  lemma SaveReleasingMeaning(name: string, st: Fields, files: Files)
    requires st.Valid() && st.memoryStream.Some? && |FramesOf(st.memoryStream.value.data)| > 0
    ensures var r := SaveReleasingStep(name, st, files);
      && r.after == Fresh
      && Load(OnDisk(name), r.after, r.files).arg == Img(FramesOf(st.memoryStream.value.data))
  {
    BufferFrames(st.memoryStream.value);
  }

  /** What the Image of `new FileSystemTiff(path)` gives. */
  function FileArgs(files: Files, paths: seq<string>): (r: seq<Arg>)
    ensures |r| == |paths| && forall i :: 0 <= i < |r| ==> r[i] == Load(OnDisk(paths[i]), Fresh, files).arg
  {
    seq(|paths|, i requires 0 <= i < |paths| => Load(OnDisk(paths[i]), Fresh, files).arg)
  }

  /**
   * FileSystemTiff.AppendToFile: onto its own file it is Append of the other
   * files followed by Save, and returns this container; onto another file it
   * creates that file and merges into it, and returns a new container on it.
   */
  function AppendToFileStep(name: string, format: Profile, st: Fields, files: Files, outFile: string, paths: seq<string>): Step<Backing>
    requires st.Valid()
  {
    if outFile == name then
      var a := AppendStep(OnDisk(name), format, st, files, FileArgs(files, paths));
      if a.result.Failure? then Step(a.after, a.files, Failure(a.result.error))
      else
        assert a.after.Valid() by {
          AppendValid(OnDisk(name), format, st, files, FileArgs(files, paths));
        }
        var s := SaveStep(name, a.after, a.files);
        Step(s.after, s.files, Success(OnDisk(name)))
    else
      var files1 := files[outFile := []];
      var c := AppendCore(OnDisk(name), format, st, files1, FileArgs(files1, paths), EmptyStream);
      var files2 := files1[outFile := Cells(c.merged.stream.data)];
      if c.merged.status.Success? then Step(c.after, files2, Success(OnDisk(outFile)))
      else Step(c.after, files2, Failure(c.merged.status.error))
  }

  lemma AppendValid(b: Backing, format: Profile, st: Fields, files: Files, args: seq<Arg>)
    ensures AppendStep(b, format, st, files, args).after.Valid()
  {
  }

  /**
   * Appending into another file reads this container's image through the
   * getter (which, for a container not read yet, opens and caches its file),
   * leaves its own file as it was, and the other file holds this image's
   * pages followed by the appended files' pages.
   */
  lemma AppendToFileMeaning(name: string, format: Profile, st: Fields, files: Files, outFile: string, paths: seq<string>)
    requires st.Valid() && outFile != name
    requires Load(OnDisk(name), st, files[outFile := []]).arg.Img?
    requires AllImages(FileArgs(files[outFile := []], paths))
    requires |Load(OnDisk(name), st, files[outFile := []]).arg.frames + Frames(FileArgs(files[outFile := []], paths))| > 0
    ensures var r := AppendToFileStep(name, format, st, files, outFile, paths);
      var l := Load(OnDisk(name), st, files[outFile := []]);
      var pages := l.arg.frames + Frames(FileArgs(files[outFile := []], paths));
      && r.result == Success(OnDisk(outFile))
      && (name in files ==> name in r.files && r.files[name] == files[name])
      && r.files[outFile] == Cells(MergeTrace(format, pages))
      && r.after == l.after
  {
    var files1 := files[outFile := []];
    var l := Load(OnDisk(name), st, files1);
    var trace := MergeTrace(format, l.arg.frames + Frames(FileArgs(files1, paths)));
    AppendToOtherFileStep(name, format, st, files, outFile, paths);
    OtherKey(files, outFile, [], name);
    OtherKey(files1, outFile, Cells(trace), name);
  }

  /** The step of AppendToFile into another file, once the merge is known to succeed. */
  lemma AppendToOtherFileStep(name: string, format: Profile, st: Fields, files: Files, outFile: string, paths: seq<string>)
    requires st.Valid() && outFile != name
    requires Load(OnDisk(name), st, files[outFile := []]).arg.Img?
    requires AllImages(FileArgs(files[outFile := []], paths))
    requires |Load(OnDisk(name), st, files[outFile := []]).arg.frames + Frames(FileArgs(files[outFile := []], paths))| > 0
    ensures var files1, l := files[outFile := []], Load(OnDisk(name), st, files[outFile := []]);
      AppendToFileStep(name, format, st, files, outFile, paths)
      == Step(l.after, files1[outFile := Cells(MergeTrace(format, l.arg.frames + Frames(FileArgs(files1, paths))))],
              Success(OnDisk(outFile)))
  {
    var files1 := files[outFile := []];
    var args := FileArgs(files1, paths);
    var l := Load(OnDisk(name), st, files1);
    FramesCons(l.arg, args);
    MergeOutcomeMeaning(format, EmptyStream, [l.arg] + args);
    var c := AppendCore(OnDisk(name), format, st, files1, args, EmptyStream);
    assert c == Core(l.after, MergeOutcome(format, EmptyStream, [l.arg] + args));
    var trace := MergeTrace(format, l.arg.frames + Frames(args));
    assert c.merged.stream.data == trace by {
      assert [] + trace == trace;
    }
  }

  /**
   * A FileSystemTiff's getter reads the file, not the MemoryStream, so Append
   * is the same step as Append on the fields after a first read of the image.
   */
  lemma AppendOnDiskAfterLoad(name: string, format: Profile, st: Fields, files: Files, args: seq<Arg>)
    requires Load(OnDisk(name), st, files).arg.Img?
    ensures AppendStep(OnDisk(name), format, st, files, args)
         == AppendStep(OnDisk(name), format, Load(OnDisk(name), st, files).after, files, args)
  {
    var l := Load(OnDisk(name), st, files);
    var e := Some(EmptyStream);
    assert Load(OnDisk(name), st.(memoryStream := e), files) == Loaded(l.arg, l.after.(memoryStream := e));
    assert Load(OnDisk(name), l.after.(memoryStream := e), files) == Loaded(l.arg, l.after.(memoryStream := e));
  }

  /** A FileSystemTiff that reads its image for the first time keeps the handle it opened. */
  lemma LoadOpensHandle(name: string, st: Fields, files: Files)
    requires st.image.None? && Load(OnDisk(name), st, files).arg.Img?
    ensures Load(OnDisk(name), st, files).after.fileStream.Some?
  {
  }

  /**
   * Appending onto the container's own file: Append of the other files'
   * images, then Save, which returns this container. The file then holds this
   * image's pages followed by the other files' pages and no other file
   * changes. The next read fails on the disposed handle; the getter always
   * leaves a handle open once it has read the image, so the last clause only
   * covers fields with an image cached and no handle, which no FileSystemTiff
   * reaches.
   */
  lemma AppendToOwnFileMeaning(name: string, format: Profile, st: Fields, files: Files, paths: seq<string>)
    requires st.Valid() && Load(OnDisk(name), st, files).arg.Img? && AllImages(FileArgs(files, paths))
    requires |Load(OnDisk(name), st, files).arg.frames + Frames(FileArgs(files, paths))| > 0
    ensures var r := AppendToFileStep(name, format, st, files, name, paths);
      var l := Load(OnDisk(name), st, files);
      var pages := l.arg.frames + Frames(FileArgs(files, paths));
      && r.result == Success(OnDisk(name))
      && name in r.files && Decode(r.files[name]) == Success(pages)
      && (forall j :: j != name ==> (j in r.files <==> j in files))
      && (forall j :: j != name && j in files ==> r.files[j] == files[j])
      && (st.image.None? ==> Load(OnDisk(name), r.after, r.files).arg == Throws(ObjectDisposed))
      && (l.after.fileStream.Some? ==> Load(OnDisk(name), r.after, r.files).arg == Throws(ObjectDisposed))
      && (l.after.fileStream.None? ==> Load(OnDisk(name), r.after, r.files).arg == Img(pages))
  {
    var args := FileArgs(files, paths);
    var l := Load(OnDisk(name), st, files);
    var pages := l.arg.frames + Frames(args);
    AppendOnDiskAfterLoad(name, format, st, files, args);
    AppendMeaning(OnDisk(name), format, l.after, files, args);
    var a := AppendStep(OnDisk(name), format, st, files, args);
    var ms := a.after.memoryStream.value;
    BufferFrames(ms);
    MergeRoundTrip(format, pages);
    var sv := SaveStep(name, a.after, a.files);
    assert sv.files == files[name := GetBuffer(ms)];
    assert AppendToFileStep(name, format, st, files, name, paths) == Step(sv.after, sv.files, Success(OnDisk(name)));
    if st.image.None? {
      LoadOpensHandle(name, st, files);
    }
    forall j | j != name
      ensures (j in sv.files <==> j in files) && (j in files ==> sv.files[j] == files[j])
    {
      OtherKey(files, name, GetBuffer(ms), j);
    }
  }

  /** Updating a map at one key leaves every other key as it was. */
  lemma OtherKey<K, V>(m: map<K, V>, k: K, v: V, j: K)
    requires j != k
    ensures j in m[k := v] <==> j in m
    ensures j in m ==> m[k := v][j] == m[j]
  {
  }

  /** Dispose: the MemoryStream and the file handle are disposed; the fields keep them. */
  function DisposeStep(st: Fields): (r: Fields)
    ensures r.Valid() <==> st.Valid()
  {
    st.(memoryStream := CloseStream(st.memoryStream), fileStream := Close(st.fileStream))
  }

  /**
   * Disposing twice is disposing once; after Dispose nothing that needs the
   * MemoryStream or an unread image works any more.
   */
  lemma DisposeMeaning(b: Backing, defaultFormat: Profile, st: Fields, files: Files, dest: string)
    requires st.Valid()
    ensures DisposeStep(DisposeStep(st)) == DisposeStep(st)
    ensures st.memoryStream.Some? ==> SaveToStep(b, defaultFormat, DisposeStep(st), files, dest).result == Failure(ObjectDisposed)
    ensures st.image.None? && st.memoryStream.Some? && b.InMemory? ==> Load(b, DisposeStep(st), files).arg == Throws(ObjectDisposed)
    ensures st.image.None? && st.fileStream.Some? && b.OnDisk? ==> Load(b, DisposeStep(st), files).arg == Throws(ObjectDisposed)
  {
  }
  /**
   * Dispose disposes only a handle that was opened: a FileSystemTiff never
   * read still opens its file afresh, and reads it as before Dispose.
   */
  lemma DisposeUnreadFileReads(name: string, st: Fields, files: Files)
    requires st.image.None? && st.fileStream.None?
    ensures Load(OnDisk(name), DisposeStep(st), files).arg == Load(OnDisk(name), st, files).arg
  {
  }

}
