/**
 * AbstractTiff with its two concrete kinds as one class: `backing` says
 * whether it is an InMemoryTiff or a FileSystemTiff (over which file). Each
 * method performs the source's steps on the fields and on the Disk, and its
 * postcondition ties the new fields, files and result to the corresponding
 * Step function of module Containers, about which the properties are proved.
 */
module Tiffs {
  import opened Wrappers
  import opened EncodingFormats
  import opened Codec
  import opened Containers
  import Naming

  /** The file system, as far as the containers see it. */
  class Disk {
    var files: Files

    constructor (files: Files)
      ensures this.files == files
    {
      this.files := files;
    }
  }

  /**
   * The static core Merge: the first page is saved with FirstPage, every
   * further page is added with XPage, then the page-less SaveAdd with
   * LastPage. Pages are enumerated from the arguments as they are reached.
   */
  method Merge(format: Profile, dataBuffer: Stream, args: seq<Arg>) returns (written: Stream, status: Result<()>)
    requires dataBuffer.open
    ensures Merged(written, status) == MergeOutcome(format, dataBuffer, args)
  {
    var e := Enumerate(args);
    var pages := e.pages;
    if |pages| == 0 {
      return dataBuffer, Failure(e.stop.GetOr(EmptyInput));
    }
    ghost var calls := [SaveFrame(pages[0], format.firstPage)] + AddFrames(pages[1..], format.xPage);
    written := Write(dataBuffer, [SaveFrame(pages[0], format.firstPage)]);
    assert calls[..1] == [SaveFrame(pages[0], format.firstPage)];
    assert written == WriteCalls(dataBuffer, calls[..1]) by {
      assert calls[..1][..0] == [];
    }
    var i := 1;
    while i < |pages|
      invariant 1 <= i <= |pages|
      invariant written == WriteCalls(dataBuffer, calls[..i])
    {
      assert calls[..i + 1][..i] == calls[..i];
      assert calls[i] == SaveAddFrame(pages[i], format.xPage);
      written := Write(written, [SaveAddFrame(pages[i], format.xPage)]);
      i := i + 1;
    }
    assert calls[..i] == calls;
    if e.stop.Some? {
      // the enumeration reached an argument whose image cannot be had
      return written, Failure(e.stop.value);
    }
    written := Write(written, [SaveAddFlush(format.lastPage)]);
    status := Success(());
  }

  ghost predicate ValidBuffers(streams: seq<Stream>)
  {
    forall k :: 0 <= k < |streams| ==> streams[k].Valid()
  }

  /** The files after image.SaveTo(paths[k]) for k = 0, 1, ... in turn: each gets its stream's buffer. */
  function SaveEach(files: Files, paths: seq<string>, images: seq<Stream>): Files
    requires |paths| == |images| && ValidBuffers(images)
  {
    if |paths| == 0 then files
    else SaveEach(files, paths[..|paths| - 1], images[..|paths| - 1])[paths[|paths| - 1] := GetBuffer(images[|paths| - 1])]
  }

  /** One more image.SaveTo(page) for the page at index k. */
  lemma SaveEachStep(files: Files, paths: seq<string>, images: seq<Stream>, k: nat, p: string)
    requires |paths| == k < |images| && ValidBuffers(images)
    ensures ValidBuffers(images[..k]) && ValidBuffers(images[..k + 1])
    ensures SaveEach(files, paths + [p], images[..k + 1]) == SaveEach(files, paths, images[..k])[p := GetBuffer(images[k])]
  {
    assert (paths + [p])[..k] == paths;
    assert images[..k + 1][..k] == images[..k];
  }

  /** With distinct paths every path ends up holding its own page's buffer, and no other file changes. */
  lemma {:induction false} SaveEachMeaning(files: Files, paths: seq<string>, images: seq<Stream>)
    requires |paths| == |images| && ValidBuffers(images)
    requires forall i, j :: 0 <= i < j < |paths| ==> paths[i] != paths[j]
    ensures forall k :: 0 <= k < |paths| ==>
      paths[k] in SaveEach(files, paths, images) && SaveEach(files, paths, images)[paths[k]] == GetBuffer(images[k])
    ensures forall p :: p !in paths && p in files ==> p in SaveEach(files, paths, images) && SaveEach(files, paths, images)[p] == files[p]
    decreases |paths|
  {
    if |paths| > 0 {
      var n := |paths| - 1;
      var front, earlier := paths[..n], images[..n];
      assert ValidBuffers(earlier);
      SaveEachMeaning(files, front, earlier);
      var prev := SaveEach(files, front, earlier);
      var dest, buffer := paths[n], GetBuffer(images[n]);
      assert SaveEach(files, paths, images) == prev[dest := buffer];
      forall k | 0 <= k < n
        ensures paths[k] in prev[dest := buffer] && prev[dest := buffer][paths[k]] == GetBuffer(images[k])
      {
        assert front[k] == paths[k] && earlier[k] == images[k];
        OtherKey(prev, dest, buffer, paths[k]);
      }
      forall q | q !in paths && q in files
        ensures q in prev[dest := buffer] && prev[dest := buffer][q] == files[q]
      {
        forall j | 0 <= j < n
          ensures front[j] != q
        {
          assert front[j] == paths[j];
        }
        assert q != dest;
        OtherKey(prev, dest, buffer, q);
      }
    }
  }

  class Tiff {
    const backing: Backing
    var DefaultFormat: Profile
    var image: Option<seq<Page>>
    var memoryStream: Option<Stream>
    var fileStream: Option<Handle>

    function State(): Fields
      reads this
    {
      Fields(image, memoryStream, fileStream)
    }

    ghost predicate Valid()
      reads this
    {
      State().Valid()
    }

    /** new InMemoryTiff(image). */
    constructor FromImage(image: Option<seq<Page>>)
      ensures backing == InMemory && DefaultFormat == TiffRegularProfile
      ensures State() == Containers.FromImage(image) && Valid()
    {
      backing := InMemory;
      DefaultFormat := TiffRegularProfile;
      memoryStream := Some(EmptyStream);
      fileStream := None;
      this.image := image;
    }

    /**
     * new InMemoryTiff(stream): the base constructor's stream is replaced by
     * the given one. A MemoryStream never holds more than its capacity.
     */
    constructor FromStream(stream: Option<Stream>)
      requires stream.Some? ==> stream.value.Valid()
      ensures backing == InMemory && DefaultFormat == TiffRegularProfile
      ensures State() == Fields(None, stream, None) && Valid()
    {
      backing := InMemory;
      DefaultFormat := TiffRegularProfile;
      image := None;
      fileStream := None;
      memoryStream := Some(EmptyStream);
      memoryStream := stream;
    }

    /** new FileSystemTiff(file). */
    constructor FromFile(file: string)
      ensures backing == OnDisk(file) && DefaultFormat == TiffRegularProfile
      ensures State() == Fresh && Valid()
    {
      backing := OnDisk(file);
      DefaultFormat := TiffRegularProfile;
      image := None;
      memoryStream := Some(EmptyStream);
      fileStream := None;
    }

    /** The Image getter of InMemoryTiff and of FileSystemTiff. */
    method GetImage(disk: Disk) returns (a: Arg)
      modifies this`image, this`fileStream
      ensures a == Load(backing, old(State()), disk.files).arg
      ensures State() == Load(backing, old(State()), disk.files).after
    {
      if image.Some? {
        return Img(image.value);
      }
      match backing
      case InMemory =>
        if memoryStream.None? {
          return Null;
        }
        if !memoryStream.value.open {
          return Throws(ObjectDisposed);
        }
        var decoded := Decode(Cells(memoryStream.value.data));
        if decoded.Failure? {
          return Throws(decoded.error);
        }
        image := Some(decoded.value);
        a := Img(decoded.value);
      case OnDisk(name) =>
        if fileStream.None? {
          if name !in disk.files {
            return Throws(FileNotFound);
          }
          fileStream := Some(Handle(disk.files[name], true));
        }
        var h := fileStream.value;
        if !h.open {
          return Throws(ObjectDisposed);
        }
        var decoded := Decode(h.content);
        if decoded.Failure? {
          return Throws(decoded.error);
        }
        image := Some(decoded.value);
        a := Img(decoded.value);
    }

    /** PageCount: the frame count of this.Image. */
    method PageCount(disk: Disk) returns (r: Result<nat>)
      modifies this`image, this`fileStream
      ensures r == PageCountStep(backing, old(State()), disk.files).result
      ensures State() == PageCountStep(backing, old(State()), disk.files).after
    {
      var a := GetImage(disk);
      var frames := ImageFrames(a);
      if frames.Failure? {
        return Failure(frames.error);
      }
      r := Success(|frames.value|);
    }

    /** GetPages(pageIndexes, encoder): one trimmed single-page buffer per index, in order. */
    method GetPages(disk: Disk, pageIndexes: seq<int>, encoder: seq<EncoderParameter>) returns (r: Result<seq<Stream>>)
      modifies this`image, this`fileStream
      ensures r == GetPagesStep(backing, old(State()), disk.files, pageIndexes, encoder).result
      ensures State() == GetPagesStep(backing, old(State()), disk.files, pageIndexes, encoder).after
    {
      var a := GetImage(disk);
      var frames := ImageFrames(a);
      if frames.Failure? {
        return Failure(frames.error);
      }
      var f := frames.value;
      var pages: seq<Stream> := [];
      var k := 0;
      while k < |pageIndexes|
        invariant 0 <= k <= |pageIndexes|
        invariant |pages| == k && InRange(pageIndexes[..k], |f|)
        invariant forall i :: 0 <= i < k ==> pages[i] == SinglePage(f[pageIndexes[i]], encoder)
      {
        var page := pageIndexes[k];
        if !(0 <= page < |f|) {
          // SelectActiveFrame rejects the index
          assert !InRange(pageIndexes, |f|) by { assert pageIndexes[k] == page; }
          return Failure(IndexError);
        }
        // a new MemoryStream, Save of the selected frame, then Capacity := Length
        var memoryStream := Write(EmptyStream, [SaveFrame(f[page], encoder)]);
        memoryStream := memoryStream.(capacity := |memoryStream.data|);
        pages := pages + [memoryStream];
        k := k + 1;
      }
      assert pageIndexes[..k] == pageIndexes;
      PagesFromEach(f, pageIndexes, encoder, pages);
      r := Success(pages);
    }

    /** GetPages(params int[]): with the default profile's XPage list. */
    method GetPagesDefault(disk: Disk, pageIndexes: seq<int>) returns (r: Result<seq<Stream>>)
      modifies this`image, this`fileStream
      ensures r == GetPagesStep(backing, old(State()), disk.files, pageIndexes, DefaultFormat.xPage).result
      ensures State() == GetPagesStep(backing, old(State()), disk.files, pageIndexes, DefaultFormat.xPage).after
    {
      r := GetPages(disk, pageIndexes, DefaultFormat.xPage);
    }

    /** Split(encoder): GetPages over 0..PageCount-1. */
    method SplitWith(disk: Disk, encoder: seq<EncoderParameter>) returns (r: Result<seq<Stream>>)
      modifies this`image, this`fileStream
      ensures r == SplitStep(backing, old(State()), disk.files, encoder).result
      ensures State() == SplitStep(backing, old(State()), disk.files, encoder).after
    {
      var n := PageCount(disk);
      if n.Failure? {
        return Failure(n.error);
      }
      r := GetPages(disk, Range(n.value), encoder);
    }

    /** Split(): with the default profile's XPage list. */
    method Split(disk: Disk) returns (r: Result<seq<Stream>>)
      modifies this`image, this`fileStream
      ensures r == SplitStep(backing, old(State()), disk.files, DefaultFormat.xPage).result
      ensures State() == SplitStep(backing, old(State()), disk.files, DefaultFormat.xPage).after
    {
      r := SplitWith(disk, DefaultFormat.xPage);
    }

    /**
     * SplitToFile(outDirectory, outFileName, namingOptions): each page is
     * written to outDirectory under the next name of the options' counter.
     */
    method SplitToFile(disk: Disk, outDirectory: string, outFileName: string, namingOptions: Naming.NewFilesNamingOptions,
                       custom: Naming.CustomFormat)
      returns (r: Result<seq<string>>)
      modifies this`image, this`fileStream, disk, namingOptions`CurrentCounterNumber
      ensures var sp := SplitStep(backing, old(State()), old(disk.files), old(DefaultFormat).xPage);
        && State() == sp.after
        && (sp.result.Failure? ==>
              r == Failure(sp.result.error) && disk.files == old(disk.files)
              && namingOptions.CurrentCounterNumber == old(namingOptions.CurrentCounterNumber))
        && (sp.result.Success? ==>
              && r.Success? && ValidBuffers(sp.result.value)
              && r.value == SplitPaths(outDirectory, outFileName, namingOptions.CounterPrefix, namingOptions.CounterSuffix,
                   namingOptions.NumberMinimunLength as int, custom, namingOptions.IncrementFactor, old(namingOptions.CurrentCounterNumber), |sp.result.value|)
              && disk.files == SaveEach(old(disk.files), r.value, sp.result.value)
              && namingOptions.CurrentCounterNumber
                 == Counter(old(namingOptions.CurrentCounterNumber), namingOptions.IncrementFactor, |r.value|))
    {
      var split := Split(disk);
      if split.Failure? {
        return Failure(split.error);
      }
      SplitBuffersValid(backing, old(State()), old(disk.files), DefaultFormat.xPage);
      var paths := WritePages(disk, split.value, outDirectory, outFileName, namingOptions, custom);
      r := Success(paths);
    }

    /** Append(images): replaces the MemoryStream, reads this.Image, merges into the new stream. */
    method Append(disk: Disk, args: seq<Arg>) returns (r: Result<()>)
      modifies this`image, this`memoryStream, this`fileStream
      ensures var s := AppendStep(backing, DefaultFormat, old(State()), disk.files, args);
        State() == s.after && r == s.result
    {
      memoryStream := Some(EmptyStream);
      var a := GetImage(disk);
      var written, status := Merge(DefaultFormat, EmptyStream, [a] + args);
      memoryStream := Some(written);
      if status.Failure? {
        return status;
      }
      // the image is disposed and dropped, to be decoded again from the new stream
      image := None;
      r := Success(());
    }

    /** Merge(params Image[]): the same as Append. */
    method MergeWith(disk: Disk, args: seq<Arg>) returns (r: Result<()>)
      modifies this`image, this`memoryStream, this`fileStream
      ensures var s := AppendStep(backing, DefaultFormat, old(State()), disk.files, args);
        State() == s.after && r == s.result
    {
      r := Append(disk, args);
    }

    /** MergeToFile(outFile, images): creates outFile and merges this.Image and the images into it. */
    method MergeToFile(disk: Disk, outFile: string, args: seq<Arg>) returns (r: Result<Tiff>)
      modifies this`image, this`fileStream, disk
      ensures var s := MergeToFileStep(backing, DefaultFormat, old(State()), old(disk.files), outFile, args);
        && State() == s.after && disk.files == s.files
        && (r.Success? <==> s.result.Success?)
        && (r.Failure? ==> r.error == s.result.error)
        && (r.Success? ==> fresh(r.value) && r.value.backing == OnDisk(outFile) && r.value.State() == Fresh)
    {
      disk.files := disk.files[outFile := []];
      var a := GetImage(disk);
      var written, status := Merge(DefaultFormat, EmptyStream, [a] + args);
      disk.files := disk.files[outFile := Cells(written.data)];
      if status.Failure? {
        return Failure(status.error);
      }
      var t := new Tiff.FromFile(outFile);
      r := Success(t);
    }

    /**
     * RemovePages(pageIndexes): the kept pages, merged by the static Merge,
     * replace this container's MemoryStream and Image.
     */
    method RemovePages(disk: Disk, pageIndexes: seq<int>) returns (r: Result<()>)
      modifies this`image, this`memoryStream, this`fileStream
      ensures var s := RemovePagesStep(backing, old(State()), disk.files, pageIndexes);
        State() == s.after && r == s.result
    {
      var count := PageCount(disk);
      if count.Failure? {
        return Failure(count.error);
      }
      var usefulPages := KeptIndices(count.value, pageIndexes);
      // the buffers GetPages yields for the kept indices each decode to their one page
      var pages := Select(image.value, usefulPages);
      var newImg := MergeImages(disk, DefaultFormat, Singles(pages));
      if newImg.Failure? {
        return Failure(newImg.error);
      }
      var m := newImg.value;
      memoryStream := m.memoryStream;
      var a := m.GetImage(disk);
      match a
      case Img(g) =>
        image := Some(g);
        r := Success(());
      case Null =>
        image := None;
        r := Success(());
      case Throws(e) =>
        r := Failure(e);
    }

    /** SaveTo(encoding, destinationFile): creates the file, then merges this.Image into it. */
    method SaveToFormat(disk: Disk, encoding: Profile, destinationFile: string) returns (r: Result<Tiff>)
      modifies this`image, this`fileStream, disk
      ensures var s := SaveToFormatStep(backing, old(State()), old(disk.files), encoding, destinationFile);
        && State() == s.after && disk.files == s.files
        && (r.Success? <==> s.result.Success?)
        && (r.Failure? ==> r.error == s.result.error)
        && (r.Success? ==> fresh(r.value) && r.value.backing == OnDisk(destinationFile) && r.value.State() == Fresh)
    {
      disk.files := disk.files[destinationFile := []];
      var a := GetImage(disk);
      var written, status := Merge(encoding, EmptyStream, [a]);
      assert [a] + [] == [a];
      disk.files := disk.files[destinationFile := Cells(written.data)];
      if status.Failure? {
        return Failure(status.error);
      }
      var t := new Tiff.FromFile(destinationFile);
      r := Success(t);
    }

    /** SaveTo(destinationFile): the buffer as it is when there is one, else a re-encode with the default profile. */
    method SaveTo(disk: Disk, destinationFile: string) returns (r: Result<Tiff>)
      requires Valid()
      modifies this`image, this`fileStream, disk
      ensures var s := SaveToStep(backing, DefaultFormat, old(State()), old(disk.files), destinationFile);
        && State() == s.after && disk.files == s.files
        && (r.Success? <==> s.result.Success?)
        && (r.Failure? ==> r.error == s.result.error)
        && (r.Success? ==> fresh(r.value) && r.value.backing == OnDisk(destinationFile) && r.value.State() == Fresh)
    {
      if memoryStream.Some? && !memoryStream.value.open {
        // the Capacity getter of a disposed MemoryStream throws
        return Failure(ObjectDisposed);
      }
      if memoryStream.Some? && memoryStream.value.capacity > 0 {
        disk.files := disk.files[destinationFile := GetBuffer(memoryStream.value)];
        var t := new Tiff.FromFile(destinationFile);
        return Success(t);
      }
      r := SaveToFormat(disk, DefaultFormat, destinationFile);
    }

    /** Dispose: the MemoryStream and, for a file, the read handle are disposed. */
    method Dispose()
      modifies this`memoryStream, this`fileStream
      ensures State() == DisposeStep(old(State()))
    {
      if fileStream.Some? {
        fileStream := Some(fileStream.value.(open := false));
      }
      if memoryStream.Some? {
        memoryStream := Some(memoryStream.value.(open := false));
      }
    }

    /** FileSystemTiff.Save: writes the buffer over its own file after disposing the handle. */
    method Save(disk: Disk)
      requires backing.OnDisk? && Valid()
      modifies this`image, this`memoryStream, this`fileStream, disk
      ensures var s := SaveStep(backing.fullName, old(State()), old(disk.files));
        State() == s.after && disk.files == s.files
    {
      if fileStream.Some? {
        fileStream := Some(fileStream.value.(open := false));
      }
      if memoryStream.Some? {
        disk.files := disk.files[backing.fullName := GetBuffer(memoryStream.value)];
        memoryStream := Some(memoryStream.value.(open := false));
      }
      image := None;
    }

    /** FileSystemTiff.RemovePages: the base RemovePages, then Save. */
    method RemovePagesAndSave(disk: Disk, pageIndexes: seq<int>) returns (r: Result<()>)
      requires backing.OnDisk? && Valid()
      modifies this`image, this`memoryStream, this`fileStream, disk
      ensures var s := RemovePagesStep(backing, old(State()), old(disk.files), pageIndexes);
        s.result.Failure? ==> r == s.result && State() == s.after && disk.files == old(disk.files)
      ensures var s := RemovePagesStep(backing, old(State()), old(disk.files), pageIndexes);
        s.result.Success? ==>
          && s.after.Valid() && r == Success(())
          && State() == SaveStep(backing.fullName, s.after, s.files).after
          && disk.files == SaveStep(backing.fullName, s.after, s.files).files
    {
      RemovePagesValid(backing, State(), disk.files, pageIndexes);
      r := RemovePages(disk, pageIndexes);
      if r.Failure? {
        return;
      }
      Save(disk);
    }

    /** The images of new FileSystemTiff(path) for each path, as Merge reads them. */
    static method ImagesOf(disk: Disk, paths: seq<string>) returns (args: seq<Arg>)
      ensures args == FileArgs(disk.files, paths)
    {
      args := [];
      var i := 0;
      while i < |paths|
        invariant 0 <= i <= |paths|
        invariant args == FileArgs(disk.files, paths[..i])
      {
        var t := new Tiff.FromFile(paths[i]);
        var a := t.GetImage(disk);
        assert FileArgs(disk.files, paths[..i + 1]) == FileArgs(disk.files, paths[..i]) + [a];
        args := args + [a];
        i := i + 1;
      }
      assert paths[..i] == paths;
    }

    /**
     * FileSystemTiff.AppendToFile(outFile, images): in place it appends and
     * saves, returning this container; otherwise it merges into outFile and
     * returns a container on that file.
     */
    method AppendToFile(disk: Disk, outFile: string, paths: seq<string>) returns (r: Result<Tiff>)
      requires backing.OnDisk? && Valid()
      modifies this`image, this`memoryStream, this`fileStream, disk
      ensures var s := AppendToFileStep(backing.fullName, DefaultFormat, old(State()), old(disk.files), outFile, paths);
        && State() == s.after && disk.files == s.files
        && (r.Success? <==> s.result.Success?)
        && (r.Failure? ==> r.error == s.result.error)
        && (r.Success? && outFile == backing.fullName ==> r.value == this)
        && (r.Success? && outFile != backing.fullName ==> fresh(r.value) && r.value.backing == OnDisk(outFile) && r.value.State() == Fresh)
    {
      if outFile == backing.fullName {
        var images := ImagesOf(disk, paths);
        var status := Append(disk, images);
        if status.Failure? {
          return Failure(status.error);
        }
        AppendValid(backing, DefaultFormat, old(State()), disk.files, images);
        Save(disk);
        return Success(this);
      }
      disk.files := disk.files[outFile := []];
      var images := ImagesOf(disk, paths);
      var a := GetImage(disk);
      var written, status := Merge(DefaultFormat, EmptyStream, [a] + images);
      // the using block disposes the stream, which leaves the written bytes in outFile
      disk.files := disk.files[outFile := Cells(written.data)];
      if status.Failure? {
        return Failure(status.error);
      }
      var t := new Tiff.FromFile(outFile);
      r := Success(t);
    }

    /** FileSystemTiff.SplitToFile(targetDirectory): counter 1, width 3, "_PAGE", "" and the file's own name. */
    method SplitToFileDefault(disk: Disk, targetDirectory: string, custom: Naming.CustomFormat) returns (r: Result<seq<string>>, namingOptions: Naming.NewFilesNamingOptions)
      requires backing.OnDisk?
      modifies this`image, this`fileStream, disk
      ensures fresh(namingOptions)
      ensures namingOptions.CounterPrefix == Some("_PAGE") && namingOptions.CounterSuffix == Some("")
      ensures namingOptions.NumberMinimunLength == 3 && namingOptions.IncrementFactor == 1
      ensures var sp := SplitStep(backing, old(State()), old(disk.files), old(DefaultFormat).xPage);
        && State() == sp.after
        && (sp.result.Failure? ==> r == Failure(sp.result.error) && disk.files == old(disk.files))
        && (sp.result.Success? ==>
              && r.Success? && ValidBuffers(sp.result.value)
              && r.value == SplitPaths(targetDirectory, Naming.GetFileName(backing.fullName), Some("_PAGE"), Some(""), 3, custom, 1, 1, |sp.result.value|)
              && disk.files == SaveEach(old(disk.files), r.value, sp.result.value))
    {
      namingOptions := Naming.DefaultSplitNamingOptions();
      r := SplitToFile(disk, targetDirectory, Naming.GetFileName(backing.fullName), namingOptions, custom);
    }
  }

  /** The options' counter after k calls of NextName, one call at a time. */
  function Counter(c0: Naming.int32, f: Naming.int32, k: nat): Naming.int32
  {
    if k == 0 then c0 else Naming.Wrap32(Counter(c0, f, k - 1) as int + f as int)
  }

  /** k calls of NextName advance the counter by k increments, modulo 2^32. */
  lemma {:induction false} CounterClosedForm(c0: Naming.int32, f: Naming.int32, k: nat)
    ensures Counter(c0, f, k) == Naming.CounterAfter(c0, f, k)
  {
    if k > 0 {
      CounterClosedForm(c0, f, k - 1);
      Naming.CounterStep(c0, f, k - 1);
    } else {
      assert c0 as int + 0 * f as int == c0 as int;
    }
  }

  /**
   * The paths SplitToFile writes for n pages: page k goes to outDirectory
   * under the options' name numbered with the counter after k increments from c0.
   */
  function SplitPaths(outDirectory: string, outFileName: string, prefix: Option<string>, suffix: Option<string>,
                      width: int, custom: Naming.CustomFormat, f: Naming.int32, c0: Naming.int32, n: nat): (r: seq<string>)
    ensures |r| == n
  {
    if n == 0 then []
    else SplitPaths(outDirectory, outFileName, prefix, suffix, width, custom, f, c0, n - 1)
           + [Naming.Combine(outDirectory, Naming.PageName(prefix, suffix, width, custom, outFileName, Counter(c0, f, n - 1) as int))]
  }

  /** The path of the next page: the options' next name under outDirectory. */
  method NextPath(outDirectory: string, outFileName: string, namingOptions: Naming.NewFilesNamingOptions,
                  custom: Naming.CustomFormat)
    returns (page: string)
    modifies namingOptions`CurrentCounterNumber
    ensures page == Naming.Combine(outDirectory, Naming.PageName(namingOptions.CounterPrefix, namingOptions.CounterSuffix,
      namingOptions.NumberMinimunLength as int, custom, outFileName, old(namingOptions.CurrentCounterNumber) as int))
    ensures namingOptions.CurrentCounterNumber
      == Naming.Wrap32(old(namingOptions.CurrentCounterNumber) as int + namingOptions.IncrementFactor as int)
  {
    var name := namingOptions.NextName(outFileName, custom);
    page := Naming.Combine(outDirectory, name);
  }

  /**
   * The loop of SplitToFile: image.SaveTo(page) for each buffer under the
   * next name. The files are collected and handed to the disk at the end:
   * nothing reads them in between.
   */
  method WritePages(disk: Disk, images: seq<Stream>, outDirectory: string, outFileName: string,
                    namingOptions: Naming.NewFilesNamingOptions, custom: Naming.CustomFormat)
    returns (imgPaths: seq<string>)
    requires ValidBuffers(images)
    modifies disk, namingOptions`CurrentCounterNumber
    ensures imgPaths == SplitPaths(outDirectory, outFileName, namingOptions.CounterPrefix, namingOptions.CounterSuffix,
      namingOptions.NumberMinimunLength as int, custom, namingOptions.IncrementFactor, old(namingOptions.CurrentCounterNumber), |images|)
    ensures disk.files == SaveEach(old(disk.files), imgPaths, images)
    ensures namingOptions.CurrentCounterNumber
      == Counter(old(namingOptions.CurrentCounterNumber), namingOptions.IncrementFactor, |images|)
  {
    ghost var c0 := namingOptions.CurrentCounterNumber;
    var files := disk.files;
    imgPaths := [];
    var k := 0;
    while k < |images|
      invariant 0 <= k <= |images|
      invariant imgPaths == SplitPaths(outDirectory, outFileName, namingOptions.CounterPrefix, namingOptions.CounterSuffix,
        namingOptions.NumberMinimunLength as int, custom, namingOptions.IncrementFactor, c0, k)
      invariant namingOptions.CurrentCounterNumber == Counter(c0, namingOptions.IncrementFactor, k)
      invariant disk.files == old(disk.files)
      invariant files == SaveEach(old(disk.files), imgPaths, images[..k])
    {
      var page := NextPath(outDirectory, outFileName, namingOptions, custom);
      // the buffer is trimmed and not empty, so image.SaveTo(page) writes it as it is
      SaveEachStep(old(disk.files), imgPaths, images, k, page);
      files := files[page := GetBuffer(images[k])];
      imgPaths := imgPaths + [page];
      k := k + 1;
    }
    assert images[..k] == images;
    disk.files := files;
  }

  /** The buffers GetPages collects one index at a time are PagesFrom's. */
  lemma PagesFromEach(f: seq<Page>, indexes: seq<int>, encoder: seq<EncoderParameter>, pages: seq<Stream>)
    requires InRange(indexes, |f|) && |pages| == |indexes|
    requires forall i :: 0 <= i < |indexes| ==> pages[i] == SinglePage(f[indexes[i]], encoder)
    ensures PagesFrom(f, indexes, encoder) == Success(pages)
  {
    var s := seq(|indexes|, i requires 0 <= i < |indexes| && InRange(indexes, |f|) => SinglePage(f[indexes[i]], encoder));
    assert PagesFrom(f, indexes, encoder) == Success(s);
    assert s == pages;
  }

  /** The buffers Split yields are well formed. */
  lemma SplitBuffersValid(b: Backing, st: Fields, files: Files, encoder: seq<EncoderParameter>)
    ensures var r := SplitStep(b, st, files, encoder).result;
      r.Success? ==> ValidBuffers(r.value)
  {
    var c := PageCountStep(b, st, files);
    if c.result.Success? {
      var l := Load(b, c.after, files);
      if l.arg.Img? {
        GetPagesMeaning(l.arg.frames, Range(c.result.value), encoder);
      }
    }
  }

  lemma RemovePagesValid(b: Backing, st: Fields, files: Files, removed: seq<int>)
    requires st.Valid()
    ensures RemovePagesStep(b, st, files, removed).after.Valid()
  {
    var c := PageCountStep(b, st, files);
    if c.result.Success? {
      var f := c.after.image.value;
      var kept := KeptIndices(c.result.value, removed);
      var m := StaticMerge(files, Singles(Select(f, kept)));
      if m.Success? {
        StaticMergeValid(files, Singles(Select(f, kept)));
      }
    }
  }

  lemma StaticMergeValid(files: Files, args: seq<Arg>)
    ensures StaticMerge(files, args).Success? ==> StaticMerge(files, args).value.Valid()
  {
    if |args| > 0 && !args[0].Throws? {
      AppendValid(InMemory, TiffRegularProfile, FromImage(if args[0].Img? then Some(args[0].frames) else None), files, args[1..]);
    }
  }

  /**
   * The static Merge(format, images): builds an InMemoryTiff on the first
   * image and appends the rest; `format` is not used.
   */
  method MergeImages(disk: Disk, format: Profile, args: seq<Arg>) returns (r: Result<Tiff>)
    ensures (r.Success? <==> StaticMerge(disk.files, args).Success?)
    ensures r.Failure? ==> r.error == StaticMerge(disk.files, args).error
    ensures r.Success? ==>
      && fresh(r.value) && r.value.backing == InMemory && r.value.DefaultFormat == TiffRegularProfile
      && r.value.State() == StaticMerge(disk.files, args).value
  {
    if |args| == 0 {
      // images.First()
      return Failure(EmptyInput);
    }
    if args[0].Throws? {
      return Failure(args[0].error);
    }
    var tiff := new Tiff.FromImage(if args[0].Img? then Some(args[0].frames) else None);
    var status := tiff.Append(disk, args[1..]);
    if status.Failure? {
      return Failure(status.error);
    }
    r := Success(tiff);
  }

  /** The static MergeToFile(format, outfile, images), and Merge(format, outFile, images): `format` is not used. */
  method MergeImagesToFile(disk: Disk, format: Profile, outFile: string, args: seq<Arg>) returns (r: Result<Tiff>)
    modifies disk
    ensures var s := StaticMergeToFile(old(disk.files), outFile, args);
      && disk.files == s.files
      && (r.Success? <==> s.result.Success?)
      && (r.Failure? ==> r.error == s.result.error)
      && (r.Success? ==> fresh(r.value) && r.value.backing == OnDisk(outFile) && r.value.State() == Fresh)
  {
    if |args| == 0 {
      return Failure(EmptyInput);
    }
    if args[0].Throws? {
      return Failure(args[0].error);
    }
    var tiff := new Tiff.FromImage(if args[0].Img? then Some(args[0].frames) else None);
    r := tiff.MergeToFile(disk, outFile, args[1..]);
  }

  /** FileSystemTiff.GetPageCount(file). */
  method GetPageCountOf(disk: Disk, file: string) returns (r: Result<nat>)
    ensures r == GetPageCount(disk.files, file)
  {
    var img := new Tiff.FromFile(file);
    r := img.PageCount(disk);
    img.Dispose();
  }
}
