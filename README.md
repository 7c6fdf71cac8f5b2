# SPlitAndMergeTiifLibrary — a Dafny model

This project models the core of SPlitAndMergeTiifLibrary, a C# library that
splits, merges and re-encodes multi-page TIFF images through GDI+. It also
models the library's consolidation tool, `MergeTifTool`.

- **Containers.** An `AbstractTiff` is either an `InMemoryTiff` (an image held
  in a `MemoryStream`) or a `FileSystemTiff` (an image read lazily from a
  file). Each keeps a lazily decoded `Image` and a `MemoryStream`; a file
  container also keeps a cached read `FileStream`. Its operations are
  `PageCount`, `GetPages`, `Split`, `SplitToFile`, `Append`, `Merge`,
  `MergeToFile`, `RemovePages`, `SaveTo`, `Save`, `AppendToFile`,
  `GetPageCount` and `Dispose`.
- **Encoding formats.** The three encoder parameter lists of a
  `TiffEncodingFormat` (first page, further page, finalisation) and the three
  built-in profiles, which are built on first use and cached.
- **Naming.** `NewFilesNamingOptions`: the page-file names of `SplitToFile`,
  built as base name + prefix + counter formatted with `"D" + width` + suffix
  + extension, with the 32-bit counter advanced after every name.
- **Consolidation.** `MergeTifTool`:
  - discovery order of the files: newest first, with the folder's "remark"
    file moved to the front;
  - their page lists, reassembled by file index after parallel splitting;
  - greedy batching of the pages under a 10 MiB cap;
  - saving each batch twice to `folder + yyyyMMddHHmmss_key.tif`.

The GDI+ codec is abstract. A page is an opaque `Page`. An encoded TIFF is the
list of encoder calls that wrote it: `Save` of a first frame, `SaveAdd` of a
further frame, and a page-less finalising `SaveAdd`. Decoding gives back the
frames in the order they were written. A `MemoryStream` is that list together
with its capacity and its open flag. `GetBuffer` returns the whole capacity, so
unused capacity shows up as `Unused` cells.

State changes happen in the `Tiffs.Tiff` class and the `Tiffs.Disk` class.
Their methods perform the source's steps on the fields and on the disk. Their
postconditions tie the new state to a `Step` function in module `Containers`,
and the properties are proved as lemmas about those functions. Every exception
the model keeps is a `Failure` carrying an `Error`: `CodecError`,
`IndexError`, `EmptyInput`, `ObjectDisposed`, `NullReference`,
`ArgumentOutOfRange`, `FileNotFound` or `Aggregate`. The exceptions it
drops are listed under "## Left out".

Three behaviours of the code as written, which the model keeps:

- MergeTiffFromMemories opens a new batch even when the current batch is empty.
- SaveTiffs allocates a `TiffEncodingFormat` sized to the batch, but the static
  `Merge` never reads it. The merge always uses the container's default
  profile, TiffRegular.
- `Merge` writes the last page with the `XPage` list and then makes a
  page-less `SaveAdd` with the `LastPage` list. No page is written with
  `LastPage`.

Files: `wrappers.dfy`, `encoding_formats.dfy`, `naming.dfy`, `codec.dfy`,
`containers.dfy`, `tiff.dfy`, `batching.dfy`, `discovery.dfy` and
`consolidation.dfy`, one module each.

## Model

| member | source | states |
|---|---|---|
| EncodingFormats.EncoderParameters.constructor | src/TheTiffLibrary/EncodingFormats.cs:110-115 | A new parameter list has the requested number of slots, all null. |
| EncodingFormats.TiffEncodingFormat.Uniform | src/TheTiffLibrary/EncodingFormats.cs:110-115 | TiffEncodingFormat(n) gives three fresh, distinct lists, each of capacity n and all unset. |
| EncodingFormats.TiffEncodingFormat.constructor | src/TheTiffLibrary/EncodingFormats.cs:123-128 | TiffEncodingFormat(a, b, c) gives fresh lists of capacities a, b, c, all unset. |
| EncodingFormats.BuildBuiltIn | src/TheTiffLibrary/EncodingFormats.cs:20-36 | A (2, 2, 3) format whose slots hold MultiFrame+x, FrameDimensionPage+x and Flush+LastFrame+x, with none left null. |
| EncodingFormats.TiffEncodingFormats.constructor | src/TheTiffLibrary/EncodingFormats.cs:41 | The three caches start empty: tiff1Bpp here, tiff24Bpp and tiffRegular at lines 68 and 97. |
| EncodingFormats.TiffEncodingFormats.Tiff1Bpp | src/TheTiffLibrary/EncodingFormats.cs:17-41 | Returns the cached CCITT4 profile. It is built only on the first call; later calls return the same object, allocate nothing and leave the other caches alone. |
| EncodingFormats.TiffEncodingFormats.Tiff24Bpp | src/TheTiffLibrary/EncodingFormats.cs:46-68 | The same for colour depth 24. |
| EncodingFormats.TiffEncodingFormats.TiffRegular | src/TheTiffLibrary/EncodingFormats.cs:74-97 | The same for LZW. |
| Naming.Wrap32 | src/TheTiffLibrary/NewFIleNamingOptions.cs:34 | C# int addition: the result agrees with the sum modulo 2^32, and equals it when the sum is in range. |
| Naming.GetFileName | src/TheTiffLibrary/NewFIleNamingOptions.cs:41 | The file name contains no separator and is preceded by one, unless it is the whole path. |
| Naming.FileNameIsSuffix | src/TheTiffLibrary/NewFIleNamingOptions.cs:41 | The directory part followed by the file name is the path. |
| Naming.LastIndexOf | src/TheTiffLibrary/NewFIleNamingOptions.cs:41-42 | Returns the last position of the character, or -1. No later position holds it. |
| Naming.SplitAtLastDot | src/TheTiffLibrary/NewFIleNamingOptions.cs:41-42 | The name without extension plus the extension rebuild the file name; a trailing '.' is lost. The extension is empty or '.' plus at least one non-'.' character. |
| Naming.SplitPlainName | src/TheTiffLibrary/NewFIleNamingOptions.cs:41-42 | A dot-free base plus a one-dot extension splits back into exactly those two parts. |
| Naming.NameParts | src/TheTiffLibrary/NewFIleNamingOptions.cs:41-42 | The last '.' of a plain file name splits it into the name without extension and the extension. |
| Naming.PlainFileName | src/TheTiffLibrary/NewFIleNamingOptions.cs:41 | A name without separators is its own file name. |
| Naming.Combine | src/TheTiffLibrary/AbstractTiff.cs:108 | Path.Combine: an empty name gives the directory; a name that is not rooted ('\\' or '/' first, or ':' second) ends the result, after the whole directory. |
| Naming.CombineFileName | src/TheTiffLibrary/AbstractTiff.cs:108 | The file name of the combined path is the page name, when it holds no separator. |
| Naming.CombineCases | src/TheTiffLibrary/AbstractTiff.cs:108 | A name starting with ':' is not rooted and is joined after '\\'; an empty name gives the directory; a drive-rooted name replaces it. |
| Naming.Digits | src/TheTiffLibrary/NewFIleNamingOptions.cs:49 | The shortest decimal digits of n: at least one digit and no leading zero. |
| Naming.DigitsRoundTrip | src/TheTiffLibrary/NewFIleNamingOptions.cs:49 | The digits of n read back as n. |
| Naming.LeadingZeros | src/TheTiffLibrary/NewFIleNamingOptions.cs:49 | Zero padding does not change the value. |
| Naming.PadLeft | src/TheTiffLibrary/NewFIleNamingOptions.cs:49 | Pads to max(width, length) and never truncates; only the added prefix is '0'. |
| Naming.FormatDMeaning | src/TheTiffLibrary/NewFIleNamingOptions.cs:49 | number.ToString("D" + width) reads back as the number, starts with '-' exactly when it is negative, and has max(width, digit count) digits. |
| Naming.PaddedValue | src/TheTiffLibrary/NewFIleNamingOptions.cs:49 | Zero padding of a digit string keeps it all digits and keeps its value. |
| Naming.SignedReadsBack | src/TheTiffLibrary/NewFIleNamingOptions.cs:49 | A digit string after an optional '-' reads back as the signed value, with the '-' exactly when negative. |
| Naming.Decimal | src/TheTiffLibrary/NewFIleNamingOptions.cs:49 | The width's own ToString() in the concatenation "D" + width: never empty, and it starts with '-' exactly for a negative width. |
| Naming.FormatDInjective | src/TheTiffLibrary/NewFIleNamingOptions.cs:49 | Different numbers give different formatted strings. |
| Naming.NumberReadsBack | src/TheTiffLibrary/NewFIleNamingOptions.cs:47-51 | The counter can be read back from between head and tail of a name built by ToString(fileName, fileExtension, number). |
| Naming.PageNameReadsBack | src/TheTiffLibrary/NewFIleNamingOptions.cs:39-45 | The same for ToString(fullFileName, number). |
| Naming.NameFrame | src/TheTiffLibrary/NewFIleNamingOptions.cs:47-51 | For every width, including those the runtime formats as a custom format, a name starts with the file name and the prefix and ends with the suffix and the extension. |
| Naming.NewFilesNamingOptions.constructor | src/TheTiffLibrary/NewFIleNamingOptions.cs:18-24 | Initial and current counter 1, width 1, increment 1, null prefix and suffix. |
| Naming.NewFilesNamingOptions.InitialName | src/TheTiffLibrary/NewFIleNamingOptions.cs:26-29 | ToString() carries InitialCounterNumber, not the current counter, read back from between prefix and suffix. Outside widths 0 to 99 it is prefix + the runtime's rendering of "D" + width + suffix. |
| Naming.NewFilesNamingOptions.NextName | src/TheTiffLibrary/NewFIleNamingOptions.cs:31-37 | ToString(fullFileName) names with the current counter at any width, then advances it by IncrementFactor with 32-bit wrap-around. |
| Naming.CounterStep | src/TheTiffLibrary/NewFIleNamingOptions.cs:34 | One more call moves the closed form c + k*f (mod 2^32) on by one step. |
| Naming.DefaultSplitNamingOptions | src/TheTiffLibrary/FileSystemTiff.cs:54-60 | The options of SplitToFile(targetDirectory): counter 1, width 3, "_PAGE", "". |
| Naming.ScanPageNames | src/TheTiffLibrary/FileSystemTiff.cs:52-63 | The first three pages of "scan.tif" are named "scan_PAGE001.tif", "scan_PAGE002.tif" and "scan_PAGE003.tif", and the counter ends at 4. |
| Naming.ScanSplits | src/TheTiffLibrary/NewFIleNamingOptions.cs:41-42 | "scan.tif" splits into "scan" and ".tif". |
| Naming.ScanNext | src/TheTiffLibrary/NewFIleNamingOptions.cs:31-37 | With the split options and a one-digit counter, one ToString("scan.tif") gives "scan_PAGE00" + digit + ".tif" and moves the counter on by one. |
| Naming.ScanName | src/TheTiffLibrary/NewFIleNamingOptions.cs:39-51 | With those options, page k of "scan.tif" (1 ≤ k ≤ 9) is "scan_PAGE00k.tif". |
| Codec.FramesOf | src/TheTiffLibrary/AbstractTiff.cs:157-169 | A command list holds at most one frame per call. |
| Codec.FramesOfConcat | src/TheTiffLibrary/AbstractTiff.cs:157-169 | The frames of two call lists written one after the other are concatenated. |
| Codec.CellFramesOf | src/TheTiffLibrary/AbstractTiff.cs:219 | Unused capacity after the written bytes adds no frame. |
| Codec.Decode | src/TheTiffLibrary/InMemoryTiff.cs:18 | Image.FromStream fails only with a codec error, on a buffer that holds no frame. |
| Codec.Grow | src/TheTiffLibrary/AbstractTiff.cs:158-169 | MemoryStream growth: the capacity never shrinks, covers what is needed, and at least doubles when it grows. |
| Codec.Write | src/TheTiffLibrary/AbstractTiff.cs:158-169 | Writing appends exactly the calls, keeps the stream open and well formed, and never lowers the capacity. |
| Codec.GetBuffer | src/TheTiffLibrary/AbstractTiff.cs:219 | GetBuffer returns the whole capacity. |
| Codec.BufferFrames | src/TheTiffLibrary/AbstractTiff.cs:217-220 | Whatever the slack, the buffer decodes to the frames written. |
| Codec.MergeTraceShape | src/TheTiffLibrary/AbstractTiff.cs:157-169 | n pages give n+1 calls: Save(FirstPage), then SaveAdd(XPage) for pages 2..n, then SaveAdd(LastPage) with no page. |
| Codec.AddFramesFrames | src/TheTiffLibrary/AbstractTiff.cs:161-166 | The further-page SaveAdds hold exactly those pages. |
| Codec.MergeRoundTrip | src/TheTiffLibrary/AbstractTiff.cs:149-172 | Decoding what Merge wrote gives back exactly the merged pages, in order. |
| Codec.WriteCalls | src/TheTiffLibrary/AbstractTiff.cs:158-169 | Call-by-call writing appends all the calls. |
| Codec.SinglePage | src/TheTiffLibrary/AbstractTiff.cs:70-75 | The buffer GetPages makes for one page is open and well formed. |
| Codec.SinglePageBuffer | src/TheTiffLibrary/AbstractTiff.cs:70-76 | After Capacity = Length, the buffer is exactly the one encoded page and decodes to that page. |
| Containers.FromImage | src/TheTiffLibrary/InMemoryTiff.cs:28-32 | new InMemoryTiff(image): the given image, an empty MemoryStream and no handle. |
| Containers.Load | src/TheTiffLibrary/InMemoryTiff.cs:13-21 | The Image getter. A cached image comes back as it is. Only a successful decode is cached. A memory container with neither image nor stream gives null; a file container never gives null. |
| Containers.LoadCaches | src/TheTiffLibrary/FileSystemTiff.cs:28-36 | Decoding happens at most once: a second read returns the same frames and changes nothing, whatever the disk holds by then. |
| Containers.LoadKeepsHandle | src/TheTiffLibrary/FileSystemTiff.cs:20-26 | The file is opened once; later reads go through the cached handle, even a disposed one. |
| Containers.LoadStream | src/TheTiffLibrary/InMemoryTiff.cs:34-38 | A container built on a buffer decodes, on first read, to the frames in it. |
| Containers.GetPageCountMeaning | src/TheTiffLibrary/FileSystemTiff.cs:86-92 | GetPageCount is the frame count of the file. A missing file gives FileNotFound and an undecodable one gives CodecError. |
| Containers.GetPagesMeaning | src/TheTiffLibrary/AbstractTiff.cs:62-78 | One trimmed buffer per requested index, in request order, each decoding to its page. It succeeds exactly when every index is in range, and fails with IndexError otherwise. |
| Containers.SplitMeaning | src/TheTiffLibrary/AbstractTiff.cs:84-93 | Split of a readable image gives one buffer per frame, in frame order, each decoding to its frame. |
| Containers.Enumerate | src/TheTiffLibrary/AbstractTiff.cs:151-154 | The enumeration stops exactly when some argument is not an image. Otherwise it is the concatenation of all their frames. |
| Containers.FirstFailure | src/TheTiffLibrary/AbstractTiff.cs:151-154 | The arguments before the returned index are images, and the one at the index is not. |
| Containers.EnumerateStops | src/TheTiffLibrary/AbstractTiff.cs:151-166 | Merge takes the frames up to the first failing argument and stops with that argument's error. |
| Containers.MergeOutcome | src/TheTiffLibrary/AbstractTiff.cs:149-172 | The output stream stays open and well formed. |
| Containers.MergeOutcomeMeaning | src/TheTiffLibrary/AbstractTiff.cs:149-172 | Merge succeeds exactly when all arguments are images with at least one page, and then appends the full trace. No page at all fails with EmptyInput and leaves the buffer untouched. The buffer always gains exactly the frames enumerated. |
| Containers.MergeWritesTrace | src/TheTiffLibrary/AbstractTiff.cs:156-169 | The success condition of Merge and the trace it appends. |
| Containers.MergeWritesFrames | src/TheTiffLibrary/AbstractTiff.cs:156-169 | The buffer gains the enumerated frames, whether or not Merge completed. |
| Containers.HeadFrames | src/TheTiffLibrary/AbstractTiff.cs:157-166 | The calls before finalisation hold exactly the pages. |
| Containers.FlushFrames | src/TheTiffLibrary/AbstractTiff.cs:169 | The finalising SaveAdd adds no frame. |
| Containers.FramesCons | src/TheTiffLibrary/AbstractTiff.cs:139-140 | With this.Image put before the arguments, its frames come first. |
| Containers.AppendStep | src/TheTiffLibrary/AbstractTiff.cs:122-141 | Append touches no file. |
| Containers.AppendMeaning | src/TheTiffLibrary/AbstractTiff.cs:122-141 | With the image cached, Append writes the trace of this image's pages followed by the arguments' pages, drops the cache and keeps the handle. For an InMemoryTiff the next read decodes exactly those pages. |
| Containers.AppendOnDiskRereadsFile | src/TheTiffLibrary/FileSystemTiff.cs:28-36 | For a FileSystemTiff, Append's buffer is never read back: the next read decodes the file through the kept handle, so the appended pages are not seen. |
| Containers.AppendUnloadedFails | src/TheTiffLibrary/AbstractTiff.cs:124 | A buffer-backed InMemoryTiff not read yet fails Append with CodecError, although its own buffer decodes. |
| Containers.AppendLoadedStep | src/TheTiffLibrary/AbstractTiff.cs:122-141 | Append with this.Image read first touches no file. |
| Containers.AppendLoadedMeaning | src/TheTiffLibrary/AbstractTiff.cs:122-141 | Append read first keeps the container's own pages followed by the arguments' pages. |
| Containers.AppendAgreesWhenLoaded | src/TheTiffLibrary/AbstractTiff.cs:122-141 | With the image cached, Append as written and Append read first are the same step. |
| Containers.StaticMergeMeaning | src/TheTiffLibrary/AbstractTiff.Overloads.cs:48-54 | The static Merge of images gives an InMemoryTiff holding the TiffRegular trace of all their pages, in argument order, which decodes to those pages. No image at all gives EmptyInput. |
| Containers.SinglesFrames | src/TheTiffLibrary/AbstractTiff.cs:200 | Together they hold exactly the pages. |
| Containers.StaticMergeToFileMeaning | src/TheTiffLibrary/AbstractTiff.Overloads.cs:75-78 | The static MergeToFile of images writes the TiffRegular trace of all pages to the file, changes no other file, and the file decodes to the pages. |
| Containers.StaticMergeToFileOutcome | src/TheTiffLibrary/AbstractTiff.Overloads.cs:75-78 | On every argument list: no other file changes; no argument, or a first argument that throws, leaves the disk unchanged and fails; otherwise the file holds exactly the frames enumerated, even when a later argument throws. |
| Containers.MergeToFileWrites | src/TheTiffLibrary/AbstractTiff.cs:184-190 | MergeToFile truncates the output file and then holds this image's frames and the arguments' enumerated frames; no other file changes. |
| Containers.MergeIntoFile | src/TheTiffLibrary/AbstractTiff.cs:184-190 | MergeToFile with the image cached writes the trace of its pages and the arguments' pages and leaves the fields as they were. |
| Containers.TraceDecodes | src/TheTiffLibrary/AbstractTiff.cs:186-189 | A file holding a merge trace decodes to the merged pages. |
| Containers.KeptIndices | src/TheTiffLibrary/AbstractTiff.cs:198 | The kept indices are strictly increasing, in range and not listed. |
| Containers.KeptIndicesMeaning | src/TheTiffLibrary/AbstractTiff.cs:198 | An index is kept exactly when it is in [0, n) and not listed, so out-of-range indexes are ignored. |
| Containers.KeptIndicesCount | src/TheTiffLibrary/AbstractTiff.cs:198 | The number kept is n minus the number of distinct listed indices in range. |
| Containers.RemovePagesMeaning | src/TheTiffLibrary/AbstractTiff.cs:196-203 | RemovePages keeps the unlisted pages in order, re-encoded with TiffRegular. It succeeds exactly when a page is left and otherwise fails with EmptyInput. The handle is as after reading the image. |
| Containers.SaveToMeaning | src/TheTiffLibrary/AbstractTiff.cs:212-236 | A stream with a buffer is written as it is, whole buffer included, and decodes to its frames. A container built from an Image has an empty buffer and is re-encoded with the default profile. |
| Containers.SaveToSinglePage | src/TheTiffLibrary/AbstractTiff.cs:217-220 | A page from GetPages is written with no slack. Each page buffer is trimmed to its length at line 75. |
| Containers.SaveStep | src/TheTiffLibrary/FileSystemTiff.cs:103-128 | Save keeps the fields well formed. |
| Containers.SaveLeavesDisposedHandle | src/TheTiffLibrary/FileSystemTiff.cs:103-128 | As written: after Save the file holds the buffer's frames, but the next Image read fails with ObjectDisposed, through the cached disposed handle. |
| Containers.SaveReleasingStep | src/TheTiffLibrary/FileSystemTiff.cs:103-128 | Save that also releases the handle keeps the state well formed. |
| Containers.SaveReleasingMeaning | src/TheTiffLibrary/FileSystemTiff.cs:103-128 | After that Save, the container is as if newly opened and reads back what was saved. |
| Containers.AppendValid | src/TheTiffLibrary/AbstractTiff.cs:122-129 | Append keeps the fields well formed. |
| Containers.AppendToFileMeaning | src/TheTiffLibrary/FileSystemTiff.cs:65-84 | Appending into another file reads this container's image through the getter, opening and caching its file when it was not read yet. It returns a container on the other file, which holds this image's pages followed by the other files' pages. The container's own file is unchanged and its fields are those after that read. |
| Containers.AppendToOwnFileMeaning | src/TheTiffLibrary/FileSystemTiff.cs:65-71 | Appending into the container's own file, read before or not, is Append of those files and then Save (FileSystemTiff.Overloads.cs:25-33), and returns the container. The file then decodes to this image's pages followed by the other files' pages, and no other file changes. The next read fails with ObjectDisposed, since the getter left a handle open that Save disposed. |
| Containers.DisposeStep | src/TheTiffLibrary/FileSystemTiff.cs:130-140 | Dispose keeps well-formedness. |
| Containers.DisposeMeaning | src/TheTiffLibrary/AbstractTiff.cs:273-289 | Dispose is idempotent. Afterwards SaveTo fails with ObjectDisposed, and so does reading an image not yet cached from a disposed MemoryStream or through a file handle opened before Dispose. |
| Containers.DisposeUnreadFileReads | src/TheTiffLibrary/FileSystemTiff.cs:130-140 | Dispose disposes only a handle already opened, so a FileSystemTiff never read still reads its file afterwards, with the same result as before Dispose. |
| Tiffs.Disk.constructor | src/TheTiffLibrary/FileSystemTiff.cs:17 | The disk holds the given files. |
| Tiffs.Merge | src/TheTiffLibrary/AbstractTiff.cs:149-172 | The loop writes what MergeOutcome specifies. |
| Tiffs.SaveEachStep | src/TheTiffLibrary/AbstractTiff.cs:106-113 | One more SaveTo adds one path. |
| Tiffs.SaveEachMeaning | src/TheTiffLibrary/AbstractTiff.cs:106-113 | With distinct paths, every path holds its own page's buffer and no other file changes. |
| Tiffs.Tiff.FromImage | src/TheTiffLibrary/InMemoryTiff.cs:28-32 | new InMemoryTiff(image), with default format TiffRegular. |
| Tiffs.Tiff.FromStream | src/TheTiffLibrary/InMemoryTiff.cs:34-38 | new InMemoryTiff(stream): the stream replaces the base constructor's one, no image is cached, and the container is well formed. |
| Tiffs.Tiff.FromFile | src/TheTiffLibrary/FileSystemTiff.cs:39-43 | new FileSystemTiff(file): nothing is opened yet. |
| Tiffs.Tiff.GetImage | src/TheTiffLibrary/FileSystemTiff.cs:20-36 | The getter's result and new fields are Load's. |
| Tiffs.Tiff.PageCount | src/TheTiffLibrary/AbstractTiff.cs:31-34 | The PageCount property, as PageCountStep. |
| Tiffs.Tiff.GetPages | src/TheTiffLibrary/AbstractTiff.cs:62-78 | The loop's buffers are those of GetPagesStep; an out-of-range index fails. |
| Tiffs.Tiff.GetPagesDefault | src/TheTiffLibrary/AbstractTiff.cs:51-54 | GetPages with the default XPage list. |
| Tiffs.Tiff.SplitWith | src/TheTiffLibrary/AbstractTiff.cs:89-93 | Split(encoder) as SplitStep. |
| Tiffs.Tiff.Split | src/TheTiffLibrary/AbstractTiff.cs:84-87 | Split() with the default XPage list. |
| Tiffs.Tiff.SplitToFile | src/TheTiffLibrary/AbstractTiff.cs:101-116 | For any naming options, page k is written to outDirectory under the name with the counter after k increments. The counter ends n increments on. A failed split writes nothing and leaves the counter. |
| Tiffs.Tiff.Append | src/TheTiffLibrary/AbstractTiff.cs:122-141 | New fields and result as AppendStep. |
| Tiffs.Tiff.MergeWith | src/TheTiffLibrary/AbstractTiff.Overloads.cs:21-24 | Merge(params Image[]) is Append. |
| Tiffs.Tiff.MergeToFile | src/TheTiffLibrary/AbstractTiff.cs:184-190 | Files, fields and result as MergeToFileStep; on success, a new container on outFile. |
| Tiffs.Tiff.RemovePages | src/TheTiffLibrary/AbstractTiff.cs:196-203 | New fields and result as RemovePagesStep. |
| Tiffs.Tiff.SaveToFormat | src/TheTiffLibrary/AbstractTiff.cs:232-236 | SaveTo(encoding, file) as SaveToFormatStep. |
| Tiffs.Tiff.SaveTo | src/TheTiffLibrary/AbstractTiff.cs:212-224 | SaveTo(file) as SaveToStep. |
| Tiffs.Tiff.Dispose | src/TheTiffLibrary/FileSystemTiff.cs:130-140 | The stream and handle are disposed, as DisposeStep. |
| Tiffs.Tiff.Save | src/TheTiffLibrary/FileSystemTiff.cs:103-128 | FileSystemTiff.Save as SaveStep. |
| Tiffs.Tiff.RemovePagesAndSave | src/TheTiffLibrary/FileSystemTiff.cs:94-98 | The base RemovePages, then Save only when it succeeded. |
| Tiffs.Tiff.AppendToFile | src/TheTiffLibrary/FileSystemTiff.cs:65-84 | As AppendToFileStep. In place it returns this container; otherwise a new one on outFile. |
| Tiffs.Tiff.SplitToFileDefault | src/TheTiffLibrary/FileSystemTiff.cs:52-63 | SplitToFile with counter 1, width 3, "_PAGE", "" and the file's own name. |
| Tiffs.CounterClosedForm | src/TheTiffLibrary/NewFIleNamingOptions.cs:31-37 | k calls of NextName advance the counter by k increments, modulo 2^32. |
| Tiffs.SplitPaths | src/TheTiffLibrary/AbstractTiff.cs:105-113 | One path per page. |
| Tiffs.NextPath | src/TheTiffLibrary/AbstractTiff.cs:108 | Path.Combine(outDirectory, namingOptions.ToString(outFileName)), advancing the counter. |
| Tiffs.WritePages | src/TheTiffLibrary/AbstractTiff.cs:105-113 | Every buffer goes to its own next path; paths, files and counter as SplitPaths, SaveEach and Counter. |
| Tiffs.PagesFromEach | src/TheTiffLibrary/AbstractTiff.cs:67-77 | The buffers collected one index at a time are PagesFrom's. |
| Tiffs.SplitBuffersValid | src/TheTiffLibrary/AbstractTiff.cs:84-93 | The buffers Split yields are well formed. |
| Tiffs.RemovePagesValid | src/TheTiffLibrary/AbstractTiff.cs:196-203 | RemovePages keeps the fields well formed. |
| Tiffs.StaticMergeValid | src/TheTiffLibrary/AbstractTiff.Overloads.cs:48-54 | A merged container is well formed. |
| Tiffs.MergeImages | src/TheTiffLibrary/AbstractTiff.Overloads.cs:48-54 | The static Merge(format, images) as StaticMerge. |
| Tiffs.MergeImagesToFile | src/TheTiffLibrary/AbstractTiff.Overloads.cs:75-78 | The static MergeToFile: the disk afterwards, and the result, are StaticMergeToFile's on success and on failure; on success a new container on outFile. The static Merge(format, outFile, images) at lines 30-33 calls it unchanged. |
| Tiffs.GetPageCountOf | src/TheTiffLibrary/FileSystemTiff.cs:86-92 | FileSystemTiff.GetPageCount(file) as GetPageCount. |
| Batching.Run | src/TheTiffLibrary/MergeTifTool.cs:81-107 | The loop always has at least batch 0. |
| Batching.RunTo | src/TheTiffLibrary/MergeTifTool.cs:87-107 | The state after the first n pages always has at least batch 0. |
| Batching.Step | src/TheTiffLibrary/MergeTifTool.cs:96-106 | One iteration keeps at least one batch. |
| Batching.StepShape | src/TheTiffLibrary/MergeTifTool.cs:96-106 | Over the cap, a new batch [x] opens and the total restarts at size(x). Otherwise x joins the last batch and the total grows by size(x). |
| Batching.AsMapStep | src/TheTiffLibrary/MergeTifTool.cs:96-106 | One iteration adds key splitIndex+1 for a new batch or rewrites the current key, leaves the other keys alone, and moves the index and total as Step does. |
| Batching.MergeTiffFromMemories | src/TheTiffLibrary/MergeTifTool.cs:79-109 | The loop returns the dictionary of Run's batches. Its invariant is that after i pages the index, the total and the dictionary are those of RunTo after i pages. |
| Batching.BatchesPartition | src/TheTiffLibrary/MergeTifTool.cs:79-109 | After the first n pages, the batches concatenated in key order give back exactly those n pages: nothing lost, repeated or moved. |
| Batching.FlattenSnoc | src/TheTiffLibrary/MergeTifTool.cs:79-109 | Concatenating one more batch appends its pages. |
| Batching.StepFlatten | src/TheTiffLibrary/MergeTifTool.cs:96-106 | One iteration appends exactly the page to the concatenation. |
| Batching.TotalIsLastBatch | src/TheTiffLibrary/MergeTifTool.cs:96-106 | After any number of pages, the running total is the size of the batch being filled. |
| Batching.StepTotal | src/TheTiffLibrary/MergeTifTool.cs:96-106 | One iteration keeps the total equal to the last batch's size. |
| Batching.BatchesBounded | src/TheTiffLibrary/MergeTifTool.cs:96-106 | After any number of pages, batches after the first are never empty, and no batch exceeds 10 MiB unless it is one page. The cap is IsOverload at lines 125-129. |
| Batching.StepBounded | src/TheTiffLibrary/MergeTifTool.cs:96-106 | One iteration keeps batches after the first non-empty and within the cap unless single. |
| Batching.FirstBatchEmpty | src/TheTiffLibrary/MergeTifTool.cs:85-101 | Batch 0 is empty exactly when there is no page or the first page alone exceeds the cap. |
| Batching.PrefixBatches | src/TheTiffLibrary/MergeTifTool.cs:87-107 | Running over more pages only extends the last batch and adds batches. |
| Batching.StepExtends | src/TheTiffLibrary/MergeTifTool.cs:96-106 | One iteration keeps the earlier batches, extends the last one, or adds one. |
| Batching.NonEmptyStays | src/TheTiffLibrary/MergeTifTool.cs:87-107 | Once batch 0 holds a page after n pages, it still holds one at the end. |
| Batching.JoinsIff | src/TheTiffLibrary/MergeTifTool.cs:96-106 | Page n joins the current batch exactly when total + size stays within the cap; otherwise it opens a new batch of its own. |
| Batching.Greedy | src/TheTiffLibrary/MergeTifTool.cs:96-106 | After any number of pages, every batch was closed only because the next batch's first page would have passed the cap. |
| Batching.StepGreedy | src/TheTiffLibrary/MergeTifTool.cs:96-106 | One iteration closes a batch only when the page would pass the cap. |
| Batching.OversizedFirstPage | src/TheTiffLibrary/MergeTifTool.cs:96-101 | As written, a first page over the cap gives batches [[], [x]]. |
| Batching.StepGuarded | src/TheTiffLibrary/MergeTifTool.cs:96-106 | A guarded step keeps at least one batch. |
| Batching.RunGuarded | src/TheTiffLibrary/MergeTifTool.cs:81-107 | A guarded run keeps at least one batch. |
| Batching.RunGuardedTo | src/TheTiffLibrary/MergeTifTool.cs:87-107 | With the guard, the state after n pages keeps at least one batch. |
| Batching.StepGuardedShape | src/TheTiffLibrary/MergeTifTool.cs:96-106 | A guarded step opens a new batch only when the current one holds a page. |
| Batching.GuardedPartition | src/TheTiffLibrary/MergeTifTool.cs:79-109 | With the guard, the batches of the first n pages still concatenate back to those pages. |
| Batching.StepGuardedFlatten | src/TheTiffLibrary/MergeTifTool.cs:96-106 | A guarded step appends exactly the page to the concatenation. |
| Batching.GuardedTotal | src/TheTiffLibrary/MergeTifTool.cs:96-106 | With the guard, the total is always the size of the last batch. |
| Batching.StepGuardedTotal | src/TheTiffLibrary/MergeTifTool.cs:96-106 | A guarded step keeps the total equal to the last batch's size. |
| Batching.GuardedBatches | src/TheTiffLibrary/MergeTifTool.cs:96-106 | With the guard, once there is a page no batch is empty, and only a single page exceeds the cap. With no page there is one empty batch. |
| Batching.StepGuardedOk | src/TheTiffLibrary/MergeTifTool.cs:96-106 | A guarded step from the start state or from a good state gives non-empty batches within the cap unless single. |
| Discovery.InsertDescPerm | src/TheTiffLibrary/MergeTifTool.cs:23 | Inserting adds exactly that entry. |
| Discovery.InsertDescSorted | src/TheTiffLibrary/MergeTifTool.cs:23 | Inserting keeps a newest-first list sorted. |
| Discovery.InsertDescNames | src/TheTiffLibrary/MergeTifTool.cs:23 | Inserting adds exactly that entry's name. |
| Discovery.SortDescMeaning | src/TheTiffLibrary/MergeTifTool.cs:23 | OrderByDescending(LastWriteTimeUtc) sorts newest first and is a permutation. |
| Discovery.SortDescSorted | src/TheTiffLibrary/MergeTifTool.cs:23 | OrderByDescending(LastWriteTimeUtc) puts newer files before older ones. |
| Discovery.SortDescPerm | src/TheTiffLibrary/MergeTifTool.cs:23 | OrderByDescending(LastWriteTimeUtc) loses and adds no entry. |
| Discovery.SortDescNames | src/TheTiffLibrary/MergeTifTool.cs:23 | The sorted names are a permutation of the names. |
| Discovery.InsertDescStable | src/TheTiffLibrary/MergeTifTool.cs:23 | Inserting keeps the entries of each timestamp in their order, with the new entry first among its equals. |
| Discovery.SortDescStable | src/TheTiffLibrary/MergeTifTool.cs:23 | OrderByDescending is stable: the entries with equal LastWriteTimeUtc keep their listing order. |
| Discovery.FindIndex | src/TheTiffLibrary/MergeTifTool.cs:28 | The first position with that full name, or -1 when there is none. |
| Discovery.FindIndexAt | src/TheTiffLibrary/MergeTifTool.cs:28 | The first matching position is what FindIndex gives. |
| Discovery.FindIndexNone | src/TheTiffLibrary/MergeTifTool.cs:28 | With no match FindIndex gives -1. |
| Discovery.FindNamed | src/TheTiffLibrary/MergeTifTool.cs:28 | The search loop gives FindIndex. |
| Discovery.PrependNames | src/TheTiffLibrary/MergeTifTool.cs:36-39 | The Add and AddRange loop gives the first name followed by the names of the rest, in order. |
| Discovery.DiscoveryOrderSucceeds | src/TheTiffLibrary/MergeTifTool.cs:19-41 | Discovery succeeds exactly when there is a top-level file that the recursive listing holds. With no top-level file it fails with NullReference, or ArgumentOutOfRange when nothing matched. |
| Discovery.DiscoveryOrderPermutes | src/TheTiffLibrary/MergeTifTool.cs:25-39 | The remark file comes first, and the order is a permutation of the matched names. |
| Discovery.DiscoveryOrderNewestFirst | src/TheTiffLibrary/MergeTifTool.cs:23-34 | After the remark file, the remaining files stay newest first. |
| Discovery.RemoveKeepsSorted | src/TheTiffLibrary/MergeTifTool.cs:30 | RemoveAt keeps a sorted list sorted. |
| Discovery.NamesRemove | src/TheTiffLibrary/MergeTifTool.cs:30-34 | RemoveAt takes exactly one name out. |
| Discovery.MoveRemarkToFront | src/TheTiffLibrary/MergeTifTool.cs:26-39 | On the list OrderByDescending returned, the FindIndex, RemoveAt, Add and AddRange steps give RemarkFirst of it, errors included. |
| Discovery.ConcatLength | src/TheTiffLibrary/MergeTifTool.cs:69-76 | The reassembled list is as long as all the page lists together. |
| Discovery.SplitFilesToMemory | src/TheTiffLibrary/MergeTifTool.cs:43-77 | Whatever order the tasks finish in, the result is file 0's pages, then file 1's, and so on. Any failing file gives Aggregate. |
| Discovery.SlotsFilled | src/TheTiffLibrary/MergeTifTool.cs:56-67 | With no failed task, every index holds its own file's pages. |
| Consolidation.SaveOne | src/TheTiffLibrary/MergeTifTool.cs:118-121 | Merge, SaveTo, SaveTo(Tiff1Bpp) and Dispose of one batch do exactly what SaveBatch specifies. |
| Consolidation.SaveTiffs | src/TheTiffLibrary/MergeTifTool.cs:112-123 | Files and result are those of SaveAll over every key, in enumeration order. |
| Consolidation.SaveEvery | src/TheTiffLibrary/MergeTifTool.cs:114-122 | The loop stops at the first exception, as SaveAll specifies. |
| Consolidation.SaveAllStops | src/TheTiffLibrary/MergeTifTool.cs:114-122 | After an exception, later batches change nothing. |
| Consolidation.SaveBatchMeaning | src/TheTiffLibrary/MergeTifTool.cs:118-121 | Saving a non-empty batch of images succeeds. The file ends up holding the Tiff1Bpp encoding of its pages, which overwrites the first save; no other file changes. |
| Consolidation.SaveTwiceMeaning | src/TheTiffLibrary/MergeTifTool.cs:119-120 | For a merged container the second save overwrites the first. |
| Consolidation.SaveBatchEmpty | src/TheTiffLibrary/MergeTifTool.cs:118 | An empty batch fails in First() before any file is written. |
| Consolidation.BatchPathsDistinct | src/TheTiffLibrary/MergeTifTool.cs:116-119 | With stamps of equal length, distinct keys give distinct paths. |
| Consolidation.PathsDistinct | src/TheTiffLibrary/MergeTifTool.cs:116-119 | 14-character stamps and distinct keys give pairwise distinct paths. |
| Consolidation.SaveBatchWrites | src/TheTiffLibrary/MergeTifTool.cs:118-121 | SaveBatch writes each non-empty batch of images to its path. |
| Consolidation.SaveAllKeeps | src/TheTiffLibrary/MergeTifTool.cs:114-122 | With such batches the loop completes, and a file no batch names keeps its content. |
| Consolidation.SaveAllWrites | src/TheTiffLibrary/MergeTifTool.cs:114-122 | With distinct paths, each path holds its own batch's Tiff1Bpp encoding. |
| Consolidation.SaveAllMeaning | src/TheTiffLibrary/MergeTifTool.cs:112-123 | When every batch is a non-empty list of images, SaveTiffs completes. The file for key i holds the Tiff1Bpp encoding of batch i, and every other file is unchanged. |
| Consolidation.EmptyBatchStops | src/TheTiffLibrary/MergeTifTool.cs:114-122 | An empty batch fails with EmptyInput, and nothing after it is written. |
| Consolidation.OversizedFirstPageSavesNothing | src/TheTiffLibrary/MergeTifTool.cs:96-101 | With no page, or a first page over the cap, SaveTiffs writes no file and fails with EmptyInput. The throw comes from First() in the Merge of line 118. |

## Definitions

These functions define the operations the lemmas above are about; their contracts are those lemmas.

- `Codec.AddFrames` (src/TheTiffLibrary/AbstractTiff.cs:161-166): One SaveAdd(XPage) per further page, in page order.
- `Containers.ImageFrames` (src/TheTiffLibrary/AbstractTiff.cs:31-34): Dereferencing the Image: it succeeds exactly on an image; null gives NullReference; a getter failure propagates.
- `Containers.Range` (src/TheTiffLibrary/AbstractTiff.cs:91): Enumerable.Range(0, n) is 0, 1, …, n-1.
- `Containers.Singles` (src/TheTiffLibrary/AbstractTiff.cs:200): The images of the single-page containers, one per page.
- `Containers.Select` (src/TheTiffLibrary/AbstractTiff.cs:200): The pages at the given indexes, in order.
- `Containers.FileArgs` (src/TheTiffLibrary/FileSystemTiff.cs:76-77): The images of new FileSystemTiff(path), one per path.
- `Batching.AsMap` (src/TheTiffLibrary/MergeTifTool.cs:83-108): Keys are exactly 0..n-1, and key k holds batch k.
- `Discovery.Names` (src/TheTiffLibrary/MergeTifTool.cs:36-39): The full name of each entry, in order.
- `Discovery.Per` (src/TheTiffLibrary/MergeTifTool.cs:56-65): One split result per file, by index.
- `Discovery.Values` (src/TheTiffLibrary/MergeTifTool.cs:71-74): The page list of each file, by index.
- `Consolidation.Batches` (src/TheTiffLibrary/MergeTifTool.cs:114-118): The batch of each key, in enumeration order.
- `Consolidation.Paths` (src/TheTiffLibrary/MergeTifTool.cs:116-119): The file of each key: folder + stamp + "_" + key + ".tif".
- `Naming.FormatD` (src/TheTiffLibrary/NewFIleNamingOptions.cs:49): number.ToString("D" + width) for widths 0 to 99: '-' for a negative number, then its digits padded with '0'.
- `Naming.FormatNumber` (src/TheTiffLibrary/NewFIleNamingOptions.cs:49): number.ToString("D" + width) for every width; outside 0 to 99 the runtime's rendering is the `custom` parameter.
- `Naming.FileNameFor` (src/TheTiffLibrary/NewFIleNamingOptions.cs:47-51): fileName + prefix + formatted number + suffix + extension, a null prefix or suffix being empty.
- `Naming.NewFilesNamingOptions.ComposeName` (src/TheTiffLibrary/NewFIleNamingOptions.cs:47-51): ToString(fileName, fileExtension, number) with the options' fields.
- `Naming.NewFilesNamingOptions.NameWithNumber` (src/TheTiffLibrary/NewFIleNamingOptions.cs:39-45): ToString(fullFileName, number).
- `Naming.GetFileNameWithoutExtension` (src/TheTiffLibrary/NewFIleNamingOptions.cs:41): Path.GetFileNameWithoutExtension.
- `Naming.GetExtension` (src/TheTiffLibrary/NewFIleNamingOptions.cs:42): Path.GetExtension.
- `Naming.PageName` (src/TheTiffLibrary/NewFIleNamingOptions.cs:39-45): The name ToString(fullFileName, number) builds.
- `Containers.PageCountStep` (src/TheTiffLibrary/AbstractTiff.cs:31-34): The PageCount property: the frame count of Image.
- `Containers.GetPageCount` (src/TheTiffLibrary/FileSystemTiff.cs:86-92): FileSystemTiff.GetPageCount(file).
- `Containers.GetPagesStep` (src/TheTiffLibrary/AbstractTiff.cs:62-78): GetPages(indexes, encoder) on a container.
- `Containers.PagesFrom` (src/TheTiffLibrary/AbstractTiff.cs:67-77): The per-index loop of GetPages over decoded frames.
- `Containers.SplitStep` (src/TheTiffLibrary/AbstractTiff.cs:89-93): Split(encoder): GetPages over Enumerable.Range(0, PageCount).
- `Containers.AppendCore` (src/TheTiffLibrary/AbstractTiff.cs:137-141): The protected Append(images, dataBuffer): Merge of this.Image followed by the images.
- `Containers.StaticMerge` (src/TheTiffLibrary/AbstractTiff.Overloads.cs:48-54): The static Merge(images) into a new InMemoryTiff.
- `Containers.MergeToFileStep` (src/TheTiffLibrary/AbstractTiff.cs:184-190): The instance MergeToFile(outFile, images).
- `Containers.StaticMergeToFile` (src/TheTiffLibrary/AbstractTiff.Overloads.cs:75-78): The static MergeToFile(outFile, images): the disk afterwards and the result.
- `Containers.RemovePagesStep` (src/TheTiffLibrary/AbstractTiff.cs:196-203): RemovePages(indexes).
- `Containers.SaveToFormatStep` (src/TheTiffLibrary/AbstractTiff.cs:232-236): SaveTo(encoding, file).
- `Containers.SaveToStep` (src/TheTiffLibrary/AbstractTiff.cs:212-224): SaveTo(file).
- `Containers.AppendToFileStep` (src/TheTiffLibrary/FileSystemTiff.cs:65-84): FileSystemTiff.AppendToFile(outFile, files).
- `Tiffs.SaveEach` (src/TheTiffLibrary/AbstractTiff.cs:106-113): The files after each page buffer is saved to its path.
- `Batching.IsOverload` (src/TheTiffLibrary/MergeTifTool.cs:125-129): The 10 MiB cap, 10 * 1024 * 1024 bytes, exceeded strictly.
- `Batching.Sum` (src/TheTiffLibrary/MergeTifTool.cs:96-106): The total encoded size of a batch.
- `Discovery.InsertDesc` (src/TheTiffLibrary/MergeTifTool.cs:23): One insertion step of the stable newest-first sort.
- `Discovery.SortDesc` (src/TheTiffLibrary/MergeTifTool.cs:23): OrderByDescending(LastWriteTimeUtc), stable.
- `Discovery.WithTime` (src/TheTiffLibrary/MergeTifTool.cs:23): The entries with a given timestamp, in order.
- `Discovery.DiscoveryOrder` (src/TheTiffLibrary/MergeTifTool.cs:19-41): The file order of MergeFilesInFolder's discovery step.
- `Discovery.RemarkFirst` (src/TheTiffLibrary/MergeTifTool.cs:26-39): The remark file moved to the front of the sorted list.
- `Discovery.Reassembled` (src/TheTiffLibrary/MergeTifTool.cs:69-76): The page lists concatenated by file index.
- `Consolidation.BatchPath` (src/TheTiffLibrary/MergeTifTool.cs:116-119): folder + stamp + "_" + key + ".tif".
- `Consolidation.SaveBatch` (src/TheTiffLibrary/MergeTifTool.cs:118-121): Merge, SaveTo, SaveTo(Tiff1Bpp) and Dispose of one batch.
- `Consolidation.SaveTwice` (src/TheTiffLibrary/MergeTifTool.cs:119-120): The two saves of a merged container.
- `Consolidation.SaveAll` (src/TheTiffLibrary/MergeTifTool.cs:114-122): The loop over the batches, stopping at the first exception.

## Left out

- The pixel codec (GDI+): pages are opaque, an encoded TIFF is the list of encoder calls, and the slots' compression and colour-depth values are carried but not interpreted. `AbstractTiff.CodecInfo` (the "image/tiff" encoder lookup) is not modelled.
- Concurrency: the tasks of SplitFilesToMemory(filePaths) run in a completion order given as a parameter. Races on the shared Dictionary, which is not thread-safe, are not modelled.
- Tiffs.Tiff.FromStream: the cast `(MemoryStream)stream` (InMemoryTiff.cs line 37) throws InvalidCastException for any other kind of Stream; the model's stream is always a MemoryStream, so that throw cannot arise.
- Containers.SaveToStep: `GetBuffer()` (AbstractTiff.cs line 219) throws UnauthorizedAccessException on a MemoryStream that does not expose its buffer, such as `new MemoryStream(bytes)`; the model's streams always expose it, so the file is written.
- Naming.Combine: on .NET Framework, `Path.Combine`, `Path.GetFileNameWithoutExtension` and `Path.GetExtension` throw ArgumentException for a path holding an illegal path character (NewFIleNamingOptions.cs lines 41-42, AbstractTiff.cs line 108); the model accepts every character.
- Tiffs.Tiff.SaveTo: `Directory.CreateDirectory(Path.GetDirectoryName(file))` (AbstractTiff.cs line 215) is not modelled, so a bare file name such as "out.tif", whose directory name is "" and makes it throw ArgumentException, is written like any other path. The same holds for SplitToFile with an empty outDirectory and for SaveTiffs with an empty folder, which go through SaveTo.
- Tiffs.Tiff.MergeToFile: opening the container's own file while its read handle is open raises a sharing-violation IOException in the source; the model writes the file. The same holds for SaveTo, SaveToFormat and Save onto a file another handle holds open.
- I/O errors other than a missing file and a disposed stream, `Directory.CreateDirectory`, and the garbage-collector calls in `Dispose` and `Save` are not modelled. Image disposal is not modelled; only the open flags of streams and handles are.
- The FileStreams that `SaveTo(encoding, file)` and `MergeToFile` open and never dispose are not modelled: the file gets the written calls at once.
- LINQ laziness: `GetPages`, `Split` and `SplitToFile` are evaluated eagerly. The `FileSystemTiff` containers SplitToFile returns are given as their paths.
- `RemoveImages`, `Apply` and `performAction` take arbitrary predicates and functions over GDI+ images, and `Apply` writes to a fixed debug path. They are not modelled.
- `FileInfo.FullName` normalisation: file names are compared as given.
- `DateTime.Now` becomes the `stamps` parameter of SaveTiffs, with one stamp per key.
- Consolidation.SaveTiffs: the images of each batch are given as Image property values (`Arg`), not as containers. The `TiffEncodingFormat` allocated per batch is not allocated, since nothing reads it.
- Consolidation.SaveTiffs: the key order of the `Dictionary` enumeration is a `keys` parameter. MergeFilesInFolder is the composition of the three modelled steps and is not a member of its own.
- Batching.MergeTiffFromMemories: the encoded size of a page is a `size` function parameter. The throwaway `Image.Save` to measure it is not modelled.
- Tiffs.WritePages: the files are collected in a local map and handed to the disk at the end. Nothing reads them in between.
- Streams are values: two containers never share one MemoryStream object.
- Naming.FormatNumber: how the runtime renders "D" + width outside 0 to 99 is the `custom` parameter. A negative width makes a custom format string, and three or more digits are read differently by different .NET versions; the FormatException a width over 999,999,999 raises on newer versions is not modelled, and the repository names no target framework.
- Naming.FormatD: the current culture's negative sign is taken to be '-'.

## Findings

| source | as written | input that shows it | evidently intended | confidence | as-written member | corrected member |
|---|---|---|---|---|---|---|
| src/TheTiffLibrary/MergeTifTool.cs:96-101 | A page opens a new batch whenever the running total plus its size exceeds 10 MiB, even when the current batch is empty. | A first page whose TIFF encoding is over 10 MiB leaves batch 0 empty. SaveTiffs then calls First() on it and throws before writing any file. | Open a new batch only when the current one already holds a page. | not executed | Batching.OversizedFirstPage, Consolidation.OversizedFirstPageSavesNothing | Batching.GuardedBatches |
| src/TheTiffLibrary/FileSystemTiff.cs:110-111,123 | Save disposes the cached FileStream but keeps the reference. The FileStream getter's `??` then returns the disposed stream. | A FileSystemTiff whose Image was read: RemovePages(0) and then PageCount. The second read of Image throws ObjectDisposedException. | Release the handle, so the next read opens the saved file anew. | not executed | Containers.SaveLeavesDisposedHandle | Containers.SaveReleasingMeaning |
| src/TheTiffLibrary/AbstractTiff.cs:124 | Append(images) replaces MemoryStream with an empty stream before the core Append reads this.Image. | An InMemoryTiff from GetPages that has not been read yet, then Append(images). The getter decodes the new empty stream and throws. | Read this.Image before replacing the stream. | not executed | Containers.AppendUnloadedFails | Containers.AppendLoadedMeaning |
