/**
 * The two SplitFilesToMemory overloads of MergeTifTool: the order in which
 * the files of a folder are split (newest first, with the folder's own first
 * file moved to the front), and the reassembly of the per-file page lists
 * by file index, whatever order the tasks finish in.
 */
module Discovery {
  import opened Wrappers

  /** A FileInfo as far as discovery looks at it. */
  datatype FileEntry = FileEntry(fullName: string, lastWriteTimeUtc: int)

  // ----- OrderByDescending(LastWriteTimeUtc) -----------------------------------

  predicate SortedDesc(s: seq<FileEntry>)
  {
    forall i, j :: 0 <= i < j < |s| ==> s[i].lastWriteTimeUtc >= s[j].lastWriteTimeUtc
  }

  /** Puts `x` before the first entry that is not newer than it, so equal times keep their order. */
  function InsertDesc(x: FileEntry, s: seq<FileEntry>): seq<FileEntry>
  {
    if |s| == 0 || s[0].lastWriteTimeUtc <= x.lastWriteTimeUtc then [x] + s
    else [s[0]] + InsertDesc(x, s[1..])
  }

  /** Inserting adds exactly that entry. */
  lemma {:induction false} InsertDescPerm(x: FileEntry, s: seq<FileEntry>)
    ensures multiset(InsertDesc(x, s)) == multiset(s) + multiset{x}
    decreases |s|
  {
    if |s| > 0 && s[0].lastWriteTimeUtc > x.lastWriteTimeUtc {
      InsertDescPerm(x, s[1..]);
      assert s == [s[0]] + s[1..];
    }
  }

  predicate AtMost(s: seq<FileEntry>, t: int)
  {
    forall k :: 0 <= k < |s| ==> s[k].lastWriteTimeUtc <= t
  }

  lemma {:induction false} InsertAtMost(x: FileEntry, s: seq<FileEntry>, t: int)
    requires AtMost(s, t) && x.lastWriteTimeUtc <= t
    ensures AtMost(InsertDesc(x, s), t)
    decreases |s|
  {
    if |s| > 0 && s[0].lastWriteTimeUtc > x.lastWriteTimeUtc {
      InsertAtMost(x, s[1..], t);
    }
  }

  lemma {:induction false} InsertDescSorted(x: FileEntry, s: seq<FileEntry>)
    requires SortedDesc(s)
    ensures SortedDesc(InsertDesc(x, s))
    decreases |s|
  {
    if |s| > 0 && s[0].lastWriteTimeUtc > x.lastWriteTimeUtc {
      InsertDescSorted(x, s[1..]);
      InsertAtMost(x, s[1..], s[0].lastWriteTimeUtc);
    }
  }

  lemma {:induction false} InsertDescNames(x: FileEntry, s: seq<FileEntry>)
    ensures multiset(Names(InsertDesc(x, s))) == multiset(Names(s)) + multiset{x.fullName}
    decreases |s|
  {
    if |s| == 0 || s[0].lastWriteTimeUtc <= x.lastWriteTimeUtc {
      NamesCons(x, s);
    } else {
      InsertDescNames(x, s[1..]);
      NamesCons(s[0], InsertDesc(x, s[1..]));
      NamesCons(s[0], s[1..]);
      assert [s[0]] + s[1..] == s;
    }
  }

  /** Enumerable.OrderByDescending: a stable sort, newest first. */
  function SortDesc(s: seq<FileEntry>): seq<FileEntry>
  {
    if |s| == 0 then [] else InsertDesc(s[0], SortDesc(s[1..]))
  }

  /** The entries of `s` written at time `t`, in their order in `s`. */
  function WithTime(s: seq<FileEntry>, t: int): seq<FileEntry>
  {
    if |s| == 0 then [] else (if s[0].lastWriteTimeUtc == t then [s[0]] else []) + WithTime(s[1..], t)
  }

  /** WithTime of a list built with one entry in front. */
  lemma WithTimeCons(e: FileEntry, u: seq<FileEntry>, t: int)
    ensures WithTime([e] + u, t) == (if e.lastWriteTimeUtc == t then [e] else []) + WithTime(u, t)
  {
    assert ([e] + u)[0] == e && ([e] + u)[1..] == u;
  }

  /** Inserting puts `x` in front of every entry with its time and moves no other entry of that time. */
  lemma {:induction false} InsertDescStable(x: FileEntry, s: seq<FileEntry>, t: int)
    ensures WithTime(InsertDesc(x, s), t) == (if x.lastWriteTimeUtc == t then [x] else []) + WithTime(s, t)
    decreases |s|
  {
    if |s| == 0 || s[0].lastWriteTimeUtc <= x.lastWriteTimeUtc {
      WithTimeCons(x, s, t);
    } else {
      var rest := InsertDesc(x, s[1..]);
      assert InsertDesc(x, s) == [s[0]] + rest;
      WithTimeCons(s[0], rest, t);
      InsertDescStable(x, s[1..], t);
      assert WithTime(s, t) == (if s[0].lastWriteTimeUtc == t then [s[0]] else []) + WithTime(s[1..], t);
      if x.lastWriteTimeUtc == t {
        // s[0] is strictly newer than x, so it is not among the entries of time t
        assert WithTime(InsertDesc(x, s), t) == [x] + WithTime(s[1..], t);
      } else {
        assert WithTime(InsertDesc(x, s), t) == (if s[0].lastWriteTimeUtc == t then [s[0]] else []) + WithTime(s[1..], t);
      }
    }
  }

  /** OrderByDescending is stable: the files with one time stamp keep the order they were listed in. */
  lemma {:induction false} SortDescStable(s: seq<FileEntry>, t: int)
    ensures WithTime(SortDesc(s), t) == WithTime(s, t)
    decreases |s|
  {
    if |s| > 0 {
      SortDescStable(s[1..], t);
      InsertDescStable(s[0], SortDesc(s[1..]), t);
    }
  }

  /** The sort orders by time and loses or adds no entry. */
  lemma SortDescMeaning(s: seq<FileEntry>)
    ensures SortedDesc(SortDesc(s))
    ensures multiset(SortDesc(s)) == multiset(s)
  {
    SortDescSorted(s);
    SortDescPerm(s);
  }

  lemma {:induction false} SortDescSorted(s: seq<FileEntry>)
    ensures SortedDesc(SortDesc(s))
    decreases |s|
  {
    if |s| > 0 {
      SortDescSorted(s[1..]);
      InsertDescSorted(s[0], SortDesc(s[1..]));
    }
  }

  lemma {:induction false} SortDescPerm(s: seq<FileEntry>)
    ensures multiset(SortDesc(s)) == multiset(s)
    decreases |s|
  {
    if |s| > 0 {
      SortDescPerm(s[1..]);
      InsertDescPerm(s[0], SortDesc(s[1..]));
      assert [s[0]] + s[1..] == s;
    }
  }

  lemma {:induction false} SortDescNames(s: seq<FileEntry>)
    ensures multiset(Names(SortDesc(s))) == multiset(Names(s))
    decreases |s|
  {
    if |s| > 0 {
      SortDescNames(s[1..]);
      InsertDescNames(s[0], SortDesc(s[1..]));
      NamesCons(s[0], s[1..]);
      assert [s[0]] + s[1..] == s;
    }
  }

  lemma NamesCons(x: FileEntry, s: seq<FileEntry>)
    ensures Names([x] + s) == [x.fullName] + Names(s)
  {
  }

  // ----- moving the remark file to the front -----------------------------------

  /** List.FindIndex with a full-name match: the first position holding `name`, or -1. */
  function FindIndex(files: seq<FileEntry>, name: string): (r: int)
    ensures -1 <= r < |files|
    ensures r >= 0 ==> files[r].fullName == name
    ensures forall j :: 0 <= j < |files| && (r < 0 || j < r) ==> files[j].fullName != name
  {
    if |files| == 0 then -1
    else if files[0].fullName == name then 0
    else
      var i := FindIndex(files[1..], name);
      if i < 0 then -1 else i + 1
  }

  function Names(files: seq<FileEntry>): (r: seq<string>)
    ensures |r| == |files| && forall i :: 0 <= i < |files| ==> r[i] == files[i].fullName
  {
    seq(|files|, i requires 0 <= i < |files| => files[i].fullName)
  }

  /**
   * The file paths SplitFilesToMemory(folder) goes on to split. `matched`
   * is the recursive "*.tif" listing, `topLevel` the listing of the folder
   * itself, whose first entry is the remark file.
   */
  function DiscoveryOrder(matched: seq<FileEntry>, topLevel: seq<FileEntry>): Result<seq<string>>
  {
    RemarkFirst(SortDesc(matched), topLevel)
  }

  /** The steps after the sort: find the remark file, remove it, and put its name in front of the others. */
  function RemarkFirst(sorted: seq<FileEntry>, topLevel: seq<FileEntry>): Result<seq<string>>
  {
    if |topLevel| == 0 then
      // FirstOrDefault gives null: FindIndex dereferences it on the first entry, or returns -1 on an empty list
      if |sorted| > 0 then Failure(NullReference) else Failure(ArgumentOutOfRange)
    else
      var remark := topLevel[0];
      var i := FindIndex(sorted, remark.fullName);
      if i < 0 then Failure(ArgumentOutOfRange)
      else Success([remark.fullName] + Names(sorted[..i] + sorted[i + 1..]))
  }

  /** The discovery order exists exactly when there is a top-level file whose name the recursive listing holds. */
  lemma DiscoveryOrderSucceeds(matched: seq<FileEntry>, topLevel: seq<FileEntry>)
    ensures DiscoveryOrder(matched, topLevel).Success? <==>
      |topLevel| > 0 && exists f :: f in matched && f.fullName == topLevel[0].fullName
    ensures |topLevel| == 0 ==>
      DiscoveryOrder(matched, topLevel) == Failure(if |matched| > 0 then NullReference else ArgumentOutOfRange)
  {
    var sorted := SortDesc(matched);
    SortDescMeaning(matched);
    assert |sorted| == |matched| by {
      assert |multiset(sorted)| == |multiset(matched)|;
    }
    if |topLevel| > 0 {
      var remark := topLevel[0];
      var i := FindIndex(sorted, remark.fullName);
      if i < 0 {
        forall f | f in matched
          ensures f.fullName != remark.fullName
        {
          assert f in multiset(sorted);
        }
      } else {
        assert sorted[i] in multiset(matched);
      }
    }
  }

  /**
   * A discovery order names the remark file first and then every other
   * matched file newest first: it is a permutation of the matched names.
   */
  lemma DiscoveryOrderPermutes(matched: seq<FileEntry>, topLevel: seq<FileEntry>)
    requires DiscoveryOrder(matched, topLevel).Success?
    ensures var paths := DiscoveryOrder(matched, topLevel).value;
      && paths[0] == topLevel[0].fullName
      && multiset(paths) == multiset(Names(matched))
  {
    var sorted := SortDesc(matched);
    SortDescMeaning(matched);
    SortDescNames(matched);
    var i := FindIndex(sorted, topLevel[0].fullName);
    NamesRemove(sorted, i);
  }

  /** After the sort, the files other than the remark file keep the newest-first order. */
  lemma DiscoveryOrderNewestFirst(matched: seq<FileEntry>, topLevel: seq<FileEntry>)
    requires DiscoveryOrder(matched, topLevel).Success?
    ensures var sorted := SortDesc(matched);
      var i := FindIndex(sorted, topLevel[0].fullName);
      && SortedDesc(sorted[..i] + sorted[i + 1..])
      && DiscoveryOrder(matched, topLevel).value[1..] == Names(sorted[..i] + sorted[i + 1..])
  {
    var sorted := SortDesc(matched);
    SortDescMeaning(matched);
    var i := FindIndex(sorted, topLevel[0].fullName);
    RemoveKeepsSorted(sorted, i);
  }

  lemma RemoveKeepsSorted(s: seq<FileEntry>, i: int)
    requires SortedDesc(s) && 0 <= i < |s|
    ensures SortedDesc(s[..i] + s[i + 1..])
  {
    var rest := s[..i] + s[i + 1..];
    forall a, b | 0 <= a < b < |rest|
      ensures rest[a].lastWriteTimeUtc >= rest[b].lastWriteTimeUtc
    {
      var a' := if a < i then a else a + 1;
      var b' := if b < i then b else b + 1;
      assert rest[a] == s[a'] && rest[b] == s[b'];
    }
  }

  lemma NamesRemove(s: seq<FileEntry>, i: int)
    requires 0 <= i < |s|
    ensures multiset(Names(s)) == multiset(Names(s[..i] + s[i + 1..])) + multiset{s[i].fullName}
  {
    var rest := s[..i] + s[i + 1..];
    assert Names(s) == Names(s[..i]) + [s[i].fullName] + Names(s[i + 1..]);
    assert Names(rest) == Names(s[..i]) + Names(s[i + 1..]);
  }

  lemma FindIndexAt(files: seq<FileEntry>, name: string, k: int)
    requires 0 <= k < |files| && files[k].fullName == name
    requires forall j :: 0 <= j < k ==> files[j].fullName != name
    ensures FindIndex(files, name) == k
  {
  }

  lemma FindIndexNone(files: seq<FileEntry>, name: string)
    requires forall j :: 0 <= j < |files| ==> files[j].fullName != name
    ensures FindIndex(files, name) == -1
  {
  }

  /** List<T>.FindIndex: the position of the first entry with that name, or -1. */
  method FindNamed(files: seq<FileEntry>, name: string) returns (index: int)
    ensures index == FindIndex(files, name)
  {
    index := -1;
    var k := 0;
    while k < |files| && index < 0
      invariant 0 <= k <= |files|
      invariant index < 0 ==> forall j :: 0 <= j < k ==> files[j].fullName != name
      invariant index >= 0 ==> index == FindIndex(files, name)
    {
      if files[k].fullName == name {
        FindIndexAt(files, name, k);
        index := k;
      }
      k := k + 1;
    }
    if index < 0 {
      FindIndexNone(files, name);
    }
  }

  /** The list that starts with the remark file's name and then AddRange's the names of the others, in order. */
  method PrependNames(first: string, rest: seq<FileEntry>) returns (filePaths: seq<string>)
    ensures filePaths == [first] + Names(rest)
  {
    filePaths := [first];
    var j := 0;
    while j < |rest|
      invariant 0 <= j <= |rest|
      invariant filePaths == [first] + Names(rest[..j])
    {
      assert Names(rest[..j + 1]) == Names(rest[..j]) + [rest[j].fullName];
      filePaths := filePaths + [rest[j].fullName];
      j := j + 1;
    }
    assert rest[..j] == rest;
  }

  /** The FindIndex/RemoveAt/Add/AddRange steps of SplitFilesToMemory(folder), on the list OrderByDescending returned. */
  method MoveRemarkToFront(sorted: seq<FileEntry>, topLevel: seq<FileEntry>) returns (r: Result<seq<string>>)
    ensures r == RemarkFirst(sorted, topLevel)
  {
    if |topLevel| == 0 {
      if |sorted| > 0 {
        return Failure(NullReference);
      }
      return Failure(ArgumentOutOfRange);
    }
    var remarkFile := topLevel[0];
    var tifFileIndex := FindNamed(sorted, remarkFile.fullName);
    if tifFileIndex < 0 {
      return Failure(ArgumentOutOfRange);
    }
    var filePaths := PrependNames(remarkFile.fullName, sorted[..tifFileIndex] + sorted[tifFileIndex + 1..]);
    r := Success(filePaths);
  }

  // ----- reassembly by file index ----------------------------------------------

  function Concat<P>(lists: seq<seq<P>>): seq<P>
  {
    if |lists| == 0 then [] else Concat(lists[..|lists| - 1]) + lists[|lists| - 1]
  }

  function Per<P>(filePaths: seq<string>, split: string -> Result<seq<P>>): (r: seq<Result<seq<P>>>)
    ensures |r| == |filePaths| && forall i :: 0 <= i < |r| ==> r[i] == split(filePaths[i])
  {
    seq(|filePaths|, i requires 0 <= i < |filePaths| => split(filePaths[i]))
  }

  predicate AllSucceed<P>(rs: seq<Result<seq<P>>>)
  {
    forall i :: 0 <= i < |rs| ==> rs[i].Success?
  }

  function Values<P>(rs: seq<Result<seq<P>>>): (r: seq<seq<P>>)
    requires AllSucceed(rs)
    ensures |r| == |rs| && forall i :: 0 <= i < |rs| ==> r[i] == rs[i].value
  {
    seq(|rs|, i requires 0 <= i < |rs| && AllSucceed(rs) => rs[i].value)
  }

  /** The pages of filePaths[0], then those of filePaths[1], and so on; one failing file fails the whole call. */
  function Reassembled<P>(filePaths: seq<string>, split: string -> Result<seq<P>>): Result<seq<P>>
  {
    var rs := Per(filePaths, split);
    if AllSucceed(rs) then Success(Concat(Values(rs))) else Failure(Aggregate)
  }

  function TotalPages<P>(lists: seq<seq<P>>): nat
  {
    if |lists| == 0 then 0 else TotalPages(lists[..|lists| - 1]) + |lists[|lists| - 1]|
  }

  /** The page list is as long as all the per-file page lists together. */
  lemma {:induction false} ConcatLength<P>(lists: seq<seq<P>>)
    ensures |Concat(lists)| == TotalPages(lists)
    decreases |lists|
  {
    if |lists| > 0 {
      ConcatLength(lists[..|lists| - 1]);
    }
  }

  /** Concat of a longer prefix adds the next list at the end. */
  lemma ConcatStep<P>(lists: seq<seq<P>>, i: nat)
    requires i < |lists|
    ensures Concat(lists[..i + 1]) == Concat(lists[..i]) + lists[i]
  {
    assert lists[..i + 1][..i] == lists[..i];
  }

  /**
   * SplitFilesToMemory(filePaths): one task per file stores its page list
   * under its own index; `completion` is the order the tasks finish in, a
   * permutation of the indices. Task.WaitAll fails when any task failed; the
   * lists are then appended for index 0, 1, ... in turn.
   */
  method SplitFilesToMemory<P>(filePaths: seq<string>, split: string -> Result<seq<P>>, completion: seq<nat>)
    returns (result: Result<seq<P>>)
    requires |completion| == |filePaths|
    requires forall j :: 0 <= j < |completion| ==> completion[j] < |filePaths|
    requires forall i :: 0 <= i < |filePaths| ==> i in completion
    ensures result == Reassembled(filePaths, split)
  {
    var n := |filePaths|;
    var resultDic: map<int, seq<P>> := map[];
    var failed := false;
    var j := 0;
    while j < n
      invariant 0 <= j <= n
      invariant failed <==> exists t :: 0 <= t < j && split(filePaths[completion[t]]).Failure?
      invariant forall t :: 0 <= t < j && split(filePaths[completion[t]]).Success? ==>
        completion[t] in resultDic && resultDic[completion[t]] == split(filePaths[completion[t]]).value
    {
      var index := completion[j];
      var pages := split(filePaths[index]);
      if pages.Success? {
        resultDic := resultDic[index := pages.value];
      } else {
        failed := true;
      }
      j := j + 1;
    }
    ghost var rs := Per(filePaths, split);
    if failed {
      ghost var t :| 0 <= t < n && split(filePaths[completion[t]]).Failure?;
      assert rs[completion[t]].Failure?;
      return Failure(Aggregate);
    }
    SlotsFilled(filePaths, split, completion, resultDic);
    ghost var lists := Values(rs);
    var pages: seq<P> := [];
    var i := 0;
    while i < n
      invariant 0 <= i <= n
      invariant pages == Concat(lists[..i])
    {
      ConcatStep(lists, i);
      pages := pages + resultDic[i];
      i := i + 1;
    }
    assert lists[..n] == lists;
    result := Success(pages);
  }

  /** With no task failed, every index holds its own file's pages. */
  lemma SlotsFilled<P>(filePaths: seq<string>, split: string -> Result<seq<P>>, completion: seq<nat>, resultDic: map<int, seq<P>>)
    requires |completion| == |filePaths|
    requires forall i :: 0 <= i < |filePaths| ==> i in completion
    requires forall t :: 0 <= t < |completion| ==> completion[t] < |filePaths| && split(filePaths[completion[t]]).Success?
    requires forall t :: 0 <= t < |completion| && split(filePaths[completion[t]]).Success? ==>
      completion[t] in resultDic && resultDic[completion[t]] == split(filePaths[completion[t]]).value
    ensures AllSucceed(Per(filePaths, split))
    ensures forall i :: 0 <= i < |filePaths| ==> i in resultDic && resultDic[i] == Values(Per(filePaths, split))[i]
  {
    forall i | 0 <= i < |filePaths|
      ensures split(filePaths[i]).Success? && i in resultDic && resultDic[i] == split(filePaths[i]).value
    {
      assert i in completion;
      var t :| 0 <= t < |completion| && completion[t] == i;
    }
  }
}
