/**
 * The main body of the sequence-per-file import script (`BatchImportSequence1of2_V1.jsx`): the
 * video files of the chosen folder are collected, sorted by their decoded names, and each one is
 * imported and given a sequence named after it. Every error, including a `URIError` thrown while
 * decoding a name, ends the run in the script's one `catch`.
 */
module BatchImportRun {
  import opened Results
  import opened Listing
  import opened UriDecoding
  import opened BatchImport

  const NoProjectMessage := "Unable to access project."
  const NoFolderMessage := "No folder selected."
  const NoVideoFilesMessage := "No video files found in the selected folder."

  /** What ends a run early: an `Error` the script throws itself, or the `URIError` of a name. */
  datatype RunError = Raised(message: string) | UriErrorThrown(cause: UriError)

  /** What the per-file loop asks of the host for one file: import this path, name the sequence so. */
  datatype SequenceJob = SequenceJob(importPath: string, sequenceName: string)

  /** The filter loop: each listing entry whose name passes `isVideoFile`, in listing order. */
  method CollectVideoFiles(allFiles: seq<FileEntry>) returns (videoFiles: seq<FileEntry>)
    ensures videoFiles == KeepByName(HasVideoExtension, allFiles)
  {
    videoFiles := [];
    for i := 0 to |allFiles|
      invariant videoFiles == KeepByName(HasVideoExtension, allFiles[..i])
    {
      var isVideo := IsVideoFile(allFiles[i].name);
      if isVideo {
        videoFiles := videoFiles + [allFiles[i]];
      }
      assert allFiles[..i + 1][..i] == allFiles[..i];
    }
    assert allFiles[..|allFiles|] == allFiles;
  }

  /**
   * The video selection holds every video entry as often as the listing does and nothing else,
   * in listing order.
   */
  lemma VideoSelectionIsOrderedSubsequence(allFiles: seq<FileEntry>)
    ensures forall e :: multiset(KeepByName(HasVideoExtension, allFiles))[e] ==
                          if HasVideoExtension(e.name) then multiset(allFiles)[e] else 0
    ensures exists positions ::
              && PicksPositions(allFiles, positions, KeepByName(HasVideoExtension, allFiles))
              && (forall k :: 0 <= k < |allFiles| ==> (k in positions <==> HasVideoExtension(allFiles[k].name)))
  {
    forall e {
      KeepByNameCounts(HasVideoExtension, allFiles, e);
    }
    KeepByNamePicksAccepted(HasVideoExtension, allFiles);
  }

  /** The selection is empty, and the run throws, exactly when no entry has a video extension. */
  lemma EmptyVideoSelectionIff(allFiles: seq<FileEntry>)
    ensures KeepByName(HasVideoExtension, allFiles) == [] <==> forall e <- allFiles :: !HasVideoExtension(e.name)
  {
    forall e {
      KeepByNameCounts(HasVideoExtension, allFiles, e);
    }
    if forall e <- allFiles :: !HasVideoExtension(e.name) {
      assert multiset(KeepByName(HasVideoExtension, allFiles)) == multiset{};
    }
  }

  /**
   * `localeCompare` is a parameter; the sort demands of it what section 15.4.4.11 of ECMA-262
   * (3rd edition) calls a consistent comparison function: the sign flips when the arguments are
   * swapped, and "at most" is transitive.
   */
  ghost predicate IsConsistentComparator(compare: (string, string) -> int)
  {
    && (forall x, y :: compare(x, y) > 0 <==> compare(y, x) < 0)
    && (forall x, y, z :: compare(x, y) <= 0 && compare(y, z) <= 0 ==> compare(x, z) <= 0)
  }

  predicate Decodable(f: FileEntry)
  {
    DecodeFileName(f.name).Ok?
  }

  predicate AllDecodable(files: seq<FileEntry>)
  {
    forall f <- files :: Decodable(f)
  }

  /** The name shown for a file and sorted on: its decoded name. */
  function DisplayName(f: FileEntry): (d: string)
    requires Decodable(f)
  {
    DecodeFileName(f.name).value
  }

  /** The comparator of the sort puts `f` no later than `g`; both names must decode for it to answer. */
  predicate InOrder(f: FileEntry, g: FileEntry, compare: (string, string) -> int)
  {
    Decodable(f) && Decodable(g) && compare(DisplayName(f), DisplayName(g)) <= 0
  }

  predicate SortedByDisplayName(files: seq<FileEntry>, compare: (string, string) -> int)
  {
    forall i, j :: 0 <= i < j < |files| ==> InOrder(files[i], files[j], compare)
  }

  lemma InOrderTransitive(f: FileEntry, g: FileEntry, h: FileEntry, compare: (string, string) -> int)
    requires IsConsistentComparator(compare)
    requires InOrder(f, g, compare) && InOrder(g, h, compare)
    ensures InOrder(f, h, compare)
  {
  }

  /** The first `n` files are in order. */
  ghost predicate SortedPrefix(s: seq<FileEntry>, n: nat, compare: (string, string) -> int)
    requires n <= |s|
  {
    forall p, q :: 0 <= p < q < n ==> InOrder(s[p], s[q], compare)
  }

  /**
   * While file `i` sinks into the sorted prefix, it sits at `j`: the other files up to `i` are in
   * order, and it is in order with everything after it.
   */
  ghost predicate Inserting(s: seq<FileEntry>, i: nat, j: nat, compare: (string, string) -> int)
    requires j <= i < |s|
  {
    && (forall p, q :: 0 <= p < q <= i && p != j && q != j ==> InOrder(s[p], s[q], compare))
    && (forall q :: j < q <= i ==> InOrder(s[j], s[q], compare))
  }

  lemma StartInserting(s: seq<FileEntry>, i: nat, compare: (string, string) -> int)
    requires i < |s| && SortedPrefix(s, i, compare)
    ensures Inserting(s, i, i, compare)
  {
  }

  /** Swapping the sinking file with a predecessor that the comparator puts after it keeps the state. */
  lemma SwapStep(s: seq<FileEntry>, i: nat, j: nat, compare: (string, string) -> int)
    requires IsConsistentComparator(compare)
    requires 0 < j <= i < |s| && Inserting(s, i, j, compare)
    requires Decodable(s[j - 1]) && Decodable(s[j]) && compare(DisplayName(s[j - 1]), DisplayName(s[j])) > 0
    ensures Inserting(s[j - 1 := s[j]][j := s[j - 1]], i, j - 1, compare)
  {
  }

  /** The sinking file stops behind a predecessor that the comparator puts no later: the prefix is sorted. */
  lemma StopStep(s: seq<FileEntry>, i: nat, j: nat, compare: (string, string) -> int)
    requires IsConsistentComparator(compare)
    requires 0 < j <= i < |s| && Inserting(s, i, j, compare) && InOrder(s[j - 1], s[j], compare)
    ensures SortedPrefix(s, i + 1, compare)
  {
    forall p | 0 <= p < j - 1
      ensures InOrder(s[p], s[j], compare)
    {
      InOrderTransitive(s[p], s[j - 1], s[j], compare);
    }
  }

  /** Once two or more files are sorted, every name decodes. */
  lemma SortedAllDecodable(s: seq<FileEntry>, compare: (string, string) -> int)
    requires 2 <= |s| && SortedPrefix(s, |s|, compare)
    ensures AllDecodable(s)
  {
    forall f | f in s
      ensures Decodable(f)
    {
      var k :| 0 <= k < |s| && s[k] == f;
      if k == 0 {
        assert InOrder(s[0], s[1], compare);
      } else {
        assert InOrder(s[0], s[k], compare);
      }
    }
  }

  /** Reordering files keeps every name decodable. */
  lemma PermutationAllDecodable(s: seq<FileEntry>, t: seq<FileEntry>)
    requires multiset(s) == multiset(t) && AllDecodable(s)
    ensures AllDecodable(t)
  {
    forall f | f in t
      ensures Decodable(f)
    {
      assert f in multiset(s);
    }
  }

  /**
   * `videoFiles.sort(...)` with the comparator on decoded names, as an insertion sort. The
   * comparator decodes both names on every call, so the first name that does not decode makes
   * the sort throw. Two or more files are each compared at least once; one file or none is
   * never compared.
   */
  method SortByDisplayName(a: array<FileEntry>, compare: (string, string) -> int) returns (failure: Option<UriError>)
    requires IsConsistentComparator(compare)
    modifies a
    ensures multiset(a[..]) == multiset(old(a[..]))
    ensures failure.None? <==> a.Length < 2 || AllDecodable(old(a[..]))
    ensures failure.None? ==> SortedByDisplayName(a[..], compare)
    ensures failure.Some? ==> exists f <- old(a[..]) :: DecodeFileName(f.name) == Err(failure.value)
  {
    if a.Length < 2 {
      return None;
    }
    var i := 1;
    while i < a.Length
      invariant 1 <= i <= a.Length
      invariant multiset(a[..]) == multiset(old(a[..]))
      invariant SortedPrefix(a[..], i, compare)
    {
      StartInserting(a[..], i, compare);
      var j := i;
      while 0 < j
        invariant 0 <= j <= i
        invariant multiset(a[..]) == multiset(old(a[..]))
        invariant Inserting(a[..], i, j, compare)
      {
        var left := DecodeFileName(a[j - 1].name);
        if left.Err? {
          assert a[j - 1] in multiset(old(a[..]));
          assert a[j - 1] in old(a[..]);
          return Some(left.error);
        }
        var right := DecodeFileName(a[j].name);
        if right.Err? {
          assert a[j] in multiset(old(a[..]));
          assert a[j] in old(a[..]);
          return Some(right.error);
        }
        if compare(left.value, right.value) <= 0 {
          StopStep(a[..], i, j, compare);
          break;
        }
        SwapStep(a[..], i, j, compare);
        a[j - 1], a[j] := a[j], a[j - 1];
        j := j - 1;
      }
      i := i + 1;
    }
    SortedAllDecodable(a[..], compare);
    PermutationAllDecodable(a[..], old(a[..]));
    return None;
  }

  /** The job the per-file loop hands the host for a file whose name decodes. */
  function JobFor(f: FileEntry): (job: SequenceJob)
    requires Decodable(f)
  {
    SequenceJob(f.fsName, SequenceName(DisplayName(f)))
  }

  /**
   * For a video file the job imports the file's own path into a sequence named after its decoded
   * stem: the decoded name without its video extension, then `_Sequence`.
   */
  lemma JobForVideoFile(f: FileEntry)
    requires Decodable(f) && HasVideoExtension(f.name)
    ensures var stem := f.name[..|f.name| - |ExtensionOf(f.name)|];
            && DecodeFileName(stem).Ok?
            && JobFor(f) == SequenceJob(f.fsName, DecodeFileName(stem).value + SequenceSuffix)
  {
    SequenceNameDropsVideoExtension(f.name);
  }

  /**
   * The per-file loop: decode the name, cut it at its last dot, append `_Sequence`, import the file
   * and create the sequence. A name that does not decode throws before its file is imported, so the
   * files before it have had their jobs and no later file has.
   */
  method CreateSequences(videoFiles: seq<FileEntry>) returns (jobs: seq<SequenceJob>, failure: Option<UriError>)
    ensures failure.None? <==> AllDecodable(videoFiles)
    ensures failure.None? ==> |jobs| == |videoFiles|
    ensures failure.Some? ==> |jobs| < |videoFiles| && DecodeFileName(videoFiles[|jobs|].name) == Err(failure.value)
    ensures AllDecodable(videoFiles[..|jobs|])
    ensures forall k :: 0 <= k < |jobs| ==> Decodable(videoFiles[k]) && jobs[k] == JobFor(videoFiles[k])
  {
    jobs := [];
    for i := 0 to |videoFiles|
      invariant |jobs| == i
      invariant AllDecodable(videoFiles[..i])
      invariant forall k :: 0 <= k < i ==> Decodable(videoFiles[k]) && jobs[k] == JobFor(videoFiles[k])
    {
      var videoFile := videoFiles[i];
      var decodedFileName := DecodeFileName(videoFile.name);
      if decodedFileName.Err? {
        assert videoFile in videoFiles;
        return jobs, Some(decodedFileName.error);
      }
      var fileNameWithoutExt := JsStrings.Slice(decodedFileName.value, 0, JsStrings.LastIndexOf(decodedFileName.value, '.'));
      var sequenceName := fileNameWithoutExt + SequenceSuffix;
      jobs := jobs + [SequenceJob(videoFile.fsName, sequenceName)];
      assert videoFiles[..i + 1] == videoFiles[..i] + [videoFile];
    }
    assert videoFiles[..|videoFiles|] == videoFiles;
    failure := None;
  }

  /**
   * The whole `try` block. `projectOpen` and `folder` stand for `app.project` and the folder dialog;
   * the listing is `getFiles()`. On success the run returns the sorted video files and one job per file,
   * in that order; whatever is thrown reaches the `catch` with no job created.
   */
  method Run(projectOpen: bool, folder: Option<seq<FileEntry>>, compare: (string, string) -> int)
    returns (videoFiles: seq<FileEntry>, jobs: seq<SequenceJob>, failure: Option<RunError>)
    requires IsConsistentComparator(compare)
    ensures failure.Some? ==> jobs == []
    ensures failure.None? <==>
              && projectOpen && folder.Some?
              && KeepByName(HasVideoExtension, folder.value) != []
              && AllDecodable(KeepByName(HasVideoExtension, folder.value))
    ensures failure.Some? && failure.value.Raised? ==>
              failure.value.message in {NoProjectMessage, NoFolderMessage, NoVideoFilesMessage}
    ensures !projectOpen ==> failure == Some(Raised(NoProjectMessage))
    ensures projectOpen && folder.None? ==> failure == Some(Raised(NoFolderMessage))
    ensures projectOpen && folder.Some? ==>
              var selected := KeepByName(HasVideoExtension, folder.value);
              && (failure == Some(Raised(NoVideoFilesMessage)) <==> selected == [])
              && (failure.Some? && failure.value.UriErrorThrown? <==> selected != [] && !AllDecodable(selected))
              && (failure.Some? && failure.value.UriErrorThrown? ==>
                    exists f <- selected :: DecodeFileName(f.name) == Err(failure.value.cause))
              && (failure.None? ==>
                    && multiset(videoFiles) == multiset(selected)
                    && SortedByDisplayName(videoFiles, compare)
                    && |jobs| == |videoFiles|
                    && forall k :: 0 <= k < |jobs| ==> Decodable(videoFiles[k]) && jobs[k] == JobFor(videoFiles[k]))
  {
    videoFiles, jobs := [], [];
    if !projectOpen {
      return videoFiles, jobs, Some(Raised(NoProjectMessage));
    }
    if folder.None? {
      return videoFiles, jobs, Some(Raised(NoFolderMessage));
    }
    var selected := CollectVideoFiles(folder.value);
    var buffer := new FileEntry[|selected|](k requires 0 <= k < |selected| => selected[k]);
    assert buffer[..] == selected;
    var sortFailure := SortByDisplayName(buffer, compare);
    if sortFailure.Some? {
      return videoFiles, jobs, Some(UriErrorThrown(sortFailure.value));
    }
    videoFiles := buffer[..];
    if |videoFiles| == 0 {
      return videoFiles, jobs, Some(Raised(NoVideoFilesMessage));
    }
    if 2 <= buffer.Length {
      PermutationAllDecodable(selected, videoFiles);
    }
    var loopFailure;
    jobs, loopFailure := CreateSequences(videoFiles);
    if loopFailure.Some? {
      assert |videoFiles| == 1 && |jobs| == 0;
      assert videoFiles[0] in multiset(selected);
      return videoFiles, [], Some(UriErrorThrown(loopFailure.value));
    }
    PermutationAllDecodable(videoFiles, selected);
    failure := None;
  }
}
