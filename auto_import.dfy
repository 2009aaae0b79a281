/**
 * The file selection of the batch import script (`AutoImportV2.3.jsx`): the folder listing is
 * filtered for names ending in `.mp4`, whatever their case, and an empty selection ends the run.
 */
module AutoImport {
  import opened Results
  import opened JsStrings
  import opened Listing

  /** The message of the error thrown when nothing is selected. */
  const NoMp4FilesMessage := "No .mp4 files found in the selected folder."

  /** The test of the filter loop: the last four characters of the lower-cased name are `.mp4`. */
  predicate IsMp4Name(name: string)
  {
    var fileName := ToLowerCase(name);
    Substr(fileName, |fileName| - 4) == ".mp4"
  }

  /**
   * The filter loop and the empty check: the `.mp4` entries of the listing in listing order, or
   * the error when there are none.
   */
  method SelectMp4Files(allFiles: seq<FileEntry>) returns (r: Result<seq<FileEntry>, string>)
    ensures r.Err? <==> KeepByName(IsMp4Name, allFiles) == []
    ensures r.Err? ==> r.error == NoMp4FilesMessage
    ensures r.Ok? ==> r.value == KeepByName(IsMp4Name, allFiles)
  {
    var videoFiles := [];
    for i := 0 to |allFiles|
      invariant videoFiles == KeepByName(IsMp4Name, allFiles[..i])
    {
      var fileName := ToLowerCase(allFiles[i].name);
      if Substr(fileName, |fileName| - 4) == ".mp4" {
        videoFiles := videoFiles + [allFiles[i]];
      }
      assert allFiles[..i + 1][..i] == allFiles[..i];
    }
    assert allFiles[..|allFiles|] == allFiles;
    if |videoFiles| == 0 {
      return Err(NoMp4FilesMessage);
    }
    return Ok(videoFiles);
  }

  /**
   * A name is selected exactly when it has at least four characters and its last four are `.`, `m`,
   * `p` and `4`, the letters in either case: the dot belongs to the suffix, and nothing before it matters.
   */
  lemma Mp4NameSuffix(name: string)
    ensures IsMp4Name(name) <==>
              && |name| >= 4
              && name[|name| - 4] == '.'
              && LowerChar(name[|name| - 3]) == 'm'
              && LowerChar(name[|name| - 2]) == 'p'
              && name[|name| - 1] == '4'
  {
    var fileName := ToLowerCase(name);
    var suffix := Substr(fileName, |fileName| - 4);
    if |name| >= 4 {
      var n := |name|;
      assert suffix == fileName[n - 4..];
      assert suffix == ".mp4" <==>
        suffix[0] == '.' && suffix[1] == 'm' && suffix[2] == 'p' && suffix[3] == '4';
    } else {
      assert |suffix| < 4;
    }
  }

  /** Names the filter keeps, whatever their case. */
  lemma Mp4NamesKept()
    ensures IsMp4Name("CLIP.MP4") && IsMp4Name("clip.Mp4") && IsMp4Name(".mp4")
  {
    Mp4NameSuffix("CLIP.MP4");
    Mp4NameSuffix("clip.Mp4");
    Mp4NameSuffix(".mp4");
  }

  /** Names the filter rejects: no dot before `mp4`, a longer extension, another extension, too short. */
  lemma Mp4NamesRejected()
    ensures !IsMp4Name("videoamp4") && !IsMp4Name("video.mp4x") && !IsMp4Name("a.mov")
    ensures !IsMp4Name("mp4") && !IsMp4Name("")
  {
    Mp4NameSuffix("videoamp4");
    Mp4NameSuffix("video.mp4x");
    Mp4NameSuffix("a.mov");
    Mp4NameSuffix("mp4");
    Mp4NameSuffix("");
  }

  /**
   * The selection holds every `.mp4` entry as often as the listing does and nothing else, and it
   * keeps the listing's order; which entries are chosen depends on their names alone.
   */
  lemma SelectionIsOrderedSubsequence(allFiles: seq<FileEntry>)
    ensures forall e :: multiset(KeepByName(IsMp4Name, allFiles))[e] == if IsMp4Name(e.name) then multiset(allFiles)[e] else 0
    ensures exists positions ::
              && PicksPositions(allFiles, positions, KeepByName(IsMp4Name, allFiles))
              && (forall k :: 0 <= k < |allFiles| ==> (k in positions <==> IsMp4Name(allFiles[k].name)))
  {
    forall e {
      KeepByNameCounts(IsMp4Name, allFiles, e);
    }
    KeepByNamePicksAccepted(IsMp4Name, allFiles);
  }

  /** The selection is empty, and the run fails, exactly when no entry (or none at all) ends in `.mp4`. */
  lemma EmptySelectionIff(allFiles: seq<FileEntry>)
    ensures KeepByName(IsMp4Name, allFiles) == [] <==> forall e <- allFiles :: !IsMp4Name(e.name)
  {
    forall e {
      KeepByNameCounts(IsMp4Name, allFiles, e);
    }
    if forall e <- allFiles :: !IsMp4Name(e.name) {
      assert multiset(KeepByName(IsMp4Name, allFiles)) == multiset{};
    }
  }
}
