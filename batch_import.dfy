/**
 * The helper functions of the sequence-per-file import script (`BatchImportSequence1of2_V1.jsx`):
 * the extension test `isVideoFile`, the display-name decoder `decodeFileName`, and the sequence
 * name the main body derives from a decoded name.
 */
module BatchImport {
  import opened Results
  import opened JsStrings
  import opened UriDecoding
  import PercentEncoding
  import AutoImport

  /** The extensions `isVideoFile` accepts, dot included, in lower case. */
  const VideoExtensions: seq<string> := [".mp4", ".mov", ".avi", ".wmv", ".flv", ".mkv", ".webm"]

  /** What the main body appends to a file's decoded stem to name its sequence. */
  const SequenceSuffix := "_Sequence"

  /**
   * `fileName.slice(fileName.lastIndexOf("."))`: the name from its last dot on. For a name without
   * a dot, `lastIndexOf` gives -1 and the slice is the last character.
   */
  function ExtensionOf(fileName: string): (ext: string)
    ensures |ext| <= |fileName| && ext == fileName[|fileName| - |ext|..]
    ensures '.' in fileName ==> ext != [] && ext[0] == '.' && '.' !in ext[1..]
    ensures '.' !in fileName ==> |ext| == if fileName == [] then 0 else 1
  {
    Slice(fileName, LastIndexOf(fileName, '.'), |fileName|)
  }

  /** Whether the lower-cased extension is one of the video extensions. */
  predicate HasVideoExtension(fileName: string)
  {
    ToLowerCase(ExtensionOf(fileName)) in VideoExtensions
  }

  /** `isVideoFile`: compares the lower-cased extension with each video extension in turn. */
  method IsVideoFile(fileName: string) returns (b: bool)
    ensures b == HasVideoExtension(fileName)
  {
    var ext := ToLowerCase(Slice(fileName, LastIndexOf(fileName, '.'), |fileName|));
    var i := 0;
    while i < |VideoExtensions|
      invariant 0 <= i <= |VideoExtensions|
      invariant ext !in VideoExtensions[..i]
    {
      if ext == VideoExtensions[i] {
        return true;
      }
      assert VideoExtensions[..i + 1] == VideoExtensions[..i] + [VideoExtensions[i]];
      i := i + 1;
    }
    assert VideoExtensions[..i] == VideoExtensions;
    return false;
  }

  /** Each video extension is a dot followed by at least three lower-case ASCII letters or digits. */
  lemma VideoExtensionShape(ext: string)
    requires ext in VideoExtensions
    ensures |ext| >= 4 && ext[0] == '.'
    ensures forall i :: 1 <= i < |ext| ==> 'a' <= ext[i] <= 'z' || '0' <= ext[i] <= '9'
  {
  }

  /** The extension of a name whose last dot is at `k` is the part from `k` on. */
  lemma ExtensionAtLastDot(fileName: string, k: nat)
    requires k < |fileName| && fileName[k] == '.'
    requires forall i :: k < i < |fileName| ==> fileName[i] != '.'
    ensures LastIndexOf(fileName, '.') == k
    ensures ExtensionOf(fileName) == fileName[k..]
  {
  }

  /**
   * A name passes `isVideoFile` exactly when it has a dot and the part from its last dot on,
   * lower-cased, is a video extension. So a name without a dot is rejected, only the last dot
   * counts, and case does not matter.
   */
  lemma VideoFileIffLastDot(fileName: string)
    ensures HasVideoExtension(fileName) <==>
              exists k :: 0 <= k < |fileName| && fileName[k] == '.' && '.' !in fileName[k + 1..]
                          && ToLowerCase(fileName[k..]) in VideoExtensions
  {
    var d := LastIndexOf(fileName, '.');
    var ext := ExtensionOf(fileName);
    if d >= 0 {
      assert ext == fileName[d..];
      assert '.' !in fileName[d + 1..];
    } else {
      assert |ext| <= 1;
      if HasVideoExtension(fileName) {
        VideoExtensionShape(ToLowerCase(ext));
      }
    }
  }

  /** Only the last dot counts, and case does not matter. */
  lemma VideoFilesAccepted()
    ensures HasVideoExtension("a.txt.mp4") && HasVideoExtension("A.MOV") && HasVideoExtension("clip.webm")
  {
    ExtensionAtLastDot("a.txt.mp4", 5);
    assert "a.txt.mp4"[5..] == ".mp4";
    assert ToLowerCase(".mp4") == ".mp4";
    ExtensionAtLastDot("A.MOV", 1);
    assert "A.MOV"[1..] == ".MOV";
    assert ToLowerCase(".MOV") == ".mov";
    ExtensionAtLastDot("clip.webm", 4);
    assert "clip.webm"[4..] == ".webm";
    assert ToLowerCase(".webm") == ".webm";
  }

  /** A name whose last extension is not a video one is rejected. */
  lemma VideoFilesRejected()
    ensures !HasVideoExtension("a.mp4.txt")
  {
    ExtensionAtLastDot("a.mp4.txt", 5);
    assert "a.mp4.txt"[5..] == ".txt";
    assert ToLowerCase(".txt") == ".txt";
    assert ".txt" !in VideoExtensions;
  }

  /** A name without a dot is rejected: its extension is at most one character long. */
  lemma DotlessNameRejected(fileName: string)
    requires '.' !in fileName
    ensures !HasVideoExtension(fileName)
  {
    var lowered := ToLowerCase(ExtensionOf(fileName));
    if lowered in VideoExtensions {
      VideoExtensionShape(lowered);
    }
  }

  /** Names without a dot are rejected, even when they end in the letters of an extension. */
  lemma DotlessNamesRejected()
    ensures !HasVideoExtension("mp4") && !HasVideoExtension("") && !HasVideoExtension("videoamp4")
  {
    DotlessNameRejected("mp4");
    DotlessNameRejected("");
    DotlessNameRejected("videoamp4");
  }

  /**
   * Every name the `.mp4` filter of the other script keeps also passes `isVideoFile` (the converse
   * fails: `a.mov`, accepted here, is rejected there).
   */
  lemma Mp4NamesAreVideoNames(fileName: string)
    requires AutoImport.IsMp4Name(fileName)
    ensures HasVideoExtension(fileName)
  {
    AutoImport.Mp4NameSuffix(fileName);
    var k := |fileName| - 4;
    ExtensionAtLastDot(fileName, k);
    var lowered := ToLowerCase(fileName[k..]);
    assert lowered[0] == '.' && lowered[1] == 'm' && lowered[2] == 'p' && lowered[3] == '4';
    assert lowered == ".mp4";
  }

  /** `decodeFileName`: every `+` becomes a space, and then the name is percent-decoded. */
  function DecodeFileName(fileName: string): (r: Result<string, UriError>)
    ensures r.Ok? ==> |r.value| <= |fileName|
  {
    DecodeUriComponent(ReplaceAll(fileName, '+', ' '))
  }

  /**
   * A name without `%` decodes to itself with each `+` turned into a space; in particular a
   * name with neither `%` nor `+` is returned unchanged.
   */
  lemma DecodeFileNameWithoutEscapes(fileName: string)
    requires '%' !in fileName
    ensures DecodeFileName(fileName) == Ok(ReplaceAll(fileName, '+', ' '))
    ensures '+' !in fileName ==> DecodeFileName(fileName) == Ok(fileName)
  {
    var replaced := ReplaceAll(fileName, '+', ' ');
    assert '%' !in replaced;
    DecodeWithoutEscapes(replaced);
    if '+' !in fileName {
      assert replaced == fileName;
    }
  }

  /** The `+` replacement happens before decoding: `+` is a space, while `%2B` is a `+` that stays. */
  lemma DecodeFileNameExamples()
    ensures DecodeFileName("a+b") == Ok("a b")
    ensures DecodeFileName("%2B") == Ok("+")
    ensures DecodeFileName("%20") == Ok(" ")
  {
    DecodeFileNameWithoutEscapes("a+b");
    assert ReplaceAll("a+b", '+', ' ') == "a b";
    assert ReplaceAll("%2B", '+', ' ') == "%2B";
    assert ReplaceAll("%20", '+', ' ') == "%20";
    DecodeExamples();
  }

  /** A malformed escape makes the decoder throw, with the check of the standard that rejects it. */
  lemma MalformedNameExamples()
    ensures DecodeFileName("clip%") == Err(TruncatedEscape)
    ensures DecodeFileName("%G1") == Err(NotHexDigit)
  {
    var trailing := "clip%";
    assert ReplaceAll(trailing, '+', ' ') == trailing;
    assert trailing[1..] == "lip%" && trailing[2..] == "ip%" && trailing[3..] == "p%" && trailing[4..] == "%";
    assert ReplaceAll("%G1", '+', ' ') == "%G1";
    MalformedEscapeExamples();
  }

  /**
   * A `%` anywhere in the name that is not followed by two hexadecimal digits makes `decodeFileName`
   * throw: turning `+` into a space touches neither `%` nor hexadecimal digits.
   */
  lemma MalformedNameThrows(fileName: string, k: nat)
    requires k < |fileName| && fileName[k] == '%'
    requires !(k + 2 < |fileName| && IsHexDigit(fileName[k + 1]) && IsHexDigit(fileName[k + 2]))
    ensures DecodeFileName(fileName).Err?
  {
    var replaced := ReplaceAll(fileName, '+', ' ');
    assert forall i :: 0 <= i < |fileName| ==> (IsHexDigit(replaced[i]) <==> IsHexDigit(fileName[i]));
    MalformedEscapeThrows(replaced, k);
  }

  /**
   * A `%` that does not start an escape, as in the name string `50% off.mp4`, makes the decoder
   * throw: there is no fallback to the name as given.
   */
  lemma LiteralPercentThrows()
    ensures DecodeFileName("50% off.mp4") == Err(NotHexDigit)
  {
    var name := "50% off.mp4";
    assert ReplaceAll(name, '+', ' ') == name;
    assert name[1..] == "0% off.mp4" && name[2..] == "% off.mp4";
    assert DecodeEscape(name[2..]) == Err(NotHexDigit);
  }

  /**
   * `decodeFileName` inverts percent-encoding: a name written with every reserved character
   * escaped, a `+` as `%2B` and a space as `%20`, decodes back to the original.
   */
  lemma DecodeFileNameInvertsEncode(s: string)
    ensures DecodeFileName(PercentEncoding.PercentEncode(s)) == Ok(s)
  {
    var e := PercentEncoding.PercentEncode(s);
    PercentEncoding.EncodeHasNoPlus(s);
    assert ReplaceAll(e, '+', ' ') == e;
    PercentEncoding.DecodeInvertsEncode(s);
  }

  /** The sequence name of a decoded file name: the part before its last dot, then `_Sequence`. */
  function SequenceName(decodedFileName: string): (name: string)
    ensures var n := |name| - |SequenceSuffix|;
            && 0 <= n <= |decodedFileName|
            && name == decodedFileName[..n] + SequenceSuffix
            && ('.' in decodedFileName ==> n < |decodedFileName| && decodedFileName[n] == '.' && '.' !in decodedFileName[n + 1..])
  {
    Slice(decodedFileName, 0, LastIndexOf(decodedFileName, '.')) + SequenceSuffix
  }

  /** The sequence name drops the part from the last dot on. */
  lemma SequenceNameExample()
    ensures SequenceName("clip.mp4") == "clip_Sequence"
  {
    SequenceNameCutsAtExtension("clip", ".mp4");
    assert "clip" + ".mp4" == "clip.mp4";
  }

  /** Only the last dot counts: earlier dots stay in the sequence name. */
  lemma SequenceNameKeepsEarlierDots()
    ensures SequenceName("take 2.final.mov") == "take 2.final_Sequence"
  {
    SequenceNameCutsAtExtension("take 2.final", ".mov");
    assert "take 2.final" + ".mov" == "take 2.final.mov";
  }

  /** A name without a dot loses its last character, since `slice(0, -1)` stops one short of the end. */
  lemma SequenceNameWithoutDot()
    ensures SequenceName("clip") == "cli_Sequence"
  {
    assert LastIndexOf("clip", '.') == -1;
    assert "clip"[0..3] == "cli";
  }

  /** The last occurrence in `x + y` of a character that `y` holds lies in `y`. */
  lemma {:induction false} LastIndexOfAppend(x: string, y: string, c: char)
    requires c in y
    ensures LastIndexOf(x + y, c) == |x| + LastIndexOf(y, c)
    decreases |y|
  {
    var n := |y| - 1;
    if y[n] != c {
      assert y == y[..n] + [y[n]];
      assert (x + y)[..|x + y| - 1] == x + y[..n];
      LastIndexOfAppend(x, y[..n], c);
    }
  }

  /**
   * For an accepted name that decodes, the decoded name is the decoded stem followed by the
   * extension exactly as written, and the sequence name is that decoded stem followed by `_Sequence`:
   * the video extension, and nothing else, is cut off.
   */
  lemma SequenceNameDropsVideoExtension(fileName: string)
    requires HasVideoExtension(fileName) && DecodeFileName(fileName).Ok?
    ensures var ext := ExtensionOf(fileName);
            var stem := fileName[..|fileName| - |ext|];
            && DecodeFileName(stem).Ok?
            && DecodeFileName(fileName).value == DecodeFileName(stem).value + ext
            && SequenceName(DecodeFileName(fileName).value) == DecodeFileName(stem).value + SequenceSuffix
  {
    var ext := ExtensionOf(fileName);
    var stem := fileName[..|fileName| - |ext|];
    VideoExtensionIsPlain(fileName);
    assert fileName == stem + ext;
    DecodeFileNameAppend(stem, ext);
    SequenceNameCutsAtExtension(DecodeFileName(stem).value, ext);
  }

  /** A tail with no `%`, no `+` and no leading hexadecimal digit passes through `decodeFileName` untouched. */
  lemma DecodeFileNameAppend(stem: string, tail: string)
    requires EndsEscapes(tail) && '+' !in tail
    ensures DecodeFileName(stem + tail).Ok? <==> DecodeFileName(stem).Ok?
    ensures DecodeFileName(stem).Ok? ==> DecodeFileName(stem + tail) == Ok(DecodeFileName(stem).value + tail)
  {
    assert ReplaceAll(stem + tail, '+', ' ') == ReplaceAll(stem, '+', ' ') + tail;
    DecodeAppend(ReplaceAll(stem, '+', ' '), tail);
  }

  /** A name made of a stem and an extension whose only dot is its first character is cut before that dot. */
  lemma SequenceNameCutsAtExtension(stem: string, ext: string)
    requires '.' in ext && LastIndexOf(ext, '.') == 0
    ensures SequenceName(stem + ext) == stem + SequenceSuffix
  {
    LastIndexOfAppend(stem, ext, '.');
    assert (stem + ext)[0..|stem|] == stem;
  }

  /**
   * The extension of a video file is a suffix of the name that starts with its only dot and holds
   * no `%` and no `+`.
   */
  lemma VideoExtensionIsPlain(fileName: string)
    requires HasVideoExtension(fileName)
    ensures var ext := ExtensionOf(fileName);
            && 4 <= |ext| <= |fileName| && ext == fileName[|fileName| - |ext|..]
            && EndsEscapes(ext) && '+' !in ext && '.' in ext && LastIndexOf(ext, '.') == 0
  {
    VideoFileIffLastDot(fileName);
    var d := LastIndexOf(fileName, '.');
    var ext := ExtensionOf(fileName);
    assert ext == fileName[d..];
    forall i | 0 <= i < |ext|
      ensures ext[i] != '%' && ext[i] != '+' && (0 < i ==> ext[i] != '.')
    {
      VideoExtensionShape(ToLowerCase(ext));
      assert ToLowerCase(ext)[i] == LowerChar(ext[i]);
    }
    assert ext[0] == '.';
  }
}
