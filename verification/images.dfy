/** Choosing the files to show: `isImage` and the filter at the head of
    `inputHandler` in resources/main.js. */
module Images {
  import opened Optional

  /** A picked file, as far as the script looks at it: its MIME type. The
      name stands for the rest of the file's identity. */
  datatype File = File(name: string, mimeType: string)

  /** What the regular expression of `isImage` looks for at the start of
      the type: the top-level media type `image` of section
      4.2 of RFC 2046, followed by the subtype separator. */
  const ImagePrefix: string := "image/"

  /** `isImage(file)`: the MIME type starts with the characters `image/`
      (matched case-sensitively, as the regular expression does). */
  function IsImage(f: File): (r: bool)
    ensures r <==> exists subtype :: f.mimeType == ImagePrefix + subtype
  {
    var t := f.mimeType;
    if |t| >= |ImagePrefix| && t[..|ImagePrefix|] == ImagePrefix then
      assert t == ImagePrefix + t[|ImagePrefix|..];
      true
    else
      false
  }

  /** The chosen files kept by `isImage`, written as the filter of
      all files but the last, followed by the last file if it is an image. */
  function FilterImages(files: seq<File>): (r: seq<File>)
    ensures |r| <= |files|
    ensures forall f :: f in r ==> f in files && IsImage(f)
  {
    if |files| == 0 then []
    else
      var last := files[|files| - 1];
      FilterImages(files[..|files| - 1]) + (if IsImage(last) then [last] else [])
  }

  /** The positions of the image files in `files`: strictly increasing, and
      holding a position exactly when the file there is an image. */
  function ImagePositions(files: seq<File>): (ps: seq<nat>)
    ensures forall j :: 0 <= j < |ps| ==> ps[j] < |files|
    ensures forall j, k :: 0 <= j < k < |ps| ==> ps[j] < ps[k]
    ensures forall i :: 0 <= i < |files| ==> (IsImage(files[i]) <==> i in ps)
  {
    if |files| == 0 then []
    else
      var n := |files| - 1;
      var init := files[..n];
      var rest := ImagePositions(init);
      assert forall i :: 0 <= i < n ==> files[i] == init[i];
      rest + (if IsImage(files[n]) then [n] else [])
  }

  /** The filter keeps exactly the image files, in their input order: its
      result is `files` read at the image positions, which are strictly
      increasing and hold a position exactly when the file there is an
      image (the contract of `ImagePositions`). */
  lemma {:induction false} FilterImagesIsImageSubsequence(files: seq<File>)
    ensures |ImagePositions(files)| == |FilterImages(files)|
    ensures forall j :: 0 <= j < |ImagePositions(files)| ==>
      files[ImagePositions(files)[j]] == FilterImages(files)[j]
  {
    if |files| > 0 {
      var n := |files| - 1;
      var init := files[..n];
      FilterImagesIsImageSubsequence(init);
      var ps, r := ImagePositions(files), FilterImages(files);
      var ps', r' := ImagePositions(init), FilterImages(init);
      assert |ps'| == |r'|;
      forall j | 0 <= j < |ps'| ensures files[ps[j]] == r[j] {
        assert ps[j] == ps'[j] && r[j] == r'[j];
        assert files[ps'[j]] == init[ps'[j]];
      }
    }
  }

  /** What `inputHandler` decides: the slideshow is started, with the image
      files, if at least one of the picked files is an image; otherwise
      nothing happens and `None` is returned. */
  function InputHandler(files: seq<File>): (started: Option<seq<File>>)
    ensures started.Some? <==> exists i :: 0 <= i < |files| && IsImage(files[i])
    ensures started.Some? ==> started.value == FilterImages(files) && |started.value| > 0
  {
    var images := FilterImages(files);
    FilterImagesIsImageSubsequence(files);
    var ps := ImagePositions(files);
    if |images| > 0 then
      assert IsImage(files[ps[0]]);
      Some(images)
    else
      assert ps == [];
      None
  }
}
