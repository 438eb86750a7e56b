/** The selection area: files dropped on it or picked in the file dialog are
    filtered down to images and passed to the page's selection handler; a
    clear button passes an empty selection. */
module DropZone {
  import opened CompressionTypes

  /** The MIME-type prefix a file must carry to be kept. */
  const ImagePrefix: string := "image/"

  /** `s.startsWith(p)`. */
  predicate StartsWith(s: string, p: string) {
    |p| <= |s| && s[..|p|] == p
  }

  /** `file.type.startsWith('image/')`. */
  predicate IsImage(f: File) {
    StartsWith(f.mime, ImagePrefix)
  }

  /** `Array.from(files).filter(file => file.type.startsWith('image/'))`. */
  function FilterImages(fs: seq<File>): (r: seq<File>)
    ensures |r| <= |fs|
    ensures forall i :: 0 <= i < |r| ==> IsImage(r[i])
    ensures forall i :: 0 <= i < |r| ==> r[i] in fs
    ensures forall i :: 0 <= i < |fs| && IsImage(fs[i]) ==> fs[i] in r
    decreases |fs|
  {
    if |fs| == 0 then []
    else FilterImages(fs[..|fs| - 1]) + (if IsImage(fs[|fs| - 1]) then [fs[|fs| - 1]] else [])
  }

  /** Filtering keeps the relative order of the files: the filter of a
      concatenation is the concatenation of the filters. */
  lemma {:induction false} FilterImagesAppend(a: seq<File>, b: seq<File>)
    ensures FilterImages(a + b) == FilterImages(a) + FilterImages(b)
    decreases |b|
  {
    if |b| > 0 {
      var b' := b[..|b| - 1];
      assert (a + b)[..|a + b| - 1] == a + b';
      FilterImagesAppend(a, b');
    } else {
      assert a + b == a;
    }
  }

  /** A list of images passes the filter unchanged, and only such a list does. */
  lemma {:induction false} FilterImagesKeepsImages(fs: seq<File>)
    ensures FilterImages(fs) == fs <==> forall i :: 0 <= i < |fs| ==> IsImage(fs[i])
    decreases |fs|
  {
    if |fs| > 0 {
      var init := fs[..|fs| - 1];
      FilterImagesKeepsImages(init);
      assert fs == init + [fs[|fs| - 1]];
      if forall i :: 0 <= i < |fs| ==> IsImage(fs[i]) {
        assert forall i :: 0 <= i < |init| ==> IsImage(init[i]) by {
          forall i | 0 <= i < |init| ensures IsImage(init[i]) {
            assert init[i] == fs[i];
          }
        }
      }
    }
  }

  /** Filtering twice is filtering once. */
  lemma FilterImagesIdempotent(fs: seq<File>)
    ensures FilterImages(FilterImages(fs)) == FilterImages(fs)
  {
    FilterImagesKeepsImages(FilterImages(fs));
  }

  /** The component's own state: the number it shows as selected. */
  datatype DropZoneState = DropZoneState(fileCount: nat)

  /** What a handler does: its new state, and the list it passed to
      `onFilesSelected`, or `None` when it did not call it. */
  datatype Effect = Effect(state: DropZoneState, selected: Option<seq<File>>)

  /** The part `handleDrop` and `handleFileInput` share: keep the images and,
      when any are left, show their number and pass them on. */
  function Offer(dz: DropZoneState, files: seq<File>): (e: Effect)
    ensures FilterImages(files) == [] ==> e == Effect(dz, None)
    ensures FilterImages(files) != [] ==>
              e.selected == Some(FilterImages(files)) && e.state.fileCount == |FilterImages(files)|
    ensures e.selected.Some? ==> 0 < |e.selected.value| <= |files|
  {
    var images := FilterImages(files);
    if |images| > 0 then Effect(DropZoneState(|images|), Some(images))
    else Effect(dz, None)
  }

  /** `handleDrop`: a drop on a disabled area does nothing. */
  function HandleDrop(dz: DropZoneState, disabled: bool, dropped: seq<File>): (e: Effect)
    ensures disabled ==> e == Effect(dz, None)
    ensures !disabled ==> e == Offer(dz, dropped)
  {
    if disabled then Effect(dz, None) else Offer(dz, dropped)
  }

  /** `handleFileInput`: the input's file list may be absent. */
  function HandleFileInput(dz: DropZoneState, chosen: Option<seq<File>>): (e: Effect)
    ensures chosen.None? ==> e == Effect(dz, None)
    ensures chosen.Some? ==> e == Offer(dz, chosen.value)
  {
    match chosen
    case Some(files) => Offer(dz, files)
    case None => Effect(dz, None)
  }

  /** The clear button: the count goes to zero and an empty list is passed on. */
  function ClearSelection(dz: DropZoneState): (e: Effect)
    ensures e.state.fileCount == 0
    ensures e.selected == Some([])
  {
    Effect(DropZoneState(0), Some([]))
  }

  /** Whatever a drop passes on is a non-empty list of images that the filter
      would leave as it is. */
  lemma SelectionIsImages(dz: DropZoneState, disabled: bool, dropped: seq<File>)
    ensures HandleDrop(dz, disabled, dropped).selected.Some? ==>
              var sel := HandleDrop(dz, disabled, dropped).selected.value;
              sel != [] && (forall i :: 0 <= i < |sel| ==> IsImage(sel[i]))
              && FilterImages(sel) == sel
  {
    if HandleDrop(dz, disabled, dropped).selected.Some? {
      FilterImagesIdempotent(dropped);
    }
  }
}
