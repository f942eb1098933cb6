/** The upload session: the list of accepted files, the entry selected for editing
    and the convert button's state, with the acceptance filter, removal, applying an
    edit, and the integer rules that pick the edited image's width and height. */
module FileUpload {
  import opened Common

  /** The per-file size limit, 5 MiB. */
  const MaxFileSize: nat := 5 * 1024 * 1024

  const NoValidFilesAlert: string := "Please upload valid image files."
  const EditFailedAlert: string := "Failed to apply edit. Please try again."

  // ---------------------------------------------------------------------------
  // Acceptance filter

  /** A file is accepted when its type starts with `image/` and it is at most 5 MiB. */
  predicate IsAcceptable(f: SourceFile)
  {
    StartsWith(f.mimeType, "image/") && f.size <= MaxFileSize
  }

  /** `Array.from(newFiles).filter(...)`: the acceptable files, in their order. */
  function ValidFiles(fs: seq<SourceFile>): (r: seq<SourceFile>)
    ensures |r| <= |fs|
  {
    if fs == [] then []
    else
      var last := fs[|fs| - 1];
      ValidFiles(fs[..|fs| - 1]) + (if IsAcceptable(last) then [last] else [])
  }

  /** The filter keeps exactly the acceptable files. */
  lemma {:induction false} ValidFilesMembers(fs: seq<SourceFile>)
    ensures forall f :: f in ValidFiles(fs) ==> f in fs && IsAcceptable(f)
    ensures forall f :: f in fs && IsAcceptable(f) ==> f in ValidFiles(fs)
  {
    if fs != [] {
      var init := fs[..|fs| - 1];
      ValidFilesMembers(init);
      assert fs == init + [fs[|fs| - 1]];
    }
  }

  /** Filtering keeps the relative order of the files. */
  lemma {:induction false} ValidFilesAppend(a: seq<SourceFile>, b: seq<SourceFile>)
    ensures ValidFiles(a + b) == ValidFiles(a) + ValidFiles(b)
    decreases |b|
  {
    if b == [] {
      assert a + b == a;
    } else {
      assert (a + b)[..|a + b| - 1] == a + b[..|b| - 1];
      ValidFilesAppend(a, b[..|b| - 1]);
    }
  }

  /** A list of acceptable files passes the filter unchanged. */
  lemma {:induction false} ValidFilesKeepsAcceptable(fs: seq<SourceFile>)
    requires forall i :: 0 <= i < |fs| ==> IsAcceptable(fs[i])
    ensures ValidFiles(fs) == fs
  {
    if fs != [] {
      var init := fs[..|fs| - 1];
      assert forall i :: 0 <= i < |init| ==> IsAcceptable(init[i]) by {
        forall i | 0 <= i < |init| ensures IsAcceptable(init[i]) {
          assert init[i] == fs[i];
        }
      }
      ValidFilesKeepsAcceptable(init);
      assert fs == init + [fs[|fs| - 1]];
    }
  }

  /** The size limit is inclusive, and the type check is a prefix check. */
  lemma SizeLimitIsInclusive(name: string)
    ensures IsAcceptable(SourceFile(name, "image/png", 5242880))
    ensures !IsAcceptable(SourceFile(name, "image/png", 5242881))
    ensures !IsAcceptable(SourceFile(name, "text/plain", 1))
    ensures !IsAcceptable(SourceFile(name, "image", 1))
  {
    assert "image/png"[..6] == "image/";
    assert "text/plain"[0] != "image/"[0];
  }

  // ---------------------------------------------------------------------------
  // Selection after a removal

  /** What removing entry `index` of a `count`-entry list does to the selection,
      as written: nothing, so the index may now designate a different entry. */
  function SelectionAfterRemoveAsWritten(selected: Option<nat>, index: nat, count: nat): (r: Option<nat>)
    ensures r == selected
  {
    selected
  }

  /** With entries [a, b, c], editing b and then removing a leaves the selection on
      c: applying the edit would replace c, a file the user never selected. */
  lemma StaleSelectionDesignatesAnotherFile(a: SourceFile, b: SourceFile, c: SourceFile)
    requires b != c
    ensures var before := [a, b, c];
            var after := before[..0] + before[1..];
            var s := SelectionAfterRemoveAsWritten(Some(1), 0, |before|);
            s == Some(1) && after[s.value] == c && after[s.value] != before[1]
  {
  }

  /** The selection after a removal, corrected: cleared when its entry is removed,
      shifted down when an earlier entry is removed. */
  function SelectionAfterRemove(selected: Option<nat>, index: nat, count: nat): (r: Option<nat>)
    ensures index >= count ==> r == selected
    ensures index < count ==> (r.None? <==> selected.None? || selected.value == index)
    ensures index < count && selected.Some? && selected.value < count && r.Some? ==> r.value < count - 1
  {
    if index >= count then selected
    else
      match selected
      case None => None
      case Some(s) => if s == index then None else if s > index then Some(s - 1) else Some(s)
  }

  /** After the corrected update the selection still designates the entry the user
      selected, or is cleared because that entry was removed. */
  lemma SelectionFollowsEntry(files: seq<SourceFile>, selected: Option<nat>, index: nat)
    requires index < |files|
    requires selected.Some? ==> selected.value < |files|
    ensures var after := files[..index] + files[index + 1..];
            var r := SelectionAfterRemove(selected, index, |files|);
            && (r.Some? ==> selected.Some? && r.value < |after| && after[r.value] == files[selected.value])
            && (r.None? <==> selected.None? || selected.value == index)
  {
  }

  // ---------------------------------------------------------------------------
  // Edit inputs and dimensions

  /** `parseInt(value, 10)`: a number, or NaN. */
  datatype Parsed = NaN | Int(value: int)

  /** A parsed value is truthy when it is a number other than 0. */
  predicate Truthy(p: Parsed)
  {
    p.Int? && p.value != 0
  }

  /** `parseInt(value, 10) || fallback` */
  function OrElse(p: Parsed, fallback: int): (r: int)
    ensures r == fallback || (p.Int? && r == p.value)
    ensures r == 0 ==> fallback == 0
  {
    if Truthy(p) then p.value else fallback
  }

  datatype PreviewSettings = PreviewSettings(cropWidth: int, cropHeight: int,
                                             resizeWidth: int, resizeHeight: int, rotateAngle: int)

  /** The values `updatePreview` draws with: invalid or zero inputs fall back to the
      original dimensions, and the rotation to 0. No dimension is ever 0 unless the
      original one is. */
  function Preview(cropWidth: Parsed, cropHeight: Parsed, resizeWidth: Parsed, resizeHeight: Parsed,
                   rotateAngle: Parsed, imgWidth: nat, imgHeight: nat): (s: PreviewSettings)
    ensures s.cropWidth != 0 || imgWidth == 0
    ensures s.cropHeight != 0 || imgHeight == 0
    ensures s.resizeWidth != 0 || imgWidth == 0
    ensures s.resizeHeight != 0 || imgHeight == 0
  {
    PreviewSettings(OrElse(cropWidth, imgWidth), OrElse(cropHeight, imgHeight),
                    OrElse(resizeWidth, imgWidth), OrElse(resizeHeight, imgHeight),
                    OrElse(rotateAngle, 0))
  }

  /** An input that is not a non-zero number shows the original dimension (and a
      rotation of 0), any other input shows its own value; the fields filled in
      when an image is loaded for editing reproduce the original size with no
      rotation. */
  lemma PreviewDefaults(cropWidth: Parsed, cropHeight: Parsed, resizeWidth: Parsed, resizeHeight: Parsed,
                        rotateAngle: Parsed, imgWidth: nat, imgHeight: nat)
    ensures var s := Preview(cropWidth, cropHeight, resizeWidth, resizeHeight, rotateAngle, imgWidth, imgHeight);
            && (!Truthy(cropWidth) ==> s.cropWidth == imgWidth)
            && (!Truthy(cropHeight) ==> s.cropHeight == imgHeight)
            && (!Truthy(resizeWidth) ==> s.resizeWidth == imgWidth)
            && (!Truthy(resizeHeight) ==> s.resizeHeight == imgHeight)
            && (!Truthy(rotateAngle) ==> s.rotateAngle == 0)
            && (Truthy(cropWidth) ==> s.cropWidth == cropWidth.value)
            && (Truthy(cropHeight) ==> s.cropHeight == cropHeight.value)
            && (Truthy(resizeWidth) ==> s.resizeWidth == resizeWidth.value)
            && (Truthy(resizeHeight) ==> s.resizeHeight == resizeHeight.value)
            && (Truthy(rotateAngle) ==> s.rotateAngle == rotateAngle.value)
    ensures Preview(Int(imgWidth), Int(imgHeight), Int(imgWidth), Int(imgHeight), Int(0), imgWidth, imgHeight)
         == PreviewSettings(imgWidth, imgHeight, imgWidth, imgHeight, 0)
  {
  }

  function Min(a: int, b: int): int
  {
    if a < b then a else b
  }

  /** The canvas size `editImage` picks: a crop pair given in full is clamped to the
      original size, a resize pair given in full overrides it, and a pair with a
      missing or zero value is ignored. */
  method EditDimensions(imgWidth: nat, imgHeight: nat, cropWidth: Parsed, cropHeight: Parsed,
                        resizeWidth: Parsed, resizeHeight: Parsed)
    returns (width: int, height: int)
    ensures Truthy(resizeWidth) && Truthy(resizeHeight) ==> width == resizeWidth.value && height == resizeHeight.value
    ensures !(Truthy(resizeWidth) && Truthy(resizeHeight)) ==> width <= imgWidth && height <= imgHeight
    ensures !(Truthy(resizeWidth) && Truthy(resizeHeight)) && Truthy(cropWidth) && Truthy(cropHeight)
            ==> width == Min(cropWidth.value, imgWidth) && height == Min(cropHeight.value, imgHeight)
    ensures !(Truthy(resizeWidth) && Truthy(resizeHeight)) && !(Truthy(cropWidth) && Truthy(cropHeight))
            ==> width == imgWidth && height == imgHeight
  {
    width := imgWidth;
    height := imgHeight;
    if Truthy(cropWidth) && Truthy(cropHeight) {
      width := Min(cropWidth.value, width);
      height := Min(cropHeight.value, height);
    }
    if Truthy(resizeWidth) && Truthy(resizeHeight) {
      width := resizeWidth.value;
      height := resizeHeight.value;
    }
  }

  // ---------------------------------------------------------------------------
  // Session state

  /** The module-level `files` and `selectedFileIndex`, and the convert button's
      `disabled` flag. */
  class UploadSession {
    var files: seq<SourceFile>
    var selectedFileIndex: Option<nat>
    var convertDisabled: bool

    /** The button's initial state comes from the page, which is not part of this model. */
    constructor (convertInitiallyDisabled: bool)
      ensures files == [] && selectedFileIndex == None && convertDisabled == convertInitiallyDisabled
    {
      files := [];
      selectedFileIndex := None;
      convertDisabled := convertInitiallyDisabled;
    }

    /** `getFiles` */
    method GetFiles() returns (r: seq<SourceFile>)
      ensures r == files
    {
      r := files;
    }

    /** `updateConvertButton`: disabled exactly when the list is empty. */
    method UpdateConvertButton()
      modifies this`convertDisabled
      ensures convertDisabled <==> files == []
    {
      convertDisabled := |files| == 0;
    }

    /** `handleFiles`: append the acceptable files, or alert and change nothing when
        there are none. */
    method HandleFiles(incoming: seq<SourceFile>) returns (alert: Option<string>)
      modifies this`files, this`convertDisabled
      ensures ValidFiles(incoming) == [] ==>
                alert == Some(NoValidFilesAlert) && files == old(files) && convertDisabled == old(convertDisabled)
      ensures ValidFiles(incoming) != [] ==>
                alert == None && files == old(files) + ValidFiles(incoming) && !convertDisabled
    {
      var validFiles := ValidFiles(incoming);
      if |validFiles| == 0 {
        return Some(NoValidFilesAlert);
      }
      files := files + validFiles;
      UpdateConvertButton();
      alert := None;
    }

    /** `showEditControls`: select an entry for editing. */
    method ShowEditControls(index: nat)
      modifies this`selectedFileIndex
      ensures selectedFileIndex == Some(index)
    {
      selectedFileIndex := Some(index);
    }

    /** The remove button: `files.splice(index, 1)`, which removes nothing past the
        end, then the button update. The selection follows the corrected rule. */
    method RemoveAt(index: nat)
      modifies this`files, this`selectedFileIndex, this`convertDisabled
      ensures index < |old(files)| ==> files == old(files)[..index] + old(files)[index + 1..]
      ensures index >= |old(files)| ==> files == old(files)
      ensures selectedFileIndex == SelectionAfterRemove(old(selectedFileIndex), index, |old(files)|)
      ensures convertDisabled <==> files == []
    {
      selectedFileIndex := SelectionAfterRemove(selectedFileIndex, index, |files|);
      if index < |files| {
        files := files[..index] + files[index + 1..];
      }
      UpdateConvertButton();
    }

    /** The apply-edit button. `edited` is what `editImage` settles with: the size
        of the re-encoded image, or None when it rejects. Nothing happens without a
        selection; a selection past the end has no file, so `editImage` rejects;
        otherwise the selected entry alone is replaced by a file of the same name
        and type. */
    method ApplyEdit(edited: Option<nat>) returns (alert: Option<string>)
      modifies this`files
      ensures selectedFileIndex.None? ==> files == old(files) && alert == None
      ensures selectedFileIndex.Some? && (selectedFileIndex.value >= |old(files)| || edited.None?)
              ==> files == old(files) && alert == Some(EditFailedAlert)
      ensures selectedFileIndex.Some? && selectedFileIndex.value < |old(files)| && edited.Some?
              ==> var i := selectedFileIndex.value;
                  && files == old(files)[i := SourceFile(old(files)[i].name, old(files)[i].mimeType, edited.value)]
                  && alert == None
      ensures |files| == |old(files)|
    {
      if selectedFileIndex.None? {
        return None;
      }
      var i := selectedFileIndex.value;
      if i >= |files| || edited.None? {
        return Some(EditFailedAlert);
      }
      var file := files[i];
      files := files[i := SourceFile(file.name, file.mimeType, edited.value)];
      alert := None;
    }
  }
}
