/** The files of a comparison reply and the narration input built from them. */
module Patches {

  import opened Wrappers
  import opened Strings

  /** One entry of the comparison reply's `files`; `patch` is absent for binary and
      rename-only changes. */
  datatype FileChange = FileChange(filename: string, patch: Option<string>)

  /** The line one patched file contributes, tagged with its position `idx` in the
      whole file list. */
  function Line(idx: nat, filename: string, patch: string): (line: string)
    ensures |line| == 36 + |NatToString(idx)| + |filename| + |patch|
    ensures line[..4] == "id: " && line[|line| - 1] == '\n'
  {
    "id: " + NatToString(idx) + ",filename: " + filename + " & changed content: " + patch + "\n"
  }

  /** The narration input, as the loop accumulates it: files visited in order, each one
      that carries a patch appending its line. */
  function Content(files: seq<FileChange>): (content: string)
    ensures (forall i :: 0 <= i < |files| ==> files[i].patch.None?) ==> content == ""
  {
    if |files| == 0 then ""
    else
      var idx := |files| - 1;
      var file := files[idx];
      Content(files[..idx]) + if file.patch.Some? then Line(idx, file.filename, file.patch.value) else ""
  }

  /** The positions of the files that carry a patch, in increasing order. */
  function PatchedIndices(files: seq<FileChange>): (ix: seq<nat>)
    ensures forall k :: 0 <= k < |ix| ==> ix[k] < |files| && files[ix[k]].patch.Some?
    ensures forall k, l :: 0 <= k < l < |ix| ==> ix[k] < ix[l]
    ensures forall i: nat :: i < |files| && files[i].patch.Some? ==> i in ix
  {
    if |files| == 0 then []
    else
      var last := |files| - 1;
      PatchedIndices(files[..last]) + if files[last].patch.Some? then [last] else []
  }

  /** One line per patched file, in file order, each carrying that file's original index. */
  function Lines(files: seq<FileChange>): seq<string> {
    var ix := PatchedIndices(files);
    seq(|ix|, k requires 0 <= k < |ix| => Line(ix[k], files[ix[k]].filename, files[ix[k]].patch.value))
  }

  /** The line a file adds to the narration input: nothing when it has no patch. */
  function Contribution(idx: nat, file: FileChange): seq<string> {
    if file.patch.Some? then [Line(idx, file.filename, file.patch.value)] else []
  }

  /** Visiting one more file extends the lines by that file's contribution. */
  lemma {:induction false} LinesSnoc(files: seq<FileChange>)
    requires |files| > 0
    ensures Lines(files) == Lines(files[..|files| - 1]) + Contribution(|files| - 1, files[|files| - 1])
  {
    var last := |files| - 1;
    var init := files[..last];
    var ix0 := PatchedIndices(init);
    var ix := PatchedIndices(files);
    assert ix == ix0 + if files[last].patch.Some? then [last] else [];
    var ls0 := Lines(init);
    var ls := Lines(files);
    var extra := Contribution(last, files[last]);
    assert |ls| == |ls0| + |extra|;
    forall k | 0 <= k < |ls0|
      ensures ls[k] == ls0[k]
    {
      assert ix[k] == ix0[k];
      assert init[ix0[k]] == files[ix0[k]];
    }
    if files[last].patch.Some? {
      assert ls[|ls0|] == extra[0];
    }
    assert ls == ls0 + extra;
  }

  /** The narration input is exactly the lines of the patched files, in order: files
      without a patch contribute nothing and leave a gap in the ids. */
  lemma {:induction false} ContentIsLines(files: seq<FileChange>)
    ensures Content(files) == Concat(Lines(files))
  {
    if |files| > 0 {
      var last := |files| - 1;
      var file := files[last];
      var init := files[..last];
      ContentIsLines(init);
      LinesSnoc(files);
      if file.patch.Some? {
        ConcatSnoc(Lines(init), Line(last, file.filename, file.patch.value));
      } else {
        assert Lines(init) + [] == Lines(init);
      }
    }
  }

  /** The inner `for idx, file in enumerate(data['files'])` loop of list_commits. */
  method BuildContent(files: seq<FileChange>) returns (content: string)
    ensures content == Content(files)
    ensures content == Concat(Lines(files))
  {
    content := "";
    for idx := 0 to |files|
      invariant content == Content(files[..idx])
    {
      var file := files[idx];
      assert files[..idx + 1][..idx] == files[..idx];
      if file.patch.Some? {
        content := content + Line(idx, file.filename, file.patch.value);
      }
    }
    assert files[..|files|] == files;
    ContentIsLines(files);
  }
}
