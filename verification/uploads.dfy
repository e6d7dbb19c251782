/**
 The attachment widget's handling of a batch of chosen or dropped files
 (`handleFileSelection`): files over 10 MiB are refused with an error
 message each, the rest are appended to the area's file list in the order
 given, and the area's caption is updated with the size of the whole batch.
 */
module Uploads {
  import opened Wrappers
  import opened Notifications

  /** The largest accepted file, in bytes (10 MiB) */
  const MaxFileSize: nat := 10 * 1024 * 1024

  datatype File = File(name: string, size: nat)

  /** The `.file-list` element of an upload area: absent until the first
      non-empty batch arrives */
  datatype FileList = Absent | Present(items: seq<File>)

  function ItemsOf(list: FileList): seq<File> {
    match list
    case Absent => []
    case Present(items) => items
  }

  predicate Fits(f: File) {
    f.size <= MaxFileSize
  }

  function TooLarge(f: File): Notification {
    Notification("File " + f.name + " is too large. Maximum size is 10MB.", Error)
  }

  /** The files of a batch that fit, in batch order */
  function Accepted(files: seq<File>): (r: seq<File>)
    ensures |r| <= |files|
    ensures forall i | 0 <= i < |r| :: Fits(r[i])
  {
    if |files| == 0 then []
    else
      var last := files[|files| - 1];
      Accepted(files[..|files| - 1]) + (if Fits(last) then [last] else [])
  }

  /** The files of a batch that do not fit, in batch order */
  function Refused(files: seq<File>): (r: seq<File>)
    ensures forall i | 0 <= i < |r| :: !Fits(r[i])
  {
    if |files| == 0 then []
    else
      var last := files[|files| - 1];
      Refused(files[..|files| - 1]) + (if Fits(last) then [] else [last])
  }

  /** One error message per file that does not fit, in batch order: the
      i-th message names the i-th refused file */
  function Rejections(files: seq<File>): (r: seq<Notification>)
    ensures forall i | 0 <= i < |r| :: r[i].kind == Error
    ensures |r| == |Refused(files)|
    ensures forall i | 0 <= i < |r| :: r[i] == TooLarge(Refused(files)[i])
  {
    if |files| == 0 then []
    else
      var last := files[|files| - 1];
      Rejections(files[..|files| - 1]) + (if Fits(last) then [] else [TooLarge(last)])
  }

  /** `handleFileSelection(files, area)`. Returns the area's file list
      afterwards, the error messages shown, and the file count passed on to
      the caption (None when the caption is not touched). */
  method HandleFileSelection(list: FileList, files: seq<File>)
    returns (list': FileList, errors: seq<Notification>, shownCount: Option<nat>)
    ensures shownCount.Some? <==> |files| > 0
    ensures shownCount.Some? ==> shownCount.value == |files|
    ensures |files| == 0 ==> list' == list && errors == []
    ensures |files| > 0 ==> list' == Present(ItemsOf(list) + Accepted(files))
    ensures |files| > 0 ==> errors == Rejections(files)
  {
    if |files| == 0 {
      return list, [], None;
    }
    var items := ItemsOf(list);
    errors := [];
    var i := 0;
    while i < |files|
      invariant 0 <= i <= |files|
      invariant items == ItemsOf(list) + Accepted(files[..i])
      invariant errors == Rejections(files[..i])
    {
      var f := files[i];
      BatchStep(files, i);
      if f.size > MaxFileSize {
        errors := errors + [TooLarge(f)];
      } else {
        items := items + [f];
      }
      i := i + 1;
    }
    assert files[..|files|] == files;
    list' := Present(items);
    shownCount := Some(|files|);
  }

  /** Taking one more file of the batch adds at most that file to the kept
      ones or its message to the reported ones. */
  lemma BatchStep(files: seq<File>, i: int)
    requires 0 <= i < |files|
    ensures Accepted(files[..i + 1]) == Accepted(files[..i]) + (if Fits(files[i]) then [files[i]] else [])
    ensures Rejections(files[..i + 1]) == Rejections(files[..i]) + (if Fits(files[i]) then [] else [TooLarge(files[i])])
  {
    assert files[..i + 1][..i] == files[..i];
  }

  /** Filtering distributes over concatenation: acceptance of a file does
      not depend on its neighbours and the batch order is kept. */
  lemma {:induction false} AcceptedAppend(a: seq<File>, b: seq<File>)
    ensures Accepted(a + b) == Accepted(a) + Accepted(b)
    decreases |b|
  {
    if |b| > 0 {
      var init := b[..|b| - 1];
      assert (a + b)[..|a + b| - 1] == a + init;
      AcceptedAppend(a, init);
    } else {
      assert a + b == a;
    }
  }

  /** Every file that fits is kept, as many times as it occurs, and no
      other file is. */
  lemma {:induction false} AcceptedExactly(files: seq<File>, f: File)
    ensures multiset(Accepted(files))[f] == if Fits(f) then multiset(files)[f] else 0
    decreases |files|
  {
    if |files| > 0 {
      var init := files[..|files| - 1];
      AcceptedExactly(init, f);
      assert files == init + [files[|files| - 1]];
    }
  }

  /** Each file in a batch is either kept or refused, never both. */
  lemma {:induction false} KeptOrRefused(files: seq<File>)
    ensures multiset(Accepted(files)) + multiset(Refused(files)) == multiset(files)
    decreases |files|
  {
    if |files| > 0 {
      var init := files[..|files| - 1];
      var last := files[|files| - 1];
      KeptOrRefused(init);
      assert files == init + [last];
      if Fits(last) {
        assert Accepted(files) == Accepted(init) + [last];
      } else {
        assert Refused(files) == Refused(init) + [last];
      }
    }
  }

  /** Every file in a batch is either kept or reported by one message. */
  lemma {:induction false} KeptPlusReported(files: seq<File>)
    ensures |Accepted(files)| + |Rejections(files)| == |files|
  {
    KeptOrRefused(files);
    assert |multiset(Accepted(files))| + |multiset(Refused(files))| == |multiset(files)|;
  }

  /** The limit is inclusive: a file of exactly 10 MiB is kept, one byte more
      is refused with one message. */
  lemma SizeLimitBoundary(name: string)
    ensures Accepted([File(name, MaxFileSize)]) == [File(name, MaxFileSize)]
    ensures Accepted([File(name, MaxFileSize + 1)]) == []
    ensures Rejections([File(name, MaxFileSize + 1)]) == [TooLarge(File(name, MaxFileSize + 1))]
  {
  }
}
