/** Locating the initramfs archive inside the decompressed kernel: the
    span from the first SVR4 "new ASCII" cpio header magic to the end of the
    first `TRAILER!!!` record name (with its four NUL padding bytes) at or
    after it. */
module Cpio {
  import opened Wrappers
  import opened Errors
  import opened Bytes

  /** ASCII "07070100": the newc header magic "070701" followed by the
      first two digits of the inode field. */
  const HeaderMagic: seq<Byte> := [0x30, 0x37, 0x30, 0x37, 0x30, 0x31, 0x30, 0x30]

  /** ASCII "TRAILER!!!" followed by four NUL bytes. */
  const TrailerMagic: seq<Byte> :=
    [0x54, 0x52, 0x41, 0x49, 0x4C, 0x45, 0x52, 0x21, 0x21, 0x21, 0x00, 0x00, 0x00, 0x00]

  /** A half-open byte range `[start, end)` of a buffer. */
  datatype Span = Span(start: nat, end: nat)

  /** The trailer occurs somewhere at or after `start`. */
  predicate TrailerFollows(image: seq<Byte>, start: nat) {
    exists j :: start <= j <= |image| - |TrailerMagic| && OccursAt(image, TrailerMagic, j)
  }

  /** `span` runs from the first header magic in `image` to the end of a
      trailer: the shape of every span `LocateArchive` returns. */
  predicate Framed(image: seq<Byte>, span: Span) {
    && span.start + |TrailerMagic| <= span.end <= |image|
    && IsFirstAt(image, HeaderMagic, span.start)
    && OccursAt(image, TrailerMagic, span.end - |TrailerMagic|)
  }

  /** Finds the archive: `index` of the header magic, then `index` of the
      trailer in the suffix starting there; the span ends after the trailer. */
  function LocateArchive(image: seq<Byte>): (r: Result<Span, PatchError>)
    ensures r.Err? ==> r.error == SubsectionNotFound
    ensures !Occurs(image, HeaderMagic) ==> r.Err?
    ensures forall s :: IsFirstAt(image, HeaderMagic, s) ==> (r.Ok? <==> TrailerFollows(image, s))
    ensures r.Ok? ==> Framed(image, r.value)
    ensures r.Ok? ==> forall j :: r.value.start <= j < r.value.end - |TrailerMagic| ==>
                                   !OccursAt(image, TrailerMagic, j)
  {
    var first :- Index(image, HeaderMagic);
    FirstAtUnique(image, HeaderMagic, first);
    ArchiveFrom(image, first)
  }

  /** The trailer search once the header magic has been found at `first`. */
  function ArchiveFrom(image: seq<Byte>, first: nat): (r: Result<Span, PatchError>)
    requires IsFirstAt(image, HeaderMagic, first)
    ensures r.Err? ==> r.error == SubsectionNotFound
    ensures r.Ok? <==> TrailerFollows(image, first)
    ensures r.Ok? ==> r.value.start == first && Framed(image, r.value)
    ensures r.Ok? ==> forall j :: first <= j < r.value.end - |TrailerMagic| ==>
                                   !OccursAt(image, TrailerMagic, j)
  {
    var archiveOnwards := image[first..];
    TrailerFollowsSuffix(image, first);
    var trailer :- Index(archiveOnwards, TrailerMagic);
    TrailerSearchInSuffix(image, first, trailer);
    Ok(Span(first, first + trailer + |TrailerMagic|))
  }

  /** `TrailerFollows` is the trailer search on the suffix succeeding. */
  lemma TrailerFollowsSuffix(image: seq<Byte>, first: nat)
    requires first <= |image|
    ensures TrailerFollows(image, first) <==> Occurs(image[first..], TrailerMagic)
  {
    if TrailerFollows(image, first) {
      var j :| first <= j <= |image| - |TrailerMagic| && OccursAt(image, TrailerMagic, j);
      OccursInSuffix(image, TrailerMagic, first, j - first);
    }
    if Occurs(image[first..], TrailerMagic) {
      var i :| 0 <= i <= |image[first..]| - |TrailerMagic| && OccursAt(image[first..], TrailerMagic, i);
      OccursInSuffix(image, TrailerMagic, first, i);
    }
  }

  /** The trailer search is done on `image[first..]`; its answer, shifted,
      is the first trailer at or after `first` in `image` itself. */
  lemma TrailerSearchInSuffix(image: seq<Byte>, first: nat, trailer: nat)
    requires first <= |image|
    requires IsFirstAt(image[first..], TrailerMagic, trailer)
    ensures OccursAt(image, TrailerMagic, first + trailer)
    ensures forall j :: first <= j < first + trailer ==> !OccursAt(image, TrailerMagic, j)
  {
    OccursInSuffix(image, TrailerMagic, first, trailer);
    forall j | first <= j < first + trailer ensures !OccursAt(image, TrailerMagic, j) {
      OccursInSuffix(image, TrailerMagic, first, j - first);
    }
  }

  /** The archive bytes of a located span: they begin with the header magic
      and end with the trailer. */
  function Archive(image: seq<Byte>, span: Span): (a: seq<Byte>)
    requires Framed(image, span)
    ensures |a| >= |TrailerMagic|
    ensures a[..|HeaderMagic|] == HeaderMagic
    ensures a[|a| - |TrailerMagic|..] == TrailerMagic
  {
    var a := image[span.start..span.end];
    assert OccursAt(image, TrailerMagic, span.end - |TrailerMagic|);
    assert a[|a| - |TrailerMagic|..] == image[span.end - |TrailerMagic|..span.end];
    a
  }
}
