/** The arithmetic of the track list: description truncation, the request
    for one page of tracks, the number of pages and when the page selector
    is shown. */
module TracksPage {
  import opened Numerics

  /** `pageSize`: tracks per page. */
  const PageSize: int := 10

  /** The text appended to a truncated description. */
  const Ellipsis: string := " ..."

  /** `maxLength(t, max)`. An absent description (`null`/`undefined`) and
      the empty one are falsy and come back as they are; a description
      longer than `max` is cut to its first `max` characters (none when
      `max` is negative, as `substring` clamps) followed by ` ...`. */
  function MaxLength(t: Option<string>, max: int): (r: Option<string>)
    ensures t.None? ==> r.None?
    ensures t.Some? ==> r.Some?
    ensures t.Some? && |t.value| <= max ==> r == t
    ensures t == Some("") ==> r == t
    ensures t.Some? && t.value != "" && |t.value| > max ==>
      var keep := Max(max, 0);
      |r.value| == keep + |Ellipsis| && r.value[..keep] == t.value[..keep] && r.value[keep..] == Ellipsis
  {
    match t
    case None => None
    case Some(s) =>
      if s != "" && |s| > max then Some(s[..Max(max, 0)] + Ellipsis) else Some(s)
  }

  /** A result is never more than four characters longer than the limit,
      and never longer than the description plus the ellipsis. */
  lemma MaxLengthBound(t: string, max: int)
    requires max >= 0
    ensures |MaxLength(Some(t), max).value| <= max + |Ellipsis|
    ensures |MaxLength(Some(t), max).value| <= |t| + |Ellipsis|
  {
  }

  /** A description already within the limit is a fixed point. */
  lemma MaxLengthWithinLimitUnchanged(t: string, max: int)
    requires |t| <= max
    ensures MaxLength(MaxLength(Some(t), max), max) == Some(t)
  {
  }

  lemma MaxLengthExamples()
    ensures MaxLength(Some("abcdef"), 3) == Some("abc ...")
    ensures MaxLength(Some("abc"), 3) == Some("abc")
    ensures MaxLength(Some("abc"), -1) == Some(" ...")
    ensures MaxLength(None, 200) == None
  {
    assert "abcdef"[..3] + Ellipsis == "abc ...";
    assert "abc"[..0] + Ellipsis == " ...";
  }

  // ---------------------------------------------------------------------
  // One page of tracks

  /** The API request of the track list: its path and its page window. */
  datatype Request = Request(url: string, limit: int, offset: int)

  /** The request for page `page` (counted from 1) of the public list or of
      the signed-in user's own feed. */
  function TrackRequest(page: int, privateTracks: bool): (r: Request)
    ensures r.url == "/tracks/feed" <==> privateTracks
    ensures !privateTracks ==> r.url == "/tracks"
    ensures r.limit == PageSize
    ensures r.offset == PageSize * (page - 1)
  {
    Request("/tracks" + (if privateTracks then "/feed" else ""), PageSize, PageSize * (page - 1))
  }

  /** Page 1 starts at the first track; each page starts where the previous
      one ends. */
  lemma RequestsTile(page: int, privateTracks: bool)
    ensures TrackRequest(1, privateTracks).offset == 0
    ensures TrackRequest(page + 1, privateTracks).offset
         == TrackRequest(page, privateTracks).offset + TrackRequest(page, privateTracks).limit
  {
  }

  /** `totalPages = Math.ceil(trackCount / pageSize)`. */
  function TotalPages(trackCount: nat): (pages: int)
    ensures trackCount == 0 <==> pages == 0
    ensures trackCount > 0 ==> (pages - 1) * PageSize < trackCount <= pages * PageSize
  {
    CeilQuotient(trackCount, PageSize);
    Ceil(trackCount as real / PageSize as real)
  }

  /** The track count the page works with: the loaded one, or 0 while the
      request is still running (`data` is `null`). */
  function TrackCount(data: Option<nat>): nat {
    match data
    case None => 0
    case Some(c) => c
  }

  /** The page selector is drawn when the data has loaded and there is more
      than one page. */
  predicate ShowPagination(data: Option<nat>) {
    data.Some? && TotalPages(TrackCount(data)) > 1
  }

  /** The selector shows exactly when more tracks have loaded than fit on
      one page. */
  lemma ShowPaginationIff(data: Option<nat>)
    ensures ShowPagination(data) <==> data.Some? && data.value > PageSize
  {
    if data.Some? && data.value > 0 {
      var pages := TotalPages(data.value);
      assert (pages - 1) * PageSize < data.value <= pages * PageSize;
    }
  }

  /** Every track lies in the window of exactly one page, and that page is
      one the selector offers. */
  lemma TrackOnOnePage(trackCount: nat, j: int, privateTracks: bool)
    requires 0 <= j < trackCount
    ensures var page := j / PageSize + 1;
      1 <= page <= TotalPages(trackCount)
      && TrackRequest(page, privateTracks).offset <= j
         < TrackRequest(page, privateTracks).offset + TrackRequest(page, privateTracks).limit
    ensures forall page ::
      (TrackRequest(page, privateTracks).offset <= j
         < TrackRequest(page, privateTracks).offset + TrackRequest(page, privateTracks).limit)
      ==> page == j / PageSize + 1
  {
    var pages := TotalPages(trackCount);
    assert (pages - 1) * PageSize < trackCount <= pages * PageSize;
    assert j / PageSize < pages by {
      assert PageSize * (j / PageSize) <= j;
    }
  }

  /** The pages the selector offers are the ones that hold tracks. */
  lemma PagesHoldTracks(trackCount: nat, page: int, privateTracks: bool)
    requires trackCount > 0
    ensures 1 <= page <= TotalPages(trackCount) <==>
      0 <= TrackRequest(page, privateTracks).offset < trackCount
  {
    var pages := TotalPages(trackCount);
    assert (pages - 1) * PageSize < trackCount <= pages * PageSize;
  }
}
