/** The response shaping of app/api/anchors.py: the instructions URL of an
    anchor, the rows of the two index endpoints and the two detail
    endpoints. Starlette's `request.url_for("static", path=...)` is the
    parameter `staticUrl`, and reading an instructions file is a lookup in
    `htmlFiles` (path to contents; an absent path is a missing file). */
module AnchorApi {
  import opened Wrappers
  import opened Config
  import opened Strings
  import opened AnchorDocs
  import opened AnchorCatalog

  const STATIC_PREFIX: string := "static/"

  /** `html_path.split("static/", 1)[-1] if "static/" in html_path else
      html_path`: the text after the FIRST "static/", or the whole path
      when it has none. */
  function StaticRelativePath(html: string): (rel: string)
    ensures (forall k :: !OccursAt(html, STATIC_PREFIX, k)) ==> rel == html
    ensures (exists k :: OccursAt(html, STATIC_PREFIX, k)) ==>
              exists k :: && OccursAt(html, STATIC_PREFIX, k)
                          && (forall j :: 0 <= j < k ==> !OccursAt(html, STATIC_PREFIX, j))
                          && rel == html[k + |STATIC_PREFIX|..]
  {
    match FindFirst(html, STATIC_PREFIX)
    case None => html
    case Some(k) => html[k + |STATIC_PREFIX|..]
  }

  /** A path that starts with "static/" loses exactly that prefix. */
  lemma StaticPrefixRemoved(rest: string)
    ensures StaticRelativePath(STATIC_PREFIX + rest) == rest
  {
    var html := STATIC_PREFIX + rest;
    assert html[0..|STATIC_PREFIX|] == STATIC_PREFIX;
    assert FindFirst(html, STATIC_PREFIX) == Some(0);
    assert html[|STATIC_PREFIX|..] == rest;
  }

  /** `_build_instructions_url(meta, request)`: a non-empty external URL
      wins; otherwise a non-empty instructions file is served from the
      static mount; with neither there is no URL. */
  function InstructionsUrl(meta: Meta, staticUrl: string -> string): (r: Option<string>)
    ensures r.None? <==> TextFalsy(meta.instructionsUrl) && TextFalsy(meta.instructionsHtml)
    ensures !TextFalsy(meta.instructionsUrl) ==> r == meta.instructionsUrl
    ensures TextFalsy(meta.instructionsUrl) && !TextFalsy(meta.instructionsHtml) ==>
              r == Some(staticUrl(StaticRelativePath(meta.instructionsHtml.value)))
  {
    if !TextFalsy(meta.instructionsUrl) then meta.instructionsUrl
    else if TextFalsy(meta.instructionsHtml) then None
    else Some(staticUrl(StaticRelativePath(meta.instructionsHtml.value)))
  }

  /** Once an external URL is set, the instructions file has no effect on
      the URL. */
  lemma ExternalUrlIgnoresHtml(meta: Meta, html: Option<string>, staticUrl: string -> string)
    requires !TextFalsy(meta.instructionsUrl)
    ensures InstructionsUrl(meta.(instructionsHtml := html), staticUrl) == InstructionsUrl(meta, staticUrl)
  {
  }

  /** One row of `GET /anchors`. */
  datatype Summary = Summary(
    slug: string,
    title: string,
    tags: seq<string>,
    minSize: int,
    maxSize: int,
    instructionsUrl: Option<string>,
    isGhost: bool)

  /** One row of `GET /ghost-anchors`: the summary plus the join window. */
  datatype GhostRow = GhostRow(summary: Summary, joinWindowMin: Option<int>)

  /** `_anchor_summary(a, request)`. */
  function AnchorSummary(a: Anchor, staticUrl: string -> string): (s: Summary)
    ensures s.slug == a.slug && s.title == a.title && s.tags == a.tags
    ensures s.minSize == a.meta.minSize && s.maxSize == a.meta.maxSize
    ensures s.isGhost == a.meta.isGhost
    ensures s.instructionsUrl == InstructionsUrl(a.meta, staticUrl)
  {
    Summary(a.slug, a.title, a.tags, a.meta.minSize, a.meta.maxSize, InstructionsUrl(a.meta, staticUrl), a.meta.isGhost)
  }

  /** `GET /anchors`: one row per published normal anchor, none flagged as a
      ghost, each with a valid size range, each the summary of the anchor
      `get_anchor` returns for its slug. */
  function AnchorsIndex(c: Catalog, staticUrl: string -> string): (rows: seq<Summary>)
    ensures |rows| == |c.normals.entries|
    ensures forall i :: 0 <= i < |rows| ==> !rows[i].isGhost && 1 <= rows[i].minSize <= rows[i].maxSize
    ensures forall i :: 0 <= i < |rows| ==>
              GetAnchor(c, rows[i].slug).Some? && AnchorSummary(GetAnchor(c, rows[i].slug).value, staticUrl) == rows[i]
    ensures forall slug :: slug in c.normals.entries ==> exists i :: 0 <= i < |rows| && rows[i].slug == slug
    ensures |rows| == |ListAnchors(c)| && forall i :: 0 <= i < |rows| ==> rows[i] == AnchorSummary(ListAnchors(c)[i], staticUrl)
  {
    var anchors := ListAnchors(c);
    var rows := Summaries(anchors, staticUrl);
    AnchorRows(c, staticUrl, anchors, rows);
    rows
  }

  /** The summaries of `anchors`, in their order. */
  function Summaries(anchors: seq<Anchor>, staticUrl: string -> string): (rows: seq<Summary>)
    ensures |rows| == |anchors|
    ensures forall i :: 0 <= i < |rows| ==> rows[i] == AnchorSummary(anchors[i], staticUrl)
  {
    if |anchors| == 0 then [] else [AnchorSummary(anchors[0], staticUrl)] + Summaries(anchors[1..], staticUrl)
  }

  lemma AnchorRows(c: Catalog, staticUrl: string -> string, anchors: seq<Anchor>, rows: seq<Summary>)
    requires forall i :: 0 <= i < |anchors| ==> GetAnchor(c, anchors[i].slug) == Some(anchors[i])
    requires forall slug :: slug in c.normals.entries ==> exists i :: 0 <= i < |anchors| && anchors[i].slug == slug
    requires |rows| == |anchors|
    requires forall i :: 0 <= i < |rows| ==> rows[i] == AnchorSummary(anchors[i], staticUrl)
    ensures forall i :: 0 <= i < |rows| ==> !rows[i].isGhost && 1 <= rows[i].minSize <= rows[i].maxSize
    ensures forall i :: 0 <= i < |rows| ==>
              GetAnchor(c, rows[i].slug).Some? && AnchorSummary(GetAnchor(c, rows[i].slug).value, staticUrl) == rows[i]
    ensures forall slug :: slug in c.normals.entries ==> exists i :: 0 <= i < |rows| && rows[i].slug == slug
  {
    forall i | 0 <= i < |rows|
      ensures !rows[i].isGhost && 1 <= rows[i].minSize <= rows[i].maxSize
      ensures GetAnchor(c, rows[i].slug) == Some(anchors[i])
    {
      var a := anchors[i];
      assert GetAnchor(c, a.slug) == Some(a);
      assert ValidAnchor(a) && !a.meta.isGhost;
      assert rows[i] == AnchorSummary(a, staticUrl);
    }
    forall slug | slug in c.normals.entries ensures exists i :: 0 <= i < |rows| && rows[i].slug == slug {
      var i :| 0 <= i < |anchors| && anchors[i].slug == slug;
      assert rows[i].slug == slug;
    }
  }

  /** `GET /ghost-anchors`: one row per published ghost, each flagged as a
      ghost and carrying its (always present) join window. */
  function GhostsIndex(c: Catalog, staticUrl: string -> string): (rows: seq<GhostRow>)
    ensures |rows| == |c.ghosts.entries|
    ensures forall i :: 0 <= i < |rows| ==>
              rows[i].summary.isGhost && rows[i].joinWindowMin.Some? && 1 <= rows[i].summary.minSize <= rows[i].summary.maxSize
    ensures forall i :: 0 <= i < |rows| ==>
              && GetGhost(c, rows[i].summary.slug).Some?
              && AnchorSummary(GetGhost(c, rows[i].summary.slug).value, staticUrl) == rows[i].summary
              && rows[i].joinWindowMin == GetGhost(c, rows[i].summary.slug).value.meta.joinWindowMin
    ensures forall slug :: slug in c.ghosts.entries ==> exists i :: 0 <= i < |rows| && rows[i].summary.slug == slug
    ensures |rows| == |ListGhosts(c)| && forall i :: 0 <= i < |rows| ==> rows[i].summary == AnchorSummary(ListGhosts(c)[i], staticUrl)
  {
    var anchors := ListGhosts(c);
    var rows := GhostRowsOf(anchors, staticUrl);
    GhostRows(c, staticUrl, anchors, rows);
    rows
  }

  /** The ghost rows of `anchors`, in their order. */
  function GhostRowsOf(anchors: seq<Anchor>, staticUrl: string -> string): (rows: seq<GhostRow>)
    ensures |rows| == |anchors|
    ensures forall i :: 0 <= i < |rows| ==>
              rows[i] == GhostRow(AnchorSummary(anchors[i], staticUrl), anchors[i].meta.joinWindowMin)
  {
    if |anchors| == 0 then []
    else [GhostRow(AnchorSummary(anchors[0], staticUrl), anchors[0].meta.joinWindowMin)] + GhostRowsOf(anchors[1..], staticUrl)
  }

  lemma GhostRows(c: Catalog, staticUrl: string -> string, anchors: seq<Anchor>, rows: seq<GhostRow>)
    requires forall i :: 0 <= i < |anchors| ==> GetGhost(c, anchors[i].slug) == Some(anchors[i])
    requires forall slug :: slug in c.ghosts.entries ==> exists i :: 0 <= i < |anchors| && anchors[i].slug == slug
    requires |rows| == |anchors|
    requires forall i :: 0 <= i < |rows| ==>
               rows[i] == GhostRow(AnchorSummary(anchors[i], staticUrl), anchors[i].meta.joinWindowMin)
    ensures forall i :: 0 <= i < |rows| ==>
              rows[i].summary.isGhost && rows[i].joinWindowMin.Some? && 1 <= rows[i].summary.minSize <= rows[i].summary.maxSize
    ensures forall i :: 0 <= i < |rows| ==>
              && GetGhost(c, rows[i].summary.slug).Some?
              && AnchorSummary(GetGhost(c, rows[i].summary.slug).value, staticUrl) == rows[i].summary
              && rows[i].joinWindowMin == GetGhost(c, rows[i].summary.slug).value.meta.joinWindowMin
    ensures forall slug :: slug in c.ghosts.entries ==> exists i :: 0 <= i < |rows| && rows[i].summary.slug == slug
  {
    forall i | 0 <= i < |rows|
      ensures rows[i].summary.isGhost && rows[i].joinWindowMin.Some? && 1 <= rows[i].summary.minSize <= rows[i].summary.maxSize
      ensures GetGhost(c, rows[i].summary.slug) == Some(anchors[i])
    {
      var a := anchors[i];
      assert GetGhost(c, a.slug) == Some(a);
      assert ValidAnchor(a) && a.meta.isGhost;
      assert rows[i] == GhostRow(AnchorSummary(a, staticUrl), a.meta.joinWindowMin);
    }
    forall slug | slug in c.ghosts.entries ensures exists i :: 0 <= i < |rows| && rows[i].summary.slug == slug {
      var i :| 0 <= i < |anchors| && anchors[i].slug == slug;
      assert rows[i].summary.slug == slug;
    }
  }

  /** The ghost-only keys of a ghost detail response. */
  datatype GhostInfo = GhostInfo(joinWindowMin: Option<int>, notifyTemplate: Option<string>)

  /** The body of `GET /anchor/{slug}` or `GET /ghost-anchors/{slug}`. An
      absent optional key is `None`; `instructionsHtml == Some(None)` is the
      key present with a null value (the file was missing). */
  datatype Detail = Detail(
    slug: string,
    title: string,
    description: string,
    tags: seq<string>,
    minSize: int,
    maxSize: int,
    ghostInfo: Option<GhostInfo>,
    instructionsUrl: Option<string>,
    isGhost: bool,
    reducerId: Option<string>,
    source: string,
    reduced: Option<seq<real>>,
    instructionsHtml: Option<Option<string>>)

  datatype ApiError = AnchorNotFound | GhostNotFound

  /** The inlined instructions: only when asked for and the anchor names a
      non-empty file; a missing file gives a null value. */
  function InlineHtml(meta: Meta, includeHtml: bool, htmlFiles: map<string, string>): (r: Option<Option<string>>)
    ensures r.Some? <==> includeHtml && !TextFalsy(meta.instructionsHtml)
    ensures r.Some? ==> (r.value.Some? <==> meta.instructionsHtml.value in htmlFiles)
    ensures r.Some? && r.value.Some? ==> r.value.value == htmlFiles[meta.instructionsHtml.value]
  {
    if includeHtml && !TextFalsy(meta.instructionsHtml) then
      var path := meta.instructionsHtml.value;
      Some(if path in htmlFiles then Some(htmlFiles[path]) else None)
    else None
  }

  /** The keys both detail endpoints fill in the same way. */
  function DetailOf(a: Anchor, ghostInfo: Option<GhostInfo>, isGhost: bool, includeReduced: bool, includeHtml: bool,
                    staticUrl: string -> string, htmlFiles: map<string, string>): Detail
  {
    Detail(a.slug, a.title, a.description, a.tags, a.meta.minSize, a.meta.maxSize, ghostInfo,
           InstructionsUrl(a.meta, staticUrl), isGhost, a.meta.reducerId, a.meta.source,
           if includeReduced then Some(a.reduced) else None,
           InlineHtml(a.meta, includeHtml, htmlFiles))
  }

  /** `GET /anchor/{slug}`: 404 exactly when no normal anchor has the slug;
      otherwise that anchor's fields, `is_ghost` false, no ghost keys, the
      reduced vector exactly when asked for. */
  function AnchorDetail(c: Catalog, slug: string, includeReduced: bool, includeHtml: bool,
                        staticUrl: string -> string, htmlFiles: map<string, string>): (r: Result<Detail, ApiError>)
    ensures r.Failure? <==> slug !in c.normals.entries
    ensures r.Failure? ==> r.error == AnchorNotFound
    ensures r.Success? ==>
              var a := c.normals.entries[slug];
              && r.value.slug == slug && r.value.title == a.title && r.value.description == a.description
              && r.value.tags == a.tags && r.value.minSize == a.meta.minSize && r.value.maxSize == a.meta.maxSize
              && 1 <= r.value.minSize <= r.value.maxSize
              && r.value.reducerId == a.meta.reducerId && r.value.source == a.meta.source
              && r.value.instructionsUrl == InstructionsUrl(a.meta, staticUrl)
              && r.value.instructionsHtml == InlineHtml(a.meta, includeHtml, htmlFiles)
    ensures r.Success? ==> !r.value.isGhost && r.value.ghostInfo.None?
    ensures r.Success? ==> (r.value.reduced.Some? <==> includeReduced)
    ensures r.Success? && includeReduced ==>
              r.value.reduced == Some(c.normals.entries[slug].reduced)
              && (|r.value.reduced.value| == 0 || |r.value.reduced.value| == VECTOR_DIM)
  {
    match GetAnchor(c, slug)
    case None => Failure(AnchorNotFound)
    case Some(a) => Success(DetailOf(a, None, false, includeReduced, includeHtml, staticUrl, htmlFiles))
  }

  /** `GET /ghost-anchors/{slug}`: 404 exactly when no ghost has the slug;
      otherwise that ghost's fields, `is_ghost` true, its join window and
      notification template (both always present), the reduced vector
      exactly when asked for. */
  function GhostDetail(c: Catalog, slug: string, includeReduced: bool, includeHtml: bool,
                       staticUrl: string -> string, htmlFiles: map<string, string>): (r: Result<Detail, ApiError>)
    ensures r.Failure? <==> slug !in c.ghosts.entries
    ensures r.Failure? ==> r.error == GhostNotFound
    ensures r.Success? ==>
              var a := c.ghosts.entries[slug];
              && r.value.slug == slug && r.value.title == a.title && r.value.description == a.description
              && r.value.tags == a.tags && r.value.minSize == a.meta.minSize && r.value.maxSize == a.meta.maxSize
              && 1 <= r.value.minSize <= r.value.maxSize
              && r.value.reducerId == a.meta.reducerId && r.value.source == a.meta.source
              && r.value.instructionsUrl == InstructionsUrl(a.meta, staticUrl)
              && r.value.instructionsHtml == InlineHtml(a.meta, includeHtml, htmlFiles)
              && r.value.ghostInfo == Some(GhostInfo(a.meta.joinWindowMin, a.meta.notifyTemplate))
    ensures r.Success? ==>
              && r.value.isGhost
              && r.value.ghostInfo.Some?
              && r.value.ghostInfo.value.joinWindowMin.Some?
              && r.value.ghostInfo.value.notifyTemplate.Some?
    ensures r.Success? ==> (r.value.reduced.Some? <==> includeReduced)
    ensures r.Success? && includeReduced ==>
              r.value.reduced == Some(c.ghosts.entries[slug].reduced)
              && (|r.value.reduced.value| == 0 || |r.value.reduced.value| == VECTOR_DIM)
  {
    match GetGhost(c, slug)
    case None => Failure(GhostNotFound)
    case Some(a) =>
      Success(DetailOf(a, Some(GhostInfo(a.meta.joinWindowMin, a.meta.notifyTemplate)), true,
                       includeReduced, includeHtml, staticUrl, htmlFiles))
  }

  /** The index and the detail endpoint agree: every row of `GET /anchors`
      opens with `GET /anchor/{slug}`, and the detail repeats the row's
      fields, including its `is_ghost` flag. */
  lemma AnchorRowsOpen(c: Catalog, staticUrl: string -> string, includeReduced: bool, includeHtml: bool,
                       htmlFiles: map<string, string>, i: int)
    requires 0 <= i < |c.normals.entries|
    ensures var row := AnchorsIndex(c, staticUrl)[i];
            var d := AnchorDetail(c, row.slug, includeReduced, includeHtml, staticUrl, htmlFiles);
            && d.Success?
            && d.value.title == row.title && d.value.tags == row.tags
            && d.value.minSize == row.minSize && d.value.maxSize == row.maxSize
            && d.value.instructionsUrl == row.instructionsUrl && d.value.isGhost == row.isGhost
  {
  }

  /** The same for `GET /ghost-anchors` and `GET /ghost-anchors/{slug}`,
      including the join window. */
  lemma GhostRowsOpen(c: Catalog, staticUrl: string -> string, includeReduced: bool, includeHtml: bool,
                      htmlFiles: map<string, string>, i: int)
    requires 0 <= i < |c.ghosts.entries|
    ensures var row := GhostsIndex(c, staticUrl)[i];
            var d := GhostDetail(c, row.summary.slug, includeReduced, includeHtml, staticUrl, htmlFiles);
            && d.Success?
            && d.value.title == row.summary.title && d.value.tags == row.summary.tags
            && d.value.minSize == row.summary.minSize && d.value.maxSize == row.summary.maxSize
            && d.value.instructionsUrl == row.summary.instructionsUrl && d.value.isGhost == row.summary.isGhost
            && d.value.ghostInfo.value.joinWindowMin == row.joinWindowMin
  {
  }
}
