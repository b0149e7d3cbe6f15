/** One anchor document and the Anchor built from it (app/services/anchors.py,
    the per-document body of `load_anchors`). Parsing the YAML text and the
    schema validation are not modelled: a file arrives either as a validated
    `AnchorDoc` or as a document the schema rejected. */
module AnchorDocs {
  import opened Wrappers
  import opened Config

  /** Ghost notification template used when a ghost document gives none. */
  const DEFAULT_NOTIFY_TEMPLATE: string :=
    "{initiator_username} wants '{anchor_title}' ({min_size}-{max_size}). Join?"

  const GHOST_MIN_SIZE: int := 2
  const GHOST_MAX_SIZE: int := 4
  const GHOST_JOIN_WINDOW_MIN: int := 15

  /** Schema default of `raw_dim`. */
  const DEFAULT_RAW_DIM: int := 384

  /** A document after schema validation. Schema defaults are already in
      place: `description` "", `tags` [], `is_ghost` false, `raw_dim` 384,
      `reduced_dim` VECTOR_DIM, every other optional field None. */
  datatype AnchorDoc = AnchorDoc(
    slug: string,
    title: string,
    description: string,
    tags: seq<string>,
    isGhost: bool,
    minSize: Option<int>,
    maxSize: Option<int>,
    joinWindowMin: Option<int>,
    notifyTemplate: Option<string>,
    rawDim: int,
    rawVecFile: Option<string>,
    reducedDim: int,
    reducedVecFile: Option<string>,
    reducerId: Option<string>,
    instructionsUrl: Option<string>,
    instructionsHtml: Option<string>)

  /** A document that gives only the required `slug` and `title`. */
  function MinimalDoc(slug: string, title: string): AnchorDoc {
    AnchorDoc(slug, title, "", [], false, None, None, None, None,
              DEFAULT_RAW_DIM, None, VECTOR_DIM, None, None, None, None)
  }

  /** What reading one `*.yaml` file yields: a document the schema accepted,
      or one it rejected (malformed YAML, a missing `slug`/`title`, a field
      of the wrong type, an empty file). */
  datatype DocSource = Invalid | Parsed(doc: AnchorDoc)

  /** What a referenced reduced-vector file holds: a flat JSON array of
      numbers, or anything else. */
  datatype VectorFile = Malformed | Numbers(values: seq<real>)

  /** Every way a load is aborted; each names the file or slug at fault. */
  datatype LoadError =
    | InvalidDoc(file: string)
    | MissingVectorFile(slug: string, path: string)
    | MalformedVectorFile(path: string)
    | ReducedLengthMismatch(slug: string, got: nat, declared: int)
    | ReducedDimMismatch(slug: string, declared: int, expected: nat)
    | MissingSizeRange(slug: string)
    | InvalidSizeRange(slug: string, minSize: int, maxSize: int)

  /** The `meta` bag of an Anchor. */
  datatype Meta = Meta(
    isGhost: bool,
    minSize: int,
    maxSize: int,
    joinWindowMin: Option<int>,
    notifyTemplate: Option<string>,
    reducerId: Option<string>,
    rawVecFile: Option<string>,
    rawDim: int,
    reducedVecFile: Option<string>,
    reducedDim: int,
    instructionsUrl: Option<string>,
    instructionsHtml: Option<string>,
    source: string)

  datatype Anchor = Anchor(
    slug: string,
    title: string,
    description: string,
    tags: seq<string>,
    reduced: seq<real>,
    meta: Meta)

  /** The shape every catalogued anchor has. */
  predicate ValidAnchor(a: Anchor) {
    && 1 <= a.meta.minSize <= a.meta.maxSize
    && (|a.reduced| == 0 || |a.reduced| == VECTOR_DIM)
    && (a.meta.isGhost ==> a.meta.joinWindowMin.Some? && a.meta.notifyTemplate.Some?)
    && (!a.meta.isGhost ==> a.meta.joinWindowMin.None?)
  }

  /** Python truthiness of an optional integer: None and 0 are falsy. */
  predicate IntFalsy(x: Option<int>) {
    x.None? || x.value == 0
  }

  /** Python truthiness of an optional string: None and "" are falsy. */
  predicate TextFalsy(x: Option<string>) {
    x.None? || x.value == ""
  }

  /** Python's `x or d` on an optional integer. */
  function IntOr(x: Option<int>, d: int): int {
    if IntFalsy(x) then d else x.value
  }

  /** The reduced-vector reference is absent (or empty), or names an existing
      numeric file whose length is the declared `reduced_dim`, which in turn
      is the configured dimension. */
  predicate ReducedVectorAcceptable(doc: AnchorDoc, vecFiles: map<string, VectorFile>) {
    TextFalsy(doc.reducedVecFile) ||
      (var path := doc.reducedVecFile.value;
       && path in vecFiles
       && vecFiles[path].Numbers?
       && |vecFiles[path].values| == doc.reducedDim
       && doc.reducedDim == VECTOR_DIM)
  }

  /** The reduced vector of `doc`, checked in the order `load_anchors`
      checks them: file existence, JSON shape, length against `reduced_dim`,
      `reduced_dim` against VECTOR_DIM. */
  function ReducedVector(doc: AnchorDoc, vecFiles: map<string, VectorFile>): (r: Result<seq<real>, LoadError>)
    ensures r.Success? <==> ReducedVectorAcceptable(doc, vecFiles)
    ensures r.Success? ==> |r.value| == 0 || |r.value| == VECTOR_DIM
    ensures r.Success? && TextFalsy(doc.reducedVecFile) ==> r.value == []
    ensures r.Success? && !TextFalsy(doc.reducedVecFile) ==>
              vecFiles[doc.reducedVecFile.value] == Numbers(r.value)
    ensures !TextFalsy(doc.reducedVecFile) && doc.reducedVecFile.value !in vecFiles ==>
              r == Failure(MissingVectorFile(doc.slug, doc.reducedVecFile.value))
    ensures !TextFalsy(doc.reducedVecFile) && doc.reducedVecFile.value in vecFiles ==>
              var path := doc.reducedVecFile.value;
              && (vecFiles[path].Malformed? ==> r == Failure(MalformedVectorFile(path)))
              && (vecFiles[path].Numbers? && |vecFiles[path].values| != doc.reducedDim ==>
                    r == Failure(ReducedLengthMismatch(doc.slug, |vecFiles[path].values|, doc.reducedDim)))
              && (vecFiles[path].Numbers? && |vecFiles[path].values| == doc.reducedDim && doc.reducedDim != VECTOR_DIM ==>
                    r == Failure(ReducedDimMismatch(doc.slug, doc.reducedDim, VECTOR_DIM)))
  {
    if TextFalsy(doc.reducedVecFile) then Success([])
    else
      var path := doc.reducedVecFile.value;
      if path !in vecFiles then Failure(MissingVectorFile(doc.slug, path))
      else match vecFiles[path]
        case Malformed => Failure(MalformedVectorFile(path))
        case Numbers(xs) =>
          if |xs| != doc.reducedDim then Failure(ReducedLengthMismatch(doc.slug, |xs|, doc.reducedDim))
          else if doc.reducedDim != VECTOR_DIM then Failure(ReducedDimMismatch(doc.slug, doc.reducedDim, VECTOR_DIM))
          else Success(xs)
  }

  datatype Sizes = Sizes(minSize: int, maxSize: int, joinWindowMin: Option<int>)

  /** A ghost's falsy sizes and join window become 2, 4 and 15; a normal
      document must give both sizes and never has a join window. */
  function ResolveSizes(doc: AnchorDoc): (r: Result<Sizes, LoadError>)
    ensures r.Failure? <==> !doc.isGhost && (doc.minSize.None? || doc.maxSize.None?)
    ensures r.Failure? ==> r.error == MissingSizeRange(doc.slug)
    ensures r.Success? && doc.isGhost ==>
              && r.value.minSize == (if IntFalsy(doc.minSize) then GHOST_MIN_SIZE else doc.minSize.value)
              && r.value.maxSize == (if IntFalsy(doc.maxSize) then GHOST_MAX_SIZE else doc.maxSize.value)
              && r.value.joinWindowMin ==
                   Some(if IntFalsy(doc.joinWindowMin) then GHOST_JOIN_WINDOW_MIN else doc.joinWindowMin.value)
    ensures r.Success? && !doc.isGhost ==>
              r.value == Sizes(doc.minSize.value, doc.maxSize.value, None)
  {
    if doc.isGhost then
      Success(Sizes(IntOr(doc.minSize, GHOST_MIN_SIZE), IntOr(doc.maxSize, GHOST_MAX_SIZE),
                    Some(IntOr(doc.joinWindowMin, GHOST_JOIN_WINDOW_MIN))))
    else if doc.minSize.None? || doc.maxSize.None? then
      Failure(MissingSizeRange(doc.slug))
    else
      Success(Sizes(doc.minSize.value, doc.maxSize.value, None))
  }

  /** `doc.notify_template or (DEFAULT if ghost else None)`. */
  function NotifyTemplate(doc: AnchorDoc): (t: Option<string>)
    ensures !TextFalsy(doc.notifyTemplate) ==> t == doc.notifyTemplate
    ensures TextFalsy(doc.notifyTemplate) && doc.isGhost ==> t == Some(DEFAULT_NOTIFY_TEMPLATE)
    ensures TextFalsy(doc.notifyTemplate) && !doc.isGhost ==> t == None
    ensures doc.isGhost ==> t.Some?
  {
    if !TextFalsy(doc.notifyTemplate) then doc.notifyTemplate
    else if doc.isGhost then Some(DEFAULT_NOTIFY_TEMPLATE)
    else None
  }

  /** Everything a document must satisfy for the load to accept it. */
  predicate Acceptable(doc: AnchorDoc, vecFiles: map<string, VectorFile>) {
    && ReducedVectorAcceptable(doc, vecFiles)
    && (doc.isGhost || (doc.minSize.Some? && doc.maxSize.Some?))
    && (var mn := if doc.isGhost then IntOr(doc.minSize, GHOST_MIN_SIZE) else doc.minSize.value;
        var mx := if doc.isGhost then IntOr(doc.maxSize, GHOST_MAX_SIZE) else doc.maxSize.value;
        1 <= mn <= mx)
  }

  /** The Anchor for one validated document read from the file `source`, or
      the first error among: reduced vector, missing sizes, size range. */
  function BuildAnchor(source: string, doc: AnchorDoc, vecFiles: map<string, VectorFile>): (r: Result<Anchor, LoadError>)
    ensures r.Success? <==> Acceptable(doc, vecFiles)
    ensures r.Success? ==> ValidAnchor(r.value)
    ensures r.Success? ==>
              && r.value.slug == doc.slug && r.value.title == doc.title
              && r.value.description == doc.description && r.value.tags == doc.tags
              && r.value.meta.isGhost == doc.isGhost && r.value.meta.source == source
              && r.value.meta.notifyTemplate == NotifyTemplate(doc)
              && r.value.meta.instructionsUrl == doc.instructionsUrl
              && r.value.meta.instructionsHtml == doc.instructionsHtml
    ensures !ReducedVectorAcceptable(doc, vecFiles) ==> r == Failure(ReducedVector(doc, vecFiles).error)
    ensures r.Success? ==>
              && ReducedVector(doc, vecFiles).Success? && r.value.reduced == ReducedVector(doc, vecFiles).value
              && ResolveSizes(doc).Success?
              && r.value.meta.minSize == ResolveSizes(doc).value.minSize
              && r.value.meta.maxSize == ResolveSizes(doc).value.maxSize
              && r.value.meta.joinWindowMin == ResolveSizes(doc).value.joinWindowMin
    ensures r.Success? ==>
              && r.value.meta.reducerId == doc.reducerId
              && r.value.meta.rawVecFile == doc.rawVecFile && r.value.meta.rawDim == doc.rawDim
              && r.value.meta.reducedVecFile == doc.reducedVecFile && r.value.meta.reducedDim == doc.reducedDim
    ensures ReducedVectorAcceptable(doc, vecFiles) && !doc.isGhost && (doc.minSize.None? || doc.maxSize.None?) ==>
              r == Failure(MissingSizeRange(doc.slug))
    ensures ReducedVectorAcceptable(doc, vecFiles) && ResolveSizes(doc).Success? ==>
              var sz := ResolveSizes(doc).value;
              !(1 <= sz.minSize <= sz.maxSize) ==> r == Failure(InvalidSizeRange(doc.slug, sz.minSize, sz.maxSize))
  {
    var reduced :- ReducedVector(doc, vecFiles);
    var sizes :- ResolveSizes(doc);
    if sizes.minSize < 1 || sizes.maxSize < sizes.minSize then
      Failure(InvalidSizeRange(doc.slug, sizes.minSize, sizes.maxSize))
    else
      var meta := Meta(
        doc.isGhost, sizes.minSize, sizes.maxSize, sizes.joinWindowMin, NotifyTemplate(doc),
        doc.reducerId, doc.rawVecFile, doc.rawDim, doc.reducedVecFile, doc.reducedDim,
        doc.instructionsUrl, doc.instructionsHtml, source);
      Success(Anchor(doc.slug, doc.title, doc.description, doc.tags, reduced, meta))
  }

  /** A ghost document that gives no sizes, join window or template gets the
      defaults 2, 4, 15 and the default template. */
  lemma GhostWithoutSizesGetsDefaults(source: string, doc: AnchorDoc, vecFiles: map<string, VectorFile>)
    requires doc.isGhost && IntFalsy(doc.minSize) && IntFalsy(doc.maxSize)
    requires IntFalsy(doc.joinWindowMin) && TextFalsy(doc.notifyTemplate)
    requires ReducedVectorAcceptable(doc, vecFiles)
    ensures BuildAnchor(source, doc, vecFiles).Success?
    ensures var m := BuildAnchor(source, doc, vecFiles).value.meta;
            && m.minSize == 2 && m.maxSize == 4 && m.joinWindowMin == Some(15)
            && m.notifyTemplate == Some(DEFAULT_NOTIFY_TEMPLATE)
  {
    var r := ResolveSizes(doc);
    assert r.Success? && r.value == Sizes(2, 4, Some(15));
  }

  /** A normal document with sizes 2..4 whose reduced-vector file holds one
      number fewer than the default `reduced_dim` is refused with the length
      error naming the document and both lengths. */
  lemma ShortVectorFileRejected(source: string, slug: string, title: string, path: string, xs: seq<real>)
    requires path != "" && |xs| == VECTOR_DIM - 1
    ensures var doc := MinimalDoc(slug, title).(minSize := Some(2), maxSize := Some(4), reducedVecFile := Some(path));
            BuildAnchor(source, doc, map[path := Numbers(xs)]) ==
              Failure(ReducedLengthMismatch(slug, VECTOR_DIM - 1, VECTOR_DIM))
  {
  }
}
