/** The anchor catalog (app/services/anchors.py): enumerating the `*.yaml`
    files of the anchors directory in name order, building one Anchor per
    file, partitioning them into the normal and ghost maps keyed by slug, and
    publishing both maps together, plus the four read queries. */
module AnchorCatalog {
  import opened Wrappers
  import opened Strings
  import opened OrderedDict
  import opened AnchorDocs

  /** One directory entry: a file name and what reading that file yields. */
  datatype Entry = Entry(name: string, source: DocSource)

  /** The anchors directory as the file system reports it, in no particular
      order, or its absence. */
  datatype Directory = Missing | Present(entries: seq<Entry>)

  /** The `*.yaml` glob. */
  predicate IsYaml(name: string) {
    HasSuffix(name, ".yaml")
  }

  /** The path `str(yml)` of a file named `name` under `dirPath`. */
  function SourcePath(dirPath: string, name: string): string {
    dirPath + "/" + name
  }

  // ---- Directory listing: sorted(base.glob("*.yaml")) ----

  predicate SortedByName(es: seq<Entry>) {
    forall i, j :: 0 <= i < j < |es| ==> LexLe(es[i].name, es[j].name)
  }

  /** Prepending an entry that orders before everything keeps a sequence sorted. */
  lemma PrependSorted(e: Entry, es: seq<Entry>)
    requires SortedByName(es)
    requires forall k :: 0 <= k < |es| ==> LexLe(e.name, es[k].name)
    ensures SortedByName([e] + es)
  {
    var r := [e] + es;
    forall i, j | 0 <= i < j < |r| ensures LexLe(r[i].name, r[j].name) {
      if i > 0 {
        assert r[i] == es[i - 1] && r[j] == es[j - 1];
      }
    }
  }

  /** Inserts `e` into the sorted `es` before the first entry it does not
      order after. */
  function Insert(e: Entry, es: seq<Entry>): (r: seq<Entry>)
    requires SortedByName(es)
    ensures SortedByName(r)
    ensures multiset(r) == multiset(es) + multiset{e}
  {
    if |es| == 0 then [e]
    else if LexLe(e.name, es[0].name) then
      InsertAtFront(e, es);
      [e] + es
    else
      var rest := Insert(e, es[1..]);
      InsertBehindHead(e, es, rest);
      [es[0]] + rest
  }

  lemma InsertAtFront(e: Entry, es: seq<Entry>)
    requires SortedByName(es) && |es| > 0 && LexLe(e.name, es[0].name)
    ensures SortedByName([e] + es)
  {
    forall k | 0 <= k < |es| ensures LexLe(e.name, es[k].name) {
      if k > 0 {
        LexLeTransitive(e.name, es[0].name, es[k].name);
      }
    }
    PrependSorted(e, es);
  }

  lemma InsertBehindHead(e: Entry, es: seq<Entry>, rest: seq<Entry>)
    requires SortedByName(es) && |es| > 0 && !LexLe(e.name, es[0].name)
    requires SortedByName(rest)
    requires multiset(rest) == multiset(es[1..]) + multiset{e}
    ensures SortedByName([es[0]] + rest)
    ensures multiset([es[0]] + rest) == multiset(es) + multiset{e}
  {
    LexLeTotal(e.name, es[0].name);
    forall k | 0 <= k < |rest| ensures LexLe(es[0].name, rest[k].name) {
      assert rest[k] in multiset(rest);
      if rest[k] != e {
        assert rest[k] in multiset(es[1..]);
        assert rest[k] in es[1..];
        var j :| 0 <= j < |es[1..]| && es[1..][j] == rest[k];
        assert es[j + 1] == rest[k];
      }
    }
    PrependSorted(es[0], rest);
    assert es == [es[0]] + es[1..];
  }

  /** Insertion sort by file name. */
  function SortByName(es: seq<Entry>): (r: seq<Entry>)
    ensures SortedByName(r)
    ensures multiset(r) == multiset(es)
  {
    if |es| == 0 then []
    else
      assert es == [es[0]] + es[1..];
      Insert(es[0], SortByName(es[1..]))
  }

  /** The entries whose name matches `*.yaml`, in their original order. */
  function YamlOnly(es: seq<Entry>): (r: seq<Entry>)
    ensures forall e :: e in r <==> e in es && IsYaml(e.name)
    ensures forall e :: multiset(r)[e] == if IsYaml(e.name) then multiset(es)[e] else 0
    ensures |r| <= |es|
  {
    if |es| == 0 then []
    else
      assert es == [es[0]] + es[1..];
      if IsYaml(es[0].name) then [es[0]] + YamlOnly(es[1..])
      else YamlOnly(es[1..])
  }

  /** `sorted(base.glob("*.yaml"))`: exactly the yaml entries, ascending by name. */
  function Listing(es: seq<Entry>): (r: seq<Entry>)
    ensures SortedByName(r)
    ensures forall e :: e in r <==> e in es && IsYaml(e.name)
    ensures forall e :: multiset(r)[e] == if IsYaml(e.name) then multiset(es)[e] else 0
  {
    var ys := YamlOnly(es);
    var r := SortByName(ys);
    assert forall e :: e in r <==> e in multiset(r);
    assert forall e :: e in ys <==> e in multiset(ys);
    r
  }

  // ---- Building the anchors ----

  /** The Anchor for one listed file, or the error that aborts the load. */
  function BuildEntry(dirPath: string, e: Entry, vecFiles: map<string, VectorFile>): (r: Result<Anchor, LoadError>)
    ensures r.Success? ==> ValidAnchor(r.value) && r.value.meta.source == SourcePath(dirPath, e.name)
    ensures e.source.Invalid? ==> r == Failure(InvalidDoc(SourcePath(dirPath, e.name)))
    ensures e.source.Parsed? ==> (r.Success? <==> Acceptable(e.source.doc, vecFiles))
    ensures e.source.Parsed? ==> r == BuildAnchor(SourcePath(dirPath, e.name), e.source.doc, vecFiles)
  {
    match e.source
    case Invalid => Failure(InvalidDoc(SourcePath(dirPath, e.name)))
    case Parsed(doc) => BuildAnchor(SourcePath(dirPath, e.name), doc, vecFiles)
  }

  /** The loop of `load_anchors`: every file in order, stopping at the first
      failure. On success there is one anchor per file; on failure the error
      is that of the first file that fails. */
  function BuildAll(dirPath: string, es: seq<Entry>, vecFiles: map<string, VectorFile>): (r: Result<seq<Anchor>, LoadError>)
    ensures r.Success? <==> forall i :: 0 <= i < |es| ==> BuildEntry(dirPath, es[i], vecFiles).Success?
    ensures r.Success? ==> |r.value| == |es|
    ensures r.Success? ==> forall i :: 0 <= i < |es| ==> BuildEntry(dirPath, es[i], vecFiles) == Success(r.value[i])
    ensures r.Failure? ==>
              exists i :: 0 <= i < |es| && BuildEntry(dirPath, es[i], vecFiles) == Failure(r.error)
                          && forall j :: 0 <= j < i ==> BuildEntry(dirPath, es[j], vecFiles).Success?
  {
    CollectAll(BuildEach(dirPath, es, vecFiles))
  }

  /** `BuildEntry` of every entry, in order. */
  function BuildEach(dirPath: string, es: seq<Entry>, vecFiles: map<string, VectorFile>): (rs: seq<Result<Anchor, LoadError>>)
    ensures |rs| == |es|
    ensures forall i :: 0 <= i < |es| ==> rs[i] == BuildEntry(dirPath, es[i], vecFiles)
  {
    if |es| == 0 then [] else [BuildEntry(dirPath, es[0], vecFiles)] + BuildEach(dirPath, es[1..], vecFiles)
  }

  // ---- The published catalog ----

  /** Both maps are keyed by slug, hold only valid anchors, and each holds
      only its own kind. */
  ghost predicate WellFormed(normals: Dict<Anchor>, ghosts: Dict<Anchor>) {
    && (forall k :: k in normals.entries ==>
          normals.entries[k].slug == k && ValidAnchor(normals.entries[k]) && !normals.entries[k].meta.isGhost)
    && (forall k :: k in ghosts.entries ==>
          ghosts.entries[k].slug == k && ValidAnchor(ghosts.entries[k]) && ghosts.entries[k].meta.isGhost)
  }

  datatype RawCatalog = CatalogPair(normals: Dict<Anchor>, ghosts: Dict<Anchor>)

  /** The pair `(_ANCHORS, _GHOSTS)`. */
  type Catalog = c: RawCatalog | WellFormed(c.normals, c.ghosts)
    witness CatalogPair(RawDict([], map[]), RawDict([], map[]))

  function EmptyCatalog(): (c: Catalog)
    ensures c.normals.entries == map[] && c.ghosts.entries == map[]
  {
    CatalogPair(Empty(), Empty())
  }

  /** The anchor at index `i` is the last one in `anchors` with this slug and kind. */
  predicate LastWithSlug(anchors: seq<Anchor>, i: int, slug: string, wantGhost: bool) {
    && 0 <= i < |anchors|
    && anchors[i].slug == slug && anchors[i].meta.isGhost == wantGhost
    && forall j :: i < j < |anchors| ==> !(anchors[j].slug == slug && anchors[j].meta.isGhost == wantGhost)
  }

  /** No anchor of this kind has this slug. */
  predicate NoneOfKind(anchors: seq<Anchor>, slug: string, wantGhost: bool) {
    forall i :: 0 <= i < |anchors| ==> !(anchors[i].slug == slug && anchors[i].meta.isGhost == wantGhost)
  }

  /** The map of the catalog that holds anchors of the given kind. */
  function MapOf(c: RawCatalog, wantGhost: bool): Dict<Anchor> {
    if wantGhost then c.ghosts else c.normals
  }

  /** The two dicts the loop fills: each anchor goes to the map of its kind
      under its slug, in sequence order. */
  function Partition(anchors: seq<Anchor>): (c: Catalog)
    requires forall i :: 0 <= i < |anchors| ==> ValidAnchor(anchors[i])
  {
    if |anchors| == 0 then EmptyCatalog()
    else AddAnchor(Partition(anchors[..|anchors| - 1]), anchors[|anchors| - 1])
  }

  /** One pass of the loop body: `a` goes into the map of its kind under
      its slug. */
  function AddAnchor(c: Catalog, a: Anchor): (r: Catalog)
    requires ValidAnchor(a)
  {
    if a.meta.isGhost then
      var g := Put(c.ghosts, a.slug, a);
      assert g.entries == c.ghosts.entries[a.slug := a];
      CatalogPair(c.normals, g)
    else
      var n := Put(c.normals, a.slug, a);
      assert n.entries == c.normals.entries[a.slug := a];
      CatalogPair(n, c.ghosts)
  }

  /** One step of the loop: the last anchor is put into the map of its own
      kind; the map of the other kind is untouched. */
  lemma PartitionStep(anchors: seq<Anchor>, slug: string, wantGhost: bool)
    requires |anchors| > 0
    requires forall i :: 0 <= i < |anchors| ==> ValidAnchor(anchors[i])
    ensures var a := anchors[|anchors| - 1];
            var before := Get(MapOf(Partition(anchors[..|anchors| - 1]), wantGhost), slug);
            Get(MapOf(Partition(anchors), wantGhost), slug) ==
              if a.meta.isGhost == wantGhost && a.slug == slug then Some(a) else before
  {
  }

  /** Appending an anchor of another slug or kind changes neither whether
      the slug occurs for the kind nor which occurrence is the last. */
  lemma NonMatchingLast(anchors: seq<Anchor>, slug: string, wantGhost: bool)
    requires |anchors| > 0
    requires !(anchors[|anchors| - 1].slug == slug && anchors[|anchors| - 1].meta.isGhost == wantGhost)
    ensures NoneOfKind(anchors, slug, wantGhost) <==> NoneOfKind(anchors[..|anchors| - 1], slug, wantGhost)
    ensures forall i :: LastWithSlug(anchors[..|anchors| - 1], i, slug, wantGhost) ==> LastWithSlug(anchors, i, slug, wantGhost)
  {
  }

  /** A slug is absent from the map of a kind exactly when no anchor of that
      kind has it; otherwise the map holds the LAST such anchor. */
  lemma {:induction false} PartitionLastWins(anchors: seq<Anchor>, slug: string, wantGhost: bool)
    requires forall i :: 0 <= i < |anchors| ==> ValidAnchor(anchors[i])
    ensures Get(MapOf(Partition(anchors), wantGhost), slug).None? <==> NoneOfKind(anchors, slug, wantGhost)
    ensures Get(MapOf(Partition(anchors), wantGhost), slug).Some? ==>
              exists i :: LastWithSlug(anchors, i, slug, wantGhost) && anchors[i] == Get(MapOf(Partition(anchors), wantGhost), slug).value
  {
    if |anchors| > 0 {
      var n := |anchors| - 1;
      var init := anchors[..n];
      var a := anchors[n];
      PartitionLastWins(init, slug, wantGhost);
      PartitionStep(anchors, slug, wantGhost);
      var before := Get(MapOf(Partition(init), wantGhost), slug);
      var after := Get(MapOf(Partition(anchors), wantGhost), slug);
      if a.slug == slug && a.meta.isGhost == wantGhost {
        assert after == Some(a);
        assert LastWithSlug(anchors, n, slug, wantGhost);
      } else {
        assert after == before;
        NonMatchingLast(anchors, slug, wantGhost);
        if before.Some? {
          var i :| LastWithSlug(init, i, slug, wantGhost) && init[i] == before.value;
          assert LastWithSlug(anchors, i, slug, wantGhost);
        }
      }
    }
  }

  /** Slugs of the anchors of one kind, in sequence order, each kept at its
      first appearance only. */
  function FirstAppearances(anchors: seq<Anchor>, wantGhost: bool): (slugs: seq<string>)
  {
    if |anchors| == 0 then []
    else
      var prev := FirstAppearances(anchors[..|anchors| - 1], wantGhost);
      var a := anchors[|anchors| - 1];
      if a.meta.isGhost != wantGhost || a.slug in prev then prev else prev + [a.slug]
  }

  /** `list_anchors()`/`list_ghosts()` after a load list the slugs in the
      order in which each slug first appeared (Python dicts keep a key's
      first insertion position when it is re-assigned). */
  lemma {:induction false} PartitionOrder(anchors: seq<Anchor>, wantGhost: bool)
    requires forall i :: 0 <= i < |anchors| ==> ValidAnchor(anchors[i])
    ensures MapOf(Partition(anchors), wantGhost).order == FirstAppearances(anchors, wantGhost)
  {
    if |anchors| > 0 {
      var init := anchors[..|anchors| - 1];
      PartitionOrder(init, wantGhost);
      var d := MapOf(Partition(init), wantGhost);
      assert forall k :: k in d.entries <==> k in d.order;
    }
  }

  // ---- load_anchors and _publish ----

  /** The catalog a directory describes, or the first error. */
  function LoadDir(dirPath: string, dir: Directory, vecFiles: map<string, VectorFile>): (r: Result<Catalog, LoadError>)
    ensures dir.Missing? ==> r.Success? && r.value.normals.entries == map[] && r.value.ghosts.entries == map[]
    ensures dir.Present? ==>
              (r.Success? <==> forall e :: e in dir.entries && IsYaml(e.name) ==> BuildEntry(dirPath, e, vecFiles).Success?)
    ensures dir.Present? && r.Failure? ==> BuildAll(dirPath, Listing(dir.entries), vecFiles) == Failure(r.error)
  {
    match dir
    case Missing => Success(EmptyCatalog())
    case Present(entries) =>
      ListingBuildsIff(dirPath, entries, vecFiles);
      var built :- BuildAll(dirPath, Listing(entries), vecFiles);
      Success(Partition(built))
  }

  /** The published catalog after a load and what `load_anchors` returns. */
  datatype LoadOutcome = LoadOutcome(state: Catalog, result: Result<Dict<Anchor>, LoadError>)

  /** `load_anchors(dirPath)` as a transition of the published catalog pair:
      a missing directory publishes two empty maps; a failing file leaves the
      previous pair untouched; success replaces both maps together and
      returns the normal map. */
  function Load(state: Catalog, dirPath: string, dir: Directory, vecFiles: map<string, VectorFile>): (o: LoadOutcome)
    ensures dir.Missing? ==> o.state.normals.entries == map[] && o.state.ghosts.entries == map[]
    ensures dir.Missing? ==> o.result.Success? && o.result.value.entries == map[]
    ensures o.result.Failure? ==> o.state == state
    ensures o.result.Success? ==> o.result.value == o.state.normals
    ensures dir.Present? && o.result.Failure? ==> BuildAll(dirPath, Listing(dir.entries), vecFiles) == Failure(o.result.error)
    ensures dir.Present? ==>
              (o.result.Success? <==>
                 forall e :: e in dir.entries && IsYaml(e.name) ==> BuildEntry(dirPath, e, vecFiles).Success?)
  {
    match LoadDir(dirPath, dir, vecFiles)
    case Failure(err) => LoadOutcome(state, Failure(err))
    case Success(c) => LoadOutcome(c, Success(c.normals))
  }

  /** The loop over the listing gets through exactly when every `*.yaml`
      entry of the directory builds. */
  lemma ListingBuildsIff(dirPath: string, entries: seq<Entry>, vecFiles: map<string, VectorFile>)
    ensures BuildAll(dirPath, Listing(entries), vecFiles).Success? <==>
              forall e :: e in entries && IsYaml(e.name) ==> BuildEntry(dirPath, e, vecFiles).Success?
  {
    BuildAllOfMembers(dirPath, Listing(entries), entries, vecFiles);
  }

  /** `BuildAll` over any sequence holding exactly the `*.yaml` entries of
      `entries` succeeds exactly when each of those entries builds. */
  lemma BuildAllOfMembers(dirPath: string, ls: seq<Entry>, entries: seq<Entry>, vecFiles: map<string, VectorFile>)
    requires forall e :: e in ls <==> e in entries && IsYaml(e.name)
    ensures BuildAll(dirPath, ls, vecFiles).Success? <==>
              forall e :: e in entries && IsYaml(e.name) ==> BuildEntry(dirPath, e, vecFiles).Success?
  {
    var b := BuildAll(dirPath, ls, vecFiles);
    if b.Success? {
      forall e | e in entries && IsYaml(e.name) ensures BuildEntry(dirPath, e, vecFiles).Success? {
        assert e in ls;
        var i :| 0 <= i < |ls| && ls[i] == e;
      }
    } else {
      var i :| 0 <= i < |ls| && BuildEntry(dirPath, ls[i], vecFiles) == Failure(b.error);
      assert ls[i] in ls;
    }
  }

  // ---- Read API ----

  /** `list_anchors()`: every published normal anchor once, all distinct
      slugs, each the published entry for its slug. */
  function ListAnchors(c: Catalog): (r: seq<Anchor>)
    ensures |r| == |c.normals.entries|
    ensures forall i :: 0 <= i < |r| ==> GetAnchor(c, r[i].slug) == Some(r[i])
    ensures forall i, j :: 0 <= i < j < |r| ==> r[i].slug != r[j].slug
    ensures forall slug :: slug in c.normals.entries ==> exists i :: 0 <= i < |r| && r[i].slug == slug
    ensures |r| == |c.normals.order| && forall i :: 0 <= i < |r| ==> r[i].slug == c.normals.order[i]
  {
    var r := Values(c.normals);
    assert forall slug :: slug in c.normals.entries ==> slug in c.normals.order;
    r
  }

  /** `get_anchor(slug)`: the published normal map's entry, a valid
      non-ghost anchor with that slug. */
  function GetAnchor(c: Catalog, slug: string): (r: Option<Anchor>)
    ensures r.Some? <==> slug in c.normals.entries
    ensures r.Some? ==> r.value == c.normals.entries[slug]
    ensures r.Some? ==> r.value.slug == slug && ValidAnchor(r.value) && !r.value.meta.isGhost
  {
    Get(c.normals, slug)
  }

  /** `list_ghosts()`: every published ghost once, all distinct slugs. */
  function ListGhosts(c: Catalog): (r: seq<Anchor>)
    ensures |r| == |c.ghosts.entries|
    ensures forall i :: 0 <= i < |r| ==> GetGhost(c, r[i].slug) == Some(r[i])
    ensures forall i, j :: 0 <= i < j < |r| ==> r[i].slug != r[j].slug
    ensures forall slug :: slug in c.ghosts.entries ==> exists i :: 0 <= i < |r| && r[i].slug == slug
    ensures |r| == |c.ghosts.order| && forall i :: 0 <= i < |r| ==> r[i].slug == c.ghosts.order[i]
  {
    var r := Values(c.ghosts);
    assert forall slug :: slug in c.ghosts.entries ==> slug in c.ghosts.order;
    r
  }

  /** `get_ghost(slug)`: the published ghost map's entry, a valid ghost with
      that slug. */
  function GetGhost(c: Catalog, slug: string): (r: Option<Anchor>)
    ensures r.Some? <==> slug in c.ghosts.entries
    ensures r.Some? ==> r.value == c.ghosts.entries[slug]
    ensures r.Some? ==> r.value.slug == slug && ValidAnchor(r.value) && r.value.meta.isGhost
  {
    Get(c.ghosts, slug)
  }

  /** After a successful load, `get_ghost(slug)` (or `get_anchor(slug)`) is
      absent exactly when no listed file of that kind has the slug, and is
      otherwise the anchor of the LAST such file in name order. */
  lemma LoadThenGet(state: Catalog, dirPath: string, entries: seq<Entry>, vecFiles: map<string, VectorFile>,
                    slug: string, wantGhost: bool)
    requires forall e :: e in entries && IsYaml(e.name) ==> BuildEntry(dirPath, e, vecFiles).Success?
    ensures var c := Load(state, dirPath, Present(entries), vecFiles).state;
            var got := if wantGhost then GetGhost(c, slug) else GetAnchor(c, slug);
            var ls := Listing(entries);
            var built := BuildAll(dirPath, ls, vecFiles).value;
            && (got.None? <==> NoneOfKind(built, slug, wantGhost))
            && (got.Some? ==> exists i :: LastWithSlug(built, i, slug, wantGhost)
                                          && BuildEntry(dirPath, ls[i], vecFiles) == Success(got.value))
  {
    ListingBuildsIff(dirPath, entries, vecFiles);
    var ls := Listing(entries);
    LoadPublishesPartition(state, dirPath, ls, entries, vecFiles);
    BuiltThenGet(dirPath, ls, vecFiles, BuildAll(dirPath, ls, vecFiles).value, slug, wantGhost);
  }

  /** A load whose loop gets through publishes the partition of the built
      anchors. */
  lemma LoadPublishesPartition(state: Catalog, dirPath: string, ls: seq<Entry>, entries: seq<Entry>,
                               vecFiles: map<string, VectorFile>)
    requires ls == Listing(entries) && BuildAll(dirPath, ls, vecFiles).Success?
    ensures forall i :: 0 <= i < |BuildAll(dirPath, ls, vecFiles).value| ==> ValidAnchor(BuildAll(dirPath, ls, vecFiles).value[i])
    ensures Load(state, dirPath, Present(entries), vecFiles).state == Partition(BuildAll(dirPath, ls, vecFiles).value)
  {
    var built := BuildAll(dirPath, ls, vecFiles).value;
    forall i | 0 <= i < |built| ensures ValidAnchor(built[i]) {
      assert BuildEntry(dirPath, ls[i], vecFiles) == Success(built[i]);
    }
    assert LoadDir(dirPath, Present(entries), vecFiles) == Success(Partition(built));
  }

  /** The lookup half of `LoadThenGet`, for any sequence of entries the loop
      built. */
  lemma BuiltThenGet(dirPath: string, ls: seq<Entry>, vecFiles: map<string, VectorFile>, built: seq<Anchor>,
                     slug: string, wantGhost: bool)
    requires BuildAll(dirPath, ls, vecFiles) == Success(built)
    requires forall i :: 0 <= i < |built| ==> ValidAnchor(built[i])
    ensures var got := Get(MapOf(Partition(built), wantGhost), slug);
            && (got.None? <==> NoneOfKind(built, slug, wantGhost))
            && (got.Some? ==> exists i :: LastWithSlug(built, i, slug, wantGhost)
                                          && BuildEntry(dirPath, ls[i], vecFiles) == Success(got.value))
  {
    PartitionLastWins(built, slug, wantGhost);
    var got := Get(MapOf(Partition(built), wantGhost), slug);
    if got.Some? {
      var i :| LastWithSlug(built, i, slug, wantGhost) && built[i] == got.value;
      assert BuildEntry(dirPath, ls[i], vecFiles) == Success(got.value);
    }
  }
}
