# Anchor catalog, int8 vector codecs and user rules

This project models the core of a small FastAPI service in Dafny. The service
keeps a catalog of *anchors*. An anchor is an activity template with a size
range, an optional reduced embedding vector and optional instructions. It
also stores users, each optionally linked to an int8-quantised embedding
vector. The model covers these parts:

- **Catalog loader** (`app/services/anchors.py`). `load_anchors` reads every
  `*.yaml` document of a directory in name order. It validates each document
  and applies the ghost defaults: sizes 2 and 4, a 15-minute join window and
  a default notification template. It splits the anchors into a normal map
  and a ghost map keyed by slug, and publishes both maps together. The first
  bad document aborts the load and leaves the published pair as it was.
  `list_*`/`get_*` read the published pair.
  - Modules: `AnchorDocs` (one document) and `AnchorCatalog` (listing,
    loop, publish, queries).
  - `OrderedDict` models Python's insertion-ordered dict.
- **Codecs**:
  - the unscaled `pack_int8`/`unpack_int8` of `app/services/vectors.py`
    (module `Vectors`);
  - the normalised codec of `app/services/users.py`, which scales by 127 and
    clips to [-127, 127] (module `UnitCodec`).
  - `Quantize` holds int8/byte conversion and round-half-to-even.
- **User rules** (`app/services/users.py`, module `Users`). These cover the
  username derived from an e-mail, the vector-dimension check, and the
  argument checks of `create_user` and `attach_vector` in the order those
  functions make them.
- **Response shaping** (`app/api/anchors.py`, module `AnchorApi`). This
  covers the instructions URL precedence, the index rows and the two detail
  endpoints.

Support modules:

- `Wrappers`: `Option` and `Result`, and `CollectAll`, a loop that stops at
  its first failing step.
- `Config`: `VECTOR_DIM = 128`.
- `ServiceErrors`: the HTTP errors of the services, one constructor each.
- `Strings`: Python's `str.strip`, ASCII `lower`, `split(sep, 1)[0]`,
  substring search and code-point order.

Inputs that the service reads from the environment become parameters:

- the directory listing and the parsed documents (`Directory`, `DocSource`);
- the reduced-vector files (`vecFiles`);
- the instructions files (`htmlFiles`);
- the database (`Db`);
- `np.linalg.norm` of the input (`norm`);
- `request.url_for("static", ...)` (`staticUrl`).

## Model

| member | source | states |
|---|---|---|
| AnchorDocs.ReducedVector | app/services/anchors.py:78-90 | With no `reduced_vec_file` the vector is empty. Otherwise the file must exist, be a JSON array, have `reduced_dim` entries, and `reduced_dim` must equal VECTOR_DIM. Success holds exactly then, the vector is the file's numbers, and its length is 0 or VECTOR_DIM. Each failed check gives its own error in that order: missing file, malformed file, length mismatch (with both lengths), `reduced_dim` mismatch. |
| AnchorDocs.ResolveSizes | app/services/anchors.py:92-101 | A normal document fails exactly when a size is absent. A ghost's falsy min/max/join window (None or 0, through Python `or`) become 2, 4 and 15. A normal anchor never gets a join window. |
| AnchorDocs.NotifyTemplate | app/services/anchors.py:111-114 | A non-empty template is kept. Otherwise a ghost gets the default text and a normal anchor gets None, so every ghost has a template. |
| AnchorDocs.BuildAnchor | app/services/anchors.py:78-132 | The document is accepted iff the reduced vector is acceptable, a normal document gives both sizes, and the resolved range has 1 <= min <= max. The result is a valid anchor carrying the document's slug, title, description, tags, kind, source path and template, the checked reduced vector, the resolved sizes and join window, and the reducer and raw/reduced vector fields unchanged. Errors come in the order `load_anchors` checks them: reduced vector, missing sizes, then the invalid range with the resolved bounds. |
| AnchorDocs.GhostWithoutSizesGetsDefaults | app/services/anchors.py:93-96 | A ghost document without sizes, window or template loads with 2, 4, 15 and the default template. |
| AnchorDocs.ShortVectorFileRejected | app/services/anchors.py:85-86 | A normal document whose vector file holds VECTOR_DIM - 1 numbers against the default `reduced_dim` is refused with the length error naming the slug and both lengths. |
| AnchorCatalog.Listing | app/services/anchors.py:71 | The files visited are the `*.yaml` entries, each exactly as often as it occurs in the directory and no other entry, in ascending name order. |
| AnchorCatalog.BuildEntry | app/services/anchors.py:72-76 | A document the schema rejects aborts the load with the invalid-document error naming the file. A validated document builds iff it is acceptable, and the result, anchor or error, is exactly `BuildAnchor` of that document and file path. |
| AnchorCatalog.BuildAll | app/services/anchors.py:71-132 | The loop succeeds iff every listed file builds, with one anchor per file in order. On failure the error is that of the first failing file, and every earlier file built. |
| Wrappers.CollectAll | app/services/anchors.py:70-76 | A loop whose steps may raise: it succeeds iff every step succeeds, and then yields each step's value in order. On failure the error is that of the first failing step, and every earlier step succeeded. |
| AnchorCatalog.PartitionLastWins | app/services/anchors.py:134-137 | A slug is absent from a kind's map iff no anchor of that kind has it. Otherwise the map holds the last anchor of that kind with that slug, so a later file overrides an earlier one. |
| AnchorCatalog.PartitionOrder | app/services/anchors.py:134-137 | The map of each kind lists its slugs in order of first appearance, because re-assigning a dict key keeps its position. |
| AnchorCatalog.Load | app/services/anchors.py:61-145 | A missing directory publishes two empty maps and returns an empty map. A failure leaves the published pair unchanged. Success publishes both maps together and returns the normal map. For a present directory, success holds iff every `*.yaml` file builds, and a failure reports the error of the first `*.yaml` file, in name order, that fails. |
| AnchorCatalog.ListingBuildsIff | app/services/anchors.py:71-137 | The loop over the sorted listing gets through iff every `*.yaml` entry of the directory builds. |
| AnchorCatalog.LoadDir | app/services/anchors.py:61-137 | A missing directory gives two empty maps. A present directory gives a catalog iff every `*.yaml` entry builds. A failure carries the error of the first failing file of the sorted listing. |
| AnchorCatalog.ListAnchors | app/services/anchors.py:149-150 | Every published normal anchor appears exactly once, in the order its slug was first inserted, and each is what `get_anchor` returns for its slug. |
| AnchorCatalog.GetAnchor | app/services/anchors.py:153-154 | Returns the normal map's entry, present iff the slug is published. The entry is a valid non-ghost anchor under its own slug. |
| AnchorCatalog.ListGhosts | app/services/anchors.py:157-158 | Every published ghost appears exactly once, in the order its slug was first inserted, and each is what `get_ghost` returns for its slug. |
| AnchorCatalog.GetGhost | app/services/anchors.py:161-162 | Returns the ghost map's entry, present iff the slug is published. The entry is a valid ghost under its own slug. |
| AnchorCatalog.LoadThenGet | app/services/anchors.py:71-162 | After a load in which every `*.yaml` file builds, `get_anchor`/`get_ghost` of a slug is absent iff no listed file of that kind has the slug. Otherwise it is the anchor built from the last such file in name order. |
| Quantize.Round | app/services/users.py:35 | `np.round` stays within one half of its input, is exact on whole numbers and sends ties to even. |
| Quantize.QuantizeComponent | app/services/vectors.py:9 | `clip(round(x), lo, hi)` lies in [lo, hi]. Inside the range it is within one half of x, and beyond either end it saturates. |
| Vectors.PackInt8 | app/services/vectors.py:7-10 | One byte per component. Each int8 is within one half of its input inside [-128, 127] and saturates outside that range. |
| Vectors.UnpackInt8 | app/services/vectors.py:12-14 | One whole number in [-128, 127] per byte, which re-encodes to that byte. |
| Vectors.UnpackPackIntegral | app/services/vectors.py:7-14 | Whole-number vectors within [-128, 127] round-trip exactly through pack and unpack. |
| Vectors.PackUnpackBlob | app/services/vectors.py:7-14 | Every blob round-trips exactly through unpack and pack. |
| Vectors.CreateVectorFromFloats | app/services/vectors.py:16-29 | Rejects exactly the inputs whose length is not VECTOR_DIM, with the dimension error. Otherwise it stores dimension VECTOR_DIM and one packed byte per component, so the size guard cannot fire. |
| UnitCodec.PackInt8Normalized | app/services/users.py:22-36 | Rejects exactly a zero norm. Otherwise it yields one byte per component. Each byte decodes into [-127, 127] (never -128) and quantises 127 times the component, which is divided by the norm only when the norm is more than the tolerance away from 1. |
| UnitCodec.Renormalized | app/services/users.py:33-34 | When the norm is more than the tolerance away from 1 every component is divided by it. Otherwise the input is kept unchanged. |
| UnitCodec.UnpackInt8ToUnitFloat | app/services/users.py:128-130 | One value per byte, equal to its int8 divided by 127, and therefore in [-128/127, 1]. |
| UnitCodec.UnpackOfPacked | app/services/users.py:22-36 | A packed vector decodes into [-1, 1]. A component inside [-1, 1] comes back within 1/254 of itself, and one outside comes back as the nearer end. |
| UnitCodec.PackRejectsExactlyZeroVectors | app/services/users.py:29-32 | With the exact L2 norm, packing fails iff every component is zero. |
| UnitCodec.RenormalizedInUnitRange | app/services/users.py:33-34 | With the exact L2 norm, every renormalised component lies in [-1, 1]. |
| UnitCodec.ExactNormRoundTrip | app/services/users.py:22-36 | With the exact L2 norm and renormalisation applied, each decoded value is within 1/254 of the unit vector's component. |
| Users.UsernameFromEmail | app/services/users.py:12-13 | The username has no '@', no surrounding whitespace and no upper-case ASCII letter, and is no longer than the address. |
| Users.UsernameIdempotent | app/services/users.py:12-13 | Deriving a username from a username gives it back. |
| Users.UsernameOfLocalPart | app/services/users.py:12-13 | For `local@domain` the username is the stripped, lower-cased local part, whatever the domain. |
| Users.UsernameWithoutAt | app/services/users.py:12-13 | An address without '@' is taken whole: the username is the address stripped and lower-cased. |
| Users.UsernameIgnoresCase | app/services/users.py:12-13 | Lower-casing the address first does not change the username. |
| Users.EnsureVectorDim | app/services/users.py:15-20 | Fails iff the length differs from VECTOR_DIM, and reports the length found. |
| Users.CreateVector | app/services/users.py:38-47 | Fails iff the length is wrong (dimension error first) or the norm is zero. On success the row has dimension VECTOR_DIM and holds exactly the normalised packing of the input: one byte per dimension, all in [-127, 127], so the size guard cannot fire. |
| Users.GetUser | app/services/users.py:83-87 | Returns the stored user iff the id exists, and not-found otherwise. |
| Users.LookupVector | app/services/users.py:62-67 | A vector id is accepted iff it names a stored row of VECTOR_DIM dimensions. An unknown id is reported as not found before any dimension mismatch is reported. |
| Users.CreateUser | app/services/users.py:51-76 | Succeeds iff the username is free and the vector arguments are acceptable: not both given, an id names a stored VECTOR_DIM row, floats are well formed. Errors come in order: taken name, both arguments, then the unknown id, the id's dimension mismatch, or the error of `_create_vector` on the floats. The user carries the derived username, the given first name and the chosen vector: the stored row for an id, exactly the row `_create_vector` builds for floats, none when neither is given. |
| Users.CreateUserKeepsUsernamesUnique | app/services/users.py:53-56 | Storing a user that creation accepted keeps usernames unique. |
| Users.AttachVector | app/services/users.py:108-126 | Checks in order: an unknown user is not-found, then not exactly one argument is refused, then an unknown id, the id's dimension mismatch, or the error of `_create_vector`. It succeeds iff the user exists, exactly one argument is given and that argument is acceptable. The new vector is the stored row for an id, or exactly the row `_create_vector` builds. Username and first name are kept. |
| Users.VectorArgumentRules | app/services/users.py:59-60 | `create_user` accepts no vector argument and refuses both. `attach_vector` refuses both none and both. |
| AnchorApi.StaticRelativePath | app/api/anchors.py:13 | The path after the first "static/", or the whole path when it has none. |
| AnchorApi.StaticPrefixRemoved | app/api/anchors.py:13 | A path starting with "static/" loses exactly that prefix. |
| AnchorApi.InstructionsUrl | app/api/anchors.py:7-14 | A non-empty external URL wins. Otherwise a non-empty html path is served from the static mount. There is no URL iff both are empty. |
| AnchorApi.ExternalUrlIgnoresHtml | app/api/anchors.py:8-9 | Once an external URL is set, the html path does not affect the URL. |
| AnchorApi.AnchorSummary | app/api/anchors.py:16-25 | Copies slug, title, tags, sizes and kind from the anchor, with its instructions URL. |
| AnchorApi.AnchorsIndex | app/api/anchors.py:28-30 | One row per published normal anchor. Every slug is covered, each row is a non-ghost with 1 <= min <= max, and each row is the summary of that slug's anchor. Row i summarises the i-th anchor that `list_anchors` returns. |
| AnchorApi.GhostsIndex | app/api/anchors.py:67-74 | One row per published ghost. Each row is that ghost's summary plus its join window, which is always present. Row i summarises the i-th ghost that `list_ghosts` returns. |
| AnchorApi.InlineHtml | app/api/anchors.py:58-63 | The html key is present iff it was asked for and the anchor names a non-empty file. It holds the file's contents, or null when the file is missing. |
| AnchorApi.AnchorDetail | app/api/anchors.py:32-64 | Not found iff no normal anchor has the slug. Otherwise the anchor's fields, `is_ghost` false and no ghost keys. The reduced vector is present iff asked for, and then has length 0 or VECTOR_DIM. |
| AnchorApi.GhostDetail | app/api/anchors.py:76-110 | Not found iff no ghost has the slug. Otherwise the ghost's fields, `is_ghost` true, and a join window and template that are always present. The reduced vector is present iff asked for. |
| AnchorApi.AnchorRowsOpen | app/api/anchors.py:28-64 | Every row of the normal index opens in the detail endpoint with the same title, tags, sizes, URL and kind. |
| AnchorApi.GhostRowsOpen | app/api/anchors.py:67-110 | Every row of the ghost index opens in the ghost detail endpoint with the same fields and join window. |

## Left out

- YAML parsing and schema validation: a file arrives as a validated document or as a rejected one (`DocSource`). A YAML syntax error, which `load_anchors` lets escape as a parser exception rather than the invalid-document error, is folded into the same rejection.
- The `version` field of a document: nothing reads it.
- The `_read_json_floats` parsing: a reduced-vector file is a list of numbers or malformed (`VectorFile`). Python's `float()` conversion of each element is not modelled.
- File-system paths: an anchor's file path is `dir + "/" + name` with no `pathlib` normalisation. Vector and html files are keyed by the path string as written in the document.
- Floating point: vectors are exact reals. float32 rounding of the inputs, of the division by the norm and of `/ 127.0` is not modelled.
- UnitCodec.PackInt8Normalized: `np.linalg.norm` is a parameter. The lemmas that need the exact L2 norm take `norm * norm == sum of squares` as a precondition.
- Users.UsernameFromEmail: lower-casing covers ASCII letters only, while Python's `str.lower` is Unicode-wide.
- The database: `Db` is a value read by the rules. Commits, flushes, refreshes and id assignment are not modelled, and the result is the user record to be stored.
- HTTP status codes and messages: each error is one constructor of `ServiceError` or `ApiError`.
- Read errors of an instructions file other than a missing file.
- `list_users`, `get_user_by_username`, `update_user` and `delete_user`: these are plain queries outside the modelled rules.
- Aliasing: the catalog maps and the `Anchor` records are values. `load_anchors` publishes and returns the dicts themselves, and the getters hand out the cached `Anchor` objects, so a caller that mutated one would change the cache; nothing in the modelled operations does.
- The default `dir_path="data/anchors"` of `load_anchors`: `dirPath` is always given.
- Concurrency: the module-level caches are a value passed in and returned, and the swap of both maps is one step.
- The scale and zero point mentioned in `create_vector_from_floats`: `create_vector_from_floats` fixes them at 1 and 0.
