/** The user-side rules of app/services/users.py: how a username is derived
    from an e-mail address, and the checks `create_user` and
    `attach_vector` make, in their order, before a user is stored or a
    vector attached. The database is a value (`Db`) read by the model;
    commits, refreshes and identifier assignment are not modelled. */
module Users {
  import opened Wrappers
  import opened Config
  import opened ServiceErrors
  import opened Strings
  import opened Quantize
  import opened Vectors
  import opened UnitCodec

  /** The vector a user ends up with: none, a stored row chosen by id, or a
      row created from the given floats. */
  datatype VectorRef = NoVector | Existing(id: int) | Fresh(vec: StoredVector)

  datatype User = User(username: string, firstName: Option<string>, vector: VectorRef)

  /** The two tables the rules read. */
  datatype Db = Db(users: map<int, User>, vectors: map<int, StoredVector>)

  /** `username_from_email(email)`: the part before the first '@', stripped
      of surrounding whitespace and lower-cased. */
  function UsernameFromEmail(email: string): (u: string)
    ensures '@' !in u
    ensures IsStripped(u)
    ensures forall k :: 0 <= k < |u| ==> !IsAsciiUpper(u[k])
    ensures |u| <= |email|
  {
    var local := BeforeFirst(email, '@');
    var stripped := Strip(local);
    LowerKeeps(stripped, '@');
    Lower(stripped)
  }

  /** A username is its own username: deriving it again changes nothing. */
  lemma UsernameIdempotent(email: string)
    ensures UsernameFromEmail(UsernameFromEmail(email)) == UsernameFromEmail(email)
  {
    var u := UsernameFromEmail(email);
    BeforeFirstAbsent(u, '@');
    StripStripped(u);
    LowerIdentity(u);
  }

  /** For `local@domain` with no '@' in `local`, the username is `local`
      stripped and lower-cased; the domain plays no part. */
  lemma UsernameOfLocalPart(local: string, domain: string)
    requires '@' !in local
    ensures UsernameFromEmail(local + "@" + domain) == Lower(Strip(local))
  {
    BeforeFirstConcat(local, '@', domain);
  }

  /** An address with no '@' is its own local part: the username is the
      whole address stripped and lower-cased. */
  lemma UsernameWithoutAt(email: string)
    requires '@' !in email
    ensures UsernameFromEmail(email) == Lower(Strip(email))
  {
    BeforeFirstAbsent(email, '@');
  }

  /** Upper-case letters in the address do not change the username. */
  lemma UsernameIgnoresCase(email: string)
    ensures UsernameFromEmail(Lower(email)) == UsernameFromEmail(email)
  {
    var local := BeforeFirst(email, '@');
    BeforeFirstLower(email, '@');
    StripLower(local);
    LowerIdempotent(Strip(local));
  }

  /** `_ensure_vector_dim(data)`: fails exactly when the length is not
      VECTOR_DIM, reporting the length found. */
  function EnsureVectorDim(data: seq<real>): (r: Result<(), ServiceError>)
    ensures r.Failure? <==> |data| != VECTOR_DIM
    ensures r.Failure? ==> r.error == DimensionMismatch(|data|, VECTOR_DIM)
  {
    if |data| != VECTOR_DIM then Failure(DimensionMismatch(|data|, VECTOR_DIM)) else Success(())
  }

  /** `_create_vector(db, vec)`: the length check, then the normalised
      packing (with `norm` standing for `np.linalg.norm` of the input), then
      the one-byte-per-dimension guard, which never fires. */
  function CreateVector(data: seq<real>, norm: real): (r: Result<StoredVector, ServiceError>)
    requires norm >= 0.0
    ensures r.Failure? <==> |data| != VECTOR_DIM || norm == 0.0
    ensures |data| != VECTOR_DIM ==> r == Failure(DimensionMismatch(|data|, VECTOR_DIM))
    ensures |data| == VECTOR_DIM && norm == 0.0 ==> r == Failure(ZeroNorm)
    ensures r.Success? ==> r.value.dim == VECTOR_DIM == |r.value.data|
    ensures r.Success? ==> forall i :: 0 <= i < |r.value.data| ==> -SCALE <= FromByte(r.value.data[i]) <= SCALE
    ensures r.Success? ==> r.value.data == PackInt8Normalized(data, norm, RENORM_TOLERANCE).value
  {
    var _ :- EnsureVectorDim(data);
    var blob :- PackInt8Normalized(data, norm, RENORM_TOLERANCE);
    var vec := StoredVector(|data|, blob);
    if |blob| != vec.dim then Failure(PackedSizeMismatch) else Success(vec)
  }

  /** `get_user(db, user_id)`. */
  function GetUser(db: Db, userId: int): (r: Result<User, ServiceError>)
    ensures r.Success? <==> userId in db.users
    ensures r.Success? ==> r.value == db.users[userId]
    ensures r.Failure? ==> r.error == UserNotFound
  {
    if userId in db.users then Success(db.users[userId]) else Failure(UserNotFound)
  }

  /** The lookup both operations share: the row must exist and have
      VECTOR_DIM dimensions. */
  function LookupVector(db: Db, vectorId: int): (r: Result<StoredVector, ServiceError>)
    ensures r.Success? <==> vectorId in db.vectors && db.vectors[vectorId].dim == VECTOR_DIM
    ensures r.Success? ==> r.value == db.vectors[vectorId]
    ensures vectorId !in db.vectors ==> r == Failure(VectorNotFound)
    ensures vectorId in db.vectors && db.vectors[vectorId].dim != VECTOR_DIM ==> r == Failure(VectorDimMismatch)
  {
    if vectorId !in db.vectors then Failure(VectorNotFound)
    else if db.vectors[vectorId].dim != VECTOR_DIM then Failure(VectorDimMismatch)
    else Success(db.vectors[vectorId])
  }

  /** The reference to a stored row, after the lookup's checks. */
  function ExistingRef(db: Db, vectorId: int): Result<VectorRef, ServiceError> {
    var _ :- LookupVector(db, vectorId);
    Success(Existing(vectorId))
  }

  /** The reference to a row created from floats. */
  function FreshRef(data: seq<real>, norm: real): Result<VectorRef, ServiceError>
    requires norm >= 0.0
  {
    var vec :- CreateVector(data, norm);
    Success(Fresh(vec))
  }

  /** Some stored user already has this username. */
  predicate UsernameTakenIn(db: Db, username: string) {
    exists id | id in db.users :: db.users[id].username == username
  }

  /** No two stored users share a username: what the 409 check keeps. */
  ghost predicate UniqueUsernames(db: Db) {
    forall a, b :: a in db.users && b in db.users && a != b ==> db.users[a].username != db.users[b].username
  }

  /** The vector arguments of `create_user` can be accepted: an id naming a
      stored VECTOR_DIM row, or floats of the right length with a non-zero
      norm, or neither. */
  predicate CreateVectorArgsOk(db: Db, vectorId: Option<int>, vectorData: Option<seq<real>>, norm: real) {
    && !(vectorId.Some? && vectorData.Some?)
    && (vectorId.Some? ==> vectorId.value in db.vectors && db.vectors[vectorId.value].dim == VECTOR_DIM)
    && (vectorData.Some? ==> |vectorData.value| == VECTOR_DIM && norm != 0.0)
  }

  /** `create_user(db, email, first_name, vector_id, vector_data)`: a taken
      username is refused first, then passing both vector arguments; an id
      must name a stored row of the right dimension; floats go through
      `_create_vector`. Passing neither is allowed. */
  function CreateUser(db: Db, email: string, firstName: Option<string>,
                      vectorId: Option<int>, vectorData: Option<seq<real>>, norm: real): (r: Result<User, ServiceError>)
    requires norm >= 0.0
    ensures r.Success? <==> !UsernameTakenIn(db, UsernameFromEmail(email)) && CreateVectorArgsOk(db, vectorId, vectorData, norm)
    ensures UsernameTakenIn(db, UsernameFromEmail(email)) ==> r == Failure(UsernameTaken)
    ensures !UsernameTakenIn(db, UsernameFromEmail(email)) && vectorId.Some? && vectorData.Some? ==> r == Failure(BothVectorArgs)
    ensures r.Success? ==> r.value.username == UsernameFromEmail(email) && r.value.firstName == firstName
    ensures r.Success? && vectorId.Some? ==> r.value.vector == Existing(vectorId.value)
    ensures r.Success? && vectorData.Some? ==>
              r.value.vector.Fresh? && r.value.vector.vec.dim == VECTOR_DIM == |r.value.vector.vec.data|
    ensures r.Success? && vectorData.Some? ==> r.value.vector == Fresh(CreateVector(vectorData.value, norm).value)
    ensures r.Success? && vectorId.None? && vectorData.None? ==> r.value.vector == NoVector
    ensures !UsernameTakenIn(db, UsernameFromEmail(email)) && !(vectorId.Some? && vectorData.Some?) ==>
              && (vectorId.Some? && vectorId.value !in db.vectors ==> r == Failure(VectorNotFound))
              && (vectorId.Some? && vectorId.value in db.vectors && db.vectors[vectorId.value].dim != VECTOR_DIM ==>
                    r == Failure(VectorDimMismatch))
              && (vectorData.Some? && CreateVector(vectorData.value, norm).Failure? ==>
                    r == Failure(CreateVector(vectorData.value, norm).error))
  {
    var username := UsernameFromEmail(email);
    if UsernameTakenIn(db, username) then Failure(UsernameTaken)
    else if vectorId.Some? && vectorData.Some? then Failure(BothVectorArgs)
    else
      var found :- if vectorId.Some? then ExistingRef(db, vectorId.value) else Success(NoVector);
      var vector :- if vectorData.Some? then FreshRef(vectorData.value, norm) else Success(found);
      Success(User(username, firstName, vector))
  }

  /** A user that `create_user` accepts can be stored under any free id
      without two users sharing a username. */
  lemma CreateUserKeepsUsernamesUnique(db: Db, email: string, firstName: Option<string>,
                                       vectorId: Option<int>, vectorData: Option<seq<real>>, norm: real, newId: int)
    requires norm >= 0.0
    requires UniqueUsernames(db) && newId !in db.users
    requires CreateUser(db, email, firstName, vectorId, vectorData, norm).Success?
    ensures UniqueUsernames(db.(users := db.users[newId := CreateUser(db, email, firstName, vectorId, vectorData, norm).value]))
  {
    var u := CreateUser(db, email, firstName, vectorId, vectorData, norm).value;
    assert !UsernameTakenIn(db, u.username);
  }

  /** `attach_vector(db, user_id, vector_id, vector_data)`: the user must
      exist, exactly one vector argument must be given, and then the id is
      looked up or the floats go through `_create_vector`. Only the user's
      vector changes. */
  function AttachVector(db: Db, userId: int, vectorId: Option<int>, vectorData: Option<seq<real>>, norm: real): (r: Result<User, ServiceError>)
    requires norm >= 0.0
    ensures userId !in db.users ==> r == Failure(UserNotFound)
    ensures userId in db.users && vectorId.None? == vectorData.None? ==> r == Failure(NeedExactlyOneVectorArg)
    ensures r.Success? <==>
              && userId in db.users
              && vectorId.None? != vectorData.None?
              && CreateVectorArgsOk(db, vectorId, vectorData, norm)
    ensures r.Success? ==>
              r.value.username == db.users[userId].username && r.value.firstName == db.users[userId].firstName
    ensures r.Success? && vectorId.Some? ==> r.value.vector == Existing(vectorId.value)
    ensures r.Success? && vectorData.Some? ==>
              r.value.vector.Fresh? && r.value.vector.vec.dim == VECTOR_DIM == |r.value.vector.vec.data|
    ensures r.Success? && vectorData.Some? ==> r.value.vector == Fresh(CreateVector(vectorData.value, norm).value)
    ensures userId in db.users && vectorId.None? != vectorData.None? ==>
              && (vectorId.Some? && vectorId.value !in db.vectors ==> r == Failure(VectorNotFound))
              && (vectorId.Some? && vectorId.value in db.vectors && db.vectors[vectorId.value].dim != VECTOR_DIM ==>
                    r == Failure(VectorDimMismatch))
              && (vectorData.Some? && CreateVector(vectorData.value, norm).Failure? ==>
                    r == Failure(CreateVector(vectorData.value, norm).error))
  {
    var user :- GetUser(db, userId);
    if vectorId.None? == vectorData.None? then Failure(NeedExactlyOneVectorArg)
    else if vectorId.Some? then
      var vector :- ExistingRef(db, vectorId.value);
      Success(user.(vector := vector))
    else
      var vector :- FreshRef(vectorData.value, norm);
      Success(user.(vector := vector))
  }

  /** The two operations disagree on "no vector": `create_user` accepts it,
      `attach_vector` refuses it; both refuse two vector arguments. */
  lemma VectorArgumentRules(db: Db, email: string, userId: int, id: int, data: seq<real>, norm: real)
    requires norm >= 0.0
    requires !UsernameTakenIn(db, UsernameFromEmail(email)) && userId in db.users
    ensures CreateUser(db, email, None, None, None, norm).Success?
    ensures AttachVector(db, userId, None, None, norm) == Failure(NeedExactlyOneVectorArg)
    ensures CreateUser(db, email, None, Some(id), Some(data), norm) == Failure(BothVectorArgs)
    ensures AttachVector(db, userId, Some(id), Some(data), norm) == Failure(NeedExactlyOneVectorArg)
  {
  }
}
