/** The meme routes: the paged feed, lookup of one meme, liking a meme and
    uploading one, against an in-memory stand-in for the meme and like
    collections (each a sequence of documents in storage order). */
module Memes {
  import opened Outcomes
  import opened Text
  import opened Minio
  import opened ObjectIds

  /** Detail of the response the framework sends for an unhandled error. */
  const InternalError: string := "Internal Server Error"

  /** A stored meme document. `imgUrl` holds the whole dictionary the upload
      returned (None for the empty dictionary). */
  datatype Meme = Meme(
    id: ObjectId,
    title: string,
    description: string,
    objectName: string,
    filename: string,
    imgUrl: Option<UrlInfo>,
    createdAt: int,
    user: string,
    likes: int)

  /** A meme as the routes return it: the same fields, with the identifier
      printed as text. */
  datatype MemeView = MemeView(
    id: string,
    title: string,
    description: string,
    objectName: string,
    filename: string,
    imgUrl: Option<UrlInfo>,
    createdAt: int,
    user: string,
    likes: int)

  function View(m: Meme): MemeView
  {
    MemeView(Str(m.id), m.title, m.description, m.objectName, m.filename,
             m.imgUrl, m.createdAt, m.user, m.likes)
  }

  /** A like document: who liked which meme, the meme named by the text of
      its identifier. */
  datatype Like = Like(user: string, meme: string, createdAt: int)

  /** The two collections together. */
  datatype MemeDb = MemeDb(memes: seq<Meme>, likes: seq<Like>)

  /** What a successful upload answers: the new meme's identifier as text
      and the URL dictionary. */
  datatype UploadReply = UploadReply(id: string, url: Option<UrlInfo>)

  // ---------------------------------------------------------------------------
  // Lookups

  /** The position of the first meme with identifier `id`, as a lookup by
      identifier finds it. */
  function FindMeme(memes: seq<Meme>, id: ObjectId): (r: Option<nat>)
    ensures r.Some? ==> r.value < |memes| && memes[r.value].id == id
    ensures r.None? <==> forall j :: 0 <= j < |memes| ==> memes[j].id != id
  {
    FindMemeFrom(memes, id, 0)
  }

  function FindMemeFrom(memes: seq<Meme>, id: ObjectId, from: nat): (r: Option<nat>)
    requires from <= |memes|
    ensures r.Some? ==> from <= r.value < |memes| && memes[r.value].id == id
    ensures r.None? <==> forall j :: from <= j < |memes| ==> memes[j].id != id
    decreases |memes| - from
  {
    if from == |memes| then None
    else if memes[from].id == id then Some(from)
    else FindMemeFrom(memes, id, from + 1)
  }

  predicate HasLike(likes: seq<Like>, user: string, meme: string)
  {
    exists i :: 0 <= i < |likes| && likes[i].user == user && likes[i].meme == meme
  }

  /** The number of like documents naming `meme`. */
  function LikeCount(likes: seq<Like>, meme: string): nat
  {
    if likes == [] then 0
    else LikeCount(likes[..|likes| - 1], meme) + (if likes[|likes| - 1].meme == meme then 1 else 0)
  }

  // ---------------------------------------------------------------------------
  // The consistency the like counters are meant to keep

  predicate UniqueIds(memes: seq<Meme>)
  {
    forall i, j :: 0 <= i < j < |memes| ==> memes[i].id != memes[j].id
  }

  /** At most one like document per (user, meme) pair. */
  predicate OneLikePerPair(likes: seq<Like>)
  {
    forall i, j :: 0 <= i < j < |likes| ==>
      likes[i].user != likes[j].user || likes[i].meme != likes[j].meme
  }

  /** Every like names a stored meme. */
  predicate LikesNameMemes(db: MemeDb)
  {
    forall i :: 0 <= i < |db.likes| ==>
      exists j :: 0 <= j < |db.memes| && Str(db.memes[j].id) == db.likes[i].meme
  }

  /** Each meme's counter equals the number of likes naming it. */
  predicate CountersMatch(db: MemeDb)
  {
    forall i :: 0 <= i < |db.memes| ==> db.memes[i].likes == LikeCount(db.likes, Str(db.memes[i].id))
  }

  predicate Consistent(db: MemeDb)
  {
    UniqueIds(db.memes) && OneLikePerPair(db.likes) && LikesNameMemes(db) && CountersMatch(db)
  }

  // ---------------------------------------------------------------------------
  // Liking

  /** The like of the meme at position `i` by `user`: when the user has no
      like for it yet, one like document is appended and that meme's counter
      goes up by one; otherwise nothing changes. The like names the meme by
      the printed text of its identifier. */
  function AddLike(db: MemeDb, user: string, i: nat, now: int): MemeDb
    requires i < |db.memes|
  {
    var m := db.memes[i];
    if HasLike(db.likes, user, Str(m.id)) then db
    else MemeDb(db.memes[i := m.(likes := m.likes + 1)], db.likes + [Like(user, Str(m.id), now)])
  }

  lemma LikeCountAppend(likes: seq<Like>, l: Like, meme: string)
    ensures LikeCount(likes + [l], meme) == LikeCount(likes, meme) + (if l.meme == meme then 1 else 0)
  {
    assert (likes + [l])[..|likes|] == likes;
  }

  /** No like names `meme`, so none is counted for it. */
  lemma {:induction false} LikeCountZero(likes: seq<Like>, meme: string)
    requires forall i :: 0 <= i < |likes| ==> likes[i].meme != meme
    ensures LikeCount(likes, meme) == 0
  {
    if likes != [] {
      LikeCountZero(likes[..|likes| - 1], meme);
    }
  }

  /** A first like adds exactly one like document, for that pair, and raises
      exactly that meme's counter by one; every other meme and like is left
      as it was. */
  lemma AddLikeCountsOnce(db: MemeDb, user: string, i: nat, now: int)
    requires UniqueIds(db.memes) && i < |db.memes|
    requires !HasLike(db.likes, user, Str(db.memes[i].id))
    ensures var db' := AddLike(db, user, i, now);
            && db'.likes == db.likes + [Like(user, Str(db.memes[i].id), now)]
            && |db'.memes| == |db.memes|
            && db'.memes[i].likes == db.memes[i].likes + 1
            && LikeCount(db'.likes, Str(db.memes[i].id)) == LikeCount(db.likes, Str(db.memes[i].id)) + 1
            && (forall j :: 0 <= j < |db.memes| && j != i ==>
                  db'.memes[j] == db.memes[j]
                  && LikeCount(db'.likes, Str(db.memes[j].id)) == LikeCount(db.likes, Str(db.memes[j].id)))
  {
    var key := Str(db.memes[i].id);
    var l := Like(user, key, now);
    LikeCountAppend(db.likes, l, key);
    forall j | 0 <= j < |db.memes| && j != i
      ensures LikeCount(db.likes + [l], Str(db.memes[j].id)) == LikeCount(db.likes, Str(db.memes[j].id))
    {
      LikeCountAppend(db.likes, l, Str(db.memes[j].id));
    }
  }

  /** Memes whose identifiers are unchanged keep them unique. */
  lemma SameIdsKeepUnique(memes: seq<Meme>, memes': seq<Meme>)
    requires UniqueIds(memes) && |memes'| == |memes|
    requires forall j :: 0 <= j < |memes| ==> memes'[j].id == memes[j].id
    ensures UniqueIds(memes')
  {
    forall a, b | 0 <= a < b < |memes'| ensures memes'[a].id != memes'[b].id {
      assert memes'[a].id == memes[a].id && memes'[b].id == memes[b].id;
    }
  }

  /** Appending a like for a pair with no like keeps one like per pair. */
  lemma AppendNewPairKeepsOne(likes: seq<Like>, l: Like)
    requires OneLikePerPair(likes) && !HasLike(likes, l.user, l.meme)
    ensures OneLikePerPair(likes + [l])
  {
    var likes' := likes + [l];
    forall a, b | 0 <= a < b < |likes'|
      ensures likes'[a].user != likes'[b].user || likes'[a].meme != likes'[b].meme
    {
      assert likes'[a] == likes[a];
      if b < |likes| {
        assert likes'[b] == likes[b];
      }
    }
  }

  /** Appending a like that names a stored meme, with the identifiers
      unchanged, keeps every like naming a stored meme. */
  lemma AppendNamedLikeKeepsNames(db: MemeDb, memes': seq<Meme>, l: Like, i: nat)
    requires LikesNameMemes(db) && |memes'| == |db.memes| && i < |db.memes|
    requires forall j :: 0 <= j < |db.memes| ==> memes'[j].id == db.memes[j].id
    requires l.meme == Str(db.memes[i].id)
    ensures LikesNameMemes(MemeDb(memes', db.likes + [l]))
  {
    var likes' := db.likes + [l];
    forall a | 0 <= a < |likes'|
      ensures exists j :: 0 <= j < |memes'| && Str(memes'[j].id) == likes'[a].meme
    {
      if a == |db.likes| {
        assert Str(memes'[i].id) == likes'[a].meme;
      } else {
        assert likes'[a] == db.likes[a];
        var j :| 0 <= j < |db.memes| && Str(db.memes[j].id) == db.likes[a].meme;
        assert Str(memes'[j].id) == likes'[a].meme;
      }
    }
  }

  /** Liking keeps the collections consistent. */
  lemma AddLikeKeepsConsistent(db: MemeDb, user: string, i: nat, now: int)
    requires Consistent(db) && i < |db.memes|
    ensures Consistent(AddLike(db, user, i, now))
  {
    var key := Str(db.memes[i].id);
    if !HasLike(db.likes, user, key) {
      var db' := AddLike(db, user, i, now);
      var l := Like(user, key, now);
      AddLikeCountsOnce(db, user, i, now);
      assert forall j :: 0 <= j < |db.memes| ==> db'.memes[j].id == db.memes[j].id;
      SameIdsKeepUnique(db.memes, db'.memes);
      AppendNewPairKeepsOne(db.likes, l);
      AppendNamedLikeKeepsNames(db, db'.memes, l, i);
    }
  }

  /** Liking twice is liking once: after a first like the second call finds
      the like and changes nothing. */
  lemma AddLikeIdempotent(db: MemeDb, user: string, i: nat, now: int, later: int)
    requires i < |db.memes|
    ensures var db' := AddLike(db, user, i, now);
            i < |db'.memes| && AddLike(db', user, i, later) == db'
  {
    var db' := AddLike(db, user, i, now);
    var key := Str(db.memes[i].id);
    if !HasLike(db.likes, user, key) {
      assert db'.likes[|db.likes|] == Like(user, key, now);
      assert HasLike(db'.likes, user, Str(db'.memes[i].id));
    }
  }

  /** The state a like leaves when its document is written but the counter
      increment is not applied. */
  function LikeWithoutCount(db: MemeDb, user: string, i: nat, now: int): MemeDb
    requires i < |db.memes|
  {
    MemeDb(db.memes, db.likes + [Like(user, Str(db.memes[i].id), now)])
  }

  /** From a consistent state, a like without its increment leaves that
      meme's counter exactly one short of its likes. */
  lemma LikeWithoutCountBreaksCounter(db: MemeDb, user: string, i: nat, now: int)
    requires Consistent(db) && i < |db.memes|
    ensures var db' := LikeWithoutCount(db, user, i, now);
            && db'.memes[i].likes + 1 == LikeCount(db'.likes, Str(db'.memes[i].id))
            && !Consistent(db')
  {
    LikeCountAppend(db.likes, Like(user, Str(db.memes[i].id), now), Str(db.memes[i].id));
  }

  /** A retry after such a failure finds the written like and changes
      nothing, so the counter stays short. */
  lemma RetryAfterFailureChangesNothing(db: MemeDb, user: string, i: nat, now: int, later: int)
    requires i < |db.memes|
    ensures var db' := LikeWithoutCount(db, user, i, now);
            AddLike(db', user, i, later) == db'
  {
    var db' := LikeWithoutCount(db, user, i, now);
    assert db'.likes[|db.likes|] == Like(user, Str(db.memes[i].id), now);
  }

  /** Lookups by identifier agree on collections whose identifiers agree
      position by position. */
  lemma {:induction false} FindMemeFromSameIds(memes: seq<Meme>, memes': seq<Meme>, id: ObjectId, from: nat)
    requires from <= |memes| == |memes'|
    requires forall j :: 0 <= j < |memes| ==> memes'[j].id == memes[j].id
    ensures FindMemeFrom(memes', id, from) == FindMemeFrom(memes, id, from)
    decreases |memes| - from
  {
    if from < |memes| && memes[from].id != id {
      FindMemeFromSameIds(memes, memes', id, from + 1);
    }
  }

  /** With the like keyed by the printed identifier, liking through two
      spellings of one identifier is liking once: the second request finds
      the same meme and the like the first one stored, and changes nothing. */
  lemma TwoSpellingsLikeOnce(db: MemeDb, user: string, s: string, t: string, now: int, later: int)
    requires Parse(s).Some? && Parse(s) == Parse(t)
    requires FindMeme(db.memes, Parse(s).value).Some?
    ensures var i := FindMeme(db.memes, Parse(s).value).value;
            var db1 := AddLike(db, user, i, now);
            && Str(Parse(t).value) == Str(Parse(s).value)
            && FindMeme(db1.memes, Parse(t).value) == Some(i)
            && AddLike(db1, user, i, later) == db1
  {
    var i := FindMeme(db.memes, Parse(s).value).value;
    var db1 := AddLike(db, user, i, now);
    assert forall j :: 0 <= j < |db.memes| ==> db1.memes[j].id == db.memes[j].id;
    FindMemeFromSameIds(db.memes, db1.memes, Parse(t).value, 0);
    AddLikeIdempotent(db, user, i, now, later);
  }

  /** Liking as the route is written: the like is keyed by the identifier
      text exactly as it arrived in the path, while the meme is found by the
      identifier that text parses to. */
  function AddLikeAsWritten(db: MemeDb, user: string, id: string, i: nat, now: int): MemeDb
    requires i < |db.memes|
  {
    var m := db.memes[i];
    if HasLike(db.likes, user, id) then db
    else MemeDb(db.memes[i := m.(likes := m.likes + 1)], db.likes + [Like(user, id, now)])
  }

  /** When the path text is already the printed identifier, the as-written
      like and the corrected one coincide: they differ only for other
      spellings. */
  lemma AddLikeAsWrittenOnPrintedId(db: MemeDb, user: string, i: nat, now: int)
    requires i < |db.memes|
    ensures AddLikeAsWritten(db, user, Str(db.memes[i].id), i, now) == AddLike(db, user, i, now)
  {
  }

  /** With the raw path text as the key, two spellings of one identifier
      (they differ only in letter case) are two different likes: the same
      user likes the same meme twice, its counter rises by two, and the
      counter no longer matches the likes stored under its identifier. */
  lemma DoubleLikeAsWritten(db: MemeDb, user: string, s: string, t: string, i: nat, now: int, later: int)
    requires Consistent(db) && i < |db.memes|
    requires Parse(s) == Some(db.memes[i].id) && Parse(t) == Some(db.memes[i].id) && s != t
    requires !HasLike(db.likes, user, s) && !HasLike(db.likes, user, t)
    ensures var db1 := AddLikeAsWritten(db, user, s, i, now);
            var db2 := AddLikeAsWritten(db1, user, t, i, later);
            && db2.likes == db.likes + [Like(user, s, now), Like(user, t, later)]
            && db2.memes[i].likes == db.memes[i].likes + 2
            && !Consistent(db2)
  {
    var key := Str(db.memes[i].id);
    var db1 := AddLikeAsWritten(db, user, s, i, now);
    assert !HasLike(db1.likes, user, t) by {
      forall k | 0 <= k < |db1.likes| ensures !(db1.likes[k].user == user && db1.likes[k].meme == t) {
        if k < |db.likes| {
          assert db1.likes[k] == db.likes[k];
        }
      }
    }
    var db2 := AddLikeAsWritten(db1, user, t, i, later);
    assert db2.likes == db.likes + [Like(user, s, now)] + [Like(user, t, later)];
    assert db2.likes == db.likes + [Like(user, s, now), Like(user, t, later)];
    LikeCountAppend(db.likes, Like(user, s, now), key);
    LikeCountAppend(db1.likes, Like(user, t, later), key);
    assert LikeCount(db2.likes, key) <= LikeCount(db.likes, key) + 1;
    assert db2.memes[i].likes != LikeCount(db2.likes, Str(db2.memes[i].id));
  }

  /** Two such spellings exist: an identifier with a hexadecimal letter in
      it, in lower and in upper case. */
  lemma TwoSpellingsOfOneId()
    ensures var s, t := "a00000000000000000000000", "A00000000000000000000000";
            s != t && Parse(s).Some? && Parse(s) == Parse(t)
  {
    var s, t := "a00000000000000000000000", "A00000000000000000000000";
    assert IsCanonical(s);
    ParseStr(Oid(s));
    assert Lower(t) == Lower(s);
    ParseIgnoresCase(s, t);
  }

  // ---------------------------------------------------------------------------
  // Paging

  function Min(a: int, b: int): int
  {
    if a <= b then a else b
  }

  /** At most `limit` documents after skipping `skip`, in storage order. */
  function Page<T>(s: seq<T>, skip: nat, limit: nat): seq<T>
  {
    s[Min(skip, |s|)..Min(skip + limit, |s|)]
  }

  /** The largest skip the driver can send: skips travel as signed 64-bit
      integers. */
  const MaxSkip: int := 0x7fff_ffff_ffff_ffff

  /** The listing query: skip (page-1)*limit documents and take at most
      `limit`. The driver refuses a negative skip, a skip too large for a
      signed 64-bit integer and a negative length. */
  function ListMemes(memes: seq<Meme>, page: int := 1, limit: int := 10): (r: Result<seq<Meme>, Failure>)
    ensures r.Err? ==> r.error == ServerError(InternalError)
    ensures r.Ok? ==> |r.value| <= limit
  {
    var skip := (page - 1) * limit;
    if skip < 0 then Err(ServerError(InternalError))
    else if skip > MaxSkip then Err(ServerError(InternalError))
    else if limit < 0 then Err(ServerError(InternalError))
    else Ok(Page(memes, skip, limit))
  }

  /** The listing fails exactly for a negative page size, for a page below
      1 with a positive page size (a negative skip), and for a skip beyond
      the 64-bit range. */
  lemma ListMemesAccepts(memes: seq<Meme>, page: int, limit: int)
    ensures ListMemes(memes, page, limit).Ok?
            <==> (limit == 0 || (limit > 0 && page >= 1)) && (page - 1) * limit <= MaxSkip
  {
    if limit > 0 {
      if page >= 1 {
        assert (page - 1) * limit >= 0;
      } else {
        assert (page - 1) * limit == -((1 - page) * limit);
        assert (1 - page) * limit >= limit;
      }
    } else if limit < 0 && page < 1 {
      assert (page - 1) * limit == (1 - page) * -limit;
    }
  }

  /** For page >= 1 and limit >= 1 the listing is the storage-order slice
      starting at (page-1)*limit, of length min(limit, what remains), as
      long as that skip fits in 64 bits; beyond, the driver refuses it. */
  lemma ListMemesSlice(memes: seq<Meme>, page: int, limit: int)
    requires page >= 1 && limit >= 1
    ensures var skip := (page - 1) * limit;
            skip > MaxSkip ==> ListMemes(memes, page, limit) == Err(ServerError(InternalError))
    ensures var skip := (page - 1) * limit;
            skip <= MaxSkip ==>
            && ListMemes(memes, page, limit).Ok?
            && |ListMemes(memes, page, limit).value| == Min(limit, if skip <= |memes| then |memes| - skip else 0)
            && forall j :: 0 <= j < |ListMemes(memes, page, limit).value| ==>
                 ListMemes(memes, page, limit).value[j] == memes[skip + j]
  {
    assert (page - 1) * limit >= 0;
  }

  /** A request without query parameters lists the first ten memes in
      storage order, or all of them when there are fewer. */
  lemma DefaultListing(memes: seq<Meme>)
    ensures ListMemes(memes) == Ok(memes[..Min(10, |memes|)])
  {
    ListMemesSlice(memes, 1, 10);
  }

  /** The first `n` pages of the feed, one after another. */
  function Pages<T>(s: seq<T>, limit: nat, n: nat): seq<T>
  {
    if n == 0 then [] else Pages(s, limit, n - 1) + Page(s, (n - 1) * limit, limit)
  }

  /** Paging loses and repeats nothing: the first `n` pages together are the
      first n*limit documents (or all of them). */
  lemma {:induction false} PagesCoverPrefix<T>(s: seq<T>, limit: nat, n: nat)
    ensures Pages(s, limit, n) == s[..Min(n * limit, |s|)]
  {
    if n > 0 {
      PagesCoverPrefix(s, limit, n - 1);
      var lo := (n - 1) * limit;
      assert lo + limit == n * limit;
      assert s[..Min(lo, |s|)] + s[Min(lo, |s|)..Min(lo + limit, |s|)] == s[..Min(n * limit, |s|)];
    }
  }

  // ---------------------------------------------------------------------------
  // Uploading

  /** The name an upload is stored under: the fresh identifier followed by
      the extension of the uploaded file's name. */
  function ObjectName(uuid: string, filename: string): string
  {
    uuid + SplitExt(filename).1
  }

  /** A file name and a content type were both sent, and neither is empty. */
  predicate Provided(file: UploadedFile)
  {
    file.filename.Some? && file.filename.value != [] && file.contentType.Some? && file.contentType.value != []
  }

  /** An error message counts as a failure only when it is non-empty. */
  predicate Failed(error: Option<string>)
  {
    error.Some? && error.value != []
  }

  /** The uploaded-meme document. New memes start with no likes. */
  function NewMeme(id: ObjectId, title: string, description: string, file: UploadedFile,
                   objectName: string, url: Option<UrlInfo>, now: int, user: string): Meme
    requires file.filename.Some?
  {
    Meme(id, title, description, objectName, file.filename.value, url, now, user, 0)
  }

  /** The outcome of an upload and the meme collection afterwards. The
      checks run in order: name and type present, image, store upload,
      then the insert (which refuses an identifier already in use). */
  function UploadStep(db: MemeDb, title: string, description: string, file: UploadedFile, user: string,
                      bucket: string, uuid: string, newId: ObjectId, now: int, fault: Fault)
    : (Result<UploadReply, Failure>, MemeDb)
  {
    if !Provided(file) then (Err(BadRequest("File not provided")), db)
    else if !IsImage(file.filename.value, file.contentType.value) then (Err(BadRequest("Only image files")), db)
    else
      var objectName := ObjectName(uuid, file.filename.value);
      var (error, url) := UploadResult(bucket, file, objectName, now, fault);
      if Failed(error) then (Err(ServerError(error.value)), db)
      else if FindMeme(db.memes, newId).Some? then (Err(ServerError(InternalError)), db)
      else
        var m := NewMeme(newId, title, description, file, objectName, url, now, user);
        (Ok(UploadReply(Str(newId), url)), MemeDb(db.memes + [m], db.likes))
  }

  /** A refused upload inserts nothing; an accepted one appends exactly one
      meme, owned by the uploader, with no likes, stored under the fresh
      identifier plus the file's extension, and leaves the likes alone. */
  lemma UploadInsertsOnSuccessOnly(db: MemeDb, title: string, description: string, file: UploadedFile,
                                   user: string, bucket: string, uuid: string, newId: ObjectId,
                                   now: int, fault: Fault)
    ensures var (r, db') := UploadStep(db, title, description, file, user, bucket, uuid, newId, now, fault);
            && db'.likes == db.likes
            && (r.Err? ==> db' == db)
            && (r.Ok? ==> Provided(file) && IsImage(file.filename.value, file.contentType.value)
                          && |db'.memes| == |db.memes| + 1 && db'.memes[..|db.memes|] == db.memes
                          && var m := db'.memes[|db.memes|];
                             m.id == newId && m.likes == 0 && m.user == user
                             && m.objectName == uuid + SplitExt(file.filename.value).1
                             && m.title == title && m.description == description
                             && m.filename == file.filename.value && m.createdAt == now
                             && r.value.id == Str(newId))
  {
    var (r, db') := UploadStep(db, title, description, file, user, bucket, uuid, newId, now, fault);
    if r.Ok? {
      assert db'.memes[..|db.memes|] == db.memes;
    }
  }

  /** A name or type missing, or a file that is not an image, is refused
      with a bad request before the store is used. */
  lemma UploadValidatesFirst(db: MemeDb, title: string, description: string, file: UploadedFile,
                             user: string, bucket: string, uuid: string, newId: ObjectId,
                             now: int, fault: Fault)
    ensures !Provided(file) ==>
              UploadStep(db, title, description, file, user, bucket, uuid, newId, now, fault).0
              == Err(BadRequest("File not provided"))
    ensures Provided(file) && !IsImage(file.filename.value, file.contentType.value) ==>
              UploadStep(db, title, description, file, user, bucket, uuid, newId, now, fault).0
              == Err(BadRequest("Only image files"))
  {
  }

  /** No like names a meme identifier that is not stored. */
  lemma UnstoredIdHasNoLikes(db: MemeDb, id: ObjectId)
    requires LikesNameMemes(db) && FindMeme(db.memes, id).None?
    ensures LikeCount(db.likes, Str(id)) == 0
  {
    forall k | 0 <= k < |db.likes|
      ensures db.likes[k].meme != Str(id)
    {
      assert exists j :: 0 <= j < |db.memes| && Str(db.memes[j].id) == db.likes[k].meme;
      var j :| 0 <= j < |db.memes| && Str(db.memes[j].id) == db.likes[k].meme;
      assert db.memes[j].id != id;
    }
    LikeCountZero(db.likes, Str(id));
  }

  /** Appending a meme with a fresh identifier and no likes keeps the
      collections consistent. */
  lemma AppendFreshMemeKeepsConsistent(db: MemeDb, m: Meme)
    requires Consistent(db) && FindMeme(db.memes, m.id).None? && m.likes == 0
    ensures Consistent(MemeDb(db.memes + [m], db.likes))
  {
    var db' := MemeDb(db.memes + [m], db.likes);
    var n := |db.memes|;
    UnstoredIdHasNoLikes(db, m.id);
    assert forall k :: 0 <= k < n ==> db'.memes[k] == db.memes[k];
    assert db'.memes[n] == m;
    assert LikesNameMemes(db') by {
      forall a | 0 <= a < |db'.likes|
        ensures exists j :: 0 <= j < |db'.memes| && Str(db'.memes[j].id) == db'.likes[a].meme
      {
        var j :| 0 <= j < n && Str(db.memes[j].id) == db.likes[a].meme;
        assert Str(db'.memes[j].id) == db'.likes[a].meme;
      }
    }
  }

  /** Once both checks pass, the store upload decides: an error with text
      fails the upload with that text as an internal error; otherwise the
      upload succeeds unless the new identifier is taken, and the reply and
      the new meme carry the URL dictionary the store returned. An error
      with empty text does not count as a failure, so the meme is then
      recorded without a URL. */
  lemma UploadReportsStoreFailure(db: MemeDb, title: string, description: string, file: UploadedFile,
                                  user: string, bucket: string, uuid: string, newId: ObjectId,
                                  now: int, fault: Fault)
    requires Provided(file) && IsImage(file.filename.value, file.contentType.value)
    ensures var (error, url) := UploadResult(bucket, file, ObjectName(uuid, file.filename.value), now, fault);
            var (r, db') := UploadStep(db, title, description, file, user, bucket, uuid, newId, now, fault);
            && (Failed(error) ==> r == Err(ServerError(error.value)))
            && (r.Ok? <==> !Failed(error) && FindMeme(db.memes, newId).None?)
            && (r.Ok? ==> r.value.url == url && db'.memes[|db.memes|].imgUrl == url)
            && (r.Ok? && url.None? ==> error == Some([]))
  {
  }

  /** Uploading keeps the collections consistent. */
  lemma UploadKeepsConsistent(db: MemeDb, title: string, description: string, file: UploadedFile,
                              user: string, bucket: string, uuid: string, newId: ObjectId,
                              now: int, fault: Fault)
    requires Consistent(db)
    ensures Consistent(UploadStep(db, title, description, file, user, bucket, uuid, newId, now, fault).1)
  {
    var (r, db') := UploadStep(db, title, description, file, user, bucket, uuid, newId, now, fault);
    if r.Ok? {
      AppendFreshMemeKeepsConsistent(db, db'.memes[|db.memes|]);
      assert db' == MemeDb(db.memes + [db'.memes[|db.memes|]], db.likes);
    }
  }

  // ---------------------------------------------------------------------------
  // The routes

  class MemeStore {
    var memes: seq<Meme>
    var likes: seq<Like>

    function Db(): MemeDb
      reads this
    {
      MemeDb(memes, likes)
    }

    ghost predicate Valid()
      reads this
    {
      Consistent(Db())
    }

    constructor ()
      ensures memes == [] && likes == [] && Valid()
    {
      memes, likes := [], [];
    }

    /** One page of the feed, each meme's identifier printed as text. */
    method GetMemes(page: int := 1, limit: int := 10) returns (r: Result<seq<MemeView>, Failure>)
      ensures ListMemes(memes, page, limit).Err? ==> r == Err(ListMemes(memes, page, limit).error)
      ensures ListMemes(memes, page, limit).Ok? ==>
                r.Ok? && |r.value| == |ListMemes(memes, page, limit).value|
                && forall j :: 0 <= j < |r.value| ==> r.value[j] == View(ListMemes(memes, page, limit).value[j])
    {
      var listed := ListMemes(memes, page, limit);
      if listed.Err? {
        return Err(listed.error);
      }
      var batch := listed.value;
      var views: seq<MemeView> := [];
      var i := 0;
      while i < |batch|
        invariant 0 <= i <= |batch|
        invariant |views| == i
        invariant forall j :: 0 <= j < i ==> views[j] == View(batch[j])
      {
        views := views + [View(batch[i])];
        i := i + 1;
      }
      return Ok(views);
    }

    /** The meme with the given identifier. A text that is not an
        identifier makes the driver raise; an unknown identifier is not
        found; otherwise the stored meme comes back unchanged apart from its
        identifier being printed. */
    method GetMeme(id: string) returns (r: Result<MemeView, Failure>)
      ensures Parse(id).None? ==> r == Err(ServerError(InternalError))
      ensures Parse(id).Some? && FindMeme(memes, Parse(id).value).None? ==>
                r == Err(NotFound("Meme not found"))
      ensures Parse(id).Some? && FindMeme(memes, Parse(id).value).Some? ==>
                var m := memes[FindMeme(memes, Parse(id).value).value];
                r == Ok(View(m)) && Parse(r.value.id) == Some(m.id)
    {
      var oid := Parse(id);
      if oid.None? {
        return Err(ServerError(InternalError));
      }
      var found := FindMeme(memes, oid.value);
      if found.None? {
        return Err(NotFound("Meme not found"));
      }
      var m := memes[found.value];
      ParseStr(m.id);
      return Ok(View(m));
    }

    /** Likes the meme named by `id` on behalf of `user`. The like is keyed
        by the identifier's printed text, so every spelling of one
        identifier names the same like. `counterApplied` is whether the
        store reports the counter increment as applied. */
    method UpdateMeme(id: string, user: string, now: int, counterApplied: bool)
      returns (r: Result<string, Failure>)
      modifies this
      ensures Parse(id).None? ==>
                r == Err(ServerError(InternalError)) && Db() == old(Db())
      ensures Parse(id).Some? && FindMeme(old(memes), Parse(id).value).None? ==>
                r == Err(NotFound("Meme not found")) && Db() == old(Db())
      ensures Parse(id).Some? && FindMeme(old(memes), Parse(id).value).Some? ==>
                var i := FindMeme(old(memes), Parse(id).value).value;
                var key := Str(Parse(id).value);
                if HasLike(old(likes), user, key) || counterApplied then
                  && r == Ok("Meme updated") && Db() == AddLike(old(Db()), user, i, now)
                  && (old(Valid()) ==> Valid())
                else
                  // the like is written but the counter is not: reported, and visibly inconsistent
                  && r == Err(ServerError("Update failed"))
                  && Db() == LikeWithoutCount(old(Db()), user, i, now)
                  && (old(Valid()) ==> !Consistent(Db()))
    {
      var oid := Parse(id);
      if oid.None? {
        return Err(ServerError(InternalError));
      }
      var found := FindMeme(memes, oid.value);
      if found.None? {
        return Err(NotFound("Meme not found"));
      }
      var i := found.value;
      var key := Str(oid.value);
      ghost var before := Db();
      if !HasLike(likes, user, key) {
        likes := likes + [Like(user, key, now)];
        if !counterApplied {
          if Consistent(before) {
            LikeWithoutCountBreaksCounter(before, user, i, now);
          }
          return Err(ServerError("Update failed"));
        }
        memes := memes[i := memes[i].(likes := memes[i].likes + 1)];
      }
      if Consistent(before) {
        AddLikeKeepsConsistent(before, user, i, now);
      }
      return Ok("Meme updated");
    }

    /** Uploads a meme image to the object store and records the meme.
        `uuid` is the fresh name the upload is stored under and `newId` the
        identifier the driver assigns to the new document. */
    method Upload(title: string, description: string, file: UploadedFile, user: string,
                  client: MinioClient, uuid: string, newId: ObjectId, now: int, fault: Fault)
      returns (r: Result<UploadReply, Failure>)
      modifies this, client
      ensures (r, Db()) == UploadStep(old(Db()), title, description, file, user, client.bucket,
                                      uuid, newId, now, fault)
      ensures old(Valid()) ==> Valid()
      ensures !(Provided(file) && IsImage(file.filename.value, file.contentType.value)) ==>
                client.objects == old(client.objects) && client.bucketExists == old(client.bucketExists)
      ensures Provided(file) && IsImage(file.filename.value, file.contentType.value) ==>
                && client.objects == (if ReachesStore(file, fault)
                                      then old(client.objects)[ObjectName(uuid, file.filename.value) := file.content]
                                      else old(client.objects))
                && client.bucketExists == (old(client.bucketExists) || !fault.BucketFault?)
    {
      ghost var before := Db();
      if Consistent(before) {
        UploadKeepsConsistent(before, title, description, file, user, client.bucket, uuid, newId, now, fault);
      }
      if !Provided(file) {
        return Err(BadRequest("File not provided"));
      }
      var filename, contentType := file.filename.value, file.contentType.value;
      if !IsImage(filename, contentType) {
        return Err(BadRequest("Only image files"));
      }
      var objectName := uuid + SplitExt(filename).1;
      var error, url := client.UploadFile(file, objectName, now, fault);
      if error.Some? && error.value != [] {
        return Err(ServerError(error.value));
      }
      if FindMeme(memes, newId).Some? {
        return Err(ServerError(InternalError));
      }
      var meme := Meme(newId, title, description, objectName, filename, url, now, user, 0);
      memes := memes + [meme];
      return Ok(UploadReply(Str(newId), url));
    }
  }
}
