/** Media accounts: the medias table, its repository, and the service that
    refuses a create or update whose title matches the first stored account
    with the same username. */
module Medias {
  import opened Wrappers
  import Table

  /** The fields a caller supplies (CreateMediaDto / UpdateMediaDto). */
  datatype MediaData = MediaData(title: string, username: string)

  /** A stored media account: { id, title, username }. */
  type Media = Table.Row<MediaData>

  /** The position of the first account, in store order, with the given username. */
  function IndexOfUsername(rows: seq<Media>, username: string): (r: Option<nat>)
    ensures r.None? <==> forall i :: 0 <= i < |rows| ==> rows[i].data.username != username
    ensures r.Some? ==> r.value < |rows| && rows[r.value].data.username == username
    ensures r.Some? ==> forall j :: 0 <= j < r.value ==> rows[j].data.username != username
  {
    if rows == [] then None
    else if rows[0].data.username == username then Some(0)
    else match IndexOfUsername(rows[1..], username)
      case None => None
      case Some(k) => Some(k + 1)
  }

  /** The conflict rule of create and update: the first account with the
      incoming username carries the incoming title.  No account with that
      username means no conflict. */
  predicate Conflicts(rows: seq<Media>, dto: MediaData)
  {
    match IndexOfUsername(rows, dto.username)
    case None => false
    case Some(k) => rows[k].data.title == dto.title
  }

  /** The conflict check exactly as the service writes it: it reads `.title`
      of the lookup result without testing for null, so a username that no
      account has makes it fail (None) instead of answering. */
  function ConflictCheckAsWritten(rows: seq<Media>, dto: MediaData): (r: Option<bool>)
    ensures r.None? <==> forall i :: 0 <= i < |rows| ==> rows[i].data.username != dto.username
    ensures r.Some? ==> r.value == Conflicts(rows, dto)
  {
    match IndexOfUsername(rows, dto.username)
    case None => None
    case Some(k) => Some(rows[k].data.title == dto.title)
  }

  /** The written check crashes on the first account of an empty table,
      where the service is expected to create it. */
  lemma BrandNewUsernameCrashesAsWritten()
    ensures ConflictCheckAsWritten([], MediaData("Instagram", "myusername")).None?
  {
  }

  /** The corrected rule: a username no account has never conflicts. */
  lemma BrandNewUsernameNoConflict(rows: seq<Media>, dto: MediaData)
    requires forall i :: 0 <= i < |rows| ==> rows[i].data.username != dto.username
    ensures !Conflicts(rows, dto)
  {
  }

  /** A conflict is only ever reported for a title and username that an
      account already has. */
  lemma ConflictMeansStoredPair(rows: seq<Media>, dto: MediaData)
    requires Conflicts(rows, dto)
    ensures exists i :: 0 <= i < |rows| && rows[i].data == dto
  {
    var k := IndexOfUsername(rows, dto.username).value;
    assert rows[k].data == dto;
  }

  /** The rule consults the first account with the username and nothing
      else: whether the incoming pair conflicts depends only on that account. */
  lemma {:induction false} ConflictsOnlyOnFirst(rows: seq<Media>, k: int, dto: MediaData)
    requires 0 <= k < |rows| && rows[k].data.username == dto.username
    requires forall j :: 0 <= j < k ==> rows[j].data.username != dto.username
    ensures Conflicts(rows, dto) <==> rows[k].data.title == dto.title
  {
    var r := IndexOfUsername(rows, dto.username);
    assert r.Some?;
    assert r.value == k;
  }

  /** The record being updated is not excluded from the check: updating the
      first account of a username to its own current values is a conflict. */
  lemma OwnValuesConflict(rows: seq<Media>, k: int)
    requires 0 <= k < |rows|
    requires forall j :: 0 <= j < k ==> rows[j].data.username != rows[k].data.username
    ensures Conflicts(rows, rows[k].data)
  {
    ConflictsOnlyOnFirst(rows, k, rows[k].data);
  }

  /** Pairs equal to a later account with the same username are accepted, so
      the rule does not keep (title, username) unique. */
  lemma LaterDuplicateAccepted()
    ensures var rows := [Table.Row(1, MediaData("Instagram", "myusername")),
                         Table.Row(2, MediaData("Facebook", "myusername"))];
            !Conflicts(rows, MediaData("Facebook", "myusername"))
            && rows[1].data == MediaData("Facebook", "myusername")
  {
    var rows := [Table.Row(1, MediaData("Instagram", "myusername")),
                 Table.Row(2, MediaData("Facebook", "myusername"))];
    ConflictsOnlyOnFirst(rows, 0, MediaData("Facebook", "myusername"));
  }

  /** MediasRepository: the medias table in insertion order and the counter
      the store draws new ids from. */
  class MediasRepository {
    var rows: seq<Media>
    var nextId: int

    ghost predicate Valid()
      reads this
    {
      Table.WellFormed(rows, nextId)
    }

    /** An empty table whose first id will be 1. */
    constructor ()
      ensures Valid() && rows == [] && nextId == 1
    {
      rows := [];
      nextId := 1;
    }

    /** createMedia: appends one account with the given fields under a new id. */
    method CreateMedia(dto: MediaData) returns (m: Media)
      requires Valid()
      modifies this
      ensures Valid()
      ensures m.data == dto && !Table.HasId(old(rows), m.id)
      ensures rows == old(rows) + [m]
      ensures m.id == old(nextId) && nextId == old(nextId) + 1
    {
      Table.AppendKeepsWellFormed(rows, nextId, dto);
      m := Table.Row(nextId, dto);
      rows := rows + [m];
      nextId := nextId + 1;
    }

    /** getMedia: every account, in store order. */
    function GetMedia(): (r: seq<Media>)
      reads this
      ensures r == rows
    {
      rows
    }

    /** getMediaById: the account with that id, or null. */
    function GetMediaById(id: int): (r: Option<Media>)
      reads this
      ensures r.None? <==> !Table.HasId(rows, id)
      ensures r.Some? ==> r.value.id == id && r.value in rows
    {
      Table.FindById(rows, id)
    }

    /** updateMedia: rewrites title and username of the account with that id;
        the store refuses (None) when there is none. */
    method UpdateMedia(id: int, dto: MediaData) returns (r: Option<Media>)
      requires Valid()
      modifies this
      ensures Valid() && nextId == old(nextId)
      ensures r.None? <==> !Table.HasId(old(rows), id)
      ensures r.None? ==> rows == old(rows)
      ensures r.Some? ==> r.value == Table.Row(id, dto) && rows == Table.Replace(old(rows), id, dto)
    {
      if Table.FindById(rows, id).Some? {
        Table.ReplaceKeepsWellFormed(rows, nextId, id, dto);
        rows := Table.Replace(rows, id, dto);
        r := Some(Table.Row(id, dto));
      } else {
        r := None;
      }
    }

    /** deleteMedia: removes the account with that id and returns it; the
        store refuses (None) when there is none. */
    method DeleteMedia(id: int) returns (r: Option<Media>)
      requires Valid()
      modifies this
      ensures Valid() && nextId == old(nextId)
      ensures r == Table.FindById(old(rows), id)
      ensures r.None? ==> rows == old(rows)
      ensures r.Some? ==> rows == Table.Remove(old(rows), id)
    {
      r := Table.FindById(rows, id);
      if r.Some? {
        Table.RemoveKeepsWellFormed(rows, nextId, id);
        rows := Table.Remove(rows, id);
      }
    }

    /** getMediaByUsername: the first account in store order with that username, or null. */
    function GetMediaByUsername(username: string): (r: Option<Media>)
      reads this
      ensures r.None? <==> forall i :: 0 <= i < |rows| ==> rows[i].data.username != username
      ensures r.Some? ==> exists k :: 0 <= k < |rows| && r.value == rows[k]
                            && rows[k].data.username == username
                            && forall j :: 0 <= j < k ==> rows[j].data.username != username
    {
      match IndexOfUsername(rows, username)
      case None => None
      case Some(k) => Some(rows[k])
    }
  }

  /** MediasService: the business rules over the medias table. */
  class MediasService {
    const repo: MediasRepository

    constructor (repo: MediasRepository)
      ensures this.repo == repo
    {
      this.repo := repo;
    }

    /** create: Conflict when the first account with the username has the
        title; otherwise one new account with the given fields. */
    method Create(dto: MediaData) returns (r: Result<Media>)
      requires repo.Valid()
      modifies repo
      ensures repo.Valid()
      ensures Conflicts(old(repo.rows), dto) ==>
                r == Fail(Conflict) && repo.rows == old(repo.rows) && repo.nextId == old(repo.nextId)
      ensures !Conflicts(old(repo.rows), dto) ==>
                r.Ok? && r.value.data == dto && !Table.HasId(old(repo.rows), r.value.id)
                && repo.rows == old(repo.rows) + [r.value]
      ensures r.Ok? ==> FindOne(r.value.id) == Ok(r.value)
    {
      var media := repo.GetMediaByUsername(dto.username);
      if media.Some? && media.value.data.title == dto.title {
        return Fail(Conflict);
      }
      var m := repo.CreateMedia(dto);
      Table.FindAfterAppend(old(repo.rows), m, m.id);
      r := Ok(m);
    }

    /** findAll: every account, in store order. */
    function FindAll(): (r: seq<Media>)
      reads this, repo
      ensures r == repo.rows
    {
      repo.GetMedia()
    }

    /** findOne: the account with that id, or NotFound. */
    function FindOne(id: int): (r: Result<Media>)
      reads this, repo
      ensures r.Fail? <==> !Table.HasId(repo.rows, id)
      ensures r.Fail? ==> r.err == NotFound
      ensures r.Ok? ==> r.value.id == id && r.value in repo.rows
    {
      match repo.GetMediaById(id)
      case None => Fail(NotFound)
      case Some(m) => Ok(m)
    }

    /** update: NotFound for an unknown id, checked first; then Conflict by the
        rule of create, against the new title and username; otherwise the
        account keeps its id and takes the new fields, nothing else changes. */
    method Update(id: int, dto: MediaData) returns (r: Result<Media>)
      requires repo.Valid()
      modifies repo
      ensures repo.Valid() && repo.nextId == old(repo.nextId)
      ensures !Table.HasId(old(repo.rows), id) ==> r == Fail(NotFound)
      ensures Table.HasId(old(repo.rows), id) && Conflicts(old(repo.rows), dto) ==> r == Fail(Conflict)
      ensures Table.HasId(old(repo.rows), id) && !Conflicts(old(repo.rows), dto) ==>
                r == Ok(Table.Row(id, dto)) && repo.rows == Table.Replace(old(repo.rows), id, dto)
                && FindOne(id) == Ok(Table.Row(id, dto))
      ensures r.Fail? ==> repo.rows == old(repo.rows)
    {
      var media := repo.GetMediaById(id);
      if media.None? {
        return Fail(NotFound);
      }
      var byUsername := repo.GetMediaByUsername(dto.username);
      if byUsername.Some? && byUsername.value.data.title == dto.title {
        return Fail(Conflict);
      }
      var updated := repo.UpdateMedia(id, dto);
      Table.FindAfterReplace(old(repo.rows), id, dto, id);
      r := if updated.Some? then Ok(updated.value) else Fail(NotFound);
    }

    /** remove: NotFound for an unknown id; otherwise that account is deleted
        and returned, whatever refers to it. */
    method Remove(id: int) returns (r: Result<Media>)
      requires repo.Valid()
      modifies repo
      ensures repo.Valid() && repo.nextId == old(repo.nextId)
      ensures r.Ok? <==> Table.HasId(old(repo.rows), id)
      ensures r.Fail? ==> r.err == NotFound && repo.rows == old(repo.rows)
      ensures r.Ok? ==> Some(r.value) == Table.FindById(old(repo.rows), id)
                        && repo.rows == Table.Remove(old(repo.rows), id)
                        && FindOne(id) == Fail(NotFound)
    {
      var media := repo.GetMediaById(id);
      if media.None? {
        return Fail(NotFound);
      }
      var deleted := repo.DeleteMedia(id);
      r := if deleted.Some? then Ok(deleted.value) else Fail(NotFound);
    }
  }

  /** POST /medias twice with the same title and username: the second call
      is a Conflict and the table still holds one account. */
  method CreateTwiceScenario() returns (second: Result<Media>, table: seq<Media>)
    ensures second == Fail(Conflict)
    ensures |table| == 1 && table[0].data == MediaData("Instagram", "myusername")
  {
    var repo := new MediasRepository();
    var service := new MediasService(repo);
    var first := repo.CreateMedia(MediaData("Instagram", "myusername"));
    second := service.Create(MediaData("Instagram", "myusername"));
    table := service.FindAll();
  }

  /** POST /medias on an empty table succeeds with exactly the submitted fields. */
  method CreateFirstScenario() returns (created: Result<Media>, table: seq<Media>)
    ensures created.Ok? && table == [created.value]
    ensures created.value.data == MediaData("Instagram", "myusername")
  {
    var repo := new MediasRepository();
    var service := new MediasService(repo);
    created := service.Create(MediaData("Instagram", "myusername"));
    table := service.FindAll();
  }

  /** Three creates that all succeed and leave two accounts with the same
      title and username: the conflict rule only looks at the first account
      of the username. */
  method DuplicatePairScenario() returns (a: Result<Media>, b: Result<Media>, c: Result<Media>, table: seq<Media>)
    ensures a.Ok? && b.Ok? && c.Ok?
    ensures |table| == 3 && table[1].data == table[2].data && table[1].id != table[2].id
  {
    var repo := new MediasRepository();
    var service := new MediasService(repo);
    a := service.Create(MediaData("Instagram", "myusername"));
    b := service.Create(MediaData("Facebook", "myusername"));
    LaterDuplicateAccepted();
    c := service.Create(MediaData("Facebook", "myusername"));
    table := service.FindAll();
  }

  /** PUT /medias/:id onto another account's title and username is a Conflict
      and leaves both accounts as they were; onto an unknown id it is NotFound. */
  method UpdateRefusedScenario() returns (clash: Result<Media>, missing: Result<Media>, table: seq<Media>)
    ensures clash == Fail(Conflict) && missing == Fail(NotFound)
    ensures table == [Table.Row(1, MediaData("Instagram", "myusername")),
                      Table.Row(2, MediaData("Instagram2", "myusername2"))]
  {
    var repo := new MediasRepository();
    var service := new MediasService(repo);
    var m1 := repo.CreateMedia(MediaData("Instagram", "myusername"));
    var m2 := repo.CreateMedia(MediaData("Instagram2", "myusername2"));
    assert repo.rows[1].id == m2.id;
    clash := service.Update(m2.id, MediaData("Instagram", "myusername"));
    missing := service.Update(m2.id + 1, MediaData("Instagram", "myusername"));
    table := service.FindAll();
  }

  /** PUT /medias/:id with a new title succeeds and keeps the id; repeating the
      same PUT is then a Conflict with the account itself. */
  method UpdateRenameScenario() returns (renamed: Result<Media>, repeated: Result<Media>, table: seq<Media>)
    ensures renamed == Ok(Table.Row(1, MediaData("Instagram2", "myusername")))
    ensures repeated == Fail(Conflict)
    ensures table == [Table.Row(1, MediaData("Instagram2", "myusername"))]
  {
    var repo := new MediasRepository();
    var service := new MediasService(repo);
    var m := repo.CreateMedia(MediaData("Instagram", "myusername"));
    assert repo.rows[0].id == m.id;
    renamed := service.Update(m.id, MediaData("Instagram2", "myusername"));
    assert repo.rows[0].id == m.id;
    repeated := service.Update(m.id, MediaData("Instagram2", "myusername"));
    table := service.FindAll();
  }

  /** DELETE /medias/:id: an unknown id is NotFound and the account stays;
      the account's own id deletes it and leaves the table empty. */
  method RemoveScenario() returns (missing: Result<Media>, removed: Result<Media>, table: seq<Media>)
    ensures missing == Fail(NotFound)
    ensures removed == Ok(Table.Row(1, MediaData("Instagram", "myusername")))
    ensures table == []
  {
    var repo := new MediasRepository();
    var service := new MediasService(repo);
    var m := repo.CreateMedia(MediaData("Instagram", "myusername"));
    missing := service.Remove(m.id + 1);
    assert repo.rows[0].id == m.id;
    removed := service.Remove(m.id);
    table := service.FindAll();
  }
}
