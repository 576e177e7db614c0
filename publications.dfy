/** Publications: the scheduled pairing of a post with a media account on a
    date.  The service checks that both references exist, and refuses to
    change a publication whose stored date has already been reached. */
module Publications {
  import opened Wrappers
  import Table
  import Medias
  import Posts

  /** The fields a caller supplies (CreatePublicationDto / UpdatePublicationDto).
      The date is a timestamp, compared as an integer. */
  datatype PublicationData = PublicationData(mediaId: int, postId: int, date: int)

  /** A stored publication: { id, mediaId, postId, date }. */
  type Publication = Table.Row<PublicationData>

  /** A publication is due, and can no longer be updated, once its stored
      date is at or before the moment of the request. */
  predicate IsDue(p: Publication, now: int)
  {
    p.data.date <= now
  }

  /** PublicationsRepository: the publications table in insertion order and
      the counter the store draws new ids from. */
  class PublicationsRepository {
    var rows: seq<Publication>
    var nextId: int

    ghost predicate Valid()
      reads this
    {
      Table.WellFormed(rows, nextId)
    }

    /** An empty table whose first id will be 1. */
    constructor ()
      ensures Valid() && rows == [] && nextId == 1
    {
      rows := [];
      nextId := 1;
    }

    /** createPublication: appends one publication with the given fields under a new id. */
    method CreatePublication(dto: PublicationData) returns (p: Publication)
      requires Valid()
      modifies this
      ensures Valid()
      ensures p.data == dto && !Table.HasId(old(rows), p.id)
      ensures rows == old(rows) + [p]
      ensures p.id == old(nextId) && nextId == old(nextId) + 1
    {
      Table.AppendKeepsWellFormed(rows, nextId, dto);
      p := Table.Row(nextId, dto);
      rows := rows + [p];
      nextId := nextId + 1;
    }

    /** getPublication: every publication, in store order. */
    function GetPublication(): (r: seq<Publication>)
      reads this
      ensures r == rows
    {
      rows
    }

    /** getPublicationById: the publication with that id, or null. */
    function GetPublicationById(id: int): (r: Option<Publication>)
      reads this
      ensures r.None? <==> !Table.HasId(rows, id)
      ensures r.Some? ==> r.value.id == id && r.value in rows
    {
      Table.FindById(rows, id)
    }

    /** updatePublication: rewrites mediaId, postId and date of the publication
        with that id; the store refuses (None) when there is none. */
    method UpdatePublication(id: int, dto: PublicationData) returns (r: Option<Publication>)
      requires Valid()
      modifies this
      ensures Valid() && nextId == old(nextId)
      ensures r.None? <==> !Table.HasId(old(rows), id)
      ensures r.None? ==> rows == old(rows)
      ensures r.Some? ==> r.value == Table.Row(id, dto) && rows == Table.Replace(old(rows), id, dto)
    {
      if Table.FindById(rows, id).Some? {
        Table.ReplaceKeepsWellFormed(rows, nextId, id, dto);
        rows := Table.Replace(rows, id, dto);
        r := Some(Table.Row(id, dto));
      } else {
        r := None;
      }
    }

    /** deletePublication: removes the publication with that id and returns
        it; the store refuses (None) when there is none. */
    method DeletePublication(id: int) returns (r: Option<Publication>)
      requires Valid()
      modifies this
      ensures Valid() && nextId == old(nextId)
      ensures r == Table.FindById(old(rows), id)
      ensures r.None? ==> rows == old(rows)
      ensures r.Some? ==> rows == Table.Remove(old(rows), id)
    {
      r := Table.FindById(rows, id);
      if r.Some? {
        Table.RemoveKeepsWellFormed(rows, nextId, id);
        rows := Table.Remove(rows, id);
      }
    }
  }

  /** PublicationsService: validates references and the schedule, then writes
      to the publications table.  It only reads the medias and posts tables. */
  class PublicationsService {
    const publications: PublicationsRepository
    const posts: Posts.PostsRepository
    const medias: Medias.MediasRepository

    constructor (publications: PublicationsRepository, posts: Posts.PostsRepository, medias: Medias.MediasRepository)
      ensures this.publications == publications && this.posts == posts && this.medias == medias
    {
      this.publications := publications;
      this.posts := posts;
      this.medias := medias;
    }

    /** create: NotFound for an unknown media, checked first, then NotFound for
        an unknown post; otherwise one new publication with the given fields,
        whatever its date. */
    method Create(dto: PublicationData) returns (r: Result<Publication>)
      requires publications.Valid()
      modifies publications
      ensures publications.Valid()
      ensures !Table.HasId(medias.rows, dto.mediaId) ==>
                r == Fail(NotFound) && publications.rows == old(publications.rows)
                && publications.nextId == old(publications.nextId)
      ensures Table.HasId(medias.rows, dto.mediaId) && !Table.HasId(posts.rows, dto.postId) ==>
                r == Fail(NotFound) && publications.rows == old(publications.rows)
                && publications.nextId == old(publications.nextId)
      ensures Table.HasId(medias.rows, dto.mediaId) && Table.HasId(posts.rows, dto.postId) ==>
                r.Ok? && r.value.data == dto && !Table.HasId(old(publications.rows), r.value.id)
                && publications.rows == old(publications.rows) + [r.value]
                && FindOne(r.value.id) == Ok(r.value)
    {
      var media := medias.GetMediaById(dto.mediaId);
      if media.None? {
        return Fail(NotFound);
      }
      var post := posts.GetPostById(dto.postId);
      if post.None? {
        return Fail(NotFound);
      }
      var p := publications.CreatePublication(dto);
      Table.FindAfterAppend(old(publications.rows), p, p.id);
      r := Ok(p);
    }

    /** findAll: every publication, in store order. */
    function FindAll(): (r: seq<Publication>)
      reads this, publications
      ensures r == publications.rows
    {
      publications.GetPublication()
    }

    /** findOne: the publication with that id, or NotFound. */
    function FindOne(id: int): (r: Result<Publication>)
      reads this, publications
      ensures r.Fail? <==> !Table.HasId(publications.rows, id)
      ensures r.Fail? ==> r.err == NotFound
      ensures r.Ok? ==> r.value.id == id && r.value in publications.rows
    {
      match publications.GetPublicationById(id)
      case None => Fail(NotFound)
      case Some(p) => Ok(p)
    }

    /** update, with its checks in this order: NotFound for an unknown id;
        Forbidden when the STORED date is at or before now, whatever the new
        values; NotFound for an unknown new media; NotFound for an unknown new
        post.  Only then do mediaId, postId and date of that id change.  Every
        refusal leaves the table as it was. */
    method Update(id: int, dto: PublicationData, now: int) returns (r: Result<Publication>)
      requires publications.Valid()
      modifies publications
      ensures publications.Valid() && publications.nextId == old(publications.nextId)
      ensures var stored := Table.FindById(old(publications.rows), id);
              if stored.None? then r == Fail(NotFound)
              else if IsDue(stored.value, now) then r == Fail(Forbidden)
              else if !Table.HasId(medias.rows, dto.mediaId) then r == Fail(NotFound)
              else if !Table.HasId(posts.rows, dto.postId) then r == Fail(NotFound)
              else r == Ok(Table.Row(id, dto))
      ensures r.Fail? ==> publications.rows == old(publications.rows)
      ensures r.Ok? ==> publications.rows == Table.Replace(old(publications.rows), id, dto)
                        && FindOne(id) == Ok(Table.Row(id, dto))
    {
      var publication := publications.GetPublicationById(id);
      if publication.None? {
        return Fail(NotFound);
      }
      if IsDue(publication.value, now) {
        return Fail(Forbidden);
      }
      var media := medias.GetMediaById(dto.mediaId);
      if media.None? {
        return Fail(NotFound);
      }
      var post := posts.GetPostById(dto.postId);
      if post.None? {
        return Fail(NotFound);
      }
      var updated := publications.UpdatePublication(id, dto);
      Table.FindAfterReplace(old(publications.rows), id, dto, id);
      r := if updated.Some? then Ok(updated.value) else Fail(NotFound);
    }

    /** remove: NotFound with the table unchanged for an unknown id; otherwise
        that publication is deleted and returned, due or not. */
    method Remove(id: int) returns (r: Result<Publication>)
      requires publications.Valid()
      modifies publications
      ensures publications.Valid() && publications.nextId == old(publications.nextId)
      ensures r.Ok? <==> Table.HasId(old(publications.rows), id)
      ensures r.Fail? ==> r.err == NotFound && publications.rows == old(publications.rows)
      ensures r.Ok? ==> Some(r.value) == Table.FindById(old(publications.rows), id)
                        && publications.rows == Table.Remove(old(publications.rows), id)
                        && FindOne(id) == Fail(NotFound)
    {
      var publication := publications.GetPublicationById(id);
      if publication.None? {
        return Fail(NotFound);
      }
      var deleted := publications.DeletePublication(id);
      r := if deleted.Some? then Ok(deleted.value) else Fail(NotFound);
    }
  }

  /** One day in milliseconds, the unit of the stored timestamps. */
  const Day := 86_400_000

  /** A fresh store with one media account and one post, and the service over it. */
  method NewStore() returns (service: PublicationsService, mediaId: int, postId: int)
    ensures fresh(service) && fresh(service.publications) && fresh(service.medias) && fresh(service.posts)
    ensures service.publications.Valid() && service.publications.rows == []
    ensures Table.HasId(service.medias.rows, mediaId) && Table.HasId(service.posts.rows, postId)
    ensures service.medias.rows == [Table.Row(mediaId, Medias.MediaData("Instagram", "myusername"))]
    ensures service.posts.rows == [Table.Row(postId, Posts.PostData("Hello", "First post", "https://example.com/a.png"))]
  {
    var publications := new PublicationsRepository();
    var medias := new Medias.MediasRepository();
    var posts := new Posts.PostsRepository();
    var m := medias.CreateMedia(Medias.MediaData("Instagram", "myusername"));
    var p := posts.CreatePost(Posts.PostData("Hello", "First post", "https://example.com/a.png"));
    service := new PublicationsService(publications, posts, medias);
    mediaId, postId := m.id, p.id;
    assert medias.rows[0].id == mediaId && posts.rows[0].id == postId;
  }

  /** POST /publications with an unknown media or an unknown post is NotFound
      and stores nothing. */
  method UnknownReferenceScenario() returns (noMedia: Result<Publication>, noPost: Result<Publication>, table: seq<Publication>)
    ensures noMedia == Fail(NotFound) && noPost == Fail(NotFound)
    ensures table == []
  {
    var service, mediaId, postId := NewStore();
    noMedia := service.Create(PublicationData(mediaId + 999, postId, 2 * Day));
    noPost := service.Create(PublicationData(mediaId, postId + 999, 2 * Day));
    table := service.FindAll();
  }

  /** A publication dated a day in the past is created (create is not time
      gated), cannot be updated even to valid values, and can be deleted. */
  method DueScenario(now: int) returns (created: Result<Publication>, update: Result<Publication>,
                                        removed: Result<Publication>, table: seq<Publication>)
    ensures created.Ok? && created.value.data.date == now - Day
    ensures update == Fail(Forbidden)
    ensures removed == created && table == []
  {
    var service, mediaId, postId := NewStore();
    created := service.Create(PublicationData(mediaId, postId, now - Day));
    assert service.publications.rows[0] == created.value;
    update := service.Update(created.value.id, PublicationData(mediaId, postId, now + Day), now);
    removed := service.Remove(created.value.id);
    table := service.FindAll();
  }

  /** A publication dated in the future can be updated: it keeps its id and
      takes the new date; an unknown new media is NotFound and changes nothing. */
  method ScheduledScenario(now: int) returns (badMedia: Result<Publication>, moved: Result<Publication>,
                                              table: seq<Publication>)
    ensures badMedia == Fail(NotFound)
    ensures moved.Ok? && |table| == 1 && table[0] == moved.value
    ensures moved.value.data.date == now + 2 * Day
  {
    var service, mediaId, postId := NewStore();
    var created := service.Create(PublicationData(mediaId, postId, now + Day));
    assert service.publications.rows[0] == created.value;
    badMedia := service.Update(created.value.id, PublicationData(mediaId + 1, postId, now + 2 * Day), now);
    assert service.publications.rows[0] == created.value;
    moved := service.Update(created.value.id, PublicationData(mediaId, postId, now + 2 * Day), now);
    table := service.FindAll();
  }
}
