/** Posts: the posts table, its repository, and the service, which adds only
    existence checks to the table operations. */
module Posts {
  import opened Wrappers
  import Table

  /** The fields a caller supplies (CreatePostDto / UpdatePostDto). */
  datatype PostData = PostData(title: string, text: string, image: string)

  /** A stored post: { id, title, text, image }. */
  type Post = Table.Row<PostData>

  /** PostsRepository: the posts table in insertion order and the counter the
      store draws new ids from.  Its operations carry the names the services
      call (createPost, getPost, getPostById, updatePost, deletePost). */
  class PostsRepository {
    var rows: seq<Post>
    var nextId: int

    ghost predicate Valid()
      reads this
    {
      Table.WellFormed(rows, nextId)
    }

    /** An empty table whose first id will be 1. */
    constructor ()
      ensures Valid() && rows == [] && nextId == 1
    {
      rows := [];
      nextId := 1;
    }

    /** createPost: appends one post with the given fields under a new id. */
    method CreatePost(dto: PostData) returns (p: Post)
      requires Valid()
      modifies this
      ensures Valid()
      ensures p.data == dto && !Table.HasId(old(rows), p.id)
      ensures rows == old(rows) + [p]
      ensures p.id == old(nextId) && nextId == old(nextId) + 1
    {
      Table.AppendKeepsWellFormed(rows, nextId, dto);
      p := Table.Row(nextId, dto);
      rows := rows + [p];
      nextId := nextId + 1;
    }

    /** getPost: every post, in store order. */
    function GetPost(): (r: seq<Post>)
      reads this
      ensures r == rows
    {
      rows
    }

    /** getPostById: the post with that id, or null. */
    function GetPostById(id: int): (r: Option<Post>)
      reads this
      ensures r.None? <==> !Table.HasId(rows, id)
      ensures r.Some? ==> r.value.id == id && r.value in rows
    {
      Table.FindById(rows, id)
    }

    /** updatePost: rewrites title, text and image of the post with that id;
        the store refuses (None) when there is none. */
    method UpdatePost(id: int, dto: PostData) returns (r: Option<Post>)
      requires Valid()
      modifies this
      ensures Valid() && nextId == old(nextId)
      ensures r.None? <==> !Table.HasId(old(rows), id)
      ensures r.None? ==> rows == old(rows)
      ensures r.Some? ==> r.value == Table.Row(id, dto) && rows == Table.Replace(old(rows), id, dto)
    {
      if Table.FindById(rows, id).Some? {
        Table.ReplaceKeepsWellFormed(rows, nextId, id, dto);
        rows := Table.Replace(rows, id, dto);
        r := Some(Table.Row(id, dto));
      } else {
        r := None;
      }
    }

    /** deletePost: removes the post with that id and returns it; the store
        refuses (None) when there is none. */
    method DeletePost(id: int) returns (r: Option<Post>)
      requires Valid()
      modifies this
      ensures Valid() && nextId == old(nextId)
      ensures r == Table.FindById(old(rows), id)
      ensures r.None? ==> rows == old(rows)
      ensures r.Some? ==> rows == Table.Remove(old(rows), id)
    {
      r := Table.FindById(rows, id);
      if r.Some? {
        Table.RemoveKeepsWellFormed(rows, nextId, id);
        rows := Table.Remove(rows, id);
      }
    }
  }

  /** PostsService: existence-checked operations over the posts table. */
  class PostsService {
    const repo: PostsRepository

    constructor (repo: PostsRepository)
      ensures this.repo == repo
    {
      this.repo := repo;
    }

    /** create: always adds exactly one post with the given fields and a new
        id, which then reads back as submitted. */
    method Create(dto: PostData) returns (r: Result<Post>)
      requires repo.Valid()
      modifies repo
      ensures repo.Valid()
      ensures r.Ok? && r.value.data == dto && !Table.HasId(old(repo.rows), r.value.id)
      ensures repo.rows == old(repo.rows) + [r.value]
      ensures FindOne(r.value.id) == Ok(r.value)
    {
      var p := repo.CreatePost(dto);
      Table.FindAfterAppend(old(repo.rows), p, p.id);
      r := Ok(p);
    }

    /** findAll: every post, in store order. */
    function FindAll(): (r: seq<Post>)
      reads this, repo
      ensures r == repo.rows
    {
      repo.GetPost()
    }

    /** findOne: the post with that id, or NotFound. */
    function FindOne(id: int): (r: Result<Post>)
      reads this, repo
      ensures r.Fail? <==> !Table.HasId(repo.rows, id)
      ensures r.Fail? ==> r.err == NotFound
      ensures r.Ok? ==> r.value.id == id && r.value in repo.rows
    {
      match repo.GetPostById(id)
      case None => Fail(NotFound)
      case Some(p) => Ok(p)
    }

    /** update: NotFound with the table unchanged for an unknown id; otherwise
        that post keeps its id and takes the new fields, nothing else changes. */
    method Update(id: int, dto: PostData) returns (r: Result<Post>)
      requires repo.Valid()
      modifies repo
      ensures repo.Valid() && repo.nextId == old(repo.nextId)
      ensures !Table.HasId(old(repo.rows), id) ==> r == Fail(NotFound) && repo.rows == old(repo.rows)
      ensures Table.HasId(old(repo.rows), id) ==>
                r == Ok(Table.Row(id, dto)) && repo.rows == Table.Replace(old(repo.rows), id, dto)
                && FindOne(id) == Ok(Table.Row(id, dto))
    {
      var post := repo.GetPostById(id);
      if post.None? {
        return Fail(NotFound);
      }
      var updated := repo.UpdatePost(id, dto);
      Table.FindAfterReplace(old(repo.rows), id, dto, id);
      r := if updated.Some? then Ok(updated.value) else Fail(NotFound);
    }

    /** remove: NotFound with the table unchanged for an unknown id; otherwise
        that post is deleted and returned, and no longer reads back. */
    method Remove(id: int) returns (r: Result<Post>)
      requires repo.Valid()
      modifies repo
      ensures repo.Valid() && repo.nextId == old(repo.nextId)
      ensures r.Ok? <==> Table.HasId(old(repo.rows), id)
      ensures r.Fail? ==> r.err == NotFound && repo.rows == old(repo.rows)
      ensures r.Ok? ==> Some(r.value) == Table.FindById(old(repo.rows), id)
                        && repo.rows == Table.Remove(old(repo.rows), id)
                        && FindOne(id) == Fail(NotFound)
    {
      var post := repo.GetPostById(id);
      if post.None? {
        return Fail(NotFound);
      }
      var deleted := repo.DeletePost(id);
      r := if deleted.Some? then Ok(deleted.value) else Fail(NotFound);
    }
  }
}
