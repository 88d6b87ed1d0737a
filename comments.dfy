/** The comment controller: publishing and deleting over a comment table,
    and the two paginated listings, by video and by author. */
module Comments {
  import opened Common
  import opened Paging

  /** A comment document: its text, the video it is on and its author. */
  datatype Comment = Comment(content: string, video: Id, owner: Id)

  /** `getAllVideoComments`: 400 unless `videoId` is an ObjectId; otherwise
      one page of the comments on that video, sorted on `key`, ascending
      exactly when `sortType` is "asc". */
  function GetAllVideoComments(table: seq<Stored<Comment>>, page: nat, limit: nat,
                               key: Stored<Comment> -> int, sortType: string, videoId: IdParam)
    : (r: Result<seq<Stored<Comment>>>)
    requires page >= 1 && limit >= 1
    ensures !videoId.WellFormed? <==> r == Err(BadRequest)
    ensures videoId.WellFormed? ==> r.Ok?
    ensures r.Ok? ==>
              && |r.value| <= limit
              && (forall k :: 0 <= k < |r.value| ==> r.value[k].doc.video == videoId.id)
              && SortedBy(r.value, key, sortType == "asc")
              && multiset(r.value) <= multiset(table)
              && r.value == Window(Listing(table, (c: Stored<Comment>) => c.doc.video == videoId.id, key, sortType == "asc"),
                                   Offset(page, limit), limit)
  {
    if !videoId.WellFormed? then Err(BadRequest)
    else
      var inScope := (c: Stored<Comment>) => c.doc.video == videoId.id;
      var page := Paginate(table, inScope, key, sortType == "asc", page, limit);
      assert forall k :: 0 <= k < |page| ==> inScope(page[k]);
      Ok(page)
  }

  /** `getAllUserComments`: 400 unless `userId` is an ObjectId; otherwise
      one page of that user's comments, sorted as above. */
  function GetAllUserComments(table: seq<Stored<Comment>>, page: nat, limit: nat,
                              key: Stored<Comment> -> int, sortType: string, userId: IdParam)
    : (r: Result<seq<Stored<Comment>>>)
    requires page >= 1 && limit >= 1
    ensures !userId.WellFormed? <==> r == Err(BadRequest)
    ensures userId.WellFormed? ==> r.Ok?
    ensures r.Ok? ==>
              && |r.value| <= limit
              && (forall k :: 0 <= k < |r.value| ==> r.value[k].doc.owner == userId.id)
              && SortedBy(r.value, key, sortType == "asc")
              && multiset(r.value) <= multiset(table)
              && r.value == Window(Listing(table, (c: Stored<Comment>) => c.doc.owner == userId.id, key, sortType == "asc"),
                                   Offset(page, limit), limit)
  {
    if !userId.WellFormed? then Err(BadRequest)
    else
      var inScope := (c: Stored<Comment>) => c.doc.owner == userId.id;
      var page := Paginate(table, inScope, key, sortType == "asc", page, limit);
      assert forall k :: 0 <= k < |page| ==> inScope(page[k]);
      Ok(page)
  }

  class CommentStore {
    var comments: map<Id, Comment>
    var nextId: Id

    ghost predicate Valid()
      reads this
    {
      forall id :: id in comments ==> id < nextId
    }

    constructor ()
      ensures Valid() && comments == map[]
    {
      comments := map[];
      nextId := 0;
    }

    /** `publishAComment`: 400 when the content is falsy or the video id is
        missing; a video id that is not an ObjectId fails the cast inside
        `Comment.create`. Otherwise one new comment by the caller on that
        video; whether the video exists is not checked. */
    method PublishAComment(caller: Id, content: Option<string>, videoId: IdParam)
      returns (r: Result<Stored<Comment>>)
      requires Valid()
      modifies this
      ensures Valid()
      ensures !Truthy(content) || videoId.Absent? ==> r == Err(BadRequest)
      ensures Truthy(content) && videoId.Malformed? ==> r == Err(Unhandled)
      ensures r.Ok? <==> Truthy(content) && videoId.WellFormed?
      ensures r.Err? ==> comments == old(comments) && nextId == old(nextId)
      ensures r.Ok? ==>
                && r.value == Stored(old(nextId), Comment(content.value, videoId.id, caller))
                && old(nextId) !in old(comments)
                && comments == old(comments)[old(nextId) := r.value.doc]
    {
      if !Truthy(content) || videoId.Absent? {
        return Err(BadRequest);
      }
      if videoId.Malformed? {
        return Err(Unhandled);
      }
      var c := Comment(content.value, videoId.id, caller);
      var id := nextId;
      comments := comments[id := c];
      nextId := nextId + 1;
      r := Ok(Stored(id, c));
    }

    /** `deleteComment`: `findOneAndDelete({_id, owner})`. The comment is
        removed only when it exists and the caller wrote it; otherwise 404
        with the table unchanged. The earlier "not found" check tests a query
        object that was never awaited, which is always truthy, so this
        handler never answers 400. */
    method DeleteComment(caller: Id, id: Id) returns (r: Result<()>)
      requires Valid()
      modifies this
      ensures Valid() && nextId == old(nextId)
      ensures r.Err? ==> r.error == NotFound && comments == old(comments)
      ensures r.Ok? <==> id in old(comments) && old(comments)[id].owner == caller
      ensures r.Ok? ==> comments == old(comments) - {id}
    {
      if id !in comments || comments[id].owner != caller {
        return Err(NotFound);
      }
      comments := comments - {id};
      r := Ok(());
    }
  }

  /** What the caller publishes and then deletes leaves the table as it
      was; when publishing fails, deleting the id it would have used finds
      nothing. */
  method PublishThenDelete(store: CommentStore, caller: Id, content: Option<string>, videoId: IdParam)
    returns (published: Result<Stored<Comment>>, deleted: Result<()>)
    requires store.Valid()
    modifies store
    ensures store.Valid()
    ensures published.Ok? ==> deleted.Ok? && store.comments == old(store.comments)
    ensures published.Err? ==> deleted == Err(NotFound) && store.comments == old(store.comments)
  {
    var id := store.nextId;
    published := store.PublishAComment(caller, content, videoId);
    deleted := store.DeleteComment(caller, id);
    if published.Ok? {
      assert store.comments == old(store.comments)[id := published.value.doc] - {id};
    }
  }
}
