/** The video controller: the paginated listing of a user's videos, and
    publishing, viewing, toggling, editing and deleting over a video table. */
module Videos {
  import opened Common
  import opened Paging

  /** A video document. `title` and `description` are stored as the request
      gave them, absent included. */
  datatype Video = Video(videoFile: string, thumbnail: string, title: Option<string>,
                         description: Option<string>, duration: real, views: nat,
                         isPublished: bool, owner: Id)

  /** The `$match` stage of `getAllVideos`: the owner, and when a query is
      given a case-insensitive `$regex` on the title, here the abstract
      `titleMatches(pattern, title)`. A video without a title matches no
      pattern. */
  predicate InListing(v: Stored<Video>, owner: Id, query: Option<string>,
                      titleMatches: (string, string) -> bool)
  {
    && v.doc.owner == owner
    && (Truthy(query) ==> v.doc.title.Some? && titleMatches(query.value, v.doc.title.value))
  }

  /** `getAllVideos` over the table in storage order: 400 unless `userId` is
      an ObjectId; otherwise one page of that user's matching videos, sorted
      on `key`, ascending exactly when `sortType` is "asc". */
  function GetAllVideos(table: seq<Stored<Video>>, page: nat, limit: nat, query: Option<string>,
                        key: Stored<Video> -> int, sortType: string, userId: IdParam,
                        titleMatches: (string, string) -> bool): (r: Result<seq<Stored<Video>>>)
    requires page >= 1 && limit >= 1
    ensures !userId.WellFormed? <==> r == Err(BadRequest)
    ensures userId.WellFormed? ==> r.Ok?
    ensures r.Ok? ==>
              && |r.value| <= limit
              && (forall k :: 0 <= k < |r.value| ==> r.value[k].doc.owner == userId.id)
              && (forall k :: 0 <= k < |r.value| ==> InListing(r.value[k], userId.id, query, titleMatches))
              && SortedBy(r.value, key, sortType == "asc")
              && multiset(r.value) <= multiset(table)
              && r.value == Window(Listing(table, v => InListing(v, userId.id, query, titleMatches), key, sortType == "asc"),
                                   Offset(page, limit), limit)
  {
    if !userId.WellFormed? then Err(BadRequest)
    else
      var inScope := v => InListing(v, userId.id, query, titleMatches);
      var page := Paginate(table, inScope, key, sortType == "asc", page, limit);
      assert forall k :: 0 <= k < |page| ==> inScope(page[k]);
      Ok(page)
  }

  /** A video with its flag flipped and nothing else changed. */
  function Toggled(v: Video): (w: Video)
    ensures w.isPublished == !v.isPublished
    ensures w.(isPublished := v.isPublished) == v
  {
    v.(isPublished := !v.isPublished)
  }

  class VideoStore {
    var videos: map<Id, Video>
    var nextId: Id

    ghost predicate Valid()
      reads this
    {
      forall id :: id in videos ==> id < nextId
    }

    constructor ()
      ensures Valid() && videos == map[]
    {
      videos := map[];
      nextId := 0;
    }

    /** `publishAVideo`: 400 for an empty title or description, for a
        missing video or thumbnail file, or for a failed upload; otherwise
        one new video owned by the caller, its duration taken from the video
        upload, with no views and published. */
    method PublishAVideo(caller: Id, title: Option<string>, description: Option<string>,
                         videoPath: Option<string>, thumbnailPath: Option<string>,
                         videoUpload: Option<Upload>, thumbnailUpload: Option<Upload>)
      returns (r: Result<Stored<Video>>)
      requires Valid()
      modifies this
      ensures Valid()
      ensures r.Err? <==> || title == Some("") || description == Some("")
                          || !Truthy(videoPath) || !Truthy(thumbnailPath)
                          || videoUpload.None? || thumbnailUpload.None?
      ensures r.Err? ==> r.error == BadRequest && videos == old(videos) && nextId == old(nextId)
      ensures r.Ok? ==>
                && r.value.id == old(nextId) && r.value.id !in old(videos)
                && r.value.doc == Video(videoUpload.value.url, thumbnailUpload.value.url, title, description,
                                        videoUpload.value.duration, 0, true, caller)
                && videos == old(videos)[r.value.id := r.value.doc]
    {
      if title == Some("") || description == Some("") {
        return Err(BadRequest);
      }
      if !Truthy(videoPath) || !Truthy(thumbnailPath) {
        return Err(BadRequest);
      }
      if videoUpload.None? || thumbnailUpload.None? {
        return Err(BadRequest);
      }
      var v := Video(videoUpload.value.url, thumbnailUpload.value.url, title, description,
                     videoUpload.value.duration, 0, true, caller);
      var id := nextId;
      videos := videos[id := v];
      nextId := nextId + 1;
      r := Ok(Stored(id, v));
    }

    /** `getVideoById`: 404 for a missing video; otherwise `$inc` of its
        view count, and the updated video. */
    method GetVideoById(id: Id) returns (r: Result<Video>)
      requires Valid()
      modifies this
      ensures Valid() && nextId == old(nextId)
      ensures id !in old(videos) ==> r == Err(NotFound) && videos == old(videos)
      ensures id in old(videos) ==>
                && r.Ok? && r.value.views == old(videos)[id].views + 1
                && r.value.(views := old(videos)[id].views) == old(videos)[id]
                && videos == old(videos)[id := r.value]
    {
      if id !in videos {
        return Err(NotFound);
      }
      var v := videos[id].(views := videos[id].views + 1);
      videos := videos[id := v];
      r := Ok(v);
    }

    /** `togglePublishStatus`: 404 for a missing video, 403 unless the
        caller owns it, each leaving the table as it was; otherwise the
        flag is flipped. */
    method TogglePublishStatus(caller: Id, id: Id) returns (r: Result<Video>)
      requires Valid()
      modifies this
      ensures Valid() && nextId == old(nextId)
      ensures id !in old(videos) ==> r == Err(NotFound)
      ensures id in old(videos) && old(videos)[id].owner != caller ==> r == Err(Forbidden)
      ensures r.Err? ==> videos == old(videos)
      ensures r.Ok? <==> id in old(videos) && old(videos)[id].owner == caller
      ensures r.Ok? ==> r.value == Toggled(old(videos)[id]) && videos == old(videos)[id := r.value]
    {
      if id !in videos {
        return Err(NotFound);
      }
      if videos[id].owner != caller {
        return Err(Forbidden);
      }
      var v := Toggled(videos[id]);
      videos := videos[id := v];
      r := Ok(v);
    }

    /** `updateVideo`: 404, then 403 for a caller who is not the owner, then
        400 when neither title, description nor thumbnail file is given, then
        400 when the thumbnail upload failed. Otherwise only the truthy given
        fields change: the thumbnail to the uploaded URL, the title, the
        description. */
    method UpdateVideo(caller: Id, id: Id, title: Option<string>, description: Option<string>,
                       thumbnailPath: Option<string>, thumbnailUpload: Option<Upload>)
      returns (r: Result<Video>)
      requires Valid()
      modifies this
      ensures Valid() && nextId == old(nextId)
      ensures id !in old(videos) ==> r == Err(NotFound)
      ensures id in old(videos) && old(videos)[id].owner != caller ==> r == Err(Forbidden)
      ensures id in old(videos) && old(videos)[id].owner == caller ==>
                if !Truthy(title) && !Truthy(description) && !Truthy(thumbnailPath) then r == Err(BadRequest)
                else if Truthy(thumbnailPath) && thumbnailUpload.None? then r == Err(BadRequest)
                else r.Ok?
      ensures r.Err? ==> videos == old(videos)
      ensures r.Ok? ==>
                var v := old(videos)[id];
                && id in old(videos)
                && r.value == v.(thumbnail := if Truthy(thumbnailPath) then thumbnailUpload.value.url else v.thumbnail,
                                 title := if Truthy(title) then title else v.title,
                                 description := if Truthy(description) then description else v.description)
                && videos == old(videos)[id := r.value]
    {
      if id !in videos {
        return Err(NotFound);
      }
      var v := videos[id];
      if v.owner != caller {
        return Err(Forbidden);
      }
      if !Truthy(title) && !Truthy(description) && !Truthy(thumbnailPath) {
        return Err(BadRequest);
      }
      if Truthy(thumbnailPath) {
        if thumbnailUpload.None? {
          return Err(BadRequest);
        }
        v := v.(thumbnail := thumbnailUpload.value.url);
      }
      if Truthy(title) {
        v := v.(title := title);
      }
      if Truthy(description) {
        v := v.(description := description);
      }
      videos := videos[id := v];
      r := Ok(v);
    }

    /** `deleteVideo`: 400 unless the id is an ObjectId; the video is removed
        only when it exists and the caller owns it, otherwise 404 with the
        table unchanged. */
    method DeleteVideo(caller: Id, videoId: IdParam) returns (r: Result<()>)
      requires Valid()
      modifies this
      ensures Valid() && nextId == old(nextId)
      ensures !videoId.WellFormed? ==> r == Err(BadRequest)
      ensures videoId.WellFormed? ==>
                var id := videoId.id;
                if id in old(videos) && old(videos)[id].owner == caller
                then r == Ok(()) && videos == old(videos) - {id}
                else r == Err(NotFound)
      ensures r.Err? ==> videos == old(videos)
    {
      if !videoId.WellFormed? {
        return Err(BadRequest);
      }
      var id := videoId.id;
      if id !in videos || videos[id].owner != caller {
        return Err(NotFound);
      }
      videos := videos - {id};
      r := Ok(());
    }
  }

  /** A video its owner publishes and then deletes leaves the table as it
      was; when publishing fails, deleting the id it would have used finds
      nothing. */
  method PublishThenDelete(store: VideoStore, caller: Id, title: Option<string>, description: Option<string>,
                           videoPath: Option<string>, thumbnailPath: Option<string>,
                           videoUpload: Option<Upload>, thumbnailUpload: Option<Upload>)
    returns (published: Result<Stored<Video>>, deleted: Result<()>)
    requires store.Valid()
    modifies store
    ensures store.Valid()
    ensures published.Ok? ==> deleted.Ok? && store.videos == old(store.videos)
    ensures published.Err? ==> deleted == Err(NotFound) && store.videos == old(store.videos)
  {
    var id := store.nextId;
    published := store.PublishAVideo(caller, title, description, videoPath, thumbnailPath, videoUpload, thumbnailUpload);
    deleted := store.DeleteVideo(caller, WellFormed(id));
    if published.Ok? {
      assert store.videos == old(store.videos)[id := published.value.doc] - {id};
    }
  }

  /** Toggling twice as the owner restores the table. */
  method ToggleTwice(store: VideoStore, caller: Id, id: Id) returns (first: Result<Video>, second: Result<Video>)
    requires store.Valid()
    modifies store
    ensures store.Valid()
    ensures first.Ok? ==> second.Ok? && store.videos == old(store.videos)
  {
    ghost var v := if id in store.videos then store.videos[id] else Video("", "", None, None, 0.0, 0, false, caller);
    first := store.TogglePublishStatus(caller, id);
    second := store.TogglePublishStatus(caller, id);
    if first.Ok? {
      assert Toggled(Toggled(v)) == v;
      assert store.videos == old(store.videos)[id := v];
    }
  }
}
