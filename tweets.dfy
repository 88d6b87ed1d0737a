/** The tweet controller: publishing, deleting and editing over a tweet
    table, and the paginated listing of a user's tweets. */
module Tweets {
  import opened Common
  import opened Paging

  /** A tweet document. An edit stores the request's content as given, so
      the content can become absent. */
  datatype Tweet = Tweet(content: Option<string>, owner: Id)

  /** `getAllTweets`: 400 unless `userId` is an ObjectId; otherwise one page
      of that user's tweets, sorted on `key`, ascending exactly when
      `sortType` is "asc". */
  function GetAllTweets(table: seq<Stored<Tweet>>, page: nat, limit: nat,
                        key: Stored<Tweet> -> int, sortType: string, userId: IdParam)
    : (r: Result<seq<Stored<Tweet>>>)
    requires page >= 1 && limit >= 1
    ensures !userId.WellFormed? <==> r == Err(BadRequest)
    ensures userId.WellFormed? ==> r.Ok?
    ensures r.Ok? ==>
              && |r.value| <= limit
              && (forall k :: 0 <= k < |r.value| ==> r.value[k].doc.owner == userId.id)
              && SortedBy(r.value, key, sortType == "asc")
              && multiset(r.value) <= multiset(table)
              && r.value == Window(Listing(table, (t: Stored<Tweet>) => t.doc.owner == userId.id, key, sortType == "asc"),
                                   Offset(page, limit), limit)
  {
    if !userId.WellFormed? then Err(BadRequest)
    else
      var inScope := (t: Stored<Tweet>) => t.doc.owner == userId.id;
      var page := Paginate(table, inScope, key, sortType == "asc", page, limit);
      assert forall k :: 0 <= k < |page| ==> inScope(page[k]);
      Ok(page)
  }

  class TweetStore {
    var tweets: map<Id, Tweet>
    var nextId: Id

    ghost predicate Valid()
      reads this
    {
      forall id :: id in tweets ==> id < nextId
    }

    constructor ()
      ensures Valid() && tweets == map[]
    {
      tweets := map[];
      nextId := 0;
    }

    /** `publishATweet`: 400 for falsy content; otherwise one new tweet with
        that content, owned by the caller. */
    method PublishATweet(caller: Id, content: Option<string>) returns (r: Result<Stored<Tweet>>)
      requires Valid()
      modifies this
      ensures Valid()
      ensures r.Err? <==> !Truthy(content)
      ensures r.Err? ==> r.error == BadRequest && tweets == old(tweets) && nextId == old(nextId)
      ensures r.Ok? ==>
                && r.value == Stored(old(nextId), Tweet(content, caller))
                && old(nextId) !in old(tweets)
                && tweets == old(tweets)[old(nextId) := r.value.doc]
    {
      if !Truthy(content) {
        return Err(BadRequest);
      }
      var t := Tweet(content, caller);
      var id := nextId;
      tweets := tweets[id := t];
      nextId := nextId + 1;
      r := Ok(Stored(id, t));
    }

    /** `deleteTweet`: `findOneAndDelete({_id, owner})`. The tweet is removed
        only when it exists and the caller owns it; otherwise 404 with the
        table unchanged. The earlier "not found" check tests a query object
        that was never awaited, so it never answers 400. */
    method DeleteTweet(caller: Id, id: Id) returns (r: Result<()>)
      requires Valid()
      modifies this
      ensures Valid() && nextId == old(nextId)
      ensures r.Err? ==> r.error == NotFound && tweets == old(tweets)
      ensures r.Ok? <==> id in old(tweets) && old(tweets)[id].owner == caller
      ensures r.Ok? ==> tweets == old(tweets) - {id}
    {
      if id !in tweets || tweets[id].owner != caller {
        return Err(NotFound);
      }
      tweets := tweets - {id};
      r := Ok(());
    }

    /** `updateATweet`: 400 for a missing tweet and 400 for a caller who
        does not own it, each with the table unchanged; otherwise the
        content is replaced by the request's content, even an absent one,
        and the owner stays. */
    method UpdateATweet(caller: Id, id: Id, content: Option<string>) returns (r: Result<Tweet>)
      requires Valid()
      modifies this
      ensures Valid() && nextId == old(nextId)
      ensures r.Err? ==> r.error == BadRequest && tweets == old(tweets)
      ensures r.Ok? <==> id in old(tweets) && old(tweets)[id].owner == caller
      ensures r.Ok? ==> r.value == Tweet(content, caller) && tweets == old(tweets)[id := r.value]
    {
      if id !in tweets {
        return Err(BadRequest);
      }
      if tweets[id].owner != caller {
        return Err(BadRequest);
      }
      var t := tweets[id].(content := content);
      tweets := tweets[id := t];
      r := Ok(t);
    }
  }

  /** Publish "hi" as `u`, edit it to "bye" as `u`, then try to edit it as
      another user `v`: the last edit fails and the content stays "bye". */
  method EditByOtherUser(store: TweetStore, u: Id, v: Id)
    returns (published: Result<Stored<Tweet>>, byOwner: Result<Tweet>, byOther: Result<Tweet>)
    requires store.Valid() && u != v
    modifies store
    ensures store.Valid()
    ensures published.Ok? && byOwner.Ok?
    ensures byOther == Err(BadRequest)
    ensures published.value.id in store.tweets && store.tweets[published.value.id] == Tweet(Some("bye"), u)
  {
    published := store.PublishATweet(u, Some("hi"));
    byOwner := store.UpdateATweet(u, published.value.id, Some("bye"));
    byOther := store.UpdateATweet(v, published.value.id, Some("other"));
  }

  /** What the caller publishes and then deletes leaves the table as it
      was; when publishing fails, deleting the id it would have used finds
      nothing. */
  method PublishThenDelete(store: TweetStore, caller: Id, content: Option<string>)
    returns (published: Result<Stored<Tweet>>, deleted: Result<()>)
    requires store.Valid()
    modifies store
    ensures store.Valid()
    ensures published.Ok? ==> deleted.Ok? && store.tweets == old(store.tweets)
    ensures published.Err? ==> deleted == Err(NotFound) && store.tweets == old(store.tweets)
  {
    var id := store.nextId;
    published := store.PublishATweet(caller, content);
    deleted := store.DeleteTweet(caller, id);
    if published.Ok? {
      assert store.tweets == old(store.tweets)[id := published.value.doc] - {id};
    }
  }
}
