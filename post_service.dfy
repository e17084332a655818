/** The post service's state-changing requests over an abstract store: the
    stored posts and topics, the like relation (whose `likedPosts` keys are
    the stored users), and the id-keyed `postCache` that findById fills,
    updatePostById overwrites and deleteById evicts. `storeLookups` counts
    the look-ups of a post by id in the store, so that what the cache saves
    can be stated. */
module PostServiceModel {
  import opened Types
  import Likes

  /** The post createPost stores: the request's fields, both timestamps at
      the creation time, no last editor. */
  function NewPost(id: PostId, req: PostRequest, now: Timestamp): (p: Post)
    ensures p.id == id && p.userId == req.userId && p.topicId == req.topicId
    ensures p.title == req.title && p.content == req.content && p.keywords == req.keywords
    ensures p.createdAt == now && p.updatedAt == now && p.lastEditor == None
  {
    Post(id, req.title, req.content, req.keywords, req.userId, req.topicId, now, now, None)
  }

  /** The post updatePostById writes back: title, content, keywords and topic
      from the request, the update time, and the last editor when the
      edit policy records one; id, author and creation time are kept. */
  function Edited(p: Post, req: PostRequest, now: Timestamp, editor: Option<UserId>): (q: Post)
    ensures q.id == p.id && q.userId == p.userId && q.createdAt == p.createdAt
    ensures q.title == req.title && q.content == req.content
    ensures q.keywords == req.keywords && q.topicId == req.topicId
    ensures q.updatedAt == now
    ensures q.lastEditor == if editor.Some? then editor else p.lastEditor
  {
    p.(title := req.title, content := req.content, keywords := req.keywords,
       topicId := req.topicId, updatedAt := now,
       lastEditor := if editor.Some? then editor else p.lastEditor)
  }

  /** A row count a delete may report: zero exactly when nothing was stored. */
  predicate ReportsDeletion(rows: nat, stored: bool) {
    rows == 0 <==> !stored
  }

  class PostService {
    var posts: map<PostId, Post>
    var topics: set<TopicId>
    var likes: Likes.Relation
    var cache: map<PostId, Post>
    var storeLookups: nat
    /** The next id the store hands out. */
    var nextId: PostId

    /** Every post has a likers entry and carries its own id, ids come from
        below `nextId`, and every cached entry is the stored post. */
    ghost predicate Valid()
      reads this
    {
      && likes.likers.Keys == posts.Keys
      && (forall id :: id in posts ==> posts[id].id == id && id < nextId)
      && (forall id :: id in cache ==> id in posts && cache[id] == posts[id])
    }

    ghost function Users(): set<UserId>
      reads this
    {
      likes.likedPosts.Keys
    }

    /** A store with the given users and topics, no posts, and an empty cache. */
    constructor (users: set<UserId>, topicIds: set<TopicId>)
      ensures Valid()
      ensures posts == map[] && topics == topicIds && cache == map[]
      ensures likes == Likes.Relation(map[], map u | u in users :: {})
      ensures Users() == users && Likes.Inverse(likes)
      ensures storeLookups == 0
    {
      posts := map[];
      topics := topicIds;
      likes := Likes.Relation(map[], map u | u in users :: {});
      cache := map[];
      storeLookups := 0;
      nextId := 0;
    }

    /** postRepository.findById. */
    method LookupPost(id: PostId) returns (r: Option<Post>)
      modifies this`storeLookups
      ensures r == if id in posts then Some(posts[id]) else None
      ensures storeLookups == old(storeLookups) + 1
    {
      storeLookups := storeLookups + 1;
      r := if id in posts then Some(posts[id]) else None;
    }

    /** findById through the cache: a cached id is answered without going to
        the store; otherwise the store is asked and a found post is cached
        (a missing one is not). Either way the answer is the stored post. */
    method FindById(id: PostId) returns (r: Option<Post>)
      requires Valid()
      modifies this`cache, this`storeLookups
      ensures Valid()
      ensures r == if id in posts then Some(posts[id]) else None
      ensures old(id in cache) ==>
        r == Some(old(cache[id])) && cache == old(cache) && storeLookups == old(storeLookups)
      ensures old(id !in cache) ==>
        && storeLookups == old(storeLookups) + 1
        && cache == if id in posts then old(cache)[id := posts[id]] else old(cache)
    {
      if id in cache {
        r := Some(cache[id]);
      } else {
        r := LookupPost(id);
        if r.Some? {
          cache := cache[id := r.value];
        }
      }
    }

    /** Two findById calls with no write between them give the same answer
        and go to the store at most once for a stored post. */
    method FindByIdTwice(id: PostId) returns (first: Option<Post>, second: Option<Post>)
      requires Valid()
      modifies this`cache, this`storeLookups
      ensures Valid()
      ensures first == second
      ensures id in posts ==> storeLookups <= old(storeLookups) + 1
      ensures id !in posts ==> storeLookups == old(storeLookups) + 2
    {
      first := FindById(id);
      second := FindById(id);
    }

    /** createPost: NOT_FOUND unless the user and the topic exist; otherwise
        the post is stored under a fresh id, liked by nobody. The cache is
        not touched. */
    method CreatePost(req: PostRequest, now: Timestamp) returns (r: Result<Post>)
      requires Valid()
      modifies this`posts, this`likes, this`nextId
      ensures Valid()
      ensures r.Err? <==> req.userId !in old(Users()) || req.topicId !in topics
      ensures r.Err? ==>
        r.error == NotFound && posts == old(posts) && likes == old(likes) && nextId == old(nextId)
      ensures r.Ok? ==>
        && r.value == NewPost(old(nextId), req, now)
        && r.value.id !in old(posts)
        && nextId == old(nextId) + 1
        && posts == old(posts)[r.value.id := r.value]
        && likes == Likes.AddPost(old(likes), r.value.id)
      ensures old(Likes.Inverse(likes)) ==> Likes.Inverse(likes)
    {
      if req.userId !in likes.likedPosts {
        return Err(NotFound);
      }
      if req.topicId !in topics {
        return Err(NotFound);
      }
      ghost var before := likes;
      var post := NewPost(nextId, req, now);
      nextId := nextId + 1;
      posts := posts[post.id := post];
      likes := Likes.AddPost(likes, post.id);
      if Likes.Inverse(before) {
        Likes.AddPostPreservesInverse(before, post.id);
      }
      r := Ok(post);
    }

    /** getPostLikers: NOT_FOUND for an unknown post, otherwise its likers,
        who (when the sides mirror each other) are exactly the users whose
        liked posts hold it. */
    method GetPostLikers(id: PostId) returns (r: Result<set<UserId>>)
      requires Valid()
      modifies this`storeLookups
      ensures Valid()
      ensures storeLookups == old(storeLookups) + 1
      ensures r == if id in posts then Ok(likes.likers[id]) else Err(NotFound)
      ensures Likes.Inverse(likes) && r.Ok? ==>
        forall u :: u in r.value <==> u in likes.likedPosts && id in likes.likedPosts[u]
    {
      var post := LookupPost(id);
      if post.None? {
        return Err(NotFound);
      }
      r := Ok(likes.likers[id]);
    }

    /** likePost: as Likes.Like (NOT_FOUND, then CONFLICT, otherwise both
        sides gain the pair), returning the post. The cache is not touched. */
    method LikePost(postId: PostId, userId: UserId) returns (r: Result<Post>)
      requires Valid()
      modifies this`likes, this`storeLookups
      ensures Valid()
      ensures storeLookups == old(storeLookups) + 1
      ensures Likes.Like(old(likes), postId, userId).Err? ==>
        r == Err(Likes.Like(old(likes), postId, userId).error) && likes == old(likes)
      ensures Likes.Like(old(likes), postId, userId).Ok? ==>
        r == Ok(posts[postId]) && likes == Likes.Like(old(likes), postId, userId).value
      ensures old(Likes.Inverse(likes)) ==> Likes.Inverse(likes)
    {
      ghost var before := likes;
      var post := LookupPost(postId);
      if post.None? {
        return Err(NotFound);
      }
      if userId !in likes.likedPosts {
        return Err(NotFound);
      }
      if userId in likes.likers[postId] {
        return Err(Conflict);
      }
      likes := likes.(likers := likes.likers[postId := likes.likers[postId] + {userId}]);
      likes := likes.(likedPosts := likes.likedPosts[userId := likes.likedPosts[userId] + {postId}]);
      if Likes.Inverse(before) {
        Likes.LikePreservesInverse(before, postId, userId);
      }
      r := Ok(post.value);
    }

    /** unlikePost: as Likes.Unlike. The user leaves the post's likers, and
        only if that removed something does the post leave the user's liked
        posts; the answer is whether both removals removed something. */
    method UnlikePost(postId: PostId, userId: UserId) returns (r: Result<bool>)
      requires Valid()
      modifies this`likes, this`storeLookups
      ensures Valid()
      ensures storeLookups == old(storeLookups) + 1
      ensures Likes.Unlike(old(likes), postId, userId).Err? ==>
        r == Err(NotFound) && likes == old(likes)
      ensures Likes.Unlike(old(likes), postId, userId).Ok? ==>
        && r == Ok(Likes.Unlike(old(likes), postId, userId).value.removed)
        && likes == Likes.Unlike(old(likes), postId, userId).value.relation
      ensures old(Likes.Inverse(likes)) ==> Likes.Inverse(likes)
    {
      ghost var before := likes;
      var post := LookupPost(postId);
      if post.None? {
        return Err(NotFound);
      }
      if userId !in likes.likedPosts {
        return Err(NotFound);
      }
      var removedLiker := userId in likes.likers[postId];
      likes := likes.(likers := likes.likers[postId := likes.likers[postId] - {userId}]);
      var removedLiked := false;
      if removedLiker {
        removedLiked := postId in likes.likedPosts[userId];
        likes := likes.(likedPosts := likes.likedPosts[userId := likes.likedPosts[userId] - {postId}]);
      } else {
        assert before.likers[postId] - {userId} == before.likers[postId];
        assert likes == before;
      }
      if Likes.Inverse(before) {
        Likes.UnlikeUnderInverse(before, postId, userId);
      }
      r := Ok(removedLiker && removedLiked);
    }

    /** updatePostById: NOT_FOUND for an unknown post, then the edit-window
        refusal, then NOT_FOUND for an unknown topic; otherwise the edited
        post is written back and the cache holds it under its id. A refused
        update changes nothing. */
    method UpdatePostById(
      id: PostId, req: PostRequest, now: Timestamp, editAllowed: bool, editor: Option<UserId>)
      returns (r: Result<Post>)
      requires Valid()
      modifies this`posts, this`cache, this`storeLookups
      ensures Valid()
      ensures storeLookups == old(storeLookups) + 1
      ensures id !in old(posts) ==> r == Err(NotFound)
      ensures id in old(posts) && !editAllowed ==> r == Err(EditWindowExpired)
      ensures id in old(posts) && editAllowed && req.topicId !in topics ==> r == Err(NotFound)
      ensures r.Err? ==> posts == old(posts) && cache == old(cache)
      ensures r.Ok? <==> id in old(posts) && editAllowed && req.topicId in topics
      ensures r.Ok? ==>
        && r.value == Edited(old(posts[id]), req, now, editor)
        && posts == old(posts)[id := r.value]
        && cache == old(cache)[id := r.value]
    {
      var found := LookupPost(id);
      if found.None? {
        return Err(NotFound);
      }
      if !editAllowed {
        return Err(EditWindowExpired);
      }
      if req.topicId !in topics {
        return Err(NotFound);
      }
      var post := Edited(found.value, req, now, editor);
      posts := posts[id := post];
      cache := cache[id := post];
      r := Ok(post);
    }

    /** postRepository.deletePostById: the number of rows the store reports
        deleted, zero exactly when no post has the id; the post and its like
        rows go. */
    method DeleteFromStore(id: PostId) returns (rows: nat)
      modifies this`posts, this`likes
      ensures rows == 0 <==> old(id !in posts)
      ensures posts == old(posts) - {id}
      ensures likes == Likes.RemovePost(old(likes), id)
    {
      var stored := id in posts;
      assert ReportsDeletion(if stored then 1 else 0, stored);
      rows :| ReportsDeletion(rows, stored);
      assert ReportsDeletion(rows, stored);
      posts := posts - {id};
      likes := Likes.RemovePost(likes, id);
    }

    /** deleteById: success exactly when the store reports one deleted row
        (a count above one is not a success); the cache entry is evicted
        whatever the outcome. */
    method DeleteById(id: PostId) returns (ok: bool, rows: nat)
      requires Valid()
      modifies this`posts, this`likes, this`cache
      ensures Valid()
      ensures ok == (rows == 1)
      ensures rows == 0 <==> old(id !in posts)
      ensures posts == old(posts) - {id}
      ensures likes == Likes.RemovePost(old(likes), id)
      ensures cache == old(cache) - {id}
      ensures old(Likes.Inverse(likes)) ==> Likes.Inverse(likes)
    {
      ghost var before := likes;
      rows := DeleteFromStore(id);
      cache := cache - {id};
      ok := rows == 1;
      if Likes.Inverse(before) {
        Likes.RemovePostPreservesInverse(before, id);
      }
    }

    /** After deleteById, findById goes to the store and finds nothing. */
    method DeleteThenFind(id: PostId) returns (ok: bool, rows: nat, r: Option<Post>)
      requires Valid()
      modifies this`posts, this`likes, this`cache, this`storeLookups
      ensures Valid()
      ensures ok == (rows == 1)
      ensures rows == 0 <==> old(id !in posts)
      ensures r == None
      ensures storeLookups == old(storeLookups) + 1
    {
      ok, rows := DeleteById(id);
      r := FindById(id);
    }
  }
}
