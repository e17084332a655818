/** The like relation between users and posts, held on both sides as the
    ORM holds it: each post's set of likers and each user's set of liked
    posts. The keys of `likers` are the stored posts and the keys of
    `likedPosts` the stored users. */
module Likes {
  import opened Types

  datatype Relation = Relation(
    likers: map<PostId, set<UserId>>,
    likedPosts: map<UserId, set<PostId>>)

  /** The two sides mirror each other, and each side names only stored
      users and posts. */
  ghost predicate Inverse(r: Relation) {
    && (forall p, u :: p in r.likers && u in r.likers[p] ==>
          u in r.likedPosts && p in r.likedPosts[u])
    && (forall u, p :: u in r.likedPosts && p in r.likedPosts[u] ==>
          p in r.likers && u in r.likers[p])
  }

  /** likePost: NOT_FOUND for an unknown post, then for an unknown user;
      CONFLICT when the user already likes the post; otherwise the user is
      added to the post's likers and the post to the user's liked posts. */
  function Like(r: Relation, p: PostId, u: UserId): (res: Result<Relation>)
    ensures res == Err(NotFound) <==> p !in r.likers || u !in r.likedPosts
    ensures res == Err(Conflict) <==>
      p in r.likers && u in r.likedPosts && u in r.likers[p]
    ensures res.Ok? <==> p in r.likers && u in r.likedPosts && u !in r.likers[p]
    ensures res.Ok? ==>
      && res.value.likers.Keys == r.likers.Keys
      && res.value.likedPosts.Keys == r.likedPosts.Keys
      && res.value.likers[p] == r.likers[p] + {u}
      && res.value.likedPosts[u] == r.likedPosts[u] + {p}
      && (forall q :: q in r.likers && q != p ==> res.value.likers[q] == r.likers[q])
      && (forall v :: v in r.likedPosts && v != u ==> res.value.likedPosts[v] == r.likedPosts[v])
  {
    if p !in r.likers || u !in r.likedPosts then Err(NotFound)
    else if u in r.likers[p] then Err(Conflict)
    else Ok(Relation(
      r.likers[p := r.likers[p] + {u}],
      r.likedPosts[u := r.likedPosts[u] + {p}]))
  }

  /** What unlikePost returns, with the relation it leaves behind. */
  datatype Unliked = Unliked(removed: bool, relation: Relation)

  /** unlikePost: NOT_FOUND as for likePost; otherwise
      `likers.remove(user) && likedPosts.remove(post)`. The second removal
      only runs when the first one removed something. */
  function Unlike(r: Relation, p: PostId, u: UserId): (res: Result<Unliked>)
    ensures res.Err? <==> p !in r.likers || u !in r.likedPosts
    ensures res.Err? ==> res.error == NotFound
    ensures res.Ok? && u !in r.likers[p] ==> res.value == Unliked(false, r)
    ensures res.Ok? ==>
      && res.value.removed == (u in r.likers[p] && p in r.likedPosts[u])
      && res.value.relation.likers == r.likers[p := r.likers[p] - {u}]
    ensures res.Ok? && u in r.likers[p] ==>
      res.value.relation.likedPosts == r.likedPosts[u := r.likedPosts[u] - {p}]
  {
    if p !in r.likers || u !in r.likedPosts then Err(NotFound)
    else
      var removedLiker := u in r.likers[p];
      var likers' := r.likers[p := r.likers[p] - {u}];
      if !removedLiker then
        assert r.likers[p] - {u} == r.likers[p];
        assert likers' == r.likers;
        Ok(Unliked(false, Relation(likers', r.likedPosts)))
      else
        Ok(Unliked(p in r.likedPosts[u],
                   Relation(likers', r.likedPosts[u := r.likedPosts[u] - {p}])))
  }

  /** Liking keeps the two sides in step. */
  lemma LikePreservesInverse(r: Relation, p: PostId, u: UserId)
    requires Inverse(r)
    requires Like(r, p, u).Ok?
    ensures Inverse(Like(r, p, u).value)
  {
  }

  /** Liking the same post twice is a conflict the second time. */
  lemma LikeTwiceConflicts(r: Relation, p: PostId, u: UserId)
    requires Like(r, p, u).Ok?
    ensures Like(Like(r, p, u).value, p, u) == Err(Conflict)
  {
  }

  /** When the sides mirror each other, unliking removes the pair from both
      sides, reports true exactly when the user liked the post, and keeps
      the sides in step. */
  lemma UnlikeUnderInverse(r: Relation, p: PostId, u: UserId)
    requires Inverse(r)
    requires p in r.likers && u in r.likedPosts
    ensures var res := Unlike(r, p, u);
      && res.Ok?
      && res.value.removed == (u in r.likers[p])
      && u !in res.value.relation.likers[p]
      && p !in res.value.relation.likedPosts[u]
      && res.value.relation.likedPosts == r.likedPosts[u := r.likedPosts[u] - {p}]
      && Inverse(res.value.relation)
  {
    var r' := Unlike(r, p, u).value.relation;
    if u !in r.likers[p] {
      assert p !in r.likedPosts[u];
      assert r.likedPosts[u] - {p} == r.likedPosts[u];
      assert r.likedPosts[u := r.likedPosts[u] - {p}] == r.likedPosts;
    } else {
      forall q, v | q in r'.likers && v in r'.likers[q]
        ensures v in r'.likedPosts && q in r'.likedPosts[v]
      {
        assert v in r.likers[q];
      }
      forall v, q | v in r'.likedPosts && q in r'.likedPosts[v]
        ensures q in r'.likers && v in r'.likers[q]
      {
        assert q in r.likedPosts[v];
      }
    }
  }

  /** Like then unlike restores the relation and reports true. */
  lemma LikeThenUnlikeRestores(r: Relation, p: PostId, u: UserId)
    requires Inverse(r)
    requires Like(r, p, u).Ok?
    ensures Unlike(Like(r, p, u).value, p, u) == Ok(Unliked(true, r))
  {
    var r' := Like(r, p, u).value;
    assert u !in r.likers[p];
    assert p !in r.likedPosts[u];
    assert r'.likers[p := r'.likers[p] - {u}] == r.likers;
    assert r'.likedPosts[u := r'.likedPosts[u] - {p}] == r.likedPosts;
  }

  /** Without the mirror property, unlike can remove the user from the post's
      likers and still report false, leaving the sides apart: the two
      removals are not one atomic step. */
  lemma UnlikeOnSplitRelation()
    ensures var r := Relation(map[1 := {2}], map[2 := {}]);
      && !Inverse(r)
      && Unlike(r, 1, 2) == Ok(Unliked(false, Relation(map[1 := {}], map[2 := {}])))
  {
    var r := Relation(map[1 := {2}], map[2 := {}]);
    assert 2 in r.likers[1] && 1 !in r.likedPosts[2];
    assert r.likers[1] - {2} == {};
    assert r.likers[1 := r.likers[1] - {2}] == map[1 := {}];
    assert r.likedPosts[2] - {1} == {};
    assert r.likedPosts[2 := r.likedPosts[2] - {1}] == map[2 := {}];
  }

  /** A newly stored post, liked by nobody. */
  function AddPost(r: Relation, p: PostId): (res: Relation)
    requires p !in r.likers
    ensures res.likers == r.likers[p := {}] && res.likedPosts == r.likedPosts
  {
    Relation(r.likers[p := {}], r.likedPosts)
  }

  /** A deleted post, with its like rows gone from both sides. */
  function RemovePost(r: Relation, p: PostId): (res: Relation)
    ensures res.likers.Keys == r.likers.Keys - {p}
    ensures res.likedPosts.Keys == r.likedPosts.Keys
    ensures forall q :: q in res.likers ==> res.likers[q] == r.likers[q]
    ensures forall u :: u in res.likedPosts ==> res.likedPosts[u] == r.likedPosts[u] - {p}
  {
    Relation(r.likers - {p}, map u | u in r.likedPosts :: r.likedPosts[u] - {p})
  }

  /** Storing a new post keeps the sides in step. */
  lemma AddPostPreservesInverse(r: Relation, p: PostId)
    requires Inverse(r) && p !in r.likers
    ensures Inverse(AddPost(r, p))
  {
  }

  /** Deleting a post keeps the sides in step. */
  lemma RemovePostPreservesInverse(r: Relation, p: PostId)
    requires Inverse(r)
    ensures Inverse(RemovePost(r, p))
  {
  }
}
