# Post service model (construction worker forum back end)

A Dafny model of the request logic of the forum's post service
(`PostService`): how the "posts of a topic" listing turns its optional
`orderBy`, `limit` and `page` parameters into one of four repository
queries; how `orderBy` is parsed with Java's `String.split` and
`equalsIgnoreCase`; how a 1-indexed page becomes a Spring `PageRequest`;
the like/unlike updates of the two mirrored collections (a post's
`likers`, a user's `likedPosts`); and the id-keyed `postCache` around
`findById`, `updatePostById` and `deleteById`, together with the
NOT_FOUND checks of `createPost`.

Modules:

- `Types` (`types.dfy`): `Option`, `Result` with the service's error kinds,
  Java's 32-bit `int` and its wrap-around, the post record and the request body.
- `JavaText` (`java_text.dfy`): Java's `split` for a one-character pattern
  (every piece, then trailing empty pieces dropped; no occurrence gives the
  string itself), `equalsIgnoreCase` against ASCII letters (including the
  four non-ASCII characters that fold onto ASCII letters, such as U+017F,
  which matches `s`), and Spring's `StringUtils.hasText` with
  `Character.isWhitespace` written out.
- `Listing` (`listing.dfy`): the `orderBy` parser, `Sort.by` and
  `PageRequest.of` with the argument checks these Spring factories make, the
  three listing helpers, the mode choice and `getPostsByTopicId`. Each
  returns the repository query it issues, as a value.
- `Likes` (`likes.dfy`): the like relation as a value, with `Like`, `Unlike`
  and the mirror invariant `Inverse`.
- `PostServiceModel` (`post_service.dfy`): the class `PostService`. Its
  fields are the stored posts, the topics, the like relation, the cache, a
  count of store look-ups and the next id. Each request is a method whose
  postconditions give the result and the whole new state. The like methods
  are proved against `Likes.Like` and `Likes.Unlike`.

Modelling choices:

- The object mapper is the identity. A post handed out is the stored
  record. Its likers live in the like relation.
- The store is abstract. A post is looked up by id and deleted by id, and
  the delete reports a row count: 0 when no post has the id, and some
  positive count otherwise (1 when ids are unique, but the model does not
  rely on that). Only a count of exactly 1 is a successful delete. Deleting
  a post drops its like rows on both sides.
- New ids come from a counter, `nextId`.
- Time is a parameter (`now`).
- The edit-window check and the recording of the last editor belong to an
  external policy. They are parameters of `UpdatePostById`: `editAllowed`,
  and `editor`, the last editor the policy records (`None` when it records
  none).
- `page - 1` is computed on a Java `Integer`. It wraps: a page of
  -2147483648 becomes page index 2147483647, which `PageRequest.of` accepts.
  For every other page the index is `page - 1`, and a page below 1 is refused.
- In `getPaginatedAndSortedNumberOfPosts`, `Sort.by` is evaluated as an
  argument of `PageRequest.of`. So a field with no text is reported before
  a bad page or size.
- Where the documented behaviour and the code differ, the code is followed.
  - `unlikePost` is described as both-or-neither. The code removes the user
    from the post's likers first. Only if that removed something does it
    remove the post from the user's liked posts. When the two sides have
    drifted apart, it can therefore return false after changing one side
    (`Likes.UnlikeOnSplitRelation`). When the sides mirror each other, both
    removals happen or neither does (`Likes.UnlikeUnderInverse`).
- A direction-less `orderBy` such as `"title"` or `"title."` fails at
  `splitted[1]` with an index out of bounds, before any query is built.

## Model

| member | source | states |
|---|---|---|
| `JavaText.SplitAll` | src/main/java/com/construction_worker_forum_back/service/PostService.java:215 | the split pieces: at least one; the first is the part of the string before the first '.', and there is exactly one piece when the string has no '.' |
| `JavaText.Split` | src/main/java/com/construction_worker_forum_back/service/PostService.java:215 | Java's split: the string itself when it has no '.', otherwise the pieces with the trailing empty ones (and only those) removed |
| `JavaText.DropTrailingEmpty` | src/main/java/com/construction_worker_forum_back/service/PostService.java:215 | the result is a prefix of the pieces, ends in a non-empty piece, and everything dropped is empty |
| `JavaText.Prefix` | src/main/java/com/construction_worker_forum_back/service/PostService.java:216 | `splitted[0]`'s reference: the longest prefix without '.', followed by a '.' or the end of the string |
| `JavaText.JoinSplitAll` | src/main/java/com/construction_worker_forum_back/service/PostService.java:215 | joining the pieces with '.' gives the original string back |
| `JavaText.SplitAllPiecesFree` | src/main/java/com/construction_worker_forum_back/service/PostService.java:215 | no piece contains a '.' |
| `JavaText.SplitAllAfterFirst` | src/main/java/com/construction_worker_forum_back/service/PostService.java:217 | after the first piece come exactly the pieces of the text after the first '.' |
| `JavaText.SplitHasTwoPieces` | src/main/java/com/construction_worker_forum_back/service/PostService.java:215-217 | `splitted[1]` exists if and only if some '.' is followed later by a character other than '.' |
| `JavaText.CharEqualsIgnoreCase` | src/main/java/com/construction_worker_forum_back/service/PostService.java:218 | one character of `equalsIgnoreCase` against an ASCII letter: equal after ASCII lower-casing, or one of the four non-ASCII characters whose upper or lower case is that letter |
| `JavaText.EqualsIgnoreCase` | src/main/java/com/construction_worker_forum_back/service/PostService.java:218 | `equalsIgnoreCase` against ASCII letters: the same length, and every character matches its counterpart ignoring case |
| `JavaText.IsJavaWhitespace` | src/main/java/com/construction_worker_forum_back/service/PostService.java:219 | `Character.isWhitespace`: the space and line/paragraph separators except the no-break spaces, and the controls U+0009 to U+000D and U+001C to U+001F |
| `JavaText.HasText` | src/main/java/com/construction_worker_forum_back/service/PostService.java:219 | the property check `Sort.by` makes (`StringUtils.hasText`): some character is not Java whitespace |
| `JavaText.HasTextExamples` | src/main/java/com/construction_worker_forum_back/service/PostService.java:219 | the empty string and whitespace (including U+3000) have no text; a field with letters and a lone no-break space do |
| `Listing.ParseOrderBy` | src/main/java/com/construction_worker_forum_back/service/PostService.java:215-218 | fails (index out of bounds) exactly when no '.' is followed by another character; otherwise the field is the text before the first '.', and the direction is ascending if and only if the next segment equals "asc" ignoring case |
| `Listing.IsAsc` | src/main/java/com/construction_worker_forum_back/service/PostService.java:218 | `direction.equalsIgnoreCase("asc")` |
| `Listing.IsAscCases` | src/main/java/com/construction_worker_forum_back/service/PostService.java:218 | exactly the three-character strings with 'a' or 'A', then 's', 'S' or U+017F, then 'c' or 'C' equal "asc" ignoring case |
| `Listing.ParseTwoSegments` | src/main/java/com/construction_worker_forum_back/service/PostService.java:215-225 | `field.direction` (plus any further '.'-segments) parses to that field, ascending exactly when the direction is "asc" ignoring case, descending for any other direction |
| `Listing.ParseRejectsMissingDirection` | src/main/java/com/construction_worker_forum_back/service/PostService.java:215-217 | `"title"` and `"title."` have no second string and are refused |
| `Listing.ParseEmptyDirection` | src/main/java/com/construction_worker_forum_back/service/PostService.java:217-218 | `"a..asc"`: an empty second segment is not "asc", so the order is descending |
| `Listing.ParseFormatRoundTrip` | src/main/java/com/construction_worker_forum_back/service/PostService.java:215-225 | parsing `field.asc` or `field.desc` gives back the field and direction, for any field without '.' |
| `Listing.SortBy` | src/main/java/com/construction_worker_forum_back/service/PostService.java:219-223 | a sort by the field in the parsed direction, refused exactly when the field has no non-whitespace character |
| `Listing.PageIndex` | src/main/java/com/construction_worker_forum_back/service/PostService.java:203 | the 0-indexed page is `page - 1`, except at the smallest int where it wraps to the largest |
| `Types.Wrap32` | src/main/java/com/construction_worker_forum_back/service/PostService.java:203 | Java int arithmetic: an in-range result is unchanged, and any result is congruent to the true value modulo 2^32 |
| `Listing.PageRequestOf` | src/main/java/com/construction_worker_forum_back/service/PostService.java:203 | a page request with exactly the given index, size and sort if the index is at least 0 and the size at least 1; otherwise refused, the index check first |
| `Listing.SortedQuery` | src/main/java/com/construction_worker_forum_back/service/PostService.java:214-226 | index out of bounds exactly when no '.' is followed by another character; otherwise the sort error exactly when the text before the first '.' has no non-whitespace character; otherwise the topic's posts sorted by that field, ascending exactly when the second segment is "asc" ignoring case |
| `Listing.PaginatedQuery` | src/main/java/com/construction_worker_forum_back/service/PostService.java:202-205 | page p of size n fetches the 0-indexed page p-1 of size n, unsorted; it succeeds if and only if n >= 1 and p >= 1 (or p wraps at the smallest int); a page below 1 is refused as a bad index before the size is checked |
| `Listing.PaginatedAndSortedQuery` | src/main/java/com/construction_worker_forum_back/service/PostService.java:235-246 | index out of bounds exactly when there is no second string; then the sort error for a field without text; otherwise the page request of index p-1 (wrapped), size n and the parsed sort, refused as `PageRequest.of` refuses it |
| `Listing.PaginatedAndSortedCombinesBoth` | src/main/java/com/construction_worker_forum_back/service/PostService.java:235-246 | the paginated-and-sorted path succeeds if and only if both the sorted and the paginated path do, with the sorted path's parse and sort and the paginated path's page index and size, and reports the sorted path's error first |
| `Listing.SelectMode` | src/main/java/com/construction_worker_forum_back/service/PostService.java:70-78 | the four modes are mutually exclusive and tried in priority order: all three parameters, then orderBy (also with only one of limit and page), then limit with page, and otherwise the plain listing |
| `Listing.PostsByTopicQuery` | src/main/java/com/construction_worker_forum_back/service/PostService.java:64-84 | each parameter combination runs the listing of its mode: no orderBy and not both limit and page gives the plain topic query |
| `Listing.TopicQueryKeepsTopic` | src/main/java/com/construction_worker_forum_back/service/PostService.java:64-84 | every query issued is for the requested topic; without orderBy nothing is sorted and only the paginated mode can fail |
| `Likes.Like` | src/main/java/com/construction_worker_forum_back/service/PostService.java:119-133 | NOT_FOUND exactly when the post or the user is unknown, CONFLICT exactly when the user already likes the post, success exactly in the remaining case; on success the user joins the post's likers, the post joins the user's liked posts, and no other entry changes |
| `Likes.Unlike` | src/main/java/com/construction_worker_forum_back/service/PostService.java:182-191 | NOT_FOUND exactly when the post or the user is unknown; the user always leaves the post's likers; when the user was a liker the post leaves that user's liked posts and no other entry changes; otherwise nothing changes; the answer is true exactly when both removals removed something |
| `Likes.LikePreservesInverse` | src/main/java/com/construction_worker_forum_back/service/PostService.java:132-133 | if the two sides mirrored each other before a like, they still do after it |
| `Likes.LikeTwiceConflicts` | src/main/java/com/construction_worker_forum_back/service/PostService.java:128-130 | a second like of the same post by the same user is a CONFLICT |
| `Likes.UnlikeUnderInverse` | src/main/java/com/construction_worker_forum_back/service/PostService.java:191 | with mirrored sides, unlike removes the pair from both sides, answers true if and only if the user liked the post, and keeps the sides mirrored |
| `Likes.LikeThenUnlikeRestores` | src/main/java/com/construction_worker_forum_back/service/PostService.java:191 | with mirrored sides, a like followed by an unlike restores the relation and answers true |
| `Likes.UnlikeOnSplitRelation` | src/main/java/com/construction_worker_forum_back/service/PostService.java:191 | on sides that have drifted apart, unlike can remove the liker and still answer false, because of the short-circuit |
| `Likes.AddPost` | src/main/java/com/construction_worker_forum_back/service/PostService.java:115 | a saved post starts with no likers and no user's liked posts change |
| `Likes.RemovePost` | src/main/java/com/construction_worker_forum_back/service/PostService.java:178 | a deleted post loses its likers entry and leaves every user's liked posts |
| `Likes.AddPostPreservesInverse` | src/main/java/com/construction_worker_forum_back/service/PostService.java:115 | saving a new post keeps the sides mirrored |
| `Likes.RemovePostPreservesInverse` | src/main/java/com/construction_worker_forum_back/service/PostService.java:178 | deleting a post keeps the sides mirrored |
| `PostServiceModel.NewPost` | src/main/java/com/construction_worker_forum_back/service/PostService.java:104-113 | the post to save takes the request's fields, its user and its topic |
| `PostServiceModel.Edited` | src/main/java/com/construction_worker_forum_back/service/PostService.java:165-170 | an update overwrites title, content, keywords and topic, sets the update time and the recorded last editor, and keeps id, author and creation time |
| `PostServiceModel.PostService.LookupPost` | src/main/java/com/construction_worker_forum_back/service/PostService.java:98 | a store look-up answers the stored post or nothing, and is counted |
| `PostServiceModel.PostService.FindById` | src/main/java/com/construction_worker_forum_back/service/PostService.java:96-100 | a cached id is answered from the cache without a store look-up; otherwise one look-up, and a found post is cached; in both cases the answer is the stored post |
| `PostServiceModel.PostService.FindByIdTwice` | src/main/java/com/construction_worker_forum_back/service/PostService.java:96-100 | two findById calls agree and make at most one store look-up for a stored post (two for a missing one, which is not cached) |
| `PostServiceModel.PostService.CreatePost` | src/main/java/com/construction_worker_forum_back/service/PostService.java:102-116 | NOT_FOUND exactly when the user or the topic is unknown, with nothing changed; otherwise the new post is stored under a fresh id with no likers, the id counter advances by one, and the sides stay mirrored |
| `PostServiceModel.PostService.GetPostLikers` | src/main/java/com/construction_worker_forum_back/service/PostService.java:86-94 | NOT_FOUND for an unknown post, otherwise its likers, who under the mirror invariant are exactly the users whose liked posts hold it; one store look-up and nothing else changes |
| `PostServiceModel.PostService.LikePost` | src/main/java/com/construction_worker_forum_back/service/PostService.java:118-149 | the new like relation and the result are those of `Likes.Like`; on an error nothing changes; a successful like returns the post and keeps the sides mirrored |
| `PostServiceModel.PostService.UnlikePost` | src/main/java/com/construction_worker_forum_back/service/PostService.java:181-192 | the new like relation and the answer are those of `Likes.Unlike`; NOT_FOUND changes nothing; mirrored sides stay mirrored |
| `PostServiceModel.PostService.UpdatePostById` | src/main/java/com/construction_worker_forum_back/service/PostService.java:151-173 | NOT_FOUND for an unknown post, then the edit-window refusal, then NOT_FOUND for an unknown topic, each changing nothing; otherwise the edited post is stored and the cache holds the returned value for the id |
| `PostServiceModel.PostService.DeleteFromStore` | src/main/java/com/construction_worker_forum_back/service/PostService.java:178 | the store reports zero deleted rows exactly when no post has the id, and some positive count otherwise; the post and its like rows are gone |
| `PostServiceModel.PostService.DeleteById` | src/main/java/com/construction_worker_forum_back/service/PostService.java:175-179 | true exactly when the store reports exactly one deleted row (a larger count is not a success); the cache entry is evicted whatever the result; mirrored sides stay mirrored |
| `PostServiceModel.PostService.DeleteThenFind` | src/main/java/com/construction_worker_forum_back/service/PostService.java:175-179 | after a delete, whose success is a reported count of exactly one, findById goes to the store and finds nothing |

## Left out

- getAllPosts, getPostsByUsername and findPostByContentOrTitle: they only pass a repository query through the mapper. The queries are Spring Data derived queries that have no visible implementation, including case-insensitive name and substring matching.
- getListOfPostsByPageableObject and getListOfPostsBySort: modelled as the repository query value they issue (`Listing.RepoQuery`). Sorting by a field known only at run time and slicing pages happen inside the store and are not modelled.
- Object mapping (ModelMapper): taken as the identity. Whether mapping a request onto an existing post also touches fields other than title, content, keywords and topic is not modelled.
- The notification sent by likePost: it is a fire-and-forget network call and does not affect the result.
- The edit-window check and the recording of the last editor (EntityUpdateUtil is not part of this model): both are parameters of `UpdatePostById`.
- Wall-clock time: a parameter.
- How the store generates ids: modelled as a counter.
- Spring cache details beyond a map: an empty result is never cached, and there is no expiry or serialisation.
- If the transfer shape of a post carried its likers, the cache would go stale after a like or an unlike, since neither touches the cache. The post record here does not include likers.
- Transactions, and the stale-cache races under concurrent requests: only sequential calls are modelled. The exceptions the model raises all happen before any change, so rollback is not needed.
- Entity equality in `contains` and `remove`: taken to be by id.
- Controllers, the HTTP status mapping, role checks, DTO classes and the test set-up: plumbing with no logic of the service.
- NewPost: the creation and update times set to the creation time and an empty last editor are an assumption about the Post entity, which is not part of this model; createPost itself sets only the user and the topic on the mapped request.
- Java strings are sequences of UTF-16 code units, while a Dafny `string` is a sequence of Unicode scalar values. For a split on '.', for `equalsIgnoreCase("asc")` and for `hasText` the two readings agree, and supplementary characters and unpaired surrogates are not modelled separately.
