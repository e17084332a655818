/** Values shared by the post service model: optional values, results with the
    service's error kinds, Java's 32-bit integers and the post record. */
module Types {

  datatype Option<+T> = None | Some(value: T)

  /** The exceptions the post service raises, or that the library calls it
      makes raise, each turned into a value. */
  datatype Error =
    | NotFound            // ResponseStatusException(NOT_FOUND)
    | Conflict            // ResponseStatusException(CONFLICT): post already liked
    | EditWindowExpired   // the edit-window policy refused the update
    | IndexOutOfBounds    // splitted[1] on an array with fewer than two elements
    | InvalidSortProperty // Sort.by with a property that has no text
    | InvalidPageIndex    // PageRequest.of with a page index below zero
    | InvalidPageSize     // PageRequest.of with a page size below one

  datatype Result<+T> = Ok(value: T) | Err(error: Error)

  const INT32_MIN: int := -0x8000_0000
  const INT32_MAX: int := 0x7fff_ffff

  /** Java's `int` (and an unboxed `Integer`). */
  type int32 = x: int | INT32_MIN <= x <= INT32_MAX

  /** Java's two's-complement wrap-around of an out-of-range int result. */
  function Wrap32(x: int): (r: int32)
    ensures INT32_MIN <= x <= INT32_MAX ==> r == x
    ensures (r - x) % 0x1_0000_0000 == 0
  {
    (x - INT32_MIN) % 0x1_0000_0000 + INT32_MIN
  }

  type PostId = int
  type UserId = int
  type TopicId = int
  /** An abstract point in time (java.util.Date). */
  type Timestamp = int

  /** A post as stored, and (the object mapper being taken as the identity)
      as handed out. Its likers live in the like relation, not here. */
  datatype Post = Post(
    id: PostId,
    title: string,
    content: string,
    keywords: seq<string>,
    userId: UserId,
    topicId: TopicId,
    createdAt: Timestamp,
    updatedAt: Timestamp,
    lastEditor: Option<UserId>)

  /** The request body of a create or an update. */
  datatype PostRequest = PostRequest(
    title: string,
    content: string,
    keywords: seq<string>,
    userId: UserId,
    topicId: TopicId)
}
