/** How the post service turns the query parameters of "posts of a topic"
    into a repository query: the `orderBy` parser, the 1-indexed page
    conversion, the Spring `Sort` and `PageRequest` values with the checks
    their factories make, and the choice between the four listing modes.
    The repository queries themselves are returned as values: what the store
    does with them is not part of this model. */
module Listing {
  import opened Types
  import JavaText

  datatype Direction = Asc | Desc

  /** A parsed `orderBy` parameter. */
  datatype OrderBy = OrderBy(field: string, direction: Direction)

  /** Spring's `Sort`: no order, or one property in one direction. */
  datatype Sort = Unsorted | By(property: string, direction: Direction)

  /** Spring's `PageRequest`: a 0-indexed page, a page size and a sort. */
  datatype PageRequest = PageRequest(page: int32, size: int32, sort: Sort)

  /** The repository call a listing turns into. */
  datatype RepoQuery =
    | FindByTopic(topicId: TopicId)
    | FindAllSortedByTopic(topicId: TopicId, sort: Sort)
    | FindAllPaginatedByTopic(topicId: TopicId, pageable: PageRequest)

  const ASC: string := "asc"

  /** `direction.equalsIgnoreCase("asc")`. */
  predicate IsAsc(direction: string) {
    JavaText.EqualsIgnoreCase(direction, ASC)
  }

  /** The strings that equal "asc" ignoring case: each letter in either case,
      and for the 's' also U+017F (long s), whose upper case is 'S'. */
  lemma IsAscCases(s: string)
    ensures IsAsc(s) <==>
      && |s| == 3
      && (s[0] == 'a' || s[0] == 'A')
      && (s[1] == 's' || s[1] == 'S' || s[1] == '\U{017F}')
      && (s[2] == 'c' || s[2] == 'C')
  {
  }

  /** The text between the first '.' and the next one, which is what
      `splitted[1]` holds whenever it exists. */
  function SecondSegment(s: string): string {
    var field := JavaText.Prefix(s, '.');
    if |field| < |s| then JavaText.Prefix(s[|field| + 1..], '.') else ""
  }

  /** The direction an `orderBy` asks for: ascending exactly when its second
      segment is "asc" ignoring case. */
  function DirectionOf(s: string): Direction {
    if IsAsc(SecondSegment(s)) then Asc else Desc
  }

  /** `orderBy.split("\\.")`, then `splitted[0]` and `splitted[1]` (which
      throws when there are fewer than two strings), then ascending exactly
      when the second string is "asc" ignoring case, descending otherwise.
      It succeeds exactly when some '.' is followed later by a character
      other than '.'; the field is everything before the first '.', and the
      direction is read from what follows it up to the next '.'. */
  function ParseOrderBy(orderBy: string): (r: Result<OrderBy>)
    ensures r.Err? ==> r.error == IndexOutOfBounds
    ensures r.Ok? <==> JavaText.DelimiterThenOther(orderBy, '.')
    ensures r.Ok? ==> r.value.field == JavaText.Prefix(orderBy, '.')
    ensures r.Ok? ==> |r.value.field| < |orderBy|
    ensures r.Ok? ==> r.value.direction == DirectionOf(orderBy)
  {
    JavaText.SplitHasTwoPieces(orderBy, '.');
    var splitted := JavaText.Split(orderBy, '.');
    if |splitted| < 2 then Err(IndexOutOfBounds)
    else
      SecondStringFollowsFirstDot(orderBy);
      Ok(OrderBy(splitted[0], if IsAsc(splitted[1]) then Asc else Desc))
  }

  /** When Java's split yields two strings, the first is the prefix before
      the first '.' and the second the prefix of what follows that '.'. */
  lemma SecondStringFollowsFirstDot(s: string)
    requires |JavaText.Split(s, '.')| >= 2
    ensures |JavaText.Prefix(s, '.')| < |s|
    ensures JavaText.Split(s, '.')[0] == JavaText.Prefix(s, '.')
    ensures JavaText.Split(s, '.')[1] == SecondSegment(s)
  {
  }

  /** A field and a non-empty direction, both without '.', followed by
      nothing or by further '.'-separated text, parse to that field and the
      direction's meaning; anything after the second segment is ignored. */
  lemma ParseTwoSegments(field: string, direction: string, tail: string)
    requires '.' !in field && '.' !in direction && direction != ""
    requires tail == "" || tail[0] == '.'
    ensures ParseOrderBy(field + "." + direction + tail)
         == Ok(OrderBy(field, if IsAsc(direction) then Asc else Desc))
  {
    var s := field + "." + direction + tail;
    var n := |field|;
    assert s == field + ['.'] + (direction + tail);
    assert s[n] == '.' && s[n + 1] == direction[0] != '.';
    assert JavaText.DelimiterThenOther(s, '.');
    PrefixBeforeDot(field, direction + tail);
    assert s[n + 1..] == direction + tail;
    PrefixBeforeTail(direction, tail);
  }

  lemma PrefixBeforeTail(a: string, tail: string)
    requires '.' !in a
    requires tail == "" || tail[0] == '.'
    ensures JavaText.Prefix(a + tail, '.') == a
  {
    if tail == "" {
      assert a + tail == a;
      PrefixWithoutDot(a);
    } else {
      assert a + tail == a + ['.'] + tail[1..];
      PrefixBeforeDot(a, tail[1..]);
    }
  }

  lemma PrefixWithoutDot(a: string)
    requires '.' !in a
    ensures JavaText.Prefix(a, '.') == a
  {
  }

  /** A field with nothing after it, or only a '.', is refused: Java's split
      drops the trailing empty string, so there is no second string to read. */
  lemma ParseRejectsMissingDirection(field: string)
    requires '.' !in field
    ensures ParseOrderBy(field) == Err(IndexOutOfBounds)
    ensures ParseOrderBy(field + ".") == Err(IndexOutOfBounds)
  {
  }

  /** An empty second segment, as in "title..asc", is not "asc": descending. */
  lemma ParseEmptyDirection(field: string, rest: string)
    requires '.' !in field && '.' !in rest && rest != ""
    ensures ParseOrderBy(field + ".." + rest) == Ok(OrderBy(field, Desc))
  {
    var s := field + ".." + rest;
    var n := |field|;
    assert s == field + ['.'] + ("." + rest);
    assert s[n] == '.' && s[n + 2] == rest[0] != '.';
    assert JavaText.DelimiterThenOther(s, '.');
    PrefixBeforeDot(field, "." + rest);
    assert s[n + 1..] == "." + rest;
    assert JavaText.Prefix("." + rest, '.') == "";
  }

  /** The text `orderBy` is meant to carry: field, '.', then "asc" or "desc". */
  function FormatOrderBy(o: OrderBy): string {
    o.field + "." + (if o.direction == Asc then "asc" else "desc")
  }

  /** Parsing a formatted `orderBy` gives it back, for any field without a '.'. */
  lemma ParseFormatRoundTrip(o: OrderBy)
    requires '.' !in o.field
    ensures ParseOrderBy(FormatOrderBy(o)) == Ok(o)
  {
    var dir := if o.direction == Asc then "asc" else "desc";
    assert FormatOrderBy(o) == o.field + "." + dir + "";
    ParseTwoSegments(o.field, dir, "");
    assert IsAsc(dir) <==> o.direction == Asc;
  }

  lemma PrefixBeforeDot(a: string, b: string)
    requires '.' !in a
    ensures JavaText.Prefix(a + ['.'] + b, '.') == a
  {
    var s := a + ['.'] + b;
    var p := JavaText.Prefix(s, '.');
    assert s[|a|] == '.';
    assert s[..|a|] == a;
    assert |p| == |a|;
    assert p == s[..|a|];
  }

  /** `Sort.by(direction, property)`: Spring refuses a property without text. */
  function SortBy(property: string, direction: Direction): (r: Result<Sort>)
    ensures r.Ok? <==> JavaText.HasText(property)
    ensures r.Ok? ==> r.value == By(property, direction)
    ensures r.Err? ==> r.error == InvalidSortProperty
  {
    if JavaText.HasText(property) then Ok(By(property, direction))
    else Err(InvalidSortProperty)
  }

  /** `page - 1` on a Java `Integer`: wraps at the smallest int. */
  function PageIndex(page: int32): (r: int32)
    ensures page > INT32_MIN ==> r == page - 1
    ensures page == INT32_MIN ==> r == INT32_MAX
  {
    Wrap32(page - 1)
  }

  /** `PageRequest.of(page, size, sort)`: Spring refuses a negative page
      index first, then a size below one. */
  function PageRequestOf(page: int32, size: int32, sort: Sort): (r: Result<PageRequest>)
    ensures r.Ok? <==> page >= 0 && size >= 1
    ensures r.Ok? ==> r.value == PageRequest(page, size, sort)
    ensures page < 0 ==> r == Err(InvalidPageIndex)
    ensures page >= 0 && size < 1 ==> r == Err(InvalidPageSize)
  {
    if page < 0 then Err(InvalidPageIndex)
    else if size < 1 then Err(InvalidPageSize)
    else Ok(PageRequest(page, size, sort))
  }

  /** getSortedPosts: index out of bounds when there is no second string,
      then Spring's refusal of a field without text; otherwise the topic's
      posts sorted by the field before the first '.' in the direction the
      second segment names. */
  function SortedQuery(topicId: TopicId, orderBy: string): (r: Result<RepoQuery>)
    ensures r == Err(IndexOutOfBounds) <==> !JavaText.DelimiterThenOther(orderBy, '.')
    ensures r == Err(InvalidSortProperty) <==>
      JavaText.DelimiterThenOther(orderBy, '.') && !JavaText.HasText(JavaText.Prefix(orderBy, '.'))
    ensures r.Ok? <==>
      JavaText.DelimiterThenOther(orderBy, '.') && JavaText.HasText(JavaText.Prefix(orderBy, '.'))
    ensures r.Ok? ==>
      r.value == FindAllSortedByTopic(topicId, By(JavaText.Prefix(orderBy, '.'), DirectionOf(orderBy)))
  {
    match ParseOrderBy(orderBy)
    case Err(e) => Err(e)
    case Ok(o) =>
      match SortBy(o.field, o.direction)
      case Err(e) => Err(e)
      case Ok(sort) => Ok(FindAllSortedByTopic(topicId, sort))
  }

  /** getPaginatedNumberOfPosts: a 1-indexed page `p` of size `n` is fetched
      as the 0-indexed page `p - 1` of size `n`, unsorted; it is refused when
      `p - 1` is negative or `n` is below one. At the smallest int, `p - 1`
      wraps to the largest. */
  function PaginatedQuery(topicId: TopicId, number: int32, page: int32): (r: Result<RepoQuery>)
    ensures r.Ok? <==> (page >= 1 || page == INT32_MIN) && number >= 1
    ensures page >= 1 && number >= 1 ==>
      r == Ok(FindAllPaginatedByTopic(topicId, PageRequest(page - 1, number, Unsorted)))
    ensures page < 1 && page > INT32_MIN ==> r == Err(InvalidPageIndex)
    ensures (page >= 1 || page == INT32_MIN) && number < 1 ==> r == Err(InvalidPageSize)
    ensures page == INT32_MIN && number >= 1 ==>
      r == Ok(FindAllPaginatedByTopic(topicId, PageRequest(INT32_MAX, number, Unsorted)))
  {
    match PageRequestOf(PageIndex(page), number, Unsorted)
    case Err(e) => Err(e)
    case Ok(p) => Ok(FindAllPaginatedByTopic(topicId, p))
  }

  /** getPaginatedAndSortedNumberOfPosts. The sort is built while the
      arguments of `PageRequest.of` are evaluated, so a bad property is
      reported before a bad page or size. */
  function PaginatedAndSortedQuery(topicId: TopicId, number: int32, page: int32, orderBy: string)
    : (r: Result<RepoQuery>)
    ensures r == Err(IndexOutOfBounds) <==> !JavaText.DelimiterThenOther(orderBy, '.')
    ensures JavaText.DelimiterThenOther(orderBy, '.') && !JavaText.HasText(JavaText.Prefix(orderBy, '.'))
      ==> r == Err(InvalidSortProperty)
    ensures JavaText.DelimiterThenOther(orderBy, '.') && JavaText.HasText(JavaText.Prefix(orderBy, '.'))
      ==> match PageRequestOf(PageIndex(page), number,
                              By(JavaText.Prefix(orderBy, '.'), DirectionOf(orderBy)))
          case Err(e) => r == Err(e)
          case Ok(p) => r == Ok(FindAllPaginatedByTopic(topicId, p))
  {
    match ParseOrderBy(orderBy)
    case Err(e) => Err(e)
    case Ok(o) =>
      match SortBy(o.field, o.direction)
      case Err(e) => Err(e)
      case Ok(sort) =>
        match PageRequestOf(PageIndex(page), number, sort)
        case Err(e) => Err(e)
        case Ok(p) => Ok(FindAllPaginatedByTopic(topicId, p))
  }

  /** The paginated-and-sorted path is the sorted path and the paginated
      path together: it parses `orderBy` as the sorted path does, converts
      the page as the paginated path does, succeeds exactly when both do,
      and reports the sorted path's error first. */
  lemma PaginatedAndSortedCombinesBoth(topicId: TopicId, number: int32, page: int32, orderBy: string)
    ensures var both := PaginatedAndSortedQuery(topicId, number, page, orderBy);
            var sorted := SortedQuery(topicId, orderBy);
            var paged := PaginatedQuery(topicId, number, page);
            && (both.Ok? <==> sorted.Ok? && paged.Ok?)
            && (sorted.Err? ==> both == sorted)
            && (sorted.Ok? && paged.Err? ==> both == paged)
            && (both.Ok? ==>
                  both.value.FindAllPaginatedByTopic?
                  && both.value.pageable.page == paged.value.pageable.page
                  && both.value.pageable.size == paged.value.pageable.size
                  && both.value.pageable.sort == sorted.value.sort)
  {
  }

  /** Which branch of getPostsByTopicId runs. */
  datatype Mode = PaginatedAndSorted | SortedOnly | PaginatedOnly | AllOfTopic

  /** The branches are tried in order: all three parameters, then `orderBy`
      alone (also when only one of `limit` and `page` is given), then `limit`
      and `page`, and otherwise the plain listing of the topic. */
  function SelectMode(hasOrderBy: bool, hasLimit: bool, hasPage: bool): (m: Mode)
    ensures m == PaginatedAndSorted <==> hasOrderBy && hasLimit && hasPage
    ensures m == SortedOnly <==> hasOrderBy && !(hasLimit && hasPage)
    ensures m == PaginatedOnly <==> !hasOrderBy && hasLimit && hasPage
    ensures m == AllOfTopic <==> !hasOrderBy && !(hasLimit && hasPage)
  {
    if hasLimit && hasPage && hasOrderBy then PaginatedAndSorted
    else if hasOrderBy then SortedOnly
    else if hasLimit && hasPage then PaginatedOnly
    else AllOfTopic
  }

  /** getPostsByTopicId: the repository query for the chosen mode. */
  function PostsByTopicQuery(
    topicId: TopicId, orderBy: Option<string>, limit: Option<int32>, page: Option<int32>)
    : (r: Result<RepoQuery>)
    ensures orderBy.None? && !(limit.Some? && page.Some?) ==> r == Ok(FindByTopic(topicId))
    ensures orderBy.Some? && !(limit.Some? && page.Some?) ==>
      r == SortedQuery(topicId, orderBy.value)
    ensures orderBy.None? && limit.Some? && page.Some? ==>
      r == PaginatedQuery(topicId, limit.value, page.value)
    ensures orderBy.Some? && limit.Some? && page.Some? ==>
      r == PaginatedAndSortedQuery(topicId, limit.value, page.value, orderBy.value)
  {
    match SelectMode(orderBy.Some?, limit.Some?, page.Some?)
    case PaginatedAndSorted =>
      PaginatedAndSortedQuery(topicId, limit.value, page.value, orderBy.value)
    case SortedOnly => SortedQuery(topicId, orderBy.value)
    case PaginatedOnly => PaginatedQuery(topicId, limit.value, page.value)
    case AllOfTopic => Ok(FindByTopic(topicId))
  }

  /** Whatever the parameters, the topic id reaches the repository unchanged,
      and a listing without `orderBy` never sorts. */
  lemma TopicQueryKeepsTopic(
    topicId: TopicId, orderBy: Option<string>, limit: Option<int32>, page: Option<int32>)
    ensures var r := PostsByTopicQuery(topicId, orderBy, limit, page);
            r.Ok? ==> r.value.topicId == topicId
    ensures var r := PostsByTopicQuery(topicId, orderBy, limit, page);
            orderBy.None? && r.Ok? ==>
              r.value.FindByTopic? || (r.value.FindAllPaginatedByTopic? && r.value.pageable.sort == Unsorted)
    ensures var r := PostsByTopicQuery(topicId, orderBy, limit, page);
            orderBy.None? ==> r.Err? ==> limit.Some? && page.Some?
  {
  }
}
