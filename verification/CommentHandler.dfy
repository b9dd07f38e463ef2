/** The public list handler: parameters, page and cursor, and what a client that follows the
    returned cursors sees. */
module CommentHandler {
  import opened Base
  import opened Texts
  import opened Registry
  import opened Database
  import opened CommentStore
  import opened Decimals
  import opened Pagination
  import opened CommentService

  datatype PublicComment = PublicComment(id: int, author: Text, body: Text)

  datatype ListResponse = ListResponse(comments: seq<PublicComment>, nextBeforeId: Option<int>)

  function Public(c: Comment): PublicComment {
    PublicComment(c.id, c.author, c.body)
  }

  ghost predicate Presents(response: ListResponse, page: seq<Comment>, limit: nat) {
    && |response.comments| == |page|
    && (forall k :: 0 <= k < |page| ==>
          response.comments[k].id == page[k].id && response.comments[k].author == page[k].author
          && response.comments[k].body == page[k].body)
    && response.nextBeforeId == NextCursor(page, limit)
  }

  /** Rows converted one by one, then the cursor rule: the id of the last row presented, unless
      the page is empty or falls short of an explicit limit. */
  method Respond(page: seq<Comment>, limit: nat) returns (response: ListResponse)
    ensures Presents(response, page, limit)
    ensures |response.comments| == |page| && forall k :: 0 <= k < |page| ==>
      response.comments[k] == PublicComment(page[k].id, page[k].author, page[k].body)
    ensures response.nextBeforeId ==
      if |page| > 0 && (limit == 0 || |page| == limit) then Some(response.comments[|page| - 1].id) else None
  {
    var comments: seq<PublicComment> := [];
    for index := 0 to |page|
      invariant |comments| == index && forall k :: 0 <= k < index ==> comments[k] == Public(page[k])
    {
      comments := comments + [Public(page[index])];
    }
    var next: Option<int> := None;
    if |page| > 0 && (limit == 0 || |page| == limit) {
      next := Some(page[|page| - 1].id);
    }
    return ListResponse(comments, next);
  }

  /** Why a list request is refused, if it is: both parameters must parse first. */
  ghost function RequestRefusal(t: Table, slug: Text, beforeParam: Text, limitParam: Text): Option<ServiceError> {
    var before, limit := OptionalPositiveInt64(beforeParam), OptionalPositiveInt64(limitParam);
    if before.Err? || limit.Err? then Some(InvalidCursor) else ListRefusal(t, slug, before.value, limit.value)
  }

  /** The part of the handler behind the parameters: query, then present the page. */
  method AnswerPage(service: Service, slug: Text, before: nat, limit: nat)
    returns (result: Result<ListResponse, ServiceError>, ghost page: seq<Comment>)
    requires service.store.Valid()
    ensures result.Ok? <==> ListRefusal(service.store.registry, slug, before, limit).None?
    ensures result.Err? ==> Some(result.error) == ListRefusal(service.store.registry, slug, before, limit)
    ensures result.Ok? ==> PresentsPage(service.store.Rows(), slug, before, limit, result.value, page)
    ensures result.Ok? ==>
      var shown := result.value.comments;
      && ShowsPage(service.store.comments, slug, before, if limit == 0 then 25 else limit, shown)
      && result.value.nextBeforeId ==
         (if |shown| > 0 && (limit == 0 || |shown| == limit) then Some(shown[|shown| - 1].id) else None)
  {
    var values := service.ListVisible(slug, before, limit);
    if values.Err? {
      return Err(values.error), [];
    }
    var response := Respond(values.value, limit);
    ConsistentIsKeyed(service.store.Rows(), service.store.nextComment, service.store.nextAudit);
    PageIsShown(service.store.Rows(), slug, before, if limit == 0 then 25 else limit, values.value, response.comments);
    return Ok(response), values.value;
  }

  /** The list handler: parse both parameters, query, present the page. */
  method HandleList(service: Service, slug: Text, beforeParam: Text, limitParam: Text)
    returns (result: Result<ListResponse, ServiceError>, ghost page: seq<Comment>)
    requires service.store.Valid()
    ensures result.Ok? <==>
      && OptionalPositiveInt64(beforeParam).Ok? && OptionalPositiveInt64(limitParam).Ok?
      && OptionalPositiveInt64(limitParam).value <= 100 && CommentsRefusal(service.store.registry, slug).None?
    ensures result.Err? ==> Some(result.error) == RequestRefusal(service.store.registry, slug, beforeParam, limitParam)
    ensures result.Ok? ==> Answers(service.store.Rows(), slug, beforeParam, limitParam, result.value, page)
    ensures result.Ok? ==>
      var before, limit := OptionalPositiveInt64(beforeParam).value, OptionalPositiveInt64(limitParam).value;
      var shown := result.value.comments;
      && ShowsPage(service.store.comments, slug, before, if limit == 0 then 25 else limit, shown)
      && result.value.nextBeforeId ==
         (if |shown| > 0 && (limit == 0 || |shown| == limit) then Some(shown[|shown| - 1].id) else None)
  {
    var beforeId := OptionalPositiveInt64(beforeParam);
    if beforeId.Err? {
      return Err(InvalidCursor), [];
    }
    var limit := OptionalPositiveInt64(limitParam);
    if limit.Err? {
      return Err(InvalidCursor), [];
    }
    result, page := AnswerPage(service, slug, beforeId.value, limit.value);
  }

  /** What a reader of the public page gets: visible comments of the post below the bound, with
      their own author and body, newest first, none skipped, and few only when none is left. */
  ghost predicate ShowsPage(comments: map<int, Comment>, slug: Text, before: int, size: nat, shown: seq<PublicComment>) {
    && |shown| <= size && (forall k, l :: 0 <= k < l < |shown| ==> shown[l].id < shown[k].id)
    && (forall k :: 0 <= k < |shown| ==>
          && shown[k].id in comments
          && var c := comments[shown[k].id];
             && c.slug == slug && c.status == Visible && (before == 0 || shown[k].id < before)
             && shown[k] == PublicComment(shown[k].id, c.author, c.body))
    && (forall id :: id in comments && comments[id].slug == slug && comments[id].status == Visible && (before == 0 || id < before) ==>
          PublicComment(id, comments[id].author, comments[id].body) in shown
          || (|shown| == size && forall k :: 0 <= k < |shown| ==> id < shown[k].id))
  }

  lemma PageIsShown(db: Db, slug: Text, before: int, size: nat, page: seq<Comment>, shown: seq<PublicComment>)
    requires Keyed(db) && IsPage(db, VisibleOf(slug), before, size, page) && |shown| == |page|
    requires forall k :: 0 <= k < |page| ==> shown[k] == PublicComment(page[k].id, page[k].author, page[k].body)
    ensures ShowsPage(db.comments, slug, before, size, shown)
  {
    forall id | id in db.comments && db.comments[id].slug == slug && db.comments[id].status == Visible && (before == 0 || id < before)
      ensures PublicComment(id, db.comments[id].author, db.comments[id].body) in shown
              || (|shown| == size && forall k :: 0 <= k < |shown| ==> id < shown[k].id)
    {
      assert Selects(VisibleOf(slug), before, db.comments[id]);
      if db.comments[id] in page {
        var k :| 0 <= k < |page| && page[k] == db.comments[id];
        assert shown[k] == PublicComment(id, db.comments[id].author, db.comments[id].body);
      }
    }
    forall k | 0 <= k < |shown|
      ensures shown[k].id in db.comments && db.comments[shown[k].id] == page[k] && Selects(VisibleOf(slug), before, page[k])
    {}
  }

  ghost predicate PresentsPage(db: Db, slug: Text, before: nat, limit: nat, response: ListResponse, page: seq<Comment>) {
    IsPage(db, VisibleOf(slug), before, EffectiveLimit(limit), page) && Presents(response, page, limit)
  }

  /** The response presents the page that its parameters ask of these tables. */
  ghost predicate Answers(db: Db, slug: Text, beforeParam: Text, limitParam: Text, response: ListResponse, page: seq<Comment>) {
    var before, limit := OptionalPositiveInt64(beforeParam), OptionalPositiveInt64(limitParam);
    before.Ok? && limit.Ok? && PresentsPage(db, slug, before.value, limit.value, response, page)
  }

  /** Absent means zero; anything else must be a positive 64-bit integer. */
  function OptionalPositiveInt64(value: Text): (result: Result<nat, ServiceError>)
    ensures result.Ok? && result.value == 0 <==> value == []
    ensures result.Ok? ==> result.value <= MAX_INT64
    ensures result.Err? ==> result.error == InvalidCursor
  {
    if value == [] then Ok(0)
    else
      var parsed := ParseInt64(value);
      if parsed.None? || parsed.value <= 0 then Err(InvalidCursor) else Ok(parsed.value)
  }

  /** A present parameter is accepted as `n` iff it is the decimal of the positive 64-bit `n`,
      with an optional plus sign and any leading zeros; every other string is refused. */
  lemma {:induction false} ParameterMeaning(value: Text, n: nat)
    requires n > 0
    ensures OptionalPositiveInt64(value) == Ok(n) <==> n <= MAX_INT64 && Writes(value, n)
    ensures OptionalPositiveInt64(value).Err? ==> !(n <= MAX_INT64 && Writes(value, n))
  {
    ParseMeaning(value, n);
    assert ParseInt64([]).None?;
  }

  /** Round trip: the cursor a response prints is the cursor the next request means. */
  lemma {:induction false} CursorRoundTrip(id: int)
    requires 0 < id <= MAX_INT64
    ensures OptionalPositiveInt64(Decimal(id)) == Ok(id)
  {
    assert ZeroDigits(0) + Decimal(id) == Decimal(id);
    assert Signed(Decimal(id), ZeroDigits(0) + Decimal(id));
    ParseMeaning(Decimal(id), id);
  }

  /** The `before_id` parameter of request `k`: none at first, then the printed cursor of the
      response before. */
  function BeforeParam(responses: seq<ListResponse>, k: nat): Text
    requires k <= |responses|
  {
    if k == 0 then []
    else match responses[k - 1].nextBeforeId
      case Some(next) => if next >= 0 then Decimal(next) else []
      case None => []
  }

  /** A client that follows `next_before_id`: request `k` is answered from the tables `dbs[k]`. */
  ghost predicate ClientWalk(dbs: seq<Db>, slug: Text, limitParam: Text, responses: seq<ListResponse>, pages: seq<seq<Comment>>) {
    && |dbs| == |responses| == |pages|
    && (forall k :: 0 <= k < |dbs| ==> Keyed(dbs[k]) && forall id :: id in dbs[k].comments ==> id <= MAX_INT64)
    && (forall k :: 0 <= k < |responses| - 1 ==> responses[k].nextBeforeId.Some?)
    && (forall k :: 0 <= k < |responses| ==> Answers(dbs[k], slug, BeforeParam(responses, k), limitParam, responses[k], pages[k]))
  }

  function ShownIds(responses: seq<ListResponse>): seq<int> {
    if responses == [] then []
    else
      var last := responses[|responses| - 1].comments;
      ShownIds(responses[..|responses| - 1]) + seq(|last|, i requires 0 <= i < |last| => last[i].id)
  }

  lemma {:induction false} ShownIdsAreIds(responses: seq<ListResponse>, pages: seq<seq<Comment>>, limit: nat)
    requires |responses| == |pages| && forall k :: 0 <= k < |pages| ==> Presents(responses[k], pages[k], limit)
    ensures ShownIds(responses) == Ids(pages)
  {
    if pages != [] {
      var n := |pages| - 1;
      ShownIdsAreIds(responses[..n], pages[..n], limit);
      var last := responses[n].comments;
      assert seq(|last|, i requires 0 <= i < |last| => last[i].id) == PageIds(pages[n]);
    }
  }

  /** The printed cursor of one response is the `before_id` that the next page is read with. */
  lemma CursorArrives(dbs: seq<Db>, slug: Text, limitParam: Text, responses: seq<ListResponse>, pages: seq<seq<Comment>>, k: nat)
    requires ClientWalk(dbs, slug, limitParam, responses, pages) && 0 < k < |responses|
    ensures OptionalPositiveInt64(limitParam).Ok?
    ensures NextCursor(pages[k - 1], OptionalPositiveInt64(limitParam).value).Some?
    ensures OptionalPositiveInt64(BeforeParam(responses, k)) ==
            Ok(NextCursor(pages[k - 1], OptionalPositiveInt64(limitParam).value).value)
  {
    assert Answers(dbs[k - 1], slug, BeforeParam(responses, k - 1), limitParam, responses[k - 1], pages[k - 1]);
    var next := responses[k - 1].nextBeforeId.value;
    assert next in dbs[k - 1].comments;
    CursorRoundTrip(next);
  }

  lemma {:induction false} ClientWalkIsWalk(dbs: seq<Db>, slug: Text, limitParam: Text, responses: seq<ListResponse>, pages: seq<seq<Comment>>)
    requires ClientWalk(dbs, slug, limitParam, responses, pages) && responses != []
    ensures OptionalPositiveInt64(limitParam).Ok?
    ensures Walk(dbs, VisibleOf(slug), OptionalPositiveInt64(limitParam).value, pages)
    ensures ShownIds(responses) == Ids(pages)
  {
    assert Answers(dbs[0], slug, BeforeParam(responses, 0), limitParam, responses[0], pages[0]);
    var limit := OptionalPositiveInt64(limitParam).value;
    forall k | 0 <= k < |pages| ensures Presents(responses[k], pages[k], limit) {
      assert Answers(dbs[k], slug, BeforeParam(responses, k), limitParam, responses[k], pages[k]);
    }
    forall k | 0 <= k < |pages| - 1 ensures NextCursor(pages[k], limit).Some? {
      assert Presents(responses[k], pages[k], limit);
    }
    forall k | 0 <= k < |pages| ensures PageRead(dbs, VisibleOf(slug), limit, pages, k) {
      assert Answers(dbs[k], slug, BeforeParam(responses, k), limitParam, responses[k], pages[k]);
      if k > 0 { CursorArrives(dbs, slug, limitParam, responses, pages, k); }
    }
    ShownIdsAreIds(responses, pages, limit);
  }

  ghost predicate VisibleThroughout(dbs: seq<Db>, slug: Text, id: int) {
    forall k :: 0 <= k < |dbs| ==>
      id in dbs[k].comments && dbs[k].comments[id].slug == slug && dbs[k].comments[id].status == Visible
  }

  /** End to end: a client that follows the cursors until none is returned sees ids in strictly
      descending order, and every comment that stays visible throughout exactly once. */
  lemma {:induction false} ClientSeesEachCommentOnce(dbs: seq<Db>, slug: Text, limitParam: Text, responses: seq<ListResponse>, pages: seq<seq<Comment>>, id: int)
    requires ClientWalk(dbs, slug, limitParam, responses, pages) && |responses| > 0
    ensures Descending(ShownIds(responses))
    ensures responses[|responses| - 1].nextBeforeId.None? && VisibleThroughout(dbs, slug, id) ==>
      multiset(ShownIds(responses))[id] == 1
  {
    ClientWalkIsWalk(dbs, slug, limitParam, responses, pages);
    var n := |responses| - 1;
    assert Answers(dbs[n], slug, BeforeParam(responses, n), limitParam, responses[n], pages[n]);
    WalkDescends(dbs, VisibleOf(slug), OptionalPositiveInt64(limitParam).value, pages);
    if responses[n].nextBeforeId.None? && VisibleThroughout(dbs, slug, id) {
      SelectedCommentsAppearOnce(dbs, VisibleOf(slug), OptionalPositiveInt64(limitParam).value, pages, id);
    }
  }

  /** And it is done after at most as many requests as the first id shown says, plus one. */
  lemma {:induction false} ClientFinishes(dbs: seq<Db>, slug: Text, limitParam: Text, responses: seq<ListResponse>, pages: seq<seq<Comment>>)
    requires ClientWalk(dbs, slug, limitParam, responses, pages) && |responses| > 1
    ensures responses[0].comments != [] && |responses| <= responses[0].comments[0].id + 1
  {
    ClientWalkIsWalk(dbs, slug, limitParam, responses, pages);
    assert Answers(dbs[0], slug, BeforeParam(responses, 0), limitParam, responses[0], pages[0]);
    WalkEnds(dbs, VisibleOf(slug), OptionalPositiveInt64(limitParam).value, pages);
  }
}
