/** PostsController: the index, show, create and update actions over the posts table. */
module PostsController {
  import opened Wrappers
  import opened Strings
  import opened Models
  import opened Responses
  import opened Auth
  import opened PostsSearch

  // ----- rescue_from -----

  /** The exception classes named by the controller's rescue_from declarations. */
  datatype ErrorClass = AnyException | RecordInvalidClass

  predicate IsA(e: Raised, c: ErrorClass) {
    match c
    case AnyException => true
    case RecordInvalidClass => e.RecordInvalid?
  }

  /** The handlers in declaration order. */
  const Handlers: seq<ErrorClass> := [AnyException, RecordInvalidClass]

  /** The handler Rails runs: the position of the LAST declared one whose class the exception belongs to. */
  function HandlerFor(e: Raised, hs: seq<ErrorClass>): (k: Option<nat>)
    ensures k.Some? ==> k.value < |hs| && IsA(e, hs[k.value])
    ensures forall j :: 0 <= j < |hs| && (k.Some? ==> k.value < j) ==> !IsA(e, hs[j])
  {
    if hs == [] then None
    else if IsA(e, hs[|hs| - 1]) then Some(|hs| - 1)
    else HandlerFor(e, hs[..|hs| - 1])
  }

  /** Array#join: every part appears in the joined text. */
  function Join(parts: seq<string>, separator: string): (r: string)
    ensures forall k :: 0 <= k < |parts| ==> Contains(r, parts[k])
  {
    if parts == [] then ""
    else if |parts| == 1 then parts[0]
    else
      var rest := Join(parts[1..], separator);
      PrefixKeepsParts(parts[0] + separator, rest, parts[1..]);
      parts[0] + separator + rest
  }

  lemma PrefixKeepsParts(before: string, s: string, parts: seq<string>)
    requires forall k :: 0 <= k < |parts| ==> Contains(s, parts[k])
    ensures forall k :: 0 <= k < |parts| ==> Contains(before + s, parts[k])
  {
    forall k | 0 <= k < |parts| ensures Contains(before + s, parts[k]) {
      ContainsExtendedLeft(before, s, parts[k]);
    }
  }

  /** ActiveRecord::RecordInvalid#message: the fixed lead-in, then every validation message. */
  function ValidationMessage(messages: seq<string>): (m: string)
    ensures "Validation failed: " <= m
    ensures forall k :: 0 <= k < |messages| ==> Contains(m, messages[k])
  {
    var joined := Join(messages, ", ");
    PrefixKeepsParts("Validation failed: ", joined, messages);
    "Validation failed: " + joined
  }

  /** What the controller renders for an exception that escapes an action. */
  function Rescue(e: Raised): (o: Outcome)
    ensures e.RecordInvalid? ==> o == Unprocessable(ValidationMessage(e.messages))
    ensures !e.RecordInvalid? ==> o == Failure(e)
  {
    match HandlerFor(e, Handlers)
    case Some(k) =>
      if Handlers[k] == RecordInvalidClass then Unprocessable(ValidationMessage(e.messages)) else Failure(e)
    case None => Failure(e)
  }

  // ----- strong parameters -----

  /** A JSON value of the request body. */
  datatype JsonValue = JNull | JString(s: string) | JBool(b: bool) | JNumber(n: int)

  type Params = map<string, JsonValue>

  const CreateFields: set<string> := {"title", "content", "published", "user_id"}
  const UpdateFields: set<string> := {"title", "content", "published"}

  /** params.require(:post): None stands for the ParameterMissing raised on a missing or empty hash. */
  function Require(post: Option<Params>): (r: Option<Params>)
    ensures r.Some? <==> post.Some? && post.value != map[]
    ensures r.Some? ==> r == post
  {
    if post.Some? && post.value != map[] then post else None
  }

  /** permit(*allowed): the keys of `p` that are allowed, with their values. */
  function Permit(p: Params, allowed: set<string>): (r: Params)
    ensures r.Keys == p.Keys * allowed
    ensures forall k :: k in r ==> r[k] == p[k]
  {
    map k | k in p && k in allowed :: p[k]
  }

  function CreateParams(post: Option<Params>): (r: Option<Params>)
    ensures r.Some? <==> post.Some? && post.value != map[]
    ensures r.Some? ==> r.value.Keys <= CreateFields
    ensures r.Some? ==> forall k :: k in post.value && k in CreateFields ==> k in r.value && r.value[k] == post.value[k]
  {
    match Require(post)
    case None => None
    case Some(p) => Some(Permit(p, CreateFields))
  }

  function UpdateParams(post: Option<Params>): (r: Option<Params>)
    ensures r.Some? <==> post.Some? && post.value != map[]
    ensures r.Some? ==> r.value.Keys <= UpdateFields
    ensures r.Some? ==> forall k :: k in post.value && k in UpdateFields ==> k in r.value && r.value[k] == post.value[k]
  {
    match Require(post)
    case None => None
    case Some(p) => Some(Permit(p, UpdateFields))
  }

  // ----- attribute assignment and validation -----

  function AsText(v: JsonValue): Option<string> {
    if v.JString? then Some(v.s) else None
  }

  function AsFlag(v: JsonValue): bool {
    v.JBool? && v.b
  }

  function AsId(v: JsonValue): Option<int> {
    if v.JNumber? then Some(v.n) else None
  }

  /** assign_attributes: the given attributes overwrite their columns; the id never changes. */
  function Assign(p: Post, attrs: Params): (r: Post)
    ensures r.id == p.id
    ensures "title" !in attrs ==> r.title == p.title
    ensures "content" !in attrs ==> r.content == p.content
    ensures "published" !in attrs ==> r.published == p.published
    ensures "user_id" !in attrs ==> r.userId == p.userId
    ensures "title" in attrs ==> r.title == AsText(attrs["title"])
    ensures "content" in attrs ==> r.content == AsText(attrs["content"])
    ensures "published" in attrs ==> r.published == AsFlag(attrs["published"])
    ensures "user_id" in attrs ==> r.userId == AsId(attrs["user_id"])
  {
    p.(title := if "title" in attrs then AsText(attrs["title"]) else p.title,
       content := if "content" in attrs then AsText(attrs["content"]) else p.content,
       published := if "published" in attrs then AsFlag(attrs["published"]) else p.published,
       userId := if "user_id" in attrs then AsId(attrs["user_id"]) else p.userId)
  }

  /** Post.new(attrs) with the id the table hands out next. */
  function NewPost(id: int, attrs: Params): (p: Post)
    ensures p.id == id
    ensures p.title == if "title" in attrs then AsText(attrs["title"]) else None
    ensures p.content == if "content" in attrs then AsText(attrs["content"]) else None
    ensures p.published == ("published" in attrs && AsFlag(attrs["published"]))
    ensures p.userId == if "user_id" in attrs then AsId(attrs["user_id"]) else None
  {
    Assign(Post(id, None, None, false, None), attrs)
  }

  predicate OwnerExists(p: Post, users: seq<User>) {
    p.userId.Some? && exists u :: u in users && u.id == p.userId.value
  }

  /** A post is valid when it has an existing owner, a title and a content. */
  predicate IsValid(p: Post, users: seq<User>): (r: bool)
    ensures r ==> p.userId.Some? && p.title.Some? && p.title.value != [] && p.content.Some? && p.content.value != []
    ensures users == [] ==> !r
  {
    OwnerExists(p, users) && Present(p.title) && Present(p.content)
  }

  /** The messages of record.errors after validation. */
  function ValidationErrors(p: Post, users: seq<User>): (errors: seq<string>)
    ensures errors == [] <==> IsValid(p, users)
  {
    (if OwnerExists(p, users) then [] else ["User must exist"])
    + (if Present(p.title) then [] else ["Title can't be blank"])
    + (if Present(p.content) then [] else ["Content can't be blank"])
  }

  // ----- lookups -----

  /** The position of the post with this id, if any. */
  function FindIndex(posts: seq<Post>, id: int): (k: Option<nat>)
    ensures k.Some? ==> k.value < |posts| && posts[k.value].id == id
    ensures k.None? <==> forall p :: p in posts ==> p.id != id
  {
    if posts == [] then None
    else if posts[0].id == id then Some(0)
    else match FindIndex(posts[1..], id)
      case None => None
      case Some(k) => Some(k + 1)
  }

  /** Post.where(published: true) */
  function Published(posts: seq<Post>): (r: seq<Post>)
    ensures forall p :: p in r <==> p in posts && p.published
    ensures IsSubsequence(r, posts)
  {
    Where(posts, PublishedIs(true))
  }

  /** show: Post.find(params[:id]) rendered, with no check of published or of the owner. */
  function Show(posts: seq<Post>, id: int): (o: Outcome)
    ensures o.Ok? <==> exists p :: p in posts && p.id == id
    ensures o.Ok? ==> o.body.Detail? && o.body.post in posts && o.body.post.id == id
    ensures !o.Ok? ==> o == Failure(RecordNotFound(id))
  {
    match FindIndex(posts, id)
    case Some(k) => Ok(Detail(posts[k]))
    case None => Rescue(RecordNotFound(id))
  }

  /** ids increase along the table and never exceed the last id handed out. */
  ghost predicate IdsAscending(posts: seq<Post>, lastId: int) {
    && (forall i :: 0 <= i < |posts| ==> 0 < posts[i].id <= lastId)
    && (forall i, j :: 0 <= i < j < |posts| ==> posts[i].id < posts[j].id)
  }

  lemma AscendingIdsAreUnique(posts: seq<Post>, lastId: int)
    requires IdsAscending(posts, lastId)
    ensures UniqueIds(posts)
  {
    forall p, q | p in posts && q in posts && p.id == q.id ensures p == q {
      var i :| 0 <= i < |posts| && posts[i] == p;
      var j :| 0 <= j < |posts| && posts[j] == q;
      assert i == j;
    }
  }

  /** Appending the post with the next id keeps the ids ascending. */
  lemma AppendKeepsAscending(posts: seq<Post>, lastId: int, p: Post)
    requires IdsAscending(posts, lastId) && 0 <= lastId && p.id == lastId + 1
    ensures IdsAscending(posts + [p], lastId + 1)
    ensures forall q :: q in posts ==> q.id < p.id
  {
  }

  /** Replacing a post by one with the same id keeps the ids ascending. */
  lemma ReplaceKeepsAscending(posts: seq<Post>, lastId: int, k: nat, p: Post)
    requires IdsAscending(posts, lastId) && k < |posts| && p.id == posts[k].id
    ensures IdsAscending(posts[k := p], lastId)
  {
  }

  // ----- properties of the pure parts -----

  /** show finds a draft as readily as a published post. */
  lemma ShowIgnoresPublished(posts: seq<Post>, p: Post)
    requires UniqueIds(posts) && p in posts
    ensures Show(posts, p.id) == Ok(Detail(p))
  {
  }

  /** The function-level half of index on a cache miss: narrowing the published posts by the ids of
      their own title matches lists exactly the published posts whose title contains the query.
      Store.Index applies it to its result when the entry is not fresh. */
  lemma IndexMissListsPublishedMatches(posts: seq<Post>, query: string)
    requires UniqueIds(posts)
    ensures var published := Published(posts);
            WithIds(published, MatchingIds(published, query))
              == Where(published, TitleLike(query))
  {
    MissFindsTitleMatches(Published(posts), query);
  }

  /** Keys outside the create whitelist do not change the created post. */
  lemma CreateIgnoresUnpermitted(post: Params, key: string, v: JsonValue)
    requires post != map[]
    requires key !in CreateFields
    ensures CreateParams(Some(post[key := v])) == CreateParams(Some(post))
  {
    assert Permit(post[key := v], CreateFields) == Permit(post, CreateFields);
  }

  /** Keys outside the update whitelist, user_id among them, do not change the update. */
  lemma UpdateIgnoresUnpermitted(post: Params, key: string, v: JsonValue)
    requires post != map[]
    requires key !in UpdateFields
    ensures UpdateParams(Some(post[key := v])) == UpdateParams(Some(post))
  {
    assert Permit(post[key := v], UpdateFields) == Permit(post, UpdateFields);
  }

  /** The owner of a created post is the request's user_id, whoever is signed in. */
  lemma CreateOwnerIsRequested(post: Params, id: int)
    requires post != map[]
    ensures CreateParams(Some(post)).Some?
    ensures NewPost(id, CreateParams(Some(post)).value).userId
            == if "user_id" in post then AsId(post["user_id"]) else None
  {
  }

  /** An update keeps the post's id and owner, whatever the request sends. */
  lemma UpdateKeepsIdAndOwner(p: Post, post: Params)
    requires post != map[]
    ensures UpdateParams(Some(post)).Some?
    ensures Assign(p, UpdateParams(Some(post)).value).id == p.id
    ensures Assign(p, UpdateParams(Some(post)).value).userId == p.userId
  {
  }

  /** A create without a title is invalid, and the 422 carries a message. */
  lemma MissingTitleRejected(post: Params, id: int, users: seq<User>)
    requires post != map[] && "title" !in post
    ensures var p := NewPost(id, CreateParams(Some(post)).value);
            !IsValid(p, users) && Rescue(RecordInvalid(ValidationErrors(p, users))).Unprocessable?
            && Rescue(RecordInvalid(ValidationErrors(p, users))).error != ""
  {
  }

  /** An update setting title and content to null is invalid. */
  lemma NullTitleRejected(p: Post, post: Params, users: seq<User>)
    requires "title" in post && post["title"] == JNull
    requires "content" in post && post["content"] == JNull
    ensures !IsValid(Assign(p, UpdateParams(Some(post)).value), users)
  {
  }

  /** The posts table together with the users table it refers to; the actions are its methods. */
  class Store {
    const users: seq<User>
    var posts: seq<Post>
    var lastId: nat

    ghost predicate Valid()
      reads this
    {
      IdsAscending(posts, lastId)
    }

    constructor (users: seq<User>)
      ensures Valid() && this.users == users && posts == [] && lastId == 0
    {
      this.users := users;
      posts := [];
      lastId := 0;
    }

    /** index: the published posts, narrowed through the search cache when `search` is present. */
    method Index(cache: SearchCache, search: Option<string>, now: int) returns (o: Outcome)
      modifies cache
      ensures o.Ok? && o.body.Listing?
      ensures forall p :: p in o.body.posts ==> p in posts && p.published
      ensures IsSubsequence(o.body.posts, posts)
      ensures posts == [] ==> o.body.posts == []
      ensures !Present(search) ==> o.body.posts == Published(posts) && cache.entries == old(cache.entries)
      ensures Present(search) ==>
                var key := CacheKey(search.value);
                && cache.entries == Fetched(old(cache.entries), key, now, MatchingIds(Published(posts), search.value))
                && o.body.posts == WithIds(Published(posts), cache.entries[key].ids)
      ensures Valid() && Present(search) && !Fresh(old(cache.entries), CacheKey(search.value), now) ==>
                o.body.posts == TitleMatches(Published(posts), search.value)
    {
      var listed := Published(posts);
      if search.Some? && Present(search) {
        listed := cache.Search(listed, search.value, now);
        SubsequenceTransitive(listed, Published(posts), posts);
        if Valid() && !Fresh(old(cache.entries), CacheKey(search.value), now) {
          AscendingIdsAreUnique(posts, lastId);
          IndexMissListsPublishedMatches(posts, search.value);
        }
      }
      o := Ok(Listing(listed));
    }

    /** create, behind the authenticate_user! before_action. */
    method Create(authorization: Option<string>, post: Option<Params>) returns (o: Outcome)
      requires Valid()
      modifies this
      ensures Valid()
      ensures Authenticated(users, authorization).None? ==>
                o == Unauthorized(UnauthorizedMessage) && posts == old(posts) && lastId == old(lastId)
      ensures Authenticated(users, authorization).Some? && CreateParams(post).None? ==>
                o == Failure(ParameterMissing("post")) && posts == old(posts) && lastId == old(lastId)
      ensures Authenticated(users, authorization).Some? && CreateParams(post).Some? ==>
                var p := NewPost(old(lastId) + 1, CreateParams(post).value);
                if IsValid(p, users)
                then o == Created(p) && posts == old(posts) + [p] && lastId == old(lastId) + 1
                else o == Unprocessable(ValidationMessage(ValidationErrors(p, users)))
                     && posts == old(posts) && lastId == old(lastId)
      ensures o.Created? ==> forall q :: q in old(posts) ==> q.id < o.post.id
    {
      var current, halt := Authenticate(users, authorization, None);
      if halt.Some? {
        o := halt.value;
        return;
      }
      var attrs := CreateParams(post);
      if attrs.None? {
        o := Rescue(ParameterMissing("post"));
        return;
      }
      var p := NewPost(lastId + 1, attrs.value);
      if !IsValid(p, users) {
        o := Rescue(RecordInvalid(ValidationErrors(p, users)));
        return;
      }
      AppendKeepsAscending(posts, lastId, p);
      posts := posts + [p];
      lastId := lastId + 1;
      o := Created(p);
    }

    /** update, behind the authenticate_user! before_action. */
    method Update(authorization: Option<string>, id: int, post: Option<Params>) returns (o: Outcome)
      requires Valid()
      modifies this
      ensures Valid() && lastId == old(lastId)
      ensures Authenticated(users, authorization).None? ==>
                o == Unauthorized(UnauthorizedMessage) && posts == old(posts)
      ensures Authenticated(users, authorization).Some? && FindIndex(old(posts), id).None? ==>
                o == Failure(RecordNotFound(id)) && posts == old(posts)
      ensures Authenticated(users, authorization).Some? && FindIndex(old(posts), id).Some? && UpdateParams(post).None? ==>
                o == Failure(ParameterMissing("post")) && posts == old(posts)
      ensures Authenticated(users, authorization).Some? && FindIndex(old(posts), id).Some? && UpdateParams(post).Some? ==>
                var k := FindIndex(old(posts), id).value;
                var p := Assign(old(posts)[k], UpdateParams(post).value);
                if IsValid(p, users)
                then o == Ok(Detail(p)) && posts == old(posts)[k := p]
                else o == Unprocessable(ValidationMessage(ValidationErrors(p, users))) && posts == old(posts)
      ensures o.Ok? ==> o.body.Detail? && o.body.post.id == id
      ensures o.Ok? ==> exists q :: q in old(posts) && q.id == id && q.userId == o.body.post.userId
    {
      var current, halt := Authenticate(users, authorization, None);
      if halt.Some? {
        o := halt.value;
        return;
      }
      var found := FindIndex(posts, id);
      if found.None? {
        o := Rescue(RecordNotFound(id));
        return;
      }
      var k := found.value;
      var attrs := UpdateParams(post);
      if attrs.None? {
        o := Rescue(ParameterMissing("post"));
        return;
      }
      var p := Assign(posts[k], attrs.value);
      if !IsValid(p, users) {
        o := Rescue(RecordInvalid(ValidationErrors(p, users)));
        return;
      }
      assert posts[k] in posts;
      ReplaceKeepsAscending(posts, lastId, k, p);
      posts := posts[k := p];
      o := Ok(Detail(p));
    }
  }
}
