# Posts API core, modelled in Dafny

This project models the logic of a small Rails JSON API for posts. The API has three parts:

- **Bearer-token authentication.** `authenticate_user!` applies the unanchored pattern `/Bearer (\w+)/` to the `Authorization` header. It looks the captured token up as a user's `auth_token`. When the pattern matches, it sets `Current.user` to the user found, or to nil when no user holds the token. Unless a user was found, it halts the action with 401 `{error: 'Unauthorized'}`; so on a matching header with an unknown token it does both.
- **Cached title search.** `PostsSearchService.search` keys `Rails.cache` by `"posts_search/" + query`. On a miss it stores, for one hour, the ids of the posts whose title contains the query. Either way it narrows `current_posts` to the stored ids.
- **The four controller actions.** `index`, `show`, `create` and `update` work over the posts table. They use strong parameters and map exceptions to responses through `rescue_from`.

Modules, leaf first:

| file | module | models |
|---|---|---|
| wrappers.dfy | `Wrappers` | `Option`: Ruby's nil is `None` |
| strings.dfy | `Strings` | `blank?`/`present?`; substring containment (the `LIKE '%q%'` match) |
| models.dfy | `Models` | the `User` and `Post` rows; `where` on the three conditions this code uses; `.map(&:id)` |
| responses.dfy | `Responses` | the rendered `Outcome` (Ok 200, Created 201, Unauthorized 401, Unprocessable 422, Failure) and the exceptions an action raises |
| auth.dfy | `Auth` | `Secured#authenticate_user!` |
| posts_search.dfy | `PostsSearch` | `PostsSearchService.search`; the cache is the class `SearchCache` holding a `map` from key to (ids, expiry) |
| posts_controller.dfy | `PostsController` | `rescue_from`, `create_params`/`update_params`, `show` as functions; the `Store` class, which holds the posts table, with `Index`, `Create` and `Update` as methods |

How the model is set up:

- `Current.user` is an explicit value. `Auth.Authenticate` takes it in and returns it.
- The clock is the `now` parameter, in seconds.
- An entry written at `now` expires at `now + 3600`. It is reused while the current time is below that instant, as ActiveSupport does.
- The users table is a constant of the store.
- New posts get the next auto-increment id.
- `app/controllers/posts_controller.rb:53-72` repeats `app/controllers/concerns/secured.rb:2-19` line for line. A single definition, `Auth.Authenticate`, models both copies.

Where the request specs disagree with the code, the model follows the code:

- `show` has no visibility check. It returns a draft to anyone (`ShowIgnoresPublished`).
- `update` does not check that the caller owns the post: `app/controllers/posts_controller.rb:37-41` finds the post by id and updates it for any signed-in user.
- The request tests that send no `Authorization` header to `create` and `update` would get 401 from the before_action.
- A blank `search` parameter never reaches the search service, so a blank query does not reach the substring match.

## Model

| member | source | states |
|---|---|---|
| Auth.WordPrefix | app/controllers/concerns/secured.rb:4 | the greedy `(\w+)`: the longest prefix made only of `[A-Za-z0-9_]` |
| Auth.MatchesAt | app/controllers/concerns/secured.rb:4 | the pattern matches at a position exactly when `"Bearer "` occurs there and the word the capture group takes after it is non-empty |
| Auth.FirstMatch | app/controllers/concerns/secured.rb:10 | the unanchored search: the leftmost index where `"Bearer "` and a word character occur, with no match before it; none means no match anywhere |
| Auth.ExtractToken | app/controllers/concerns/secured.rb:10-11 | a token is extracted exactly when the pattern matches somewhere; the token is non-empty and made of word characters |
| Auth.ExtractTokenAtFirstMatch | app/controllers/concerns/secured.rb:11 | the token is the word run after the leftmost `"Bearer "` that is followed by a word character |
| Auth.WordPrefixOfWord | app/controllers/concerns/secured.rb:4 | a word followed by the end or by a non-word character is exactly what `\w+` takes |
| Auth.TokenEndsAtNonWord | app/controllers/concerns/secured.rb:4-11 | `"Bearer " + t + rest` yields `t` when `rest` starts with a non-word character or is empty |
| Auth.RoundTrip | app/controllers/concerns/secured.rb:4-11 | for every non-empty word `t`, `ExtractToken("Bearer " + t) == Some(t)` |
| Auth.HyphenEndsToken | app/controllers/concerns/secured.rb:4-11 | `"Bearer abc-def"` yields `"abc"` |
| Auth.AcceptsAnywhere | app/controllers/concerns/secured.rb:10 | a header holding `"Bearer "` plus a word anywhere is accepted |
| Auth.RejectsWithoutScheme | app/controllers/concerns/secured.rb:10 | a header not containing `"Bearer "` yields no token |
| Auth.BlankHasNoToken | app/controllers/concerns/secured.rb:10 | a blank header yields no token, so the `present?` test only rejects a missing header |
| Auth.BearerToken | app/controllers/concerns/secured.rb:10-11 | the guarded extraction equals plain extraction on any header that is there, and is None when the header is absent |
| Auth.FindByAuthToken | app/controllers/concerns/secured.rb:12 | a found user holds exactly that token; None means no user holds it |
| Auth.Authenticated | app/controllers/concerns/secured.rb:10-13 | a request authenticates exactly when its token is some user's `auth_token`, and then as such a user |
| Auth.Authenticate | app/controllers/concerns/secured.rb:2-19 | no response (the action proceeds) exactly when a user holds the token, and `Current.user` is that user; otherwise 401 `Unauthorized`; after a failed lookup `Current.user` is nil; with a missing or malformed header it is left as it was; no table is touched |
| Strings.Present | app/controllers/concerns/secured.rb:10 | `present?`, also the `search` guard at `app/controllers/posts_controller.rb:17`: nil and the empty string are never present, and a string whose first character is not white space is |
| Strings.Contains | app/services/posts_search_service.rb:4 | the `LIKE '%q%'` test: a title starting with the query contains it, and a contained query is never longer than the title |
| Strings.ContainsIffOccurs | app/services/posts_search_service.rb:4 | the containment scan holds exactly when the query occurs at some position of the title |
| Strings.ContainsSpliced | app/services/posts_search_service.rb:4 | a title contains any query spliced into it |
| Models.Where | app/services/posts_search_service.rb:4-7 | `where`: exactly the rows meeting the condition, as a subsequence of the table in its order |
| Models.Ids | app/services/posts_search_service.rb:4 | `.map(&:id)`: one id per row, the i-th id being the i-th row's |
| PostsSearch.CacheKey | app/services/posts_search_service.rb:3 | the key is `"posts_search/"` followed by the query, which can be read back from it |
| PostsSearch.Fresh | app/services/posts_search_service.rb:3 | the expiry test of `Rails.cache.fetch`: an entry is reused only when the key is stored, and never at or after its expiry instant |
| PostsSearch.CacheKeyInjective | app/services/posts_search_service.rb:3 | two queries share a cache key exactly when they are equal: the key depends on the query alone |
| PostsSearch.TitleMatches | app/services/posts_search_service.rb:4 | exactly the posts with a non-nil title containing the query |
| PostsSearch.MatchingIds | app/services/posts_search_service.rb:4 | an id is stored exactly when some post with that id has a matching title; the ids keep table order |
| PostsSearch.WithIds | app/services/posts_search_service.rb:7 | the result is a subsequence of `current_posts` holding exactly its posts whose id was cached, so a stale id never brings in a post absent from `current_posts` |
| PostsSearch.Fetched | app/services/posts_search_service.rb:3-5 | after the fetch the key is fresh; a fresh hit leaves the cache unchanged; a miss (absent or expired) stores the computed ids expiring at `now + 3600`; every other key is untouched |
| PostsSearch.FreshForTtl | app/services/posts_search_service.rb:3 | an entry written on a miss is reused exactly during the following hour: fresh at any later time below `now + 3600`, expired from that instant on |
| PostsSearch.SearchTwice | app/services/posts_search_service.rb:3-7 | a second search for the same query within the entry's lifetime leaves the cache unchanged and gives the same result, whatever the titles are by then |
| PostsSearch.MissFindsTitleMatches | app/services/posts_search_service.rb:3-7 | on a miss, when ids identify posts, the result is exactly the posts whose title contains the query |
| PostsSearch.HolaExample | spec/requests/post_spec.rb:14-23 | with titles "Hola Mundo", "Hola Rails" and "Curso Rails", a search for "Hola" stores ids [1, 2] and returns the first two posts |
| PostsSearch.StaleWithinTtl | app/services/posts_search_service.rb:3-7 | within the hour a cached post is returned after its title stopped matching, and a newly matching post is not |
| PostsSearch.SearchCache.Search | app/services/posts_search_service.rb:2-8 | the cache becomes `Fetched(...)` for this query's key, with titles matched only on a miss, and the result is `current_posts` narrowed to the stored ids |
| PostsController.HandlerFor | app/controllers/posts_controller.rb:5-11 | the handler chosen is the last declared one matching the exception; none declared after it matches |
| PostsController.ValidationMessage | app/controllers/posts_controller.rb:9-11 | the message rendered with 422: it starts with `"Validation failed: "` and contains every validation message |
| PostsController.Rescue | app/controllers/posts_controller.rb:5-11 | `RecordInvalid` renders 422 with its message although `Exception` is declared first; every other exception takes the opaque Failure path |
| PostsController.Require | app/controllers/posts_controller.rb:46 | `params.require(:post)` succeeds exactly when the hash is present and non-empty |
| PostsController.Permit | app/controllers/posts_controller.rb:46 | `permit` keeps exactly the allowed keys present, with their values |
| PostsController.CreateParams | app/controllers/posts_controller.rb:45-47 | create attributes hold only title, content, published and user_id, each as sent |
| PostsController.UpdateParams | app/controllers/posts_controller.rb:49-51 | update attributes hold only title, content and published, each as sent |
| PostsController.Assign | app/controllers/posts_controller.rb:39 | `update!`'s assignment: each sent title, content, published and user_id column takes the sent value; every column not sent keeps its value; the id never changes |
| PostsController.NewPost | app/controllers/posts_controller.rb:32 | the record `create!` builds: the next id, and each column from the permitted attributes when given, nil (false for `published`) when not |
| PostsController.IsValid | app/controllers/posts_controller.rb:32 | a valid post has an owner id, a non-empty title and a non-empty content; with no users no post is valid |
| PostsController.ValidationErrors | app/controllers/posts_controller.rb:32 | no error messages exactly when the post is valid: an existing owner, a non-blank title and a non-blank content |
| PostsController.FindIndex | app/controllers/posts_controller.rb:26 | `find`: a position holding a post with that id, or None exactly when no post has it |
| PostsController.Published | app/controllers/posts_controller.rb:16 | exactly the published posts, in table order |
| PostsController.Show | app/controllers/posts_controller.rb:25-28 | 200 with a post of that id exactly when one exists; otherwise the error path for `RecordNotFound`, never 200 |
| PostsController.AscendingIdsAreUnique | app/controllers/posts_controller.rb:32 | ids handed out in increasing order identify posts |
| PostsController.ShowIgnoresPublished | app/controllers/posts_controller.rb:25-28 | show returns any stored post by its id, draft or published |
| PostsController.IndexMissListsPublishedMatches | app/controllers/posts_controller.rb:16-19 | the function-level half of a search on a miss: narrowing the published posts by the ids of their own title matches lists exactly the published posts whose title contains the query |
| PostsController.CreateIgnoresUnpermitted | app/controllers/posts_controller.rb:45-47 | adding a key outside the create whitelist to a non-empty `post` hash changes nothing |
| PostsController.UpdateIgnoresUnpermitted | app/controllers/posts_controller.rb:49-51 | adding a key outside the update whitelist, `user_id` among them, to a non-empty `post` hash changes nothing |
| PostsController.CreateOwnerIsRequested | app/controllers/posts_controller.rb:45-47 | the owner of a created post is the request's `user_id`, not the signed-in user |
| PostsController.UpdateKeepsIdAndOwner | app/controllers/posts_controller.rb:49-51 | an update never changes the post's id or `user_id` |
| PostsController.MissingTitleRejected | spec/requests/post_spec.rb:81-95 | a create without a title is invalid and renders 422 with a non-empty error |
| PostsController.NullTitleRejected | spec/requests/post_spec.rb:118-132 | an update setting title and content to null is invalid |
| PostsController.Store.Index | app/controllers/posts_controller.rb:15-22 | 200 listing only published posts as a subsequence of the table; without a present `search`, all published posts and the cache untouched; with one, the search service's result over the published posts, which on a cache miss is exactly the published posts whose title contains the query; an empty table lists nothing |
| PostsController.Store.Create | app/controllers/posts_controller.rb:30-34 | without an authenticated user, 401 and no change; a missing `post` hash takes the Failure path; an invalid record gives 422 and no change; otherwise 201 and exactly one new post, appended with an id above every existing one |
| PostsController.Store.Update | app/controllers/posts_controller.rb:36-41 | without an authenticated user, 401 and no change; a missing id or `post` hash takes the Failure path; an invalid record gives 422 and no change; otherwise 200 with the path's id, only that post replaced and its owner unchanged |

## Left out

- SQL `LIKE` semantics: `%` and `_` act as wildcards, `\` is the default escape character on PostgreSQL and MySQL, and case sensitivity depends on the database. The query is also interpolated into the SQL, so a `'` breaks the statement. The model matches by plain, case-sensitive containment and assumes the query holds no `%`, `_`, `\` or `'`.
- The Rails.cache backend: eviction, the per-environment store and concurrent population races are not modelled. The cache is a map and the time is passed in.
- The status the `rescue_from Exception` handler sends: it renders with `:internal_error`, which is not a status symbol Rack knows, so what the client receives is decided by the framework. It is the opaque `Failure` outcome. It covers `RecordNotFound` from `find` and `ParameterMissing` from `params.require`.
- Post validations: app/models/post.rb is not part of this model. `IsValid` is an assumption of the model: a required `belongs_to :user` (the owner must exist) together with presence validations on title and content. The order of the error messages is not known.
- Type casting of request values. Rails casts each value to its column's type: `"1"` becomes 1 for `user_id`, `"true"` or 1 becomes true for `published`, and a number becomes its decimal string for `title` and `content`. The model keeps only values already of the column's type (`AsText`, `AsFlag`, `AsId`) and reads every other value as nil; a nil `published` reads as false. So with every value a string, as a form-encoded body sends them (`spec/requests/post_spec.rb:64-71`), the model's `create` answers 422 "User must exist" where Rails creates the post and answers 201 for a valid token.
- JSON serialisation (the embedded author lives in a serializer that is not part of this model), routing, parameter parsing and ActiveRecord persistence.
- Row order: the queries `where(published: true)`, `where("title like ...")` and `where(id: ...)` carry no ORDER BY, so SQL promises no order. That rows come back in table order is an assumption of the model, and every "subsequence" or "table order" in the table above rests on it.
- `find_by_auth_token` and `find` return the first matching row in table order. The database's actual choice when several rows match is not modelled.
- Request-scoped state: `Current.user` is a value passed in and out, not a global.
