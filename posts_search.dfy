/** PostsSearchService.search: a title search whose matching ids are cached for an hour. */
module PostsSearch {
  import opened Wrappers
  import opened Strings
  import opened Models

  /** The prefix of every key this service writes. */
  const Namespace: string := "posts_search/"

  /** expires_in: 1.hours, in seconds. */
  const Ttl: int := 3600

  /** A cache entry: the stored value and the instant from which it is expired. */
  datatype Entry = Entry(ids: seq<int>, expiresAt: int)

  /** The cache key: made from the query string alone. */
  function CacheKey(query: string): (key: string)
    ensures Namespace <= key && key[|Namespace|..] == query
  {
    Namespace + query
  }

  /** Distinct queries never share a key, and nothing but the query decides the key. */
  lemma CacheKeyInjective(q1: string, q2: string)
    ensures CacheKey(q1) == CacheKey(q2) <==> q1 == q2
  {
    if CacheKey(q1) == CacheKey(q2) {
      assert q1 == CacheKey(q1)[|Namespace|..];
      assert q2 == CacheKey(q2)[|Namespace|..];
    }
  }

  /** The posts whose title contains the query. */
  function TitleMatches(posts: seq<Post>, query: string): (r: seq<Post>)
    ensures forall p :: p in r <==> p in posts && p.title.Some? && Contains(p.title.value, query)
  {
    Where(posts, TitleLike(query))
  }

  /** current_posts.where("title like ...").map(&:id): the ids, in table order, of the matching posts. */
  function MatchingIds(posts: seq<Post>, query: string): (ids: seq<int>)
    ensures forall id :: id in ids <==> exists p :: p in posts && p.id == id && Holds(TitleLike(query), p)
    ensures IsSubsequence(ids, Ids(posts))
  {
    var matches := TitleMatches(posts, query);
    assert forall id :: id in Ids(matches) ==> exists p :: p in matches && p.id == id by {
      forall id | id in Ids(matches) ensures exists p :: p in matches && p.id == id {
        var i :| 0 <= i < |matches| && Ids(matches)[i] == id;
        assert matches[i] in matches;
      }
    }
    assert forall p :: p in matches ==> p.id in Ids(matches) by {
      forall p | p in matches ensures p.id in Ids(matches) {
        var i :| 0 <= i < |matches| && matches[i] == p;
        assert Ids(matches)[i] == p.id;
      }
    }
    IdsOfSubsequence(matches, posts);
    Ids(matches)
  }

  /** Taking ids keeps the subsequence relation. */
  lemma {:induction false} IdsOfSubsequence(r: seq<Post>, s: seq<Post>)
    requires IsSubsequence(r, s)
    ensures IsSubsequence(Ids(r), Ids(s))
    decreases |s|
  {
    if r == [] {
      assert Ids(r) == [];
    } else if r[0] == s[0] && IsSubsequence(r[1..], s[1..]) {
      IdsOfSubsequence(r[1..], s[1..]);
      assert Ids(r)[1..] == Ids(r[1..]);
      assert Ids(s)[1..] == Ids(s[1..]);
    } else {
      IdsOfSubsequence(r, s[1..]);
      assert Ids(s)[1..] == Ids(s[1..]);
    }
  }

  /** current_posts.where(id: ids): the posts of current_posts whose id is listed, in their order. */
  function WithIds(posts: seq<Post>, ids: seq<int>): (r: seq<Post>)
    ensures IsSubsequence(r, posts)
    ensures forall p :: p in r <==> p in posts && p.id in ids
  {
    Where(posts, IdIn(ids))
  }

  /** The entry under `key` exists and has not yet expired at `now`. */
  predicate Fresh(entries: map<string, Entry>, key: string, now: int): (r: bool)
    ensures r ==> key in entries
    ensures key in entries && entries[key].expiresAt <= now ==> !r
  {
    key in entries && now < entries[key].expiresAt
  }

  /** The cache after Rails.cache.fetch(key, expires_in: Ttl) at `now`, where `computed` is what the
      block would return. */
  function Fetched(entries: map<string, Entry>, key: string, now: int, computed: seq<int>): (r: map<string, Entry>)
    ensures Fresh(r, key, now)
    ensures Fresh(entries, key, now) ==> r == entries
    ensures !Fresh(entries, key, now) ==> r[key] == Entry(computed, now + Ttl)
    ensures forall k :: k != key ==> (k in r <==> k in entries)
    ensures forall k :: k != key && k in r ==> r[k] == entries[k]
  {
    if Fresh(entries, key, now) then entries else entries[key := Entry(computed, now + Ttl)]
  }

  /** A stored entry is reused for the whole hour after it was written, and from the end of that hour
      on it has expired. */
  lemma FreshForTtl(entries: map<string, Entry>, key: string, now: int, computed: seq<int>, later: int)
    requires !Fresh(entries, key, now)
    requires now <= later
    ensures Fresh(Fetched(entries, key, now, computed), key, later) <==> later < now + Ttl
  {
  }

  /** Searching twice for the same query within the entry's lifetime gives the same result and leaves
      the cache as the first call left it, whatever the titles are by the second call. */
  lemma SearchTwice(entries: map<string, Entry>, posts: seq<Post>, laterPosts: seq<Post>, query: string, now: int, later: int)
    requires Fresh(Fetched(entries, CacheKey(query), now, MatchingIds(posts, query)), CacheKey(query), later)
    ensures var key := CacheKey(query);
            var first := Fetched(entries, key, now, MatchingIds(posts, query));
            var second := Fetched(first, key, later, MatchingIds(laterPosts, query));
            second == first && WithIds(laterPosts, second[key].ids) == WithIds(laterPosts, first[key].ids)
  {
  }

  /** On a miss, and when ids identify posts, the result is exactly the posts whose title matches. */
  lemma MissFindsTitleMatches(posts: seq<Post>, query: string)
    requires UniqueIds(posts)
    ensures WithIds(posts, MatchingIds(posts, query)) == TitleMatches(posts, query)
  {
    var ids := MatchingIds(posts, query);
    forall p | p in posts ensures Holds(IdIn(ids), p) <==> Holds(TitleLike(query), p) {
      if p.id in ids {
        var p' :| p' in posts && p'.id == p.id && Holds(TitleLike(query), p');
        assert p' == p;
      }
    }
    WhereCongruent(posts, IdIn(ids), TitleLike(query));
  }

  /** Three published posts titled "Hola Mundo", "Hola Rails" and "Curso Rails". */
  const HolaPosts: seq<Post> := [Post(1, Some("Hola Mundo"), Some("c"), true, Some(1)),
                                 Post(2, Some("Hola Rails"), Some("c"), true, Some(1)),
                                 Post(3, Some("Curso Rails"), Some("c"), true, Some(1))]

  lemma HolaTitleMatches()
    ensures TitleMatches(HolaPosts, "Hola") == HolaPosts[..2]
  {
    var c := TitleLike("Hola");
    assert Holds(c, HolaPosts[0]) by { assert "Hola" <= "Hola Mundo"; }
    assert Holds(c, HolaPosts[1]) by { assert "Hola" <= "Hola Rails"; }
    assert !Holds(c, HolaPosts[2]) by { CursoLacksHola(); }
    assert Where(HolaPosts[2..], c) == [] by { assert HolaPosts[2..][1..] == []; }
    assert Where(HolaPosts[1..], c) == [HolaPosts[1]] by { assert HolaPosts[1..][1..] == HolaPosts[2..]; }
  }

  /** A search for "Hola" over those posts on an empty cache stores the first two ids and returns
      the first two posts. */
  lemma HolaExample(now: int)
    ensures MatchingIds(HolaPosts, "Hola") == [1, 2]
    ensures Fetched(map[], CacheKey("Hola"), now, [1, 2])[CacheKey("Hola")].ids == [1, 2]
    ensures WithIds(HolaPosts, [1, 2]) == HolaPosts[..2]
  {
    HolaTitleMatches();
    assert Ids(HolaPosts[..2]) == [1, 2];
    var c := IdIn([1, 2]);
    assert !Holds(c, HolaPosts[2]);
    assert Where(HolaPosts[2..], c) == [] by { assert HolaPosts[2..][1..] == []; }
    assert Where(HolaPosts[1..], c) == [HolaPosts[1]] by { assert HolaPosts[1..][1..] == HolaPosts[2..]; }
  }

  lemma CursoLacksHola()
    ensures !Contains("Curso Rails", "Hola")
  {
    var curso := "Curso Rails";
    assert forall i :: 0 <= i < |curso| ==> curso[i] != 'H';
    MissingFirstChar(curso, "Hola");
  }

  /** The known staleness: within the hour a cached id is returned even after its post's title stopped
      matching, and a newly matching post is not returned. */
  lemma StaleWithinTtl()
    ensures var before := [Post(1, Some("Hola"), Some("c"), true, Some(1))];
            var after := [Post(1, Some("Adios"), Some("c"), true, Some(1)), Post(2, Some("Hola"), Some("c"), true, Some(1))];
            var first := Fetched(map[], CacheKey("Hola"), 0, MatchingIds(before, "Hola"));
            var second := Fetched(first, CacheKey("Hola"), 60, MatchingIds(after, "Hola"));
            WithIds(after, second[CacheKey("Hola")].ids) == after[..1]
  {
    var before := [Post(1, Some("Hola"), Some("c"), true, Some(1))];
    assert "Hola" <= "Hola";
    assert MatchingIds(before, "Hola") == [1];
  }

  /** Rails.cache, reduced to the entries this service reads and writes; `now` is passed in. */
  class SearchCache {
    var entries: map<string, Entry>

    constructor ()
      ensures entries == map[]
    {
      entries := map[];
    }

    /** PostsSearchService.search(current_posts, query) at time `now`. Titles are matched only on a miss. */
    method Search(currentPosts: seq<Post>, query: string, now: int) returns (result: seq<Post>)
      modifies this
      ensures entries == Fetched(old(entries), CacheKey(query), now, MatchingIds(currentPosts, query))
      ensures result == WithIds(currentPosts, entries[CacheKey(query)].ids)
    {
      var key := CacheKey(query);
      if !Fresh(entries, key, now) {
        var ids := MatchingIds(currentPosts, query);
        entries := entries[key := Entry(ids, now + Ttl)];
      }
      result := WithIds(currentPosts, entries[key].ids);
    }
  }
}
