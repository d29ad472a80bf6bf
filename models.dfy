/** The two records of the data store and the `where` selections this core runs on posts. */
module Models {
  import opened Wrappers
  import opened Strings

  /** A user; users are created elsewhere and never change here. */
  datatype User = User(id: int, name: string, email: string, authToken: string)

  /** A post row. A nil title, content or user_id is None; a nil published column reads as false. */
  datatype Post = Post(id: int, title: Option<string>, content: Option<string>, published: bool, userId: Option<int>)

  /** The conditions this core passes to `where`. */
  datatype Condition =
    | PublishedIs(flag: bool)     // where(published: flag)
    | TitleLike(query: string)    // where("title like '%query%'"), as plain containment
    | IdIn(ids: seq<int>)         // where(id: ids)

  predicate Holds(c: Condition, p: Post) {
    match c
    case PublishedIs(flag) => p.published == flag
    case TitleLike(query) => p.title.Some? && Contains(p.title.value, query)
    case IdIn(ids) => p.id in ids
  }

  /** `r` is `s` with some elements left out, the rest in their original order. */
  ghost predicate IsSubsequence<T>(r: seq<T>, s: seq<T>)
    decreases |s|
  {
    r == [] || (s != [] && ((r[0] == s[0] && IsSubsequence(r[1..], s[1..])) || IsSubsequence(r, s[1..])))
  }

  /** No two different posts share an id. */
  ghost predicate UniqueIds(posts: seq<Post>) {
    forall p, q :: p in posts && q in posts && p.id == q.id ==> p == q
  }

  /** A relation's `where(c)`: the rows satisfying `c`, in table order. */
  function Where(posts: seq<Post>, c: Condition): (r: seq<Post>)
    ensures forall p :: p in r <==> p in posts && Holds(c, p)
    ensures IsSubsequence(r, posts)
  {
    if posts == [] then []
    else if Holds(c, posts[0]) then [posts[0]] + Where(posts[1..], c)
    else Where(posts[1..], c)
  }

  /** `.map(&:id)` */
  function Ids(posts: seq<Post>): (ids: seq<int>)
    ensures |ids| == |posts|
    ensures forall i :: 0 <= i < |posts| ==> ids[i] == posts[i].id
  {
    if posts == [] then [] else [posts[0].id] + Ids(posts[1..])
  }

  /** Two conditions that agree on every row select the same rows. */
  lemma {:induction false} WhereCongruent(posts: seq<Post>, c: Condition, d: Condition)
    requires forall p :: p in posts ==> (Holds(c, p) <==> Holds(d, p))
    ensures Where(posts, c) == Where(posts, d)
  {
    if posts != [] {
      assert forall p :: p in posts[1..] ==> p in posts;
      WhereCongruent(posts[1..], c, d);
    }
  }

  /** A subsequence of a subsequence is a subsequence. */
  lemma {:induction false} SubsequenceTransitive<T>(a: seq<T>, b: seq<T>, c: seq<T>)
    requires IsSubsequence(a, b) && IsSubsequence(b, c)
    ensures IsSubsequence(a, c)
    decreases |c|
  {
    if a == [] {
    } else if c == [] {
    } else if b[0] == c[0] && IsSubsequence(b[1..], c[1..]) {
      if a[0] == b[0] && IsSubsequence(a[1..], b[1..]) {
        SubsequenceTransitive(a[1..], b[1..], c[1..]);
      } else {
        SubsequenceTransitive(a, b[1..], c[1..]);
        SubsequenceSkipsHead(a, c);
      }
    } else {
      SubsequenceTransitive(a, b, c[1..]);
      SubsequenceSkipsHead(a, c);
    }
  }

  /** What is a subsequence of the tail is a subsequence of the whole. */
  lemma SubsequenceSkipsHead<T>(a: seq<T>, c: seq<T>)
    requires c != [] && IsSubsequence(a, c[1..])
    ensures IsSubsequence(a, c)
  {
  }
}
