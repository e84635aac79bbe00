/** The views derived from the collection on every render: the search
    filter, the current page and the page count. */
module Views {
  import opened Text
  import opened Posts

  /** `postsPerPage`. */
  const PageSize: nat := 10

  function Min(a: int, b: int): int {
    if a <= b then a else b
  }

  /** The search callback: the lower-cased term occurs in the lower-cased
      title or in the lower-cased body. */
  predicate Matches(p: Post, term: string) {
    Includes(Lower(p.title), Lower(term)) || Includes(Lower(p.body), Lower(term))
  }

  /** The `filter` callback of the search. */
  function Matching(term: string): Post -> bool {
    (p: Post) => Matches(p, term)
  }

  /** `filteredData`: the posts that match the search term, in collection order. */
  function Search(s: seq<Post>, term: string): (r: seq<Post>)
    ensures IsSubsequence(r, s)
    ensures forall p :: p in r <==> p in s && Matches(p, term)
    ensures forall p :: multiset(r)[p] == if Matches(p, term) then multiset(s)[p] else 0
  {
    SelectSpec(s, Matching(term));
    Select(s, Matching(term))
  }

  /** Matching is case-insensitive in the term. */
  lemma MatchesIgnoresTermCase(p: Post, term: string)
    ensures Matches(p, Lower(term)) == Matches(p, term)
  {
    LowerIdempotent(term);
  }

  /** Two terms with the same lower-case form select the same posts, so
      "WORLD", "World" and "world" give the same list. */
  lemma SearchIgnoresTermCase(s: seq<Post>, a: string, b: string)
    requires Lower(a) == Lower(b)
    ensures Search(s, a) == Search(s, b)
  {
    SelectAgree(s, Matching(a), Matching(b));
  }

  /** An upper-case term and its lower-case form select the same posts. */
  lemma SearchUpperCaseTerm(s: seq<Post>)
    ensures Search(s, "WORLD") == Search(s, "world")
  {
    LowerWorld();
    assert Lower("world") == "world" by { LowerIdempotent("WORLD"); }
    SearchIgnoresTermCase(s, "WORLD", "world");
  }

  /** The empty search term keeps the whole collection, in order. */
  lemma SearchEmptyTerm(s: seq<Post>)
    ensures Search(s, "") == s
  {
    forall p | p in s ensures Matching("")(p) {
      IncludesEmpty(Lower(p.title));
    }
    SelectAll(s, Matching(""));
  }

  lemma LowerWorld()
    ensures Lower("WORLD") == "world" && Lower("World") == "world"
  {
    assert Lower("D") == "d";
    assert Lower("LD") == "ld";
    assert Lower("RLD") == "rld";
    assert Lower("ORLD") == "orld";
    assert Lower("d") == "d";
    assert Lower("ld") == "ld";
    assert Lower("rld") == "rld";
    assert Lower("orld") == "orld";
  }

  lemma HelloWorldMatches()
    ensures Matches(Post(1, None, "Hello World", ""), "WORLD")
  {
    LowerWorld();
    var head := Lower("Hello ");
    assert "Hello World" == "Hello " + "World";
    LowerAppend("Hello ", "World");
    var t := head + "world";
    assert t[6..11] == "world";
    assert OccursAt(t, "world", 6);
    IncludesIff(t, "world");
  }

  lemma FooMisses()
    ensures !Matches(Post(2, None, "foo", ""), "WORLD")
  {
    LowerWorld();
    IncludesIff(Lower("foo"), "world");
    IncludesIff(Lower(""), "world");
  }

  lemma SelectPair(a: Post, b: Post, keep: Post -> bool)
    requires keep(a) && !keep(b)
    ensures Select([a, b], keep) == [a]
  {
    assert [a, b][1..] == [b] && [b][1..] == [];
    assert Select([b], keep) == Select([], keep) == [];
  }

  /** "WORLD" finds "Hello World" and not "foo". */
  lemma SearchExample()
    ensures Search([Post(1, None, "Hello World", ""), Post(2, None, "foo", "")], "WORLD")
         == [Post(1, None, "Hello World", "")]
  {
    var hello := Post(1, None, "Hello World", "");
    var foo := Post(2, None, "foo", "");
    HelloWorldMatches();
    FooMisses();
    SelectPair(hello, foo, Matching("WORLD"));
  }

  /** `Array.prototype.slice` index normalisation: a negative index counts
      from the end, and both kinds are clamped to `[0, n]`. */
  function ClampIndex(k: int, n: nat): (i: nat)
    ensures i <= n
    ensures 0 <= k ==> i == Min(k, n)
  {
    if k < 0 then (if n + k < 0 then 0 else n + k)
    else if k < n then k else n
  }

  /** `s.slice(start, end)`. */
  function Slice<T>(s: seq<T>, start: int, end: int): (r: seq<T>)
    ensures start <= end ==> |r| <= end - start
    ensures 0 <= start <= end ==> r == s[Min(start, |s|)..Min(end, |s|)]
  {
    var from := ClampIndex(start, |s|);
    var to := ClampIndex(end, |s|);
    if from < to then s[from..to] else []
  }

  /** `currentPosts`: page `page` (counted from 1) of `s`. */
  function Paginate(s: seq<Post>, page: int): (r: seq<Post>)
    ensures |r| <= PageSize
    ensures 1 <= page ==> r == s[Min((page - 1) * PageSize, |s|)..Min(page * PageSize, |s|)]
    ensures 1 <= page && |s| <= (page - 1) * PageSize ==> r == []
  {
    Slice(s, (page - 1) * PageSize, page * PageSize)
  }

  /** `totalPages = Math.ceil(n / postsPerPage)`: the least page count whose
      pages hold `n` posts. */
  function TotalPages(n: nat): (t: nat)
    ensures n <= t * PageSize
    ensures 0 < t ==> (t - 1) * PageSize < n
  {
    (n + PageSize - 1) / PageSize
  }

  /** Every page numbered 1 to `TotalPages` is non-empty and every later page is empty. */
  lemma PageEmptyIffPastEnd(s: seq<Post>, page: int)
    requires 1 <= page
    ensures Paginate(s, page) == [] <==> TotalPages(|s|) < page
  {
  }

  /** Pages 1 to `k` placed one after another. */
  function Pages(s: seq<Post>, k: nat): seq<Post> {
    if k == 0 then [] else Pages(s, k - 1) + Paginate(s, k)
  }

  /** The first `k` pages are the first `k * PageSize` posts. */
  lemma {:induction false} PagesPrefix(s: seq<Post>, k: nat)
    ensures Pages(s, k) == s[..Min(k * PageSize, |s|)]
  {
    if k > 0 {
      PagesPrefix(s, k - 1);
      var lo := Min((k - 1) * PageSize, |s|);
      var hi := Min(k * PageSize, |s|);
      assert s[..lo] + s[lo..hi] == s[..hi];
    }
  }

  /** Paging loses and repeats nothing: the pages 1 to `TotalPages` together
      are the list itself. */
  lemma PagesCover(s: seq<Post>)
    ensures Pages(s, TotalPages(|s|)) == s
  {
    PagesPrefix(s, TotalPages(|s|));
  }

  /** 25 posts give pages of 10, 10 and 5 posts and a page count of 3. */
  lemma PaginateExample(s: seq<Post>)
    requires |s| == 25
    ensures |Paginate(s, 1)| == 10 && |Paginate(s, 2)| == 10 && |Paginate(s, 3)| == 5
    ensures Paginate(s, 4) == [] && TotalPages(|s|) == 3
  {
  }
}
