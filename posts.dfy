/** The post record and the list transforms the handlers apply to the
    collection: prepend on add, `map` on edit, `filter` on delete. */
module Posts {

  datatype Option<T> = None | Some(value: T)

  /** A post as the remote API returns it; `userId` may be absent. */
  datatype Post = Post(id: int, userId: Option<int>, title: string, body: string)

  /** No two posts of `s` share an id. */
  ghost predicate UniqueIds(s: seq<Post>) {
    forall i, j :: 0 <= i < j < |s| ==> s[i].id != s[j].id
  }

  predicate HasId(s: seq<Post>, id: int) {
    exists p :: p in s && p.id == id
  }

  /** `r` is obtained from `s` by deleting elements, keeping the rest in order. */
  ghost predicate IsSubsequence<T>(r: seq<T>, s: seq<T>)
    decreases |s|
  {
    || r == []
    || (&& s != []
        && ((r[0] == s[0] && IsSubsequence(r[1..], s[1..])) || IsSubsequence(r, s[1..])))
  }

  /** `Array.prototype.filter`: the elements of `s` that satisfy `keep`, in order. */
  function Select<T>(s: seq<T>, keep: T -> bool): seq<T> {
    if s == [] then []
    else if keep(s[0]) then [s[0]] + Select(s[1..], keep)
    else Select(s[1..], keep)
  }

  /** The filter result is a subsequence of its input holding exactly the
      elements that satisfy `keep`, each as often as in the input. */
  lemma {:induction false} SelectSpec<T>(s: seq<T>, keep: T -> bool)
    ensures var r := Select(s, keep);
      && |r| <= |s|
      && (forall x :: x in r <==> x in s && keep(x))
      && (forall x :: multiset(r)[x] == if keep(x) then multiset(s)[x] else 0)
      && IsSubsequence(r, s)
  {
    if s != [] {
      SelectSpec(s[1..], keep);
      var r := Select(s, keep);
      var t := Select(s[1..], keep);
      if keep(s[0]) {
        assert r == [s[0]] + t && r[0] == s[0] && r[1..] == t;
        assert s == [s[0]] + s[1..];
      } else {
        assert r == t;
        assert s == [s[0]] + s[1..];
        assert t == [] || t[0] != s[0];
      }
    }
  }

  /** Two callbacks that agree on every element of `s` filter it alike. */
  lemma {:induction false} SelectAgree<T>(s: seq<T>, keep: T -> bool, keep': T -> bool)
    requires forall x :: x in s ==> keep(x) == keep'(x)
    ensures Select(s, keep) == Select(s, keep')
  {
    if s != [] {
      SelectAgree(s[1..], keep, keep');
    }
  }

  /** Filtering a list with a head element in front. */
  lemma SelectCons<T>(x: T, s: seq<T>, keep: T -> bool)
    ensures Select([x] + s, keep) == (if keep(x) then [x] else []) + Select(s, keep)
  {
    assert ([x] + s)[0] == x && ([x] + s)[1..] == s;
  }

  /** Filtering a concatenation filters each part: together with the
      one-element cases this fixes the result of `Select` completely. */
  lemma {:induction false} SelectAppend<T>(a: seq<T>, b: seq<T>, keep: T -> bool)
    ensures Select(a + b, keep) == Select(a, keep) + Select(b, keep)
  {
    if a == [] {
      assert a + b == b;
    } else {
      var x, t := a[0], a[1..];
      assert a == [x] + t && a + b == [x] + (t + b);
      SelectAppend(t, b, keep);
      SelectCons(x, t + b, keep);
      SelectCons(x, t, keep);
      var h := if keep(x) then [x] else [];
      assert Select(a + b, keep) == h + (Select(t, keep) + Select(b, keep));
      assert h + (Select(t, keep) + Select(b, keep)) == (h + Select(t, keep)) + Select(b, keep);
    }
  }

  /** A filter that rejects nothing returns its input. */
  lemma {:induction false} SelectAll<T>(s: seq<T>, keep: T -> bool)
    requires forall x :: x in s ==> keep(x)
    ensures Select(s, keep) == s
  {
    if s != [] {
      SelectAll(s[1..], keep);
    }
  }

  /** Number of posts of `s` whose id is `id`. */
  function CountId(s: seq<Post>, id: int): (n: nat)
    ensures n <= |s|
    ensures n == 0 <==> !HasId(s, id)
  {
    if s == [] then 0
    else (if s[0].id == id then 1 else 0) + CountId(s[1..], id)
  }

  /** With unique ids, an id occurs at most once. */
  lemma {:induction false} CountIdUnique(s: seq<Post>, id: int)
    requires UniqueIds(s)
    ensures CountId(s, id) == if HasId(s, id) then 1 else 0
  {
    if s != [] {
      assert UniqueIds(s[1..]) by {
        forall i, j | 0 <= i < j < |s| - 1 ensures s[1..][i].id != s[1..][j].id {
          assert s[1..][i] == s[i + 1] && s[1..][j] == s[j + 1];
        }
      }
      CountIdUnique(s[1..], id);
      if s[0].id == id {
        assert !HasId(s[1..], id) by {
          forall p | p in s[1..] ensures p.id != id {
            var k :| 0 <= k < |s[1..]| && s[1..][k] == p;
            assert s[k + 1] == p;
          }
        }
      } else {
        assert HasId(s, id) ==> HasId(s[1..], id) by {
          if HasId(s, id) {
            var p :| p in s && p.id == id;
            assert p != s[0];
            assert p in s[1..];
          }
        }
      }
    }
  }

  /** Add: the created post goes in front of the collection. */
  function Prepend(s: seq<Post>, p: Post): (r: seq<Post>)
    ensures |r| == |s| + 1 && r[0] == p && r[1..] == s
  {
    [p] + s
  }

  /** Prepending a post whose id is not yet used keeps ids unique. */
  lemma PrependUnique(s: seq<Post>, p: Post)
    requires UniqueIds(s) && !HasId(s, p.id)
    ensures UniqueIds(Prepend(s, p))
  {
    var r := Prepend(s, p);
    forall i, j | 0 <= i < j < |r| ensures r[i].id != r[j].id {
      assert r[j] == s[j - 1];
      if i > 0 {
        assert r[i] == s[i - 1];
      } else {
        assert s[j - 1] in s;
      }
    }
  }

  /** Edit: every post whose id is `id` becomes `updated`; the others stay. */
  function Replace(s: seq<Post>, id: int, updated: Post): (r: seq<Post>)
    ensures |r| == |s|
    ensures forall i :: 0 <= i < |s| ==> r[i] == (if s[i].id == id then updated else s[i])
  {
    if s == [] then []
    else [if s[0].id == id then updated else s[0]] + Replace(s[1..], id, updated)
  }

  /** Editing an id that is not in the collection is a silent no-op. */
  lemma ReplaceAbsent(s: seq<Post>, id: int, updated: Post)
    requires !HasId(s, id)
    ensures Replace(s, id, updated) == s
  {
    var r := Replace(s, id, updated);
    forall i | 0 <= i < |s| ensures r[i] == s[i] {
      assert s[i] in s;
    }
  }

  /** When the server echoes the edited id, ids stay where they were. */
  lemma ReplaceKeepsIds(s: seq<Post>, id: int, updated: Post)
    requires updated.id == id
    ensures forall i :: 0 <= i < |s| ==> Replace(s, id, updated)[i].id == s[i].id
    ensures UniqueIds(s) ==> UniqueIds(Replace(s, id, updated))
  {
  }

  /** Replacing id 2 in a two-post list touches only the second post. */
  lemma ReplaceExample()
    ensures Replace([Post(1, None, "a", ""), Post(2, None, "b", "")], 2, Post(2, None, "c", ""))
         == [Post(1, None, "a", ""), Post(2, None, "c", "")]
  {
    var r := Replace([Post(1, None, "a", ""), Post(2, None, "b", "")], 2, Post(2, None, "c", ""));
    assert r[0] == Post(1, None, "a", "") && r[1] == Post(2, None, "c", "");
  }

  /** The `filter` callback of delete: `post.id !== id`. */
  function OtherThan(id: int): Post -> bool {
    (p: Post) => p.id != id
  }

  /** Delete: keeps the posts whose id is not `id`, in their order. */
  function Remove(s: seq<Post>, id: int): (r: seq<Post>)
    ensures IsSubsequence(r, s)
    ensures forall p :: p in r <==> p in s && p.id != id
    ensures forall p :: multiset(r)[p] == if p.id != id then multiset(s)[p] else 0
  {
    SelectSpec(s, OtherThan(id));
    Select(s, OtherThan(id))
  }

  /** Delete shortens the collection by the number of posts carrying the id. */
  lemma {:induction false} RemoveCount(s: seq<Post>, id: int)
    ensures |Remove(s, id)| == |s| - CountId(s, id)
  {
    if s != [] {
      RemoveCount(s[1..], id);
    }
  }

  /** With unique ids, delete removes exactly one post when the id is present
      and leaves the collection as it was when it is absent. */
  lemma RemoveUnique(s: seq<Post>, id: int)
    requires UniqueIds(s)
    ensures HasId(s, id) ==> |Remove(s, id)| == |s| - 1
    ensures !HasId(s, id) ==> Remove(s, id) == s
  {
    RemoveCount(s, id);
    CountIdUnique(s, id);
    if !HasId(s, id) {
      SelectAll(s, OtherThan(id));
    }
  }

  /** Filtering a collection with unique ids keeps them unique. */
  lemma {:induction false} SelectKeepsUnique(s: seq<Post>, keep: Post -> bool)
    requires UniqueIds(s)
    ensures UniqueIds(Select(s, keep))
  {
    if s != [] {
      var t := s[1..];
      assert UniqueIds(t) by {
        forall i, j | 0 <= i < j < |t| ensures t[i].id != t[j].id {
          assert t[i] == s[i + 1] && t[j] == s[j + 1];
        }
      }
      SelectKeepsUnique(t, keep);
      var u := Select(t, keep);
      if keep(s[0]) {
        var r := [s[0]] + u;
        forall i, j | 0 <= i < j < |r| ensures r[i].id != r[j].id {
          if i == 0 {
            SelectSpec(t, keep);
            assert u[j - 1] in t;
            var k :| 0 <= k < |t| && t[k] == u[j - 1];
            assert s[k + 1] == r[j];
          } else {
            assert r[i] == u[i - 1] && r[j] == u[j - 1];
          }
        }
      }
    }
  }

  /** Delete keeps ids unique. */
  lemma RemoveKeepsUnique(s: seq<Post>, id: int)
    requires UniqueIds(s)
    ensures UniqueIds(Remove(s, id))
  {
    SelectKeepsUnique(s, OtherThan(id));
  }
}
