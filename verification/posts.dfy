/**
 * Posts and the pure operations the route handlers apply to the post list:
 * field trimming and validation, lookup by id, the newest-first listing and
 * removal of one post.
 */
module Posts {
  import opened Options
  import opened Text

  /** A field of a submitted form: `None` when the request body does not carry it. */
  type Field = Option<string>

  /** One blog post. Timestamps are readings of an abstract clock. */
  datatype Post = Post(id: nat, title: string, content: string, createdAt: nat, updatedAt: nat)

  /** A field is blank when it is missing or holds only white space. */
  predicate Blank(f: Field) {
    f.None? || AllSpace(f.value)
  }

  /** A submitted field as validation sees it: an absent or empty field becomes '', any other is trimmed. */
  function TrimField(f: Field): (r: string)
    ensures IsTrimmed(r)
    ensures f.Some? ==> r == Trim(f.value)
  {
    if f.None? || f.value == "" then "" else Trim(f.value)
  }

  /** A field trims to nothing exactly when it is blank. */
  lemma TrimFieldEmptyIff(f: Field)
    ensures TrimField(f) == [] <==> Blank(f)
  {
    if f.Some? {
      TrimEmptyIff(f.value);
    }
  }

  /** The validation rule shared by create and update: both fields are non-empty once trimmed. */
  predicate Accepts(title: Field, content: Field) {
    TrimField(title) != "" && TrimField(content) != ""
  }

  /** A submission is refused exactly when the title or the content is missing or white space only. */
  lemma AcceptsIff(title: Field, content: Field)
    ensures Accepts(title, content) <==> !Blank(title) && !Blank(content)
  {
    TrimFieldEmptyIff(title);
    TrimFieldEmptyIff(content);
  }

  /** A submitted field that is a non-empty trimmed core padded with white space is read as that core. */
  lemma TrimFieldOfPadded(a: string, m: string, b: string)
    requires AllSpace(a) && AllSpace(b) && IsTrimmed(m) && m != []
    ensures TrimField(Some(a + m + b)) == m
  {
    TrimOfPadded(a, m, b);
  }

  /** A submitted field with no white space at either end is read unchanged. */
  lemma TrimFieldOfTrimmed(m: string)
    requires IsTrimmed(m) && m != []
    ensures TrimField(Some(m)) == m
  {
    TrimOfTrimmed(m);
  }

  /** What every stored post satisfies: trimmed, non-empty title and content; not updated before created. */
  predicate WellFormed(p: Post) {
    && p.title != "" && IsTrimmed(p.title)
    && p.content != "" && IsTrimmed(p.content)
    && p.createdAt <= p.updatedAt
  }

  predicate UniqueIds(ps: seq<Post>) {
    forall i, j :: 0 <= i < j < |ps| ==> ps[i].id != ps[j].id
  }

  predicate HasId(ps: seq<Post>, id: int) {
    exists i :: 0 <= i < |ps| && ps[i].id == id
  }

  /** The first position holding `id`, or -1 when there is none (the array's `findIndex`). */
  function IndexOf(ps: seq<Post>, id: int): (i: int)
    ensures -1 <= i < |ps|
    ensures i == -1 <==> !HasId(ps, id)
    ensures 0 <= i ==> ps[i].id == id && forall j :: 0 <= j < i ==> ps[j].id != id
  {
    if ps == [] then -1
    else if ps[0].id == id then 0
    else
      var k := IndexOf(ps[1..], id);
      assert forall j :: 1 <= j < |ps| ==> ps[j] == ps[1..][j - 1];
      if k == -1 then -1 else k + 1
  }

  /** The first post holding `id`, if any (the array's `find`). */
  function Find(ps: seq<Post>, id: int): (r: Option<Post>)
    ensures r.None? <==> !HasId(ps, id)
    ensures r.Some? ==> r.value in ps && r.value.id == id
    ensures r.Some? ==> exists i :: 0 <= i < |ps| && ps[i] == r.value && forall j :: 0 <= j < i ==> ps[j].id != id
  {
    var i := IndexOf(ps, id);
    if i < 0 then None else Some(ps[i])
  }

  /** With unique ids the post found is the only one carrying the id. */
  lemma FindUnique(ps: seq<Post>, id: int, j: nat)
    requires UniqueIds(ps) && j < |ps| && ps[j].id == id
    ensures IndexOf(ps, id) == j && Find(ps, id) == Some(ps[j])
  {
  }

  /** Listing order: newest `createdAt` first. */
  predicate NewestFirst(ps: seq<Post>) {
    forall i, j :: 0 <= i < j < |ps| ==> ps[i].createdAt >= ps[j].createdAt
  }

  /** Places `p` ahead of the first post that is not newer than it. */
  function InsertByDate(p: Post, ps: seq<Post>): seq<Post> {
    if ps == [] || p.createdAt >= ps[0].createdAt then [p] + ps
    else [ps[0]] + InsertByDate(p, ps[1..])
  }

  /** The listing: a copy of the posts sorted by `createdAt`, newest first, computed as an insertion sort. */
  function ByNewest(ps: seq<Post>): seq<Post> {
    if ps == [] then [] else InsertByDate(ps[0], ByNewest(ps[1..]))
  }

  /** Inserting adds exactly `p`. */
  lemma {:induction false} InsertByDatePermutes(p: Post, ps: seq<Post>)
    ensures multiset(InsertByDate(p, ps)) == multiset(ps) + multiset{p}
  {
    if ps != [] && p.createdAt < ps[0].createdAt {
      InsertByDatePermutes(p, ps[1..]);
      assert ps == [ps[0]] + ps[1..];
    }
  }

  /** Inserting into a newest-first list keeps it newest first. */
  lemma {:induction false} InsertByDateSorted(p: Post, ps: seq<Post>)
    requires NewestFirst(ps)
    ensures NewestFirst(InsertByDate(p, ps))
  {
    if ps != [] && p.createdAt < ps[0].createdAt {
      var rest := InsertByDate(p, ps[1..]);
      InsertByDateSorted(p, ps[1..]);
      InsertByDatePermutes(p, ps[1..]);
      assert ps == [ps[0]] + ps[1..];
      InsertKeepsHead(ps[0], p, ps[1..], rest);
    }
  }

  /** A head no older than `p` and than every post of `tail` stays ahead of their permutation `rest`. */
  lemma InsertKeepsHead(h: Post, p: Post, tail: seq<Post>, rest: seq<Post>)
    requires NewestFirst([h] + tail) && NewestFirst(rest)
    requires p.createdAt <= h.createdAt
    requires multiset(rest) == multiset(tail) + multiset{p}
    ensures NewestFirst([h] + rest)
  {
    forall k | 0 <= k < |rest| ensures rest[k].createdAt <= h.createdAt {
      var q := rest[k];
      assert q in multiset(rest);
      if q != p {
        assert q in multiset(tail);
        assert q in tail;
        var j :| 0 <= j < |tail| && tail[j] == q;
        assert ([h] + tail)[0] == h && ([h] + tail)[j + 1] == q;
      }
    }
  }

  /** The listing is a newest-first permutation of the posts. */
  lemma {:induction false} ByNewestSorts(ps: seq<Post>)
    ensures NewestFirst(ByNewest(ps))
    ensures multiset(ByNewest(ps)) == multiset(ps)
    ensures |ByNewest(ps)| == |ps|
  {
    if ps != [] {
      ByNewestSorts(ps[1..]);
      InsertByDateSorted(ps[0], ByNewest(ps[1..]));
      InsertByDatePermutes(ps[0], ByNewest(ps[1..]));
      assert ps == [ps[0]] + ps[1..];
      assert |multiset(ByNewest(ps))| == |multiset(ps)|;
    }
  }

  /**
   * Sorting a list that is already newest first changes nothing: posts with the
   * same `createdAt` keep their order, as in a stable sort.
   */
  lemma {:induction false} ByNewestOfSorted(ps: seq<Post>)
    requires NewestFirst(ps)
    ensures ByNewest(ps) == ps
  {
    if ps != [] {
      assert NewestFirst(ps[1..]);
      ByNewestOfSorted(ps[1..]);
      assert ps == [ps[0]] + ps[1..];
    }
  }

  function Reverse(ps: seq<Post>): (r: seq<Post>)
    ensures |r| == |ps|
  {
    if ps == [] then [] else Reverse(ps[1..]) + [ps[0]]
  }

  predicate OldestFirstStrict(ps: seq<Post>) {
    forall i, j :: 0 <= i < j < |ps| ==> ps[i].createdAt < ps[j].createdAt
  }

  lemma {:induction false} InsertOldest(p: Post, ps: seq<Post>)
    requires forall q :: q in ps ==> p.createdAt < q.createdAt
    ensures InsertByDate(p, ps) == ps + [p]
  {
    if ps != [] {
      assert ps[0] in ps;
      assert forall q :: q in ps[1..] ==> q in ps;
      InsertOldest(p, ps[1..]);
      assert ps == [ps[0]] + ps[1..];
    }
  }

  lemma {:induction false} ReverseElements(ps: seq<Post>)
    ensures forall q :: q in Reverse(ps) <==> q in ps
  {
    if ps != [] {
      ReverseElements(ps[1..]);
      assert ps == [ps[0]] + ps[1..];
    }
  }

  /**
   * When the posts were created at strictly increasing times, the listing is
   * the store's order reversed: the last created comes first.
   */
  lemma {:induction false} ByNewestOfOldestFirst(ps: seq<Post>)
    requires OldestFirstStrict(ps)
    ensures ByNewest(ps) == Reverse(ps)
  {
    if ps != [] {
      var tail := ps[1..];
      OldestFirstTail(ps);
      ByNewestOfOldestFirst(tail);
      ReverseElements(tail);
      InsertOldest(ps[0], Reverse(tail));
    }
  }

  lemma OldestFirstTail(ps: seq<Post>)
    requires OldestFirstStrict(ps) && ps != []
    ensures OldestFirstStrict(ps[1..])
    ensures forall q :: q in ps[1..] ==> ps[0].createdAt < q.createdAt
  {
    forall q | q in ps[1..] ensures ps[0].createdAt < q.createdAt {
      var k :| 0 <= k < |ps[1..]| && ps[1..][k] == q;
      assert ps[k + 1] == q;
    }
  }

  /** The posts other than the one(s) with `id`, in their original order. */
  function Without(ps: seq<Post>, id: int): (r: seq<Post>)
    ensures multiset(r) <= multiset(ps)
    ensures forall k :: 0 <= k < |r| ==> r[k].id != id
  {
    if ps == [] then []
    else
      assert ps == [ps[0]] + ps[1..];
      (if ps[0].id == id then [] else [ps[0]]) + Without(ps[1..], id)
  }

  /**
   * Cutting out the element at the position `IndexOf` finds removes, when ids are
   * unique, exactly the post with `id` and keeps the others in order.
   */
  lemma {:induction false} SpliceIsWithout(ps: seq<Post>, id: int)
    requires UniqueIds(ps) && HasId(ps, id)
    ensures var i := IndexOf(ps, id); ps[..i] + ps[i + 1..] == Without(ps, id)
  {
    var i := IndexOf(ps, id);
    if i == 0 {
      SpliceFirst(ps, id);
    } else {
      var tail := ps[1..];
      assert UniqueIds(tail) && HasId(tail, id) by {
        assert tail[i - 1] == ps[i];
      }
      SpliceIsWithout(tail, id);
      SpliceLater(ps, id);
    }
  }

  /** Splicing one element out takes exactly that element out of the multiset. */
  lemma SpliceMultiset(ps: seq<Post>, i: nat)
    requires i < |ps|
    ensures multiset(ps[..i] + ps[i + 1..]) + multiset{ps[i]} == multiset(ps)
  {
    assert ps == ps[..i] + [ps[i]] + ps[i + 1..];
  }

  lemma SpliceFirst(ps: seq<Post>, id: int)
    requires UniqueIds(ps) && ps != [] && ps[0].id == id
    ensures Without(ps, id) == ps[1..]
  {
    var tail := ps[1..];
    assert !HasId(tail, id) by {
      forall k | 0 <= k < |tail| ensures tail[k].id != id {
        assert tail[k] == ps[k + 1];
      }
    }
    WithoutAbsent(tail, id);
  }

  lemma SpliceLater(ps: seq<Post>, id: int)
    requires ps != [] && ps[0].id != id && HasId(ps[1..], id)
    ensures var i := IndexOf(ps, id); var k := IndexOf(ps[1..], id);
      && i == k + 1
      && Without(ps, id) == [ps[0]] + Without(ps[1..], id)
      && ps[..i] + ps[i + 1..] == [ps[0]] + (ps[1..][..k] + ps[1..][k + 1..])
  {
    var k := IndexOf(ps[1..], id);
    SliceCons(ps, k);
  }

  lemma SliceCons(ps: seq<Post>, k: nat)
    requires k + 1 < |ps|
    ensures ps[..k + 1] + ps[k + 2..] == [ps[0]] + (ps[1..][..k] + ps[1..][k + 1..])
  {
    assert ps[..k + 1] == [ps[0]] + ps[1..][..k];
    assert ps[k + 2..] == ps[1..][k + 1..];
  }

  lemma {:induction false} WithoutAbsent(ps: seq<Post>, id: int)
    requires !HasId(ps, id)
    ensures Without(ps, id) == ps
  {
    if ps != [] {
      assert !HasId(ps[1..], id) by {
        forall k | 0 <= k < |ps[1..]| ensures ps[1..][k].id != id {
          assert ps[1..][k] == ps[k + 1];
        }
      }
      WithoutAbsent(ps[1..], id);
      assert ps == [ps[0]] + ps[1..];
    }
  }
}
