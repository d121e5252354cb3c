/**
 * The blog's in-memory store as the app holds it: a `posts` list in insertion
 * order and a `nextId` counter, changed in place by the route handlers, one
 * method per handler. Each method is tied to the handler function of the same
 * route, so everything proved about those functions holds of the methods.
 */
module Store {
  import opened Options
  import opened Routes
  import opened Posts
  import opened Handlers

  class Blog {
    var posts: seq<Post>
    var nextId: nat
    /** The time of the latest create or update request; no stored timestamp is later, and later readings are no earlier. */
    ghost var clock: nat

    function State(): StoreState
      reads this
    {
      StoreState(posts, nextId)
    }

    ghost predicate Valid()
      reads this
    {
      Invariant(State()) && NotBefore(State(), clock)
    }

    /** Start-up: no posts, and the counter at 1. */
    constructor ()
      ensures State() == Initial && Valid()
    {
      posts := [];
      nextId := 1;
      clock := 0;
    }

    /** GET `/`: renders a newest-first copy of the posts; the store's own order is left as it is. */
    method Index() returns (o: Outcome)
      ensures o == HandleIndex(State())
      ensures o.Render? && o.view == IndexView && o.status == 200 && o.payload.Listing?
      ensures NewestFirst(o.payload.posts) && multiset(o.payload.posts) == multiset(posts)
    {
      var sortedPosts := ByNewest(posts);
      o := Render(IndexView, SiteTitle, 200, Listing(sortedPosts, None, FormData(None, None)));
      ByNewestSorts(posts);
    }

    /** POST `/posts`. */
    method Create(title: Field, content: Field, now: nat) returns (o: Outcome)
      requires Valid() && clock <= now
      modifies this
      ensures Response(State(), o) == HandleCreate(old(State()), title, content, now)
      ensures Valid() && clock == now
      ensures Accepts(title, content) ==>
        && posts == old(posts) + [Post(old(nextId), TrimField(title), TrimField(content), now, now)]
        && !HasId(old(posts), old(nextId))
        && nextId == old(nextId) + 1
        && o == Redirect(PostPage(old(nextId)))
      ensures !Accepts(title, content) ==>
        && posts == old(posts) && nextId == old(nextId)
        && o == Render(IndexView, SiteTitle, 400,
                       Listing(ByNewest(posts), Some(RequiredMessage), FormData(title, content)))
    {
      ghost var before := State();
      CreateKeepsInvariant(before, title, content, now);
      var trimmedTitle := TrimField(title);
      var trimmedContent := TrimField(content);
      if trimmedTitle == "" || trimmedContent == "" {
        var sortedPosts := ByNewest(posts);
        o := Render(IndexView, SiteTitle, 400, Listing(sortedPosts, Some(RequiredMessage), FormData(title, content)));
        clock := now;
        assert Response(State(), o) == HandleCreate(before, title, content, now);
        return;
      }
      var newPost := Post(nextId, trimmedTitle, trimmedContent, now, now);
      nextId := nextId + 1;
      posts := posts + [newPost];
      o := Redirect(PostPage(newPost.id));
      clock := now;
      assert State() == StoreState(before.posts + [newPost], before.nextId + 1);
      assert Response(State(), o) == HandleCreate(before, title, content, now);
      CreateAppends(before, title, content, now);
    }

    /** GET `/posts/:id`. */
    method Show(id: int) returns (o: Outcome)
      requires Valid()
      ensures o == HandleShow(State(), id)
      ensures o == NotFound <==> !HasId(posts, id)
      ensures forall j :: 0 <= j < |posts| && posts[j].id == id ==>
        o == Render(PostView, posts[j].title, 200, Single(posts[j]))
    {
      var found := Find(posts, id);
      if found.None? {
        return NotFound;
      }
      var post := found.value;
      o := Render(PostView, post.title, 200, Single(post));
      ShowAndEditFind(State(), id);
    }

    /** GET `/posts/:id/edit`. */
    method Edit(id: int) returns (o: Outcome)
      requires Valid()
      ensures o == HandleEdit(State(), id)
      ensures o == NotFound <==> !HasId(posts, id)
      ensures forall j :: 0 <= j < |posts| && posts[j].id == id ==>
        o == Render(EditView, EditTitle(posts[j]), 200, EditForm(DraftOf(posts[j]), None))
    {
      var found := Find(posts, id);
      if found.None? {
        return NotFound;
      }
      var post := found.value;
      o := Render(EditView, EditTitle(post), 200, EditForm(DraftOf(post), None));
      ShowAndEditFind(State(), id);
    }

    /** PUT `/posts/:id`: the found post's title, content and `updatedAt` are assigned one after the other. */
    method Update(id: int, title: Field, content: Field, now: nat) returns (o: Outcome)
      requires Valid() && clock <= now
      modifies this
      ensures Response(State(), o) == HandleUpdate(old(State()), id, title, content, now)
      ensures Valid() && clock == now
      ensures nextId == old(nextId) && |posts| == |old(posts)|
      ensures forall j :: 0 <= j < |posts| ==>
        posts[j].id == old(posts)[j].id && posts[j].createdAt == old(posts)[j].createdAt
        && old(posts)[j].updatedAt <= posts[j].updatedAt
      ensures !HasId(old(posts), id) ==> posts == old(posts) && o == NotFound
      ensures HasId(old(posts), id) && !Accepts(title, content) ==>
        && posts == old(posts)
        && o == Render(EditView, EditTitle(Find(posts, id).value), 400,
                       EditForm(Draft(id, title, content, Find(posts, id).value.createdAt, Find(posts, id).value.updatedAt),
                                Some(RequiredMessage)))
      ensures HasId(old(posts), id) && Accepts(title, content) ==>
        && o == Redirect(PostPage(id))
        && forall j :: 0 <= j < |posts| ==>
             posts[j] == if old(posts)[j].id != id then old(posts)[j]
                         else old(posts)[j].(title := TrimField(title), content := TrimField(content), updatedAt := now)
    {
      ghost var before := State();
      UpdateKeepsInvariant(before, id, title, content, now);
      UpdateNeverRewinds(before, id, title, content, now);
      var i := IndexOf(posts, id);
      if i == -1 {
        clock := now;
        return NotFound;
      }
      var post := posts[i];
      var trimmedTitle := TrimField(title);
      var trimmedContent := TrimField(content);
      if trimmedTitle == "" || trimmedContent == "" {
        o := Render(EditView, EditTitle(post), 400,
                    EditForm(Draft(post.id, title, content, post.createdAt, post.updatedAt), Some(RequiredMessage)));
        clock := now;
        assert Response(State(), o) == HandleUpdate(before, id, title, content, now);
        return;
      }
      post := post.(title := trimmedTitle);
      post := post.(content := trimmedContent);
      post := post.(updatedAt := now);
      posts := posts[i := post];
      o := Redirect(PostPage(post.id));
      clock := now;
      assert Response(State(), o) == HandleUpdate(before, id, title, content, now);
      UpdateInPlace(before, id, title, content, now);
    }

    /** DELETE `/posts/:id`. */
    method Delete(id: int) returns (o: Outcome)
      requires Valid()
      modifies this
      ensures Response(State(), o) == HandleDelete(old(State()), id)
      ensures Valid() && clock == old(clock) && nextId == old(nextId)
      ensures !HasId(old(posts), id) ==> posts == old(posts) && o == NotFound
      ensures HasId(old(posts), id) ==>
        && posts == Without(old(posts), id)
        && multiset(posts) + multiset{Find(old(posts), id).value} == multiset(old(posts))
        && o == Redirect(Home)
    {
      var postIndex := IndexOf(posts, id);
      if postIndex == -1 {
        return NotFound;
      }
      posts := posts[..postIndex] + posts[postIndex + 1..];
      o := Redirect(Home);
      DeleteKeepsInvariant(old(State()), id, clock);
      DeleteRemovesOne(old(State()), id);
    }
  }
}
