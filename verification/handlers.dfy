/**
 * The route handlers of the blog as functions of the store's state: each takes
 * the posts and the id counter (and, where the handler reads the clock, the
 * current time) and gives the new state together with what the handler sends.
 */
module Handlers {
  import opened Options
  import opened Text
  import opened Routes
  import opened Posts

  const SiteTitle: string := "My Blog"
  const RequiredMessage: string := "Title and content are required."
  const NotFoundTitle: string := "Not Found"
  const NotFoundMessage: string := "The page you are looking for does not exist."

  /** The templates: `index`, `post`, `edit` and `404`. */
  datatype View = IndexView | PostView | EditView | NotFoundView

  /** The submitted fields as the listing form gets them back, untrimmed. */
  datatype FormData = FormData(title: Field, content: Field)

  /** A stored post re-shown in the edit form with its title and content replaced by what was submitted. */
  datatype Draft = Draft(id: nat, title: Field, content: Field, createdAt: nat, updatedAt: nat)

  /** The locals handed to a template besides its page title. */
  datatype Payload =
    | Listing(posts: seq<Post>, error: Option<string>, formData: FormData)
    | Single(post: Post)
    | EditForm(draft: Draft, error: Option<string>)
    | Message(message: string)

  /** What a handler does with the response: redirect, render a view with a status, or call `next()`. */
  datatype Outcome =
    | Redirect(to: Location)
    | Render(view: View, pageTitle: string, status: nat, payload: Payload)
    | NotFound

  /** The module-level `posts` array and `nextId` counter. */
  datatype StoreState = StoreState(posts: seq<Post>, nextId: nat)

  datatype Response = Response(state: StoreState, outcome: Outcome)

  /** The store at start-up: no posts, and the counter at 1. */
  const Initial: StoreState := StoreState([], 1)

  /** Ids are unique, at least 1 and below the counter; every post is well formed. */
  predicate Invariant(s: StoreState) {
    && s.nextId >= 1
    && UniqueIds(s.posts)
    && forall i :: 0 <= i < |s.posts| ==> 1 <= s.posts[i].id < s.nextId && WellFormed(s.posts[i])
  }

  /** Every stored title and content is its own trim: trimming it again changes nothing. */
  lemma StoredTrimmed(s: StoreState)
    requires Invariant(s)
    ensures forall i :: 0 <= i < |s.posts| ==>
      Trim(s.posts[i].title) == s.posts[i].title && Trim(s.posts[i].content) == s.posts[i].content
  {
    forall i | 0 <= i < |s.posts|
      ensures Trim(s.posts[i].title) == s.posts[i].title && Trim(s.posts[i].content) == s.posts[i].content
    {
      TrimOfTrimmed(s.posts[i].title);
      TrimOfTrimmed(s.posts[i].content);
    }
  }

  /** `now` is no earlier than any timestamp in the store: the clock does not run backwards. */
  predicate NotBefore(s: StoreState, now: nat) {
    forall i :: 0 <= i < |s.posts| ==> s.posts[i].updatedAt <= now
  }

  function DraftOf(p: Post): Draft {
    Draft(p.id, Some(p.title), Some(p.content), p.createdAt, p.updatedAt)
  }

  function EditTitle(p: Post): string {
    "Edit " + p.title
  }

  /** GET `/`: the listing, newest first, with no error and an empty form. */
  function HandleIndex(s: StoreState): Outcome {
    Render(IndexView, SiteTitle, 200, Listing(ByNewest(s.posts), None, FormData(None, None)))
  }

  /** POST `/posts`: validate, then append a post stamped `now` under the next id and redirect to it. */
  function HandleCreate(s: StoreState, title: Field, content: Field, now: nat): Response {
    if !Accepts(title, content) then
      Response(s, Render(IndexView, SiteTitle, 400,
                         Listing(ByNewest(s.posts), Some(RequiredMessage), FormData(title, content))))
    else
      var post := Post(s.nextId, TrimField(title), TrimField(content), now, now);
      Response(StoreState(s.posts + [post], s.nextId + 1), Redirect(PostPage(post.id)))
  }

  /** GET `/posts/:id`. */
  function HandleShow(s: StoreState, id: int): Outcome {
    match Find(s.posts, id)
    case None => NotFound
    case Some(post) => Render(PostView, post.title, 200, Single(post))
  }

  /** GET `/posts/:id/edit`. */
  function HandleEdit(s: StoreState, id: int): Outcome {
    match Find(s.posts, id)
    case None => NotFound
    case Some(post) => Render(EditView, EditTitle(post), 200, EditForm(DraftOf(post), None))
  }

  /** PUT `/posts/:id`: look up, validate, then overwrite title, content and `updatedAt` in place. */
  function HandleUpdate(s: StoreState, id: int, title: Field, content: Field, now: nat): Response {
    var i := IndexOf(s.posts, id);
    if i < 0 then Response(s, NotFound)
    else
      var post := s.posts[i];
      if !Accepts(title, content) then
        Response(s, Render(EditView, EditTitle(post), 400,
                           EditForm(Draft(post.id, title, content, post.createdAt, post.updatedAt), Some(RequiredMessage))))
      else
        var updated := post.(title := TrimField(title), content := TrimField(content), updatedAt := now);
        Response(s.(posts := s.posts[i := updated]), Redirect(PostPage(post.id)))
  }

  /** DELETE `/posts/:id`: find the position of the id, then cut that one element out. */
  function HandleDelete(s: StoreState, id: int): Response {
    var i := IndexOf(s.posts, id);
    if i == -1 then Response(s, NotFound)
    else Response(s.(posts := s.posts[..i] + s.posts[i + 1..]), Redirect(Home))
  }

  /** The catch-all handler every unmatched request and every `next()` ends in. */
  function NotFoundPage(): Outcome {
    Render(NotFoundView, NotFoundTitle, 404, Message(NotFoundMessage))
  }

  /** What the client finally receives: a handler's `next()` falls through to the catch-all. */
  function Resolve(o: Outcome): (r: Outcome)
    ensures !r.NotFound?
    ensures o.NotFound? ==> r.Render? && r.status == 404 && r.view == NotFoundView
    ensures !o.NotFound? ==> r == o
  {
    if o.NotFound? then NotFoundPage() else o
  }

  /** The requests the app routes, and any other method or path. */
  datatype Request =
    | GetIndex
    | PostPosts(title: Field, content: Field)
    | GetPost(id: int)
    | GetEdit(id: int)
    | PutPost(id: int, title: Field, content: Field)
    | DeletePost(id: int)
    | Unmatched

  /** A request together with the clock reading taken while handling it. */
  datatype Call = Call(request: Request, now: nat)

  function Handle(s: StoreState, c: Call): Response {
    match c.request
    case GetIndex => Response(s, HandleIndex(s))
    case PostPosts(title, content) => HandleCreate(s, title, content, c.now)
    case GetPost(id) => Response(s, HandleShow(s, id))
    case GetEdit(id) => Response(s, HandleEdit(s, id))
    case PutPost(id, title, content) => HandleUpdate(s, id, title, content, c.now)
    case DeletePost(id) => HandleDelete(s, id)
    case Unmatched => Response(s, NotFound)
  }

  /** Requests handled one after the other, as Node runs them. */
  function Run(s: StoreState, calls: seq<Call>): StoreState
    decreases |calls|
  {
    if calls == [] then s else Run(Handle(s, calls[0]).state, calls[1..])
  }

  /** Whether a call creates a post. */
  predicate Creates(c: Call) {
    c.request.PostPosts? && Accepts(c.request.title, c.request.content)
  }

  /** The ids handed out, in order, by the creates among `calls`. */
  function Issued(s: StoreState, calls: seq<Call>): seq<nat>
    decreases |calls|
  {
    if calls == [] then []
    else (if Creates(calls[0]) then [s.nextId] else []) + Issued(Handle(s, calls[0]).state, calls[1..])
  }

  /** The clock never runs backwards: calls come in time order, the first no earlier than the store. */
  predicate Ticking(s: StoreState, calls: seq<Call>) {
    && (forall i, j :: 0 <= i < j < |calls| ==> calls[i].now <= calls[j].now)
    && (calls != [] ==> NotBefore(s, calls[0].now))
  }

  // ---------------------------------------------------------------------------
  // Create

  /** A valid create appends exactly one post, under a fresh id, stamped once, and redirects to it. */
  lemma CreateAppends(s: StoreState, title: Field, content: Field, now: nat)
    requires Invariant(s) && Accepts(title, content)
    ensures !HasId(s.posts, s.nextId)
    ensures HandleCreate(s, title, content, now)
      == Response(StoreState(s.posts + [Post(s.nextId, TrimField(title), TrimField(content), now, now)], s.nextId + 1),
                  Redirect(PostPage(s.nextId)))
  {
  }

  /**
   * Create leaves the store untouched exactly when the title or the content is
   * missing, empty or white space only; it then re-renders the listing with
   * status 400, the message and the fields as submitted.
   */
  lemma CreateRejectsBlank(s: StoreState, title: Field, content: Field, now: nat)
    ensures var r := HandleCreate(s, title, content, now);
      && (r.state == s <==> Blank(title) || Blank(content))
      && (Blank(title) || Blank(content) ==>
            r.outcome == Render(IndexView, SiteTitle, 400,
                                Listing(ByNewest(s.posts), Some(RequiredMessage), FormData(title, content))))
  {
    var r := HandleCreate(s, title, content, now);
    AcceptsIff(title, content);
    if !Blank(title) && !Blank(content) {
      assert |r.state.posts| == |s.posts| + 1;
    }
  }

  lemma CreateKeepsInvariant(s: StoreState, title: Field, content: Field, now: nat)
    requires Invariant(s) && NotBefore(s, now)
    ensures var r := HandleCreate(s, title, content, now);
      Invariant(r.state) && NotBefore(r.state, now)
  {
    if Accepts(title, content) {
      var post := Post(s.nextId, TrimField(title), TrimField(content), now, now);
      assert HandleCreate(s, title, content, now).state == StoreState(s.posts + [post], s.nextId + 1);
      AppendKeepsInvariant(s, post, now);
    }
  }

  lemma AppendKeepsInvariant(s: StoreState, post: Post, now: nat)
    requires Invariant(s) && NotBefore(s, now)
    requires post.id == s.nextId && WellFormed(post) && post.updatedAt <= now
    ensures Invariant(StoreState(s.posts + [post], s.nextId + 1))
    ensures NotBefore(StoreState(s.posts + [post], s.nextId + 1), now)
  {
    AppendFreshId(s, post);
    var ps := s.posts + [post];
    assert forall i :: 0 <= i < |s.posts| ==> ps[i] == s.posts[i];
  }

  /** After a valid create, following the redirect shows the new post. */
  lemma CreateThenShow(s: StoreState, title: Field, content: Field, now: nat)
    requires Invariant(s) && Accepts(title, content)
    ensures var r := HandleCreate(s, title, content, now);
      && r.outcome.Redirect? && r.outcome.to.PostPage?
      && HandleShow(r.state, r.outcome.to.id)
         == Render(PostView, TrimField(title), 200,
                   Single(Post(s.nextId, TrimField(title), TrimField(content), now, now)))
  {
    var post := Post(s.nextId, TrimField(title), TrimField(content), now, now);
    var ps := s.posts + [post];
    assert UniqueIds(ps) by {
      AppendFreshId(s, post);
    }
    FindUnique(ps, s.nextId, |s.posts|);
  }

  lemma AppendFreshId(s: StoreState, post: Post)
    requires Invariant(s) && post.id == s.nextId
    ensures UniqueIds(s.posts + [post])
  {
    var ps := s.posts + [post];
    forall i, j | 0 <= i < j < |ps| ensures ps[i].id != ps[j].id {
      assert ps[i] == s.posts[i];
      if j < |s.posts| {
        assert ps[j] == s.posts[j];
      }
    }
  }

  // ---------------------------------------------------------------------------
  // Read, edit form and the not-found path

  /** Show and the edit form render exactly when a post has the id, and then the post that has it. */
  lemma ShowAndEditFind(s: StoreState, id: int)
    requires Invariant(s)
    ensures HandleShow(s, id) == NotFound <==> !HasId(s.posts, id)
    ensures HandleEdit(s, id) == NotFound <==> !HasId(s.posts, id)
    ensures forall j :: 0 <= j < |s.posts| && s.posts[j].id == id ==>
      && HandleShow(s, id) == Render(PostView, s.posts[j].title, 200, Single(s.posts[j]))
      && HandleEdit(s, id) == Render(EditView, EditTitle(s.posts[j]), 200, EditForm(DraftOf(s.posts[j]), None))
  {
    forall j | 0 <= j < |s.posts| && s.posts[j].id == id
      ensures HandleShow(s, id) == Render(PostView, s.posts[j].title, 200, Single(s.posts[j]))
      ensures HandleEdit(s, id) == Render(EditView, EditTitle(s.posts[j]), 200, EditForm(DraftOf(s.posts[j]), None))
    {
      FindUnique(s.posts, id, j);
    }
  }

  /** An id that no post has: nothing changes and every id route defers to the 404 page. */
  lemma AbsentIdNotFound(s: StoreState, id: int, title: Field, content: Field, now: nat)
    requires !HasId(s.posts, id)
    ensures HandleShow(s, id) == NotFound && HandleEdit(s, id) == NotFound
    ensures HandleUpdate(s, id, title, content, now) == Response(s, NotFound)
    ensures HandleDelete(s, id) == Response(s, NotFound)
    ensures Resolve(NotFound) == Render(NotFoundView, NotFoundTitle, 404, Message(NotFoundMessage))
  {
  }

  // ---------------------------------------------------------------------------
  // Update

  /**
   * A valid update of an existing id rewrites that post's title, content and
   * `updatedAt` and nothing else: same id and `createdAt`, same other posts in
   * the same order, same counter; it redirects to the post's page.
   */
  lemma UpdateInPlace(s: StoreState, id: int, title: Field, content: Field, now: nat)
    requires Invariant(s) && HasId(s.posts, id) && Accepts(title, content)
    ensures var r := HandleUpdate(s, id, title, content, now);
      && |r.state.posts| == |s.posts|
      && r.state.nextId == s.nextId
      && (forall j :: 0 <= j < |s.posts| && s.posts[j].id != id ==> r.state.posts[j] == s.posts[j])
      && (forall j :: 0 <= j < |s.posts| && s.posts[j].id == id ==>
            && r.state.posts[j].id == s.posts[j].id
            && r.state.posts[j].createdAt == s.posts[j].createdAt
            && r.state.posts[j].title == TrimField(title)
            && r.state.posts[j].content == TrimField(content)
            && r.state.posts[j].updatedAt == now)
      && r.outcome == Redirect(PostPage(Find(s.posts, id).value.id))
      && r.outcome.to.id == id
  {
    var i := IndexOf(s.posts, id);
    var post := s.posts[i];
    var updated := post.(title := TrimField(title), content := TrimField(content), updatedAt := now);
    assert HandleUpdate(s, id, title, content, now)
        == Response(s.(posts := s.posts[i := updated]), Redirect(PostPage(post.id)));
    ReplaceById(s.posts, i, updated);
  }

  /** Overwriting the post at `i` with one of the same id touches no post with another id. */
  lemma ReplaceById(ps: seq<Post>, i: nat, q: Post)
    requires UniqueIds(ps) && i < |ps| && q.id == ps[i].id
    ensures forall j :: 0 <= j < |ps| && ps[j].id != q.id ==> ps[i := q][j] == ps[j]
    ensures forall j :: 0 <= j < |ps| && ps[j].id == q.id ==> ps[i := q][j] == q
  {
  }

  /** An invalid update of an existing id changes nothing and re-renders the edit form with what was typed. */
  lemma UpdateRejectsBlank(s: StoreState, id: int, title: Field, content: Field, now: nat)
    requires HasId(s.posts, id) && (Blank(title) || Blank(content))
    ensures var r := HandleUpdate(s, id, title, content, now);
      var post := Find(s.posts, id).value;
      && r.state == s
      && r.outcome == Render(EditView, EditTitle(post), 400,
                             EditForm(Draft(id, title, content, post.createdAt, post.updatedAt), Some(RequiredMessage)))
  {
    AcceptsIff(title, content);
  }

  lemma UpdateKeepsInvariant(s: StoreState, id: int, title: Field, content: Field, now: nat)
    requires Invariant(s) && NotBefore(s, now)
    ensures var r := HandleUpdate(s, id, title, content, now);
      Invariant(r.state) && NotBefore(r.state, now)
  {
    var i := IndexOf(s.posts, id);
    if i >= 0 && Accepts(title, content) {
      var post := s.posts[i];
      var updated := post.(title := TrimField(title), content := TrimField(content), updatedAt := now);
      assert HandleUpdate(s, id, title, content, now).state == s.(posts := s.posts[i := updated]);
      ReplaceKeepsInvariant(s, i, updated, now);
    }
  }

  lemma ReplaceKeepsInvariant(s: StoreState, i: nat, q: Post, now: nat)
    requires Invariant(s) && NotBefore(s, now) && i < |s.posts|
    requires q.id == s.posts[i].id && WellFormed(q) && q.updatedAt <= now
    ensures Invariant(s.(posts := s.posts[i := q])) && NotBefore(s.(posts := s.posts[i := q]), now)
  {
    var ps := s.posts[i := q];
    assert forall k :: 0 <= k < |ps| ==> ps[k].id == s.posts[k].id;
  }

  /**
   * An update never moves a timestamp backwards, as long as the clock does not:
   * every post keeps its id and `createdAt`, and its `updatedAt` does not decrease.
   */
  lemma UpdateNeverRewinds(s: StoreState, id: int, title: Field, content: Field, now: nat)
    requires NotBefore(s, now)
    ensures var t := HandleUpdate(s, id, title, content, now).state;
      && |t.posts| == |s.posts|
      && forall j :: 0 <= j < |s.posts| ==>
           && t.posts[j].id == s.posts[j].id
           && t.posts[j].createdAt == s.posts[j].createdAt
           && s.posts[j].updatedAt <= t.posts[j].updatedAt
  {
  }

  // ---------------------------------------------------------------------------
  // Delete

  /**
   * Deleting an existing id removes exactly that post, keeps the others in
   * their order, leaves the counter alone and redirects to the listing.
   */
  lemma DeleteRemovesOne(s: StoreState, id: int)
    requires Invariant(s) && HasId(s.posts, id)
    ensures var r := HandleDelete(s, id);
      && r.state.posts == Without(s.posts, id)
      && multiset(r.state.posts) + multiset{Find(s.posts, id).value} == multiset(s.posts)
      && r.state.nextId == s.nextId
      && r.outcome == Redirect(Home)
  {
    var i := IndexOf(s.posts, id);
    SpliceIsWithout(s.posts, id);
    SpliceMultiset(s.posts, i);
  }

  /**
   * The two redirects that change the store lead to different pages: a valid
   * create sends the client to the new post's page, never to the listing a
   * delete sends it to.
   */
  lemma CreateAndDeleteRedirectsDiffer(s: StoreState, title: Field, content: Field, now: nat, id: int)
    requires Invariant(s) && Accepts(title, content) && HasId(s.posts, id)
    ensures HandleCreate(s, title, content, now).outcome.Redirect?
    ensures HandleDelete(s, id).outcome.Redirect?
    ensures Href(HandleCreate(s, title, content, now).outcome.to) != Href(HandleDelete(s, id).outcome.to)
  {
    CreateAppends(s, title, content, now);
    DeleteRemovesOne(s, id);
    HrefInjective(PostPage(s.nextId), Home);
  }

  lemma DeleteKeepsInvariant(s: StoreState, id: int, now: nat)
    requires Invariant(s) && NotBefore(s, now)
    ensures var r := HandleDelete(s, id);
      Invariant(r.state) && NotBefore(r.state, now)
  {
    var i := IndexOf(s.posts, id);
    if i != -1 {
      assert HandleDelete(s, id).state == s.(posts := s.posts[..i] + s.posts[i + 1..]);
      SpliceKeepsInvariant(s, i, now);
    }
  }

  lemma SpliceKeepsInvariant(s: StoreState, i: nat, now: nat)
    requires Invariant(s) && NotBefore(s, now) && i < |s.posts|
    ensures var t := s.(posts := s.posts[..i] + s.posts[i + 1..]);
      Invariant(t) && NotBefore(t, now)
  {
    var ps := s.posts[..i] + s.posts[i + 1..];
    assert forall k :: 0 <= k < |ps| ==> ps[k] == s.posts[if k < i then k else k + 1];
  }

  // ---------------------------------------------------------------------------
  // Sequences of requests

  lemma HandleKeepsInvariant(s: StoreState, c: Call)
    requires Invariant(s) && NotBefore(s, c.now)
    ensures Invariant(Handle(s, c).state) && NotBefore(Handle(s, c).state, c.now)
    ensures Handle(s, c).state.nextId == s.nextId + (if Creates(c) then 1 else 0)
  {
    HandleCounter(s, c);
    match c.request
    case PostPosts(title, content) => CreateKeepsInvariant(s, title, content, c.now);
    case PutPost(id, title, content) => UpdateKeepsInvariant(s, id, title, content, c.now);
    case DeletePost(id) => DeleteKeepsInvariant(s, id, c.now);
    case _ =>
  }

  /** The invariant holds after any sequence of requests, as long as the clock does not run backwards. */
  lemma {:induction false} RunKeepsInvariant(s: StoreState, calls: seq<Call>)
    requires Invariant(s) && Ticking(s, calls)
    ensures Invariant(Run(s, calls))
    ensures Run(s, calls).nextId >= s.nextId
    decreases |calls|
  {
    if calls != [] {
      var next := Handle(s, calls[0]).state;
      HandleKeepsInvariant(s, calls[0]);
      assert Ticking(next, calls[1..]) by {
        if |calls| > 1 {
          assert calls[0].now <= calls[1].now;
        }
      }
      RunKeepsInvariant(next, calls[1..]);
    }
  }

  predicate StrictlyIncreasing(xs: seq<nat>) {
    forall i, j :: 0 <= i < j < |xs| ==> xs[i] < xs[j]
  }

  /**
   * Ids are never reused: over any sequence of requests, the ids that creates
   * hand out are strictly increasing, one per create, from the counter's value
   * at the start up to (not including) its value at the end; so none of them
   * is an id the store held at the start, even after deletes.
   */
  lemma IssuedFresh(s: StoreState, calls: seq<Call>)
    requires Invariant(s)
    ensures var ids := Issued(s, calls); var n := Run(s, calls).nextId;
      && StrictlyIncreasing(ids)
      && |ids| == n - s.nextId
      && (forall k :: 0 <= k < |ids| ==> s.nextId <= ids[k] < n)
      && (forall k :: 0 <= k < |ids| ==> !HasId(s.posts, ids[k]))
  {
    IssuedCounter(s, calls);
  }

  /** The counter bookkeeping behind `IssuedFresh`; it needs no invariant, only how `nextId` moves. */
  lemma {:induction false} IssuedCounter(s: StoreState, calls: seq<Call>)
    ensures var ids := Issued(s, calls); var n := Run(s, calls).nextId;
      && StrictlyIncreasing(ids)
      && |ids| == n - s.nextId
      && (forall k :: 0 <= k < |ids| ==> s.nextId <= ids[k] < n)
    decreases |calls|
  {
    if calls != [] {
      var next := Handle(s, calls[0]).state;
      HandleCounter(s, calls[0]);
      IssuedCounter(next, calls[1..]);
      var rest := Issued(next, calls[1..]);
      assert Run(s, calls) == Run(next, calls[1..]);
      if Creates(calls[0]) {
        assert Issued(s, calls) == [s.nextId] + rest;
        IncreasingCons(s.nextId, rest, Run(s, calls).nextId);
      } else {
        assert Issued(s, calls) == rest;
      }
    }
  }

  lemma IncreasingCons(x: nat, xs: seq<nat>, n: nat)
    requires StrictlyIncreasing(xs) && |xs| == n - (x + 1)
    requires forall k :: 0 <= k < |xs| ==> x + 1 <= xs[k] < n
    ensures var ys := [x] + xs;
      StrictlyIncreasing(ys) && |ys| == n - x && forall k :: 0 <= k < |ys| ==> x <= ys[k] < n
  {
    var ys := [x] + xs;
    assert forall k :: 0 < k < |ys| ==> ys[k] == xs[k - 1];
  }

  lemma HandleCounter(s: StoreState, c: Call)
    ensures Handle(s, c).state.nextId == s.nextId + (if Creates(c) then 1 else 0)
  {
  }

  // ---------------------------------------------------------------------------
  // End-to-end scenarios

  /**
   * Creating a post in the empty store from a title and content padded with
   * white space stores them trimmed, under id 1, stamped once.
   */
  lemma FirstCreateScenario(a: string, t: string, b: string, c: string, u: string, d: string, now: nat)
    requires AllSpace(a) && AllSpace(b) && IsTrimmed(t) && t != []
    requires AllSpace(c) && AllSpace(d) && IsTrimmed(u) && u != []
    ensures HandleCreate(Initial, Some(a + t + b), Some(c + u + d), now)
      == Response(StoreState([Post(1, t, u, now, now)], 2), Redirect(PostPage(1)))
  {
    var title, content := Some(a + t + b), Some(c + u + d);
    TrimFieldOfPadded(a, t, b);
    TrimFieldOfPadded(c, u, d);
    CreateAppends(Initial, title, content, now);
    var post := Post(1, t, u, now, now);
    assert Initial.posts + [post] == [post];
  }

  /** Creating "  Hello  " / " World " in an empty store stores "Hello" / "World" under id 1. */
  lemma HelloWorldScenario(now: nat)
    ensures HandleCreate(Initial, Some("  Hello  "), Some(" World "), now)
      == Response(StoreState([Post(1, "Hello", "World", now, now)], 2), Redirect(PostPage(1)))
  {
    assert "  Hello  " == "  " + "Hello" + "  ";
    assert " World " == " " + "World" + " ";
    FirstCreateScenario("  ", "Hello", "  ", " ", "World", " ", now);
  }

  /** An empty title is refused and the store stays empty. */
  lemma EmptyTitleScenario(now: nat)
    ensures HandleCreate(Initial, Some(""), Some("x"), now)
      == Response(Initial, Render(IndexView, SiteTitle, 400,
                                  Listing([], Some(RequiredMessage), FormData(Some(""), Some("x")))))
  {
  }

  /**
   * Create post 1, then update it with new text: reading it shows the new
   * text, the same `createdAt` and the later `updatedAt`.
   */
  lemma EditScenario(t: string, u: string, t2: string, u2: string, time1: nat, time2: nat)
    requires IsTrimmed(t) && t != [] && IsTrimmed(u) && u != []
    requires IsTrimmed(t2) && t2 != [] && IsTrimmed(u2) && u2 != []
    requires time1 <= time2
    ensures var s1 := HandleCreate(Initial, Some(t), Some(u), time1).state;
      var s2 := HandleUpdate(s1, 1, Some(t2), Some(u2), time2).state;
      HandleShow(s2, 1) == Render(PostView, t2, 200, Single(Post(1, t2, u2, time1, time2)))
  {
    var s1 := StoreState([Post(1, t, u, time1, time1)], 2);
    assert HandleCreate(Initial, Some(t), Some(u), time1).state == s1 by {
      TrimFieldOfTrimmed(t);
      TrimFieldOfTrimmed(u);
    }
    var s2 := StoreState([Post(1, t2, u2, time1, time2)], 2);
    assert HandleUpdate(s1, 1, Some(t2), Some(u2), time2).state == s2 by {
      TrimFieldOfTrimmed(t2);
      TrimFieldOfTrimmed(u2);
      assert IndexOf(s1.posts, 1) == 0;
    }
    assert IndexOf(s2.posts, 1) == 0;
  }

  /** Deleting id 999 in an empty store removes nothing and defers to the 404 page. */
  lemma DeleteMissingScenario()
    ensures HandleDelete(Initial, 999) == Response(Initial, NotFound)
  {
  }
}
