/** The article endpoints of server/src/controllers/articleController.js: the
    public and personal listings, the visibility rule, a journalist's create
    and update, and the editorial transitions (approve, reject, publish,
    delete). Each handler is a function from the collection, the request and
    the clock to a reply and the collection afterwards. */
module ArticleController {
  import opened Wrappers
  import opened Seqs
  import opened Articles
  import opened Auth
  import Sorting

  /** A handler's answer: the status code, the message, the article sent back
      (if any) and the collection afterwards. */
  datatype Reply = Reply(status: nat, message: string, article: Option<Article>, store: Store)

  const NotFoundMessage: string := "Article not found"
  const ServerErrorMessage: string := "Server Error"

  /* ---------------- listings ---------------- */

  /** `.sort({ createdAt: 1 })` */
  function OldestFirst(a: Article): real {
    a.createdAt as real
  }

  /** `.sort({ createdAt: -1 })` */
  function NewestFirst(a: Article): real {
    -(a.createdAt as real)
  }

  /** Sorted by `OldestFirst`, creation times never decrease. */
  lemma OldestFirstOrder(r: seq<Article>)
    requires Sorting.SortedBy(r, OldestFirst)
    ensures forall i, j :: 0 <= i < j < |r| ==> r[i].createdAt <= r[j].createdAt
  {
  }

  /** Sorted by `NewestFirst`, creation times never increase. */
  lemma NewestFirstOrder(r: seq<Article>)
    requires Sorting.SortedBy(r, NewestFirst)
    ensures forall i, j :: 0 <= i < j < |r| ==> r[i].createdAt >= r[j].createdAt
  {
  }

  /** `Article.find(filter).sort(order)`: exactly the records passing the
      filter, each as often as stored, in the order's key. */
  function Listing(store: Store, keep: Article -> bool, key: Article -> real): (r: seq<Article>)
    ensures Sorting.SortedBy(r, key)
    ensures multiset(r) == multiset(Filter(store, keep))
    ensures |r| == Count(store, keep)
    ensures forall i :: 0 <= i < |r| ==> keep(r[i]) && r[i] in store
    ensures forall i :: 0 <= i < |store| && keep(store[i]) ==> store[i] in r
  {
    FilterCount(store, keep);
    Sorting.SortByKey(Filter(store, keep), key)
  }

  predicate IsPublished(a: Article) {
    a.status == Published
  }

  predicate IsPending(a: Article) {
    a.status == Pending
  }

  /** `getAllArticles`: the published articles, newest first. */
  function PublicArticles(store: Store): (r: seq<Article>)
    ensures forall i :: 0 <= i < |r| ==> r[i].status == Published && r[i] in store
    ensures forall i :: 0 <= i < |store| && store[i].status == Published ==> store[i] in r
    ensures |r| == Count(store, IsPublished)
    ensures forall i, j :: 0 <= i < j < |r| ==> r[i].createdAt >= r[j].createdAt
  {
    var r := Listing(store, IsPublished, NewestFirst);
    NewestFirstOrder(r);
    r
  }

  /** `getMyArticles`: the requester's own articles, newest first. */
  function MyArticles(store: Store, user: User): (r: seq<Article>)
    ensures forall i :: 0 <= i < |r| ==> r[i].authorId == Some(user.id) && r[i] in store
    ensures forall i :: 0 <= i < |store| && store[i].authorId == Some(user.id) ==> store[i] in r
    ensures forall i, j :: 0 <= i < j < |r| ==> r[i].createdAt >= r[j].createdAt
  {
    var r := Listing(store, (a: Article) => a.authorId == Some(user.id), NewestFirst);
    NewestFirstOrder(r);
    r
  }

  /** `getPendingArticles`: the review queue, oldest first. */
  function PendingArticles(store: Store): (r: seq<Article>)
    ensures forall i :: 0 <= i < |r| ==> r[i].status == Pending && r[i] in store
    ensures forall i :: 0 <= i < |store| && store[i].status == Pending ==> store[i] in r
    ensures |r| == Count(store, IsPending)
    ensures forall i, j :: 0 <= i < j < |r| ==> r[i].createdAt <= r[j].createdAt
  {
    var r := Listing(store, IsPending, OldestFirst);
    OldestFirstOrder(r);
    r
  }

  /** No article is both public and awaiting review. */
  lemma PublicAndPendingDisjoint(store: Store, a: Article)
    ensures !(a in PublicArticles(store) && a in PendingArticles(store))
  {
  }

  /* ---------------- getArticleById ---------------- */

  /** Who may see an article: anyone once it is published; before that only
      its author, an editor or an admin. */
  function CanView(a: Article, user: Option<User>): (b: bool)
    ensures a.status == Published ==> b
    ensures user.None? ==> (b <==> a.status == Published)
    ensures user.Some? && (user.value.role == EditorRole || user.value.role == AdminRole) ==> b
    ensures user.Some? && a.authorId == Some(user.value.id) ==> b
    ensures user.Some? && user.value.role == JournalistRole && a.authorId != Some(user.value.id) ==>
              (b <==> a.status == Published)
  {
    || a.status == Published
    || (user.Some? && (a.authorId == Some(user.value.id)
                       || user.value.role == EditorRole || user.value.role == AdminRole))
  }

  /** `getArticleById`: 404 for an unknown id, 403 for an article the
      requester may not see, else the article. Nothing is written. */
  function GetArticleById(store: Store, id: nat, user: Option<User>): (r: Reply)
    ensures r.store == store
    ensures !HasId(store, id) ==> r.status == 404 && r.article.None?
    ensures HasId(store, id) && !CanView(Find(store, id).value, user) ==> r.status == 403 && r.article.None?
    ensures r.status == 200 <==> HasId(store, id) && CanView(Find(store, id).value, user)
    ensures r.status == 200 ==> r.article == Find(store, id)
  {
    match Find(store, id)
    case None => Reply(404, NotFoundMessage, None, store)
    case Some(a) =>
      if !CanView(a, user) then Reply(403, "Access denied", None, store)
      else Reply(200, "", Some(a), store)
  }

  /** The route serving this handler attaches no user, so what anyone gets
      is what an anonymous request gets: published articles only. */
  lemma AnonymousSeesOnlyPublished(store: Store, id: nat)
    ensures GetArticleById(store, id, None).status == 200 <==>
              HasId(store, id) && Find(store, id).value.status == Published
  {
  }

  /** An editor or an admin sees every existing article, in any state. */
  lemma StaffSeesEverything(store: Store, id: nat, user: User)
    requires user.role == EditorRole || user.role == AdminRole
    requires HasId(store, id)
    ensures GetArticleById(store, id, Some(user)).status == 200
  {
  }

  /* ---------------- createArticle ---------------- */

  /** The fields `createArticle` reads from the body; absent strings are "",
      absent arrays empty. */
  datatype ArticleBody = ArticleBody(
    title: string, content: string, summary: string,
    images: seq<string>, category: string, tags: seq<string>)

  /** The document `createArticle` builds: the body's fields, the requester as
      author, status "pending", and schema defaults for the rest. */
  function Submitted(body: ArticleBody, user: User, id: nat, now: int): (a: Article)
    ensures a.id == id && a.status == Pending
    ensures a.authorId == Some(user.id) && a.authorName == user.name
    ensures a.title == body.title && a.content == body.content && a.summary == body.summary
    ensures a.images == body.images && a.category == body.category && a.tags == body.tags
    ensures a.contentHash.None? && a.originalUrl.None? && a.approvedAt.None?
  {
    Article(id, body.title, body.summary, body.content, None, body.category, body.tags,
            EmptySource, None, Some(user.id), user.name, Pending, "", None, body.images, now, now)
  }

  /** `createArticle`: 201 with the new record appended, or 500 when the
      title or content is missing and validation throws. */
  function CreateArticle(store: Store, body: ArticleBody, user: User, now: int): (r: Reply)
    ensures r.status == 201 <==> body.title != "" && body.content != ""
    ensures r.status != 201 ==> r.status == 500 && r.store == store
    ensures r.status == 201 ==>
              r.article.Some? && r.store == store + [r.article.value]
              && !HasId(store, r.article.value.id)
              && r.article.value == Submitted(body, user, r.article.value.id, now)
  {
    var a := Submitted(body, user, FreshId(store), now);
    match Insert(store, a)
    case None => Reply(500, ServerErrorMessage, None, store)
    case Some(s) => Reply(201, "", Some(a), s)
  }

  /** Creating keeps the collection well formed, and the new article waits
      in the review queue. */
  lemma CreateArticlePreserves(store: Store, body: ArticleBody, user: User, now: int)
    requires WellFormed(store)
    ensures WellFormed(CreateArticle(store, body, user, now).store)
    ensures var r := CreateArticle(store, body, user, now);
            r.status == 201 ==> r.article.value in PendingArticles(r.store)
  {
    var r := CreateArticle(store, body, user, now);
    if r.status == 201 {
      InsertPreserves(store, r.article.value);
      assert r.store[|store|] == r.article.value;
    }
  }

  /* ---------------- updateArticle ---------------- */

  /** The keys of the request body `Object.assign` copies onto the record;
      `None` for a key the body does not have. */
  datatype Patch = Patch(
    title: Option<string>, summary: Option<string>, content: Option<string>,
    category: Option<string>, tags: Option<seq<string>>, images: Option<seq<string>>,
    editorNotes: Option<string>, status: Option<string>)

  /** The content fields of the body copied onto the record. */
  function PatchContent(a: Article, p: Patch): (b: Article)
    ensures b.id == a.id && b.status == a.status && b.authorId == a.authorId
    ensures b.editorNotes == a.editorNotes && b.approvedAt == a.approvedAt
    ensures b.title == p.title.GetOr(a.title) && b.content == p.content.GetOr(a.content)
    ensures b.summary == p.summary.GetOr(a.summary) && b.category == p.category.GetOr(a.category)
    ensures b.tags == p.tags.GetOr(a.tags) && b.images == p.images.GetOr(a.images)
  {
    a.(title := p.title.GetOr(a.title), summary := p.summary.GetOr(a.summary),
       content := p.content.GetOr(a.content), category := p.category.GetOr(a.category),
       tags := p.tags.GetOr(a.tags), images := p.images.GetOr(a.images))
  }

  const NotYourArticleMessage: string := "Not your article"
  const LockedMessage: string := "Cannot edit an approved or published article"

  /** The three checks `updateArticle` makes, in order, before writing:
      `None` when they all pass. */
  function UpdateRefusal(store: Store, id: nat, user: User): (r: Option<(nat, string)>)
    ensures !HasId(store, id) ==> r == Some((404, NotFoundMessage))
    ensures HasId(store, id) && Find(store, id).value.authorId != Some(user.id) ==>
              r == Some((403, NotYourArticleMessage))
    ensures r.None? <==>
              HasId(store, id) && Find(store, id).value.authorId == Some(user.id)
              && Find(store, id).value.status !in {Approved, Published}
    ensures r.Some? ==> r.value.0 in {400, 403, 404}
  {
    match Find(store, id)
    case None => Some((404, NotFoundMessage))
    case Some(a) =>
      if a.authorId != Some(user.id) then Some((403, NotYourArticleMessage))
      else if a.status == Approved || a.status == Published then Some((400, LockedMessage))
      else None
  }

  /** `Object.assign(article, req.body)` as written: every key of the body is
      copied, the editorial ones included. A status that is not one of the
      five names fails validation (`None`). */
  function AssignAsWritten(a: Article, p: Patch): (r: Option<Article>)
    ensures r.Some? <==> p.status.None? || ParseStatus(p.status.value).Some?
    ensures r.Some? ==> r.value.status == (if p.status.Some? then ParseStatus(p.status.value).value else a.status)
    ensures r.Some? ==> r.value.editorNotes == p.editorNotes.GetOr(a.editorNotes)
  {
    var b := PatchContent(a, p).(editorNotes := p.editorNotes.GetOr(a.editorNotes));
    match p.status
    case None => Some(b)
    case Some(s) =>
      match ParseStatus(s)
      case None => None
      case Some(st) => Some(b.(status := st))
  }

  /** `updateArticle` as written. */
  function UpdateArticleAsWritten(store: Store, id: nat, user: User, p: Patch): (r: Reply)
    ensures UpdateRefusal(store, id, user).Some? ==>
              r.status == UpdateRefusal(store, id, user).value.0 && r.store == store
    ensures r.status == 200 ==>
              UpdateRefusal(store, id, user).None?
              && AssignAsWritten(Find(store, id).value, p).Some?
              && r.store == Overwrite(store, AssignAsWritten(Find(store, id).value, p).value)
  {
    match UpdateRefusal(store, id, user)
    case Some((code, message)) => Reply(code, message, None, store)
    case None =>
      match AssignAsWritten(Find(store, id).value, p)
      case None => Reply(500, ServerErrorMessage, None, store)
      case Some(b) =>
        match Save(store, b)
        case None => Reply(500, ServerErrorMessage, None, store)
        case Some(s) => Reply(200, "", Some(b), s)
  }

  /** The patch holding nothing but a status. */
  function StatusOnly(status: string): Patch {
    Patch(None, None, None, None, None, None, None, Some(status))
  }

  /** As written, the author of a pending article publishes it by sending
      `{ status: "published" }`: no editor approves it and no admin publishes it. */
  lemma AuthorSelfPublishes(store: Store, id: nat, user: User)
    requires HasId(store, id)
    requires Find(store, id).value.authorId == Some(user.id)
    requires Find(store, id).value.status == Pending
    requires RequiredPresent(Find(store, id).value)
    ensures var r := UpdateArticleAsWritten(store, id, user, StatusOnly("published"));
            r.status == 200 && Find(r.store, id).value.status == Published
  {
    var a := Find(store, id).value;
    var b := AssignAsWritten(a, StatusOnly("published")).value;
    assert ParseStatus("published") == Some(Published);
    FindOverwrite(store, b);
  }

  /** `updateArticle` with the body's editorial keys (status and editor
      notes) ignored: only the content fields are copied. */
  function UpdateArticle(store: Store, id: nat, user: User, p: Patch): (r: Reply)
    ensures UpdateRefusal(store, id, user).Some? ==>
              r.status == UpdateRefusal(store, id, user).value.0 && r.store == store
    ensures r.status == 200 <==>
              UpdateRefusal(store, id, user).None? && RequiredPresent(PatchContent(Find(store, id).value, p))
    ensures r.status == 200 ==> r.store == Overwrite(store, PatchContent(Find(store, id).value, p))
    ensures r.status != 200 ==> r.store == store
  {
    match UpdateRefusal(store, id, user)
    case Some((code, message)) => Reply(code, message, None, store)
    case None =>
      var b := PatchContent(Find(store, id).value, p);
      match Save(store, b)
      case None => Reply(500, ServerErrorMessage, None, store)
      case Some(s) => Reply(200, "", Some(b), s)
  }

  /** An update never moves an article through the workflow: whatever the
      body says, the stored status and editor notes stay as they were. */
  lemma UpdateKeepsWorkflow(store: Store, id: nat, user: User, p: Patch)
    requires HasId(store, id)
    ensures var r := UpdateArticle(store, id, user, p);
            HasId(r.store, id)
            && Find(r.store, id).value.status == Find(store, id).value.status
            && Find(r.store, id).value.editorNotes == Find(store, id).value.editorNotes
  {
    var r := UpdateArticle(store, id, user, p);
    if r.status == 200 {
      FindOverwrite(store, PatchContent(Find(store, id).value, p));
    }
  }

  /** Away from the editorial keys, the corrected update and the one as
      written do the same. */
  lemma UpdateAgreesOnContent(store: Store, id: nat, user: User, p: Patch)
    requires p.status.None? && p.editorNotes.None?
    ensures UpdateArticle(store, id, user, p) == UpdateArticleAsWritten(store, id, user, p)
  {
  }

  /** An update keeps the collection well formed. */
  lemma UpdatePreserves(store: Store, id: nat, user: User, p: Patch)
    requires WellFormed(store)
    ensures WellFormed(UpdateArticle(store, id, user, p).store)
  {
    var r := UpdateArticle(store, id, user, p);
    if r.status == 200 {
      SavePreserves(store, PatchContent(Find(store, id).value, p));
    }
  }

  /* ---------------- editorial transitions ---------------- */

  /** Look the article up, change it, save it: 404 when missing, 500 when
      validation rejects the result, else 200 with the saved record. */
  function Transition(store: Store, id: nat, change: Article -> Article, message: string): (r: Reply)
    ensures !HasId(store, id) ==> r.status == 404 && r.store == store
    ensures r.status == 200 <==> HasId(store, id) && RequiredPresent(change(Find(store, id).value))
    ensures r.status == 200 ==>
              r.article == Some(change(Find(store, id).value))
              && r.store == Overwrite(store, change(Find(store, id).value))
    ensures r.status != 200 ==> r.store == store
  {
    match Find(store, id)
    case None => Reply(404, NotFoundMessage, None, store)
    case Some(a) =>
      match Save(store, change(a))
      case None => Reply(500, ServerErrorMessage, None, store)
      case Some(s) => Reply(200, message, Some(change(a)), s)
  }

  /** `approveArticle`: status "approved", the notes ("" when the body has
      none) and the approval time. */
  function ApproveArticle(store: Store, id: nat, notes: string, now: int): (r: Reply)
    ensures !HasId(store, id) ==> r.status == 404
    ensures r.status == 200 ==>
              HasId(store, id) && var a := Find(store, id).value.(status := Approved, editorNotes := notes, approvedAt := Some(now));
              r.article == Some(a) && r.store == Overwrite(store, a)
  {
    Transition(store, id, (a: Article) => a.(status := Approved, editorNotes := notes, approvedAt := Some(now)),
               "Article approved")
  }

  /** `rejectArticle`: status "rejected" and the notes ("" when none). */
  function RejectArticle(store: Store, id: nat, notes: string): (r: Reply)
    ensures !HasId(store, id) ==> r.status == 404
    ensures r.status == 200 ==>
              HasId(store, id) && var a := Find(store, id).value.(status := Rejected, editorNotes := notes);
              r.article == Some(a) && r.store == Overwrite(store, a)
  {
    Transition(store, id, (a: Article) => a.(status := Rejected, editorNotes := notes), "Article rejected")
  }

  /** This controller's `publishArticle`: status "published" and the
      publication time, from whatever status the article had. */
  function PublishArticle(store: Store, id: nat, now: int): (r: Reply)
    ensures !HasId(store, id) ==> r.status == 404
    ensures r.status == 200 ==>
              HasId(store, id) && var a := Find(store, id).value.(status := Published, pubDate := now);
              r.article == Some(a) && r.store == Overwrite(store, a)
  {
    Transition(store, id, (a: Article) => a.(status := Published, pubDate := now), "Article published")
  }

  /** `deleteArticle`: 404 when missing, else the record is removed. */
  function DeleteArticle(store: Store, id: nat): (r: Reply)
    ensures r.status == 200 <==> HasId(store, id)
    ensures r.status == 404 <==> !HasId(store, id)
    ensures r.status == 200 ==> r.store == Delete(store, id) && !HasId(r.store, id)
    ensures r.status == 404 ==> r.store == store
  {
    if HasId(store, id) then Reply(200, "Article deleted", None, Delete(store, id))
    else Reply(404, NotFoundMessage, None, store)
  }

  /** The transitions on this controller are unguarded: on a well-formed
      collection each succeeds on every existing article, whatever its
      status, and leaves it in the target state. Approving a published
      article withdraws it from the public list. */
  lemma TransitionsFromAnyStatus(store: Store, id: nat, notes: string, now: int)
    requires WellFormed(store) && HasId(store, id)
    ensures var r := ApproveArticle(store, id, notes, now);
            r.status == 200 && Find(r.store, id).value.status == Approved
            && Find(r.store, id).value !in PublicArticles(r.store)
    ensures var r := RejectArticle(store, id, notes);
            r.status == 200 && Find(r.store, id).value.status == Rejected
    ensures var r := PublishArticle(store, id, now);
            r.status == 200 && Find(r.store, id).value.status == Published
            && Find(r.store, id).value in PublicArticles(r.store)
  {
    var a := Find(store, id).value;
    var k :| 0 <= k < |store| && store[k] == a;
    assert RequiredPresent(a);
    var ap := a.(status := Approved, editorNotes := notes, approvedAt := Some(now));
    var rj := a.(status := Rejected, editorNotes := notes);
    var pb := a.(status := Published, pubDate := now);
    FindOverwrite(store, ap);
    FindOverwrite(store, rj);
    FindOverwrite(store, pb);
    var ps := Overwrite(store, pb);
    assert ps[k] == pb;
    var pub := PublicArticles(Overwrite(store, ap));
    assert forall x :: x in pub ==> x.status == Published;
  }

  /** Every editorial transition keeps the collection well formed. */
  lemma TransitionPreserves(store: Store, id: nat, change: Article -> Article, message: string)
    requires WellFormed(store)
    requires forall a: Article :: change(a).id == a.id
    ensures WellFormed(Transition(store, id, change, message).store)
  {
    var r := Transition(store, id, change, message);
    if r.status == 200 {
      SavePreserves(store, change(Find(store, id).value));
    }
  }
}
