/** The admin endpoints of server/src/controllers/adminController.js: the
    approved listing, the guarded publish, and the user management handlers
    (role change and deletion). */
module AdminController {
  import opened Wrappers
  import opened JsStrings
  import opened Seqs
  import opened Articles
  import opened Auth
  import opened ArticleController

  /* ---------------- articles ---------------- */

  predicate IsApproved(a: Article) {
    a.status == Approved
  }

  /** `getApprovedArticles`: the approved articles, oldest first. */
  function ApprovedArticles(store: Store): (r: seq<Article>)
    ensures forall i :: 0 <= i < |r| ==> r[i].status == Approved && r[i] in store
    ensures forall i :: 0 <= i < |store| && store[i].status == Approved ==> store[i] in r
    ensures |r| == Count(store, IsApproved)
    ensures forall i, j :: 0 <= i < j < |r| ==> r[i].createdAt <= r[j].createdAt
  {
    var r := Listing(store, IsApproved, OldestFirst);
    OldestFirstOrder(r);
    r
  }

  const OnlyApprovedMessage: string := "Only approved articles can be published"
  const PublishedMessage: string := "Article published successfully"

  /** The admin `publishArticle`: 404 when missing, 400 unless the article
      is approved, otherwise status "published" and the publication time. */
  function PublishApproved(store: Store, id: nat, now: int): (r: Reply)
    ensures !HasId(store, id) ==> r.status == 404 && r.store == store
    ensures HasId(store, id) && Find(store, id).value.status != Approved ==>
              r.status == 400 && r.store == store
    ensures r.status == 200 ==>
              HasId(store, id) && Find(store, id).value.status == Approved
              && var a := Find(store, id).value.(status := Published, pubDate := now);
              r.article == Some(a) && r.store == Overwrite(store, a)
    ensures r.status != 200 ==> r.store == store
    ensures r.status == 200 ==> r.message == PublishedMessage
    ensures r.status == 400 ==> r.message == OnlyApprovedMessage
  {
    match Find(store, id)
    case None => Reply(404, NotFoundMessage, None, store)
    case Some(a) =>
      if a.status != Approved then Reply(400, OnlyApprovedMessage, None, store)
      else Transition(store, id, (a: Article) => a.(status := Published, pubDate := now), PublishedMessage)
  }

  /** On an approved article the guarded publish does what the unguarded one
      does, answering with its own message; on any other it refuses where the
      unguarded one publishes. */
  lemma GuardedPublishAgrees(store: Store, id: nat, now: int)
    requires WellFormed(store) && HasId(store, id)
    ensures Find(store, id).value.status == Approved ==>
              var guarded := PublishApproved(store, id, now);
              var unguarded := PublishArticle(store, id, now);
              guarded.status == unguarded.status && guarded.article == unguarded.article
              && guarded.store == unguarded.store
    ensures Find(store, id).value.status != Approved ==>
              PublishApproved(store, id, now).status == 400
              && PublishArticle(store, id, now).status == 200
  {
  }

  /** Through the admin endpoints a pending article cannot be published
      directly; once an editor has approved it, it can. */
  lemma ApprovalThenPublish(store: Store, id: nat, notes: string, t1: int, t2: int)
    requires WellFormed(store) && HasId(store, id)
    requires Find(store, id).value.status == Pending
    ensures PublishApproved(store, id, t2).status == 400
    ensures var approved := ApproveArticle(store, id, notes, t1).store;
            PublishApproved(approved, id, t2).status == 200
  {
    var a := Find(store, id).value;
    assert RequiredPresent(a) by {
      var k :| 0 <= k < |store| && store[k] == a;
    }
    var ap := a.(status := Approved, editorNotes := notes, approvedAt := Some(t1));
    var approved := ApproveArticle(store, id, notes, t1).store;
    assert approved == Overwrite(store, ap);
    FindOverwrite(store, ap);
  }

  /* ---------------- users ---------------- */

  /** A user handler's answer: the status code, the message and the user
      collection afterwards. */
  datatype UserReply = UserReply(status: nat, message: string, users: Users)

  /** The roles an admin may assign. */
  const AssignableRoles: seq<string> := [JournalistRole, EditorRole, AdminRole]

  /** Every user with this id given the role; everyone else untouched. */
  function SetRole(users: Users, id: nat, role: string): (r: Users)
    ensures |r| == |users|
    ensures forall i :: 0 <= i < |users| ==>
              r[i] == (if users[i].id == id then users[i].(role := role) else users[i])
  {
    seq(|users|, i requires 0 <= i < |users| => if users[i].id == id then users[i].(role := role) else users[i])
  }

  /** `updateUserRole`: changing one's own role is refused first, then a
      role outside the three, then an unknown user; otherwise only that
      user's role changes. */
  function UpdateUserRole(users: Users, requester: User, id: nat, role: string): (r: UserReply)
    ensures requester.id == id ==> r.status == 400 && r.users == users
    ensures requester.id != id && role !in AssignableRoles ==> r.status == 400 && r.users == users
    ensures r.status == 404 <==> requester.id != id && role in AssignableRoles && !HasUser(users, id)
    ensures r.status == 200 <==> requester.id != id && role in AssignableRoles && HasUser(users, id)
    ensures r.status == 200 ==> r.users == SetRole(users, id, role)
    ensures r.status != 200 ==> r.users == users
  {
    if requester.id == id then UserReply(400, "You cannot change your own role", users)
    else if role !in AssignableRoles then UserReply(400, "Invalid role", users)
    else if !HasUser(users, id) then UserReply(404, "User not found", users)
    else UserReply(200, "User role updated successfully", SetRole(users, id, role))
  }

  /** A successful role change touches nothing but the target's role: ids,
      names and e-mails are kept, and every other user keeps their role. */
  lemma RoleChangeOnlyRole(users: Users, requester: User, id: nat, role: string)
    requires UpdateUserRole(users, requester, id, role).status == 200
    ensures var after := UpdateUserRole(users, requester, id, role).users;
            |after| == |users|
            && (forall i :: 0 <= i < |users| ==>
                  after[i].id == users[i].id && after[i].name == users[i].name
                  && after[i].email == users[i].email)
            && (forall i :: 0 <= i < |users| && users[i].id != id ==> after[i] == users[i])
            && FindUser(after, id).Some? && FindUser(after, id).value.role == role
  {
  }

  /** An admin cannot demote themself, so the requester stays an admin. */
  lemma AdminKeepsOwnRole(users: Users, admin: User, role: string)
    ensures UpdateUserRole(users, admin, admin.id, role).users == users
    ensures UpdateUserRole(users, admin, admin.id, role).status == 400
  {
  }

  /** `deleteUser`: 404 when missing, else every record with that id removed. */
  function DeleteUser(users: Users, id: nat): (r: UserReply)
    ensures r.status == 404 <==> !HasUser(users, id)
    ensures r.status == 200 <==> HasUser(users, id)
    ensures r.status == 404 ==> r.users == users
    ensures r.status == 200 ==> !HasUser(r.users, id) && |r.users| < |users|
    ensures forall i :: 0 <= i < |users| && users[i].id != id ==> users[i] in r.users
  {
    if !HasUser(users, id) then UserReply(404, "User not found", users)
    else
      var rest := Filter(users, (u: User) => u.id != id);
      assert !HasUser(rest, id);
      assert |rest| < |users| by {
        var k :| 0 <= k < |users| && users[k].id == id;
        FilterCount(users, (u: User) => u.id != id);
      }
      UserReply(200, "User deleted successfully", rest)
  }

  /** Once deleted, a user can no longer be found, so a token that still
      verifies to their id is stopped by every guarded route with 401;
      every other user is still found. */
  lemma DeletedUserLockedOut(
    users: Users, id: nat, other: nat,
    roles: seq<string>, header: string, verify: string -> Option<nat>)
    requires HasUser(users, id)
    requires StartsWith(header, BearerScheme) && SecondField(header).Some?
    requires verify(SecondField(header).value) == Some(id)
    ensures var after := DeleteUser(users, id).users;
            FindUser(after, id).None?
            && Guard(roles, header, verify, after) == Deny(401, NotAuthenticatedMessage)
            && (other != id && HasUser(users, other) ==> FindUser(after, other).Some?)
  {
  }
}
