/** The article record of server/src/models/Article.js, its status enumeration,
    and the collection as an in-memory sequence with the three persistence
    operations the controllers and workers use: insert, save (validate, then
    overwrite by id) and delete. */
module Articles {
  import opened Wrappers
  import opened Seqs

  /** The editorial workflow states. */
  datatype Status = Staged | Pending | Approved | Published | Rejected

  /** The stored spelling of a status. */
  function StatusName(s: Status): string {
    match s
    case Staged => "staged"
    case Pending => "pending"
    case Approved => "approved"
    case Published => "published"
    case Rejected => "rejected"
  }

  /** Enum validation: a status string is accepted iff it is one of the five names. */
  function ParseStatus(s: string): (r: Option<Status>)
    ensures r.Some? ==> StatusName(r.value) == s
  {
    if s == "staged" then Some(Staged)
    else if s == "pending" then Some(Pending)
    else if s == "approved" then Some(Approved)
    else if s == "published" then Some(Published)
    else if s == "rejected" then Some(Rejected)
    else None
  }

  /** Every status survives the trip through its stored name, so the names are distinct. */
  lemma ParseStatusName(st: Status)
    ensures ParseStatus(StatusName(st)) == Some(st)
  {
  }

  /** A string is a valid status iff it is the name of one. */
  lemma ParseStatusComplete(s: string)
    ensures ParseStatus(s).Some? <==> exists st: Status :: StatusName(st) == s
  {
  }

  /** The schema default. */
  const DefaultStatus: Status := Staged

  /** The `source` sub-document. */
  datatype SourceInfo = SourceInfo(name: Option<string>, url: Option<string>, feedUrl: Option<string>)

  /** `{}` */
  const EmptySource: SourceInfo := SourceInfo(None, None, None)

  /** A stored article. Optional strings the schema leaves unset are "";
      `contentHash`, `originalUrl` and `authorId` are `None` when unset, because
      queries on them must not match records that lack them. Times are milliseconds. */
  datatype Article = Article(
    id: nat,
    title: string,
    summary: string,
    content: string,
    contentHash: Option<string>,
    category: string,
    tags: seq<string>,
    source: SourceInfo,
    originalUrl: Option<string>,
    authorId: Option<nat>,
    authorName: string,
    status: Status,
    editorNotes: string,
    approvedAt: Option<int>,
    images: seq<string>,
    pubDate: int,
    createdAt: int)

  /** Mongoose's `required` on a String rejects a missing value and "". */
  predicate RequiredPresent(a: Article) {
    a.title != "" && a.content != ""
  }

  /** The collection. `contentHash` and `originalUrl` are indexed but not
      unique, so nothing here forbids two records sharing either. */
  type Store = seq<Article>

  /** Document ids are unique. */
  ghost predicate UniqueIds(store: Store) {
    forall i, j :: 0 <= i < j < |store| ==> store[i].id != store[j].id
  }

  /** Every stored record passed validation. */
  ghost predicate AllValid(store: Store) {
    forall i :: 0 <= i < |store| ==> RequiredPresent(store[i])
  }

  /** The collection invariant: unique ids, every record valid. */
  ghost predicate WellFormed(store: Store) {
    UniqueIds(store) && AllValid(store)
  }

  /** Some record has this id. */
  predicate HasId(store: Store, id: nat) {
    exists i :: 0 <= i < |store| && store[i].id == id
  }

  /** `findById(id)` */
  function Find(store: Store, id: nat): (r: Option<Article>)
    ensures r.Some? <==> HasId(store, id)
    ensures r.Some? ==> r.value in store && r.value.id == id
    decreases |store|
  {
    if |store| == 0 then None
    else if store[0].id == id then Some(store[0])
    else
      assert forall i :: 0 < i < |store| ==> store[i] == store[1..][i - 1];
      Find(store[1..], id)
  }

  /** With unique ids, the record found is the one at that id's position. */
  lemma FindUnique(store: Store, k: nat)
    requires UniqueIds(store) && k < |store|
    ensures Find(store, store[k].id) == Some(store[k])
  {
  }

  /** The id the database assigns to a new record: one not in use. */
  function FreshId(store: Store): (id: nat)
    ensures !HasId(store, id)
    ensures forall i :: 0 <= i < |store| ==> store[i].id < id
    decreases |store|
  {
    if |store| == 0 then 0
    else
      var rest := FreshId(store[1..]);
      assert forall i :: 0 < i < |store| ==> store[i] == store[1..][i - 1];
      if store[0].id < rest then rest else store[0].id + 1
  }

  /** The record with `a`'s id overwritten by `a`; everything else untouched. */
  function Overwrite(store: Store, a: Article): (r: Store)
    ensures |r| == |store|
    ensures forall i :: 0 <= i < |r| ==> r[i] == (if store[i].id == a.id then a else store[i])
  {
    seq(|store|, i requires 0 <= i < |store| => if store[i].id == a.id then a else store[i])
  }

  /** After an overwrite, looking the id up finds the new record. */
  lemma FindOverwrite(store: Store, a: Article)
    requires HasId(store, a.id)
    ensures Find(Overwrite(store, a), a.id) == Some(a)
  {
  }

  /** `doc.save()`: validation first; a record failing it is not written. */
  function Save(store: Store, a: Article): (r: Option<Store>)
    ensures r.Some? <==> RequiredPresent(a)
    ensures r.Some? ==> r.value == Overwrite(store, a)
  {
    if RequiredPresent(a) then Some(Overwrite(store, a)) else None
  }

  /** `new Article(doc).save()` for a fresh id: validation, then one more record. */
  function Insert(store: Store, a: Article): (r: Option<Store>)
    ensures r.Some? <==> RequiredPresent(a)
    ensures r.Some? ==> r.value == store + [a]
  {
    if RequiredPresent(a) then Some(store + [a]) else None
  }

  /** `deleteOne()` on the record with this id. */
  function Delete(store: Store, id: nat): (r: Store)
    ensures |r| <= |store|
    ensures !HasId(r, id)
    ensures forall i :: 0 <= i < |store| && store[i].id != id ==> store[i] in r
    ensures forall i :: 0 <= i < |r| ==> r[i] in store && r[i].id != id
  {
    Filter(store, (a: Article) => a.id != id)
  }

  /** Saving a valid record over an existing one keeps the collection well formed. */
  lemma SavePreserves(store: Store, a: Article)
    requires WellFormed(store) && HasId(store, a.id) && RequiredPresent(a)
    ensures Save(store, a).Some? && WellFormed(Save(store, a).value)
  {
  }

  /** Inserting a valid record under a fresh id keeps the collection well formed. */
  lemma InsertPreserves(store: Store, a: Article)
    requires WellFormed(store) && !HasId(store, a.id) && RequiredPresent(a)
    ensures Insert(store, a).Some? && WellFormed(Insert(store, a).value)
  {
  }

  /** Deleting keeps the collection well formed. */
  lemma DeletePreserves(store: Store, id: nat)
    requires WellFormed(store)
    ensures WellFormed(Delete(store, id))
  {
    var r := Delete(store, id);
    forall i | 0 <= i < |r| ensures RequiredPresent(r[i]) {
      var k :| 0 <= k < |store| && store[k] == r[i];
    }
    DeleteDistinct(store, id);
  }

  /** Filtering keeps ids distinct. */
  lemma {:induction false} DeleteDistinct(store: Store, id: nat)
    requires UniqueIds(store)
    ensures UniqueIds(Delete(store, id))
    decreases |store|
  {
    if |store| > 0 {
      var rest := store[1..];
      assert UniqueIds(rest) by {
        forall i, j | 0 <= i < j < |rest| ensures rest[i].id != rest[j].id {
          assert rest[i] == store[i + 1] && rest[j] == store[j + 1];
        }
      }
      DeleteDistinct(rest, id);
      var r := Delete(store, id);
      var rr := Delete(rest, id);
      if store[0].id != id {
        assert r == [store[0]] + rr;
        forall j | 0 < j < |r| ensures r[0].id != r[j].id {
          assert r[j] == rr[j - 1];
          var k :| 0 <= k < |rest| && rest[k] == rr[j - 1];
          assert rest[k] == store[k + 1];
        }
      } else {
        assert r == rr;
      }
    }
  }
}
