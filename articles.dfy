/** The article table and the transformations the article handlers apply to it
    (App.jsx:58-113, App.jsx:627-648). Ids are `length + 1` at creation and are
    NOT unique after a deletion, so every operation acts on all records with the id. */
module Articles {
  import opened Records
  import Seqs

  /** The two seeded articles; both timestamps are the clock reading at start-up. */
  function SeedArticles(t: Time): (r: seq<Article>)
    ensures Ids(r) == [1, 2]
    ensures r[0].title == Scp001Title && r[0].status == Published && r[0].authorId == 1
    ensures r[1].title == Scp002Title && r[1].status == Draft && r[1].authorId == 2
    ensures forall a :: a in r ==> a.createdAt == a.updatedAt == t
  {
    [ Article(1, Scp001Title,
        Scp001Content,
        ["humanoid", "safe"], Published, 1, t, t),
      Article(2, Scp002Title,
        Scp002Content,
        ["structure", "euclid"], Draft, 2, t, t) ]
  }

  const Scp001Title: string := "SCP-001 - The Seed"
  const Scp002Title: string := "SCP-002 - The Vault"
  const Scp001Content: string :=
    "# Special Containment Procedures\n\nSecure in standard humanoid containment chamber at Site-77.\n\n# Description\n\nSCP-001 is a humanoid male with no anomalous properties."
  const Scp002Content: string :=
    "# Special Containment Procedures\n\nMaintain pressure of 50psi within the chamber.\n\n# Description\n\nA spherical chamber made of unknown alloy."

  const DraftTitle: string := "Новый объект"
  const DraftContent: string := "# Специальные меры содержания\n\n\n# Описание\n\n"

  /** `user?.id || 1`: the signed-in user's id, or 1 when nobody is signed in or the id is 0. */
  function AuthorOf(user: Option<User>): (r: int)
    ensures r != 0
    ensures user.Some? && user.value.id != 0 ==> r == user.value.id
    ensures user.None? || user.value.id == 0 ==> r == 1
  {
    match user
    case Some(u) => if u.id != 0 then u.id else 1
    case None => 1
  }

  /** The draft `createNewArticle` builds for a table of `count` records. */
  function NewDraft(count: nat, author: int, now: Time): (a: Article)
    ensures a.id == count + 1 && a.status == Draft && a.tags == []
    ensures a.createdAt == a.updatedAt == now && a.authorId == author
    ensures a.title == DraftTitle && a.content == DraftContent
  {
    Article(count + 1, DraftTitle, DraftContent, [], Draft, author, now, now)
  }

  /** The record `saveArticle` stores: the argument with a fresh `updatedAt`. */
  function Stamped(a: Article, now: Time): (r: Article)
    ensures r.updatedAt == now
    ensures r.(updatedAt := a.updatedAt) == a
  {
    a.(updatedAt := now)
  }

  /** The status `togglePublishStatus` assigns: published becomes draft, anything else published. */
  function Flipped(s: Status): (r: Status)
    ensures r != s
    ensures s == Published ==> r == Draft
  {
    if s == Published then Draft else Published
  }

  /** The record `togglePublishStatus` stores: status flipped, `updatedAt` refreshed. */
  function Toggled(a: Article, now: Time): (r: Article)
    ensures r.status == Flipped(a.status) && r.updatedAt == now
    ensures r.(status := a.status, updatedAt := a.updatedAt) == a
  {
    a.(status := Flipped(a.status), updatedAt := now)
  }

  /** Toggling twice restores the status and every field but `updatedAt`. */
  lemma ToggleTwice(a: Article, t1: Time, t2: Time)
    ensures Toggled(Toggled(a, t1), t2) == Stamped(a, t2)
  {
  }

  /** `articles.map(a => a.id === u.id ? u : a)`: every record with `u`'s id becomes `u`. */
  function ReplaceById(xs: seq<Article>, u: Article): (r: seq<Article>)
    ensures |r| == |xs|
    ensures forall i :: 0 <= i < |xs| && xs[i].id == u.id ==> r[i] == u
    ensures forall i :: 0 <= i < |xs| && xs[i].id != u.id ==> r[i] == xs[i]
    decreases |xs|
  {
    if xs == [] then []
    else [if xs[0].id == u.id then u else xs[0]] + ReplaceById(xs[1..], u)
  }

  /** The ids, in table order. */
  function Ids(xs: seq<Article>): (r: seq<int>)
    ensures |r| == |xs| && forall i :: 0 <= i < |xs| ==> r[i] == xs[i].id
  {
    seq(|xs|, i requires 0 <= i < |xs| => xs[i].id)
  }

  /** Replacing by id never changes the id column. */
  lemma ReplaceKeepsIds(xs: seq<Article>, u: Article)
    ensures Ids(ReplaceById(xs, u)) == Ids(xs)
  {
  }

  /** With no record carrying `u`'s id, the replacement changes nothing. */
  lemma ReplaceMissing(xs: seq<Article>, u: Article)
    requires u.id !in Ids(xs)
    ensures ReplaceById(xs, u) == xs
  {
    var r := ReplaceById(xs, u);
    forall i | 0 <= i < |xs| ensures r[i] == xs[i] {
      assert Ids(xs)[i] == xs[i].id;
    }
  }

  /** Replacing the head under an id the rest of the table does not use
      touches only the head. */
  lemma ReplaceFreshHead(x: Article, xs: seq<Article>, u: Article)
    requires u.id == x.id && u.id !in Ids(xs)
    ensures ReplaceById([x] + xs, u) == [u] + xs
  {
    ReplaceMissing(xs, u);
    assert ([x] + xs)[1..] == xs;
  }

  /** Two records sharing `u`'s id are both overwritten by one replacement. */
  lemma ReplaceBothSharing(x: Article, y: Article, u: Article)
    requires x.id == u.id && y.id == u.id
    ensures ReplaceById([x, y], u) == [u, u]
  {
    var r := ReplaceById([x, y], u);
    assert [x, y][0].id == u.id && [x, y][1].id == u.id;
    assert r[0] == u && r[1] == u;
  }

  /** A second replacement under the same id overrides the first. */
  lemma ReplaceTwice(xs: seq<Article>, u: Article, v: Article)
    requires u.id == v.id
    ensures ReplaceById(ReplaceById(xs, u), v) == ReplaceById(xs, v)
  {
  }

  /** Toggling the same article twice leaves the table as one save of it would. */
  lemma ToggleTwiceInTable(xs: seq<Article>, a: Article, t1: Time, t2: Time)
    ensures ReplaceById(ReplaceById(xs, Toggled(a, t1)), Toggled(Toggled(a, t1), t2))
         == ReplaceById(xs, Stamped(a, t2))
  {
    ReplaceTwice(xs, Toggled(a, t1), Toggled(Toggled(a, t1), t2));
    ToggleTwice(a, t1, t2);
  }

  /** The test of `deleteArticle`'s filter, `a.id !== id`, and its complement. */
  function HasOtherId(id: int): Article -> bool
  {
    (a: Article) => a.id != id
  }

  function HasId(id: int): Article -> bool
  {
    (a: Article) => a.id == id
  }

  /** `articles.filter(a => a.id !== id)`. */
  function RemoveById(xs: seq<Article>, id: int): (r: seq<Article>)
    ensures forall a :: a in r ==> a in xs && a.id != id
    ensures forall a :: a in xs && a.id != id ==> a in r
    ensures id !in Ids(r)
  {
    var r := Seqs.Filter(HasOtherId(id), xs);
    assert forall i :: 0 <= i < |r| ==> Ids(r)[i] == r[i].id && r[i] in r;
    r
  }

  /** Deletion keeps the order of the records it keeps, and drops exactly the
      records with the id: what remains and what was dropped add up to the table. */
  lemma RemoveKeepsOrder(xs: seq<Article>, id: int)
    ensures Seqs.IsSubsequence(RemoveById(xs, id), xs)
    ensures |RemoveById(xs, id)| + |Seqs.Filter(HasId(id), xs)| == |xs|
  {
    Seqs.FilterIsSubsequence(HasOtherId(id), xs);
    Seqs.FilterComplementLengths(HasOtherId(id), HasId(id), xs);
  }

  /** Deleting an id that is absent leaves the table as it is. */
  lemma RemoveMissing(xs: seq<Article>, id: int)
    requires id !in Ids(xs)
    ensures RemoveById(xs, id) == xs
  {
    forall a | a in xs ensures a.id != id {
      var i :| 0 <= i < |xs| && xs[i] == a;
      assert Ids(xs)[i] == a.id;
    }
    Seqs.FilterKeepsAll(HasOtherId(id), xs);
  }

  /** Deleting id 1 from the seed leaves SCP-002 alone. */
  lemma SeedWithoutScp001(t0: Time)
    ensures RemoveById(SeedArticles(t0), 1) == [SeedArticles(t0)[1]]
  {
    var seed := SeedArticles(t0);
    assert seed[1..] == [seed[1]];
    assert Seqs.Filter(HasOtherId(1), seed) == Seqs.Filter(HasOtherId(1), [seed[1]]);
    assert Seqs.Filter(HasOtherId(1), [seed[1]]) == [seed[1]] + Seqs.Filter(HasOtherId(1), []);
  }

  /** Ids are reused: delete SCP-001 from the seed, create an article, and two
      records carry id 2. */
  lemma IdReuseAfterDelete(t0: Time, now: Time, author: int)
    ensures var left := RemoveById(SeedArticles(t0), 1);
            var after := [NewDraft(|left|, author, now)] + left;
            |after| == 2 && after[0].id == 2 && after[1].id == 2
            && after[1].title == Scp002Title
  {
    SeedWithoutScp001(t0);
  }
}
