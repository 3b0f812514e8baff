/** The derived views: the title search of the article list (App.jsx:116-118),
    the home page's status filter (App.jsx:379-386), and the editor's tag parser
    and submission (App.jsx:457, App.jsx:466-473). */
module Views {
  import opened Records
  import opened Text
  import Seqs
  import Articles

  /** The search test: the lower-cased title includes the lower-cased query. */
  function TitleMatches(query: string): Article -> bool
  {
    (a: Article) => Contains(Lower(a.title), Lower(query))
  }

  /** `filteredArticles`: the articles whose title matches the query, in table order. */
  function Search(articles: seq<Article>, query: string): (r: seq<Article>)
    ensures forall a :: a in r ==> a in articles && Contains(Lower(a.title), Lower(query))
    ensures forall a :: a in articles && Contains(Lower(a.title), Lower(query)) ==> a in r
    ensures forall a ::
              multiset(r)[a] == if Contains(Lower(a.title), Lower(query)) then multiset(articles)[a] else 0
  {
    Seqs.Filter(TitleMatches(query), articles)
  }

  /** The search keeps the order of the articles it keeps. */
  lemma SearchKeepsOrder(articles: seq<Article>, query: string)
    ensures Seqs.IsSubsequence(Search(articles, query), articles)
  {
    Seqs.FilterIsSubsequence(TitleMatches(query), articles);
  }

  /** An empty query shows the whole table, unchanged and in order. */
  lemma SearchEmptyQuery(articles: seq<Article>)
    ensures Search(articles, "") == articles
  {
    forall a | a in articles ensures TitleMatches("")(a) {
      ContainsEmpty(Lower(a.title));
    }
    Seqs.FilterKeepsAll(TitleMatches(""), articles);
  }

  function HasStatus(s: Status): Article -> bool
  {
    (a: Article) => a.status == s
  }

  /** The list the home page shows for its status filter. */
  function StatusView(articles: seq<Article>, filter: StatusFilter): (r: seq<Article>)
    ensures filter == All ==> r == articles
    ensures filter == PublishedOnly ==>
      (forall a :: a in r <==> a in articles && a.status == Published)
    ensures filter == DraftsOnly ==>
      (forall a :: a in r <==> a in articles && a.status == Draft)
    ensures filter == PublishedOnly ==>
      (forall a :: multiset(r)[a] == if a.status == Published then multiset(articles)[a] else 0)
    ensures filter == DraftsOnly ==>
      (forall a :: multiset(r)[a] == if a.status == Draft then multiset(articles)[a] else 0)
  {
    match filter
    case All => articles
    case PublishedOnly => Seqs.Filter(HasStatus(Published), articles)
    case DraftsOnly => Seqs.Filter(HasStatus(Draft), articles)
  }

  /** The published and draft views keep table order and together hold every
      article exactly once by count. */
  lemma StatusPartition(articles: seq<Article>)
    ensures Seqs.IsSubsequence(StatusView(articles, PublishedOnly), articles)
    ensures Seqs.IsSubsequence(StatusView(articles, DraftsOnly), articles)
    ensures |StatusView(articles, PublishedOnly)| + |StatusView(articles, DraftsOnly)| == |articles|
  {
    Seqs.FilterIsSubsequence(HasStatus(Published), articles);
    Seqs.FilterIsSubsequence(HasStatus(Draft), articles);
    Seqs.FilterComplementLengths(HasStatus(Published), HasStatus(Draft), articles);
  }

  /** The home page's list keeps table order: the status view of the search is a
      subsequence of the search, which is a subsequence of the table. */
  lemma HomeViewOrder(articles: seq<Article>, query: string, filter: StatusFilter)
    ensures Seqs.IsSubsequence(StatusView(Search(articles, query), filter), articles)
  {
    var found := Search(articles, query);
    SearchKeepsOrder(articles, query);
    match filter
    case All =>
    case PublishedOnly =>
      Seqs.FilterIsSubsequence(HasStatus(Published), found);
      Seqs.SubsequenceTrans(StatusView(found, filter), found, articles);
    case DraftsOnly =>
      Seqs.FilterIsSubsequence(HasStatus(Draft), found);
      Seqs.SubsequenceTrans(StatusView(found, filter), found, articles);
  }

  /** `map(t => t.trim())`. */
  function TrimAll(parts: seq<string>): (r: seq<string>)
    ensures |r| == |parts|
    ensures forall i :: 0 <= i < |parts| ==> r[i] == Trim(parts[i])
  {
    seq(|parts|, i requires 0 <= i < |parts| => Trim(parts[i]))
  }

  /** `Boolean(t)` for a string: only the empty string is falsy. */
  function NonEmpty(t: string): (r: bool)
    ensures r <==> |t| > 0
  {
    t != ""
  }

  /** A tag the parser can produce: non-empty, trimmed, free of commas. */
  predicate WellFormedTag(t: string)
  {
    t != "" && IsTrimmed(t) && ',' !in t
  }

  /** Trimming a comma-free piece leaves it comma-free. */
  lemma TrimNoComma(p: string)
    requires ',' !in p
    ensures ',' !in Trim(p)
  {
    var a := TrimStart(p);
    forall i | 0 <= i < |a| ensures a[i] != ',' {
      assert a[i] == p[|p| - |a| + i];
    }
    var r := TrimEnd(a);
    forall i | 0 <= i < |r| ensures r[i] != ',' {
      assert r[i] == a[i];
    }
  }

  /** `tags.split(',').map(t => t.trim()).filter(Boolean)`. */
  function ParseTags(text: string): (r: seq<string>)
    ensures forall t :: t in r ==> WellFormedTag(t)
  {
    TrimmedPieces(text);
    Seqs.Filter(NonEmpty, TrimAll(Split(text)))
  }

  /** The trimmed pieces of a split are trimmed and comma-free. */
  lemma TrimmedPieces(text: string)
    ensures forall t :: t in TrimAll(Split(text)) ==> IsTrimmed(t) && ',' !in t
  {
    var pieces := Split(text);
    var trimmed := TrimAll(pieces);
    forall t | t in trimmed ensures IsTrimmed(t) && ',' !in t {
      var i :| 0 <= i < |pieces| && trimmed[i] == t;
      TrimNoComma(pieces[i]);
    }
  }

  /** The tags follow the comma-separated input: in order, they are among the
      trimmed pieces between the commas. */
  lemma ParseTagsOrder(text: string)
    ensures Seqs.IsSubsequence(ParseTags(text), TrimAll(Split(text)))
    ensures forall t ::
              multiset(ParseTags(text))[t] == if t != "" then multiset(TrimAll(Split(text)))[t] else 0
  {
    Seqs.FilterIsSubsequence(NonEmpty, TrimAll(Split(text)));
  }

  /** No piece between the commas that is not blank is lost. */
  lemma ParseTagsComplete(text: string)
    ensures forall p :: p in Split(text) && Trim(p) != "" ==> Trim(p) in ParseTags(text)
  {
    var pieces := Split(text);
    var trimmed := TrimAll(pieces);
    forall p | p in pieces && Trim(p) != "" ensures Trim(p) in trimmed {
      var i :| 0 <= i < |pieces| && pieces[i] == p;
      assert trimmed[i] == Trim(p);
    }
  }

  /** The editor shows `tags.join(',')`; saving that text unedited gives back well-formed tags. */
  lemma ParseJoinedTags(tags: seq<string>)
    requires forall t :: t in tags ==> WellFormedTag(t)
    ensures ParseTags(Join(tags)) == tags
  {
    if tags == [] {
      ParseNothing();
    } else {
      assert forall i :: 0 <= i < |tags| ==> WellFormedTag(tags[i]);
      SplitJoin(tags);
      TrimAllTrimmed(tags);
      Seqs.FilterKeepsAll(NonEmpty, tags);
    }
  }

  /** The empty tag field parses to no tags. */
  lemma ParseNothing()
    ensures ParseTags("") == []
  {
    assert Split("") == [""];
    assert Trim("") == "";
    assert TrimAll([""]) == [""];
    assert Seqs.Filter(NonEmpty, [""]) == [];
  }

  lemma TrimAllTrimmed(parts: seq<string>)
    requires forall t :: t in parts ==> IsTrimmed(t)
    ensures TrimAll(parts) == parts
  {
    forall i | 0 <= i < |parts| ensures TrimAll(parts)[i] == parts[i] {
      TrimTrimmed(parts[i]);
    }
  }

  /** The record `EditorPage.handleSave` passes to `saveArticle`: the edited
      title, content and parsed tags over the article being edited. */
  function EditorSubmission(a: Article, title: string, content: string, tagText: string): (r: Article)
    ensures r.id == a.id && r.status == a.status && r.authorId == a.authorId
    ensures r.createdAt == a.createdAt && r.updatedAt == a.updatedAt
    ensures r.title == title && r.content == content
    ensures r.tags == ParseTags(tagText)
    ensures forall t :: t in r.tags ==> WellFormedTag(t)
  {
    a.(title := title, content := content, tags := ParseTags(tagText))
  }

  /** Saving the editor unedited stores the article with only `updatedAt` changed,
      when its tags are already well-formed. */
  lemma UneditedSubmission(a: Article, now: Time)
    requires forall t :: t in a.tags ==> WellFormedTag(t)
    ensures Articles.Stamped(EditorSubmission(a, a.title, a.content, Join(a.tags)), now)
         == a.(updatedAt := now)
  {
    ParseJoinedTags(a.tags);
  }

  /** Create followed by an unedited save changes only the new draft's `updatedAt`,
      provided the new id is not already in the table. */
  lemma CreateThenSave(xs: seq<Article>, author: int, t1: Time, t2: Time)
    requires |xs| + 1 !in Articles.Ids(xs)
    ensures var d := Articles.NewDraft(|xs|, author, t1);
            Articles.ReplaceById([d] + xs,
              Articles.Stamped(EditorSubmission(d, d.title, d.content, Join(d.tags)), t2))
            == [d.(updatedAt := t2)] + xs
  {
    var d := Articles.NewDraft(|xs|, author, t1);
    UneditedSubmission(d, t2);
    Articles.ReplaceFreshHead(d, xs, d.(updatedAt := t2));
  }

  /** Every stored tag is one the parser can produce. */
  ghost predicate TagsWellFormed(xs: seq<Article>)
  {
    forall i, t :: 0 <= i < |xs| && t in xs[i].tags ==> WellFormedTag(t)
  }

  /** The seed's tags are well-formed. */
  lemma SeedTagsWellFormed(t0: Time)
    ensures TagsWellFormed(Articles.SeedArticles(t0))
  {
    var seed := Articles.SeedArticles(t0);
    assert "humanoid"[0] == 'h' && "humanoid"[7] == 'd';
    assert "safe"[0] == 's' && "safe"[3] == 'e';
    assert "structure"[0] == 's' && "structure"[8] == 'e';
    assert "euclid"[0] == 'e' && "euclid"[5] == 'd';
  }

  /** Saving from the editor keeps every stored tag well-formed, whatever is typed. */
  lemma SubmitKeepsTagsWellFormed(xs: seq<Article>, a: Article, title: string, content: string,
                                  tagText: string, now: Time)
    requires TagsWellFormed(xs)
    ensures TagsWellFormed(Articles.ReplaceById(xs,
              Articles.Stamped(EditorSubmission(a, title, content, tagText), now)))
  {
    var u := Articles.Stamped(EditorSubmission(a, title, content, tagText), now);
    var r := Articles.ReplaceById(xs, u);
    forall i, t | 0 <= i < |r| && t in r[i].tags ensures WellFormedTag(t) {
      if xs[i].id == u.id {
        assert r[i] == u;
      } else {
        assert r[i] == xs[i];
      }
    }
  }

  /** When the new draft's id is already taken, its unedited save overwrites the
      older record too (as after deleting SCP-001 from the seed and creating). */
  lemma SaveUnderReusedIdOverwrites(d: Article, older: Article, now: Time)
    requires older.id == d.id
    requires forall t :: t in d.tags ==> WellFormedTag(t)
    ensures Articles.ReplaceById([d, older],
              Articles.Stamped(EditorSubmission(d, d.title, d.content, Join(d.tags)), now))
            == [d.(updatedAt := now), d.(updatedAt := now)]
  {
    UneditedSubmission(d, now);
    Articles.ReplaceBothSharing(d, older, d.(updatedAt := now));
  }

  /** The seed scenario after SCP-001 is deleted and user 1 creates a draft, which
      takes id 2: saving the draft unedited leaves two copies of it and no SCP-002. */
  lemma IdReuseSave(t0: Time, t1: Time, t2: Time)
    ensures var d := Articles.NewDraft(1, 1, t1);
            var saved := d.(updatedAt := t2);
            Articles.ReplaceById([d, Articles.SeedArticles(t0)[1]],
              Articles.Stamped(EditorSubmission(d, Articles.DraftTitle, Articles.DraftContent, ""), t2))
            == [saved, saved]
            && saved.id == 2 && saved.title == Articles.DraftTitle
            && saved.title != Articles.Scp002Title
  {
    var d := Articles.NewDraft(1, 1, t1);
    assert Join(d.tags) == "";
    SaveUnderReusedIdOverwrites(d, Articles.SeedArticles(t0)[1], t2);
    assert Articles.DraftTitle[0] != Articles.Scp002Title[0];
  }

  /** Every character of an included string occurs in the including string. */
  lemma ContainsChar(s: string, sub: string, c: char)
    requires Contains(s, sub) && c in sub
    ensures c in s
  {
    ContainsIff(s, sub);
    var i :| OccursAt(s, sub, i);
    var j :| 0 <= j < |sub| && sub[j] == c;
    assert s[i + j] == s[i..i + |sub|][j];
  }

  /** SCP-001's title does not include "002": it has no '2'. */
  lemma Scp001TitleLacksQuery()
    ensures !Contains(Lower(Articles.Scp001Title), Lower("002"))
  {
    var low := Lower(Articles.Scp001Title);
    assert Lower("002") == "002";
    assert forall i :: 0 <= i < |low| ==> low[i] == LowerChar(Articles.Scp001Title[i]) != '2';
    if Contains(low, "002") {
      ContainsChar(low, "002", '2');
      assert false;
    }
  }

  /** SCP-002's title includes "002" at position 4. */
  lemma Scp002TitleHasQuery()
    ensures Contains(Lower(Articles.Scp002Title), Lower("002"))
  {
    var low := Lower(Articles.Scp002Title);
    assert Lower("002") == "002";
    assert low[4..7] == "002";
    assert OccursAt(low, "002", 4);
    ContainsIff(low, "002");
  }

  /** The seed scenario: searching "002" finds only SCP-002. */
  lemma SeedSearch(t0: Time)
    ensures Search(Articles.SeedArticles(t0), "002") == [Articles.SeedArticles(t0)[1]]
  {
    var seed := Articles.SeedArticles(t0);
    Scp001TitleLacksQuery();
    Scp002TitleHasQuery();
    assert seed[1..] == [seed[1]];
    assert Search(seed, "002") == Search([seed[1]], "002");
    assert Search([seed[1]], "002") == [seed[1]] + Search([], "002");
  }

  /** The seed scenario: the published view shows only SCP-001, the draft view only SCP-002. */
  lemma SeedStatusViews(t0: Time)
    ensures StatusView(Articles.SeedArticles(t0), PublishedOnly) == [Articles.SeedArticles(t0)[0]]
    ensures StatusView(Articles.SeedArticles(t0), DraftsOnly) == [Articles.SeedArticles(t0)[1]]
  {
    var seed := Articles.SeedArticles(t0);
    assert seed[1..] == [seed[1]];
    assert [seed[1]][1..] == [];
    var published, drafts := HasStatus(Published), HasStatus(Draft);
    assert Seqs.Filter(published, seed) == [seed[0]] + Seqs.Filter(published, [seed[1]]);
    assert Seqs.Filter(published, [seed[1]]) == Seqs.Filter(published, []);
    assert Seqs.Filter(drafts, seed) == Seqs.Filter(drafts, [seed[1]]);
    assert Seqs.Filter(drafts, [seed[1]]) == [seed[1]] + Seqs.Filter(drafts, []);
  }
}
