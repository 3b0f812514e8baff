/** The state held by the `App` component (App.jsx:7-126): the session, the view
    state, the article table, and the mock user table its handlers push into. */
module AppState {
  import opened Records
  import opened Text
  import Seqs
  import Users
  import Articles
  import Views

  class App {
    var users: seq<User>                 // mockDB.users, appended to by registration
    var user: Option<User>               // the signed-in user, or null
    var activeTab: Tab
    var articles: seq<Article>
    var currentArticle: Option<Article>
    var searchQuery: string
    var editMode: bool
    var notification: Notification       // the last message shown, with its kind

    /** The user table keeps distinct names and ids equal to position plus one,
        and the session user is always one of its records. */
    ghost predicate Valid()
      reads this
    {
      && Users.DistinctNames(users)
      && Users.SequentialIds(users)
      && (user.Some? ==> user.value in users)
    }

    /** The initial state: the seeded tables, nobody signed in, the home tab. */
    constructor (t0: Time)
      ensures Valid()
      ensures users == Users.SeedUsers() && articles == Articles.SeedArticles(t0)
      ensures user == None && activeTab == Home && currentArticle == None
      ensures searchQuery == "" && !editMode && notification == Hidden
    {
      users := Users.SeedUsers();
      user := None;
      activeTab := Home;
      articles := Articles.SeedArticles(t0);
      currentArticle := None;
      searchQuery := "";
      editMode := false;
      notification := Hidden;
    }

    /** `handleLogin`: succeeds iff some user has both the name and the password;
        then the first such user is signed in and the home tab shown. */
    method Login(username: string, password: string) returns (ok: bool)
      requires Valid()
      modifies this
      ensures Valid()
      ensures ok <==> exists i :: 0 <= i < |users| && Users.Matches(users[i], username, password)
      ensures ok ==> user.Some? && Users.Matches(user.value, username, password)
      ensures ok ==> user == Some(users[Users.FirstMatch(users, username, password).value])
      ensures ok ==> activeTab == Home && notification == Shown(LoggedIn, Success)
      ensures !ok ==> user == old(user) && activeTab == old(activeTab)
      ensures !ok ==> notification == Shown(BadCredentials, Error)
      ensures users == old(users) && articles == old(articles)
      ensures currentArticle == old(currentArticle) && editMode == old(editMode)
      ensures searchQuery == old(searchQuery)
    {
      var found := Users.FirstMatch(users, username, password);
      if found.Some? {
        user := Some(users[found.value]);
        activeTab := Home;
        notification := Shown(LoggedIn, Success);
        ok := true;
      } else {
        notification := Shown(BadCredentials, Error);
        ok := false;
      }
    }

    /** `handleRegister`: a taken name changes nothing but the notification;
        otherwise one user is appended with the next id and role 'user', and signed in. */
    method Register(username: string, password: string) returns (ok: bool)
      requires Valid()
      modifies this
      ensures Valid()
      ensures ok <==> !Users.NameTaken(old(users), username)
      ensures !ok ==> users == old(users) && user == old(user) && activeTab == old(activeTab)
      ensures !ok ==> notification == Shown(NameTaken, Error)
      ensures ok ==> users == old(users) + [Users.NewUser(old(users), username, password)]
      ensures ok ==> user == Some(Users.NewUser(old(users), username, password))
      ensures ok ==> activeTab == Home && notification == Shown(Registered, Success)
      ensures articles == old(articles) && currentArticle == old(currentArticle)
      ensures editMode == old(editMode) && searchQuery == old(searchQuery)
    {
      if Users.NameTaken(users, username) {
        notification := Shown(NameTaken, Error);
        ok := false;
        return;
      }
      var newUser := Users.NewUser(users, username, password);
      Users.RegisterKeepsTable(users, username, password);
      users := users + [newUser];
      user := Some(newUser);
      activeTab := Home;
      notification := Shown(Registered, Success);
      ok := true;
    }

    /** The header's logout: only the session user is cleared. */
    method Logout()
      requires Valid()
      modifies this
      ensures Valid()
      ensures user == None
      ensures users == old(users) && activeTab == old(activeTab) && articles == old(articles)
      ensures currentArticle == old(currentArticle) && editMode == old(editMode)
      ensures searchQuery == old(searchQuery) && notification == old(notification)
    {
      user := None;
    }

    /** `createNewArticle`: a draft with id `length + 1` is prepended and opened for editing. */
    method CreateNewArticle(now: Time)
      requires Valid()
      modifies this
      ensures Valid()
      ensures articles == [Articles.NewDraft(|old(articles)|, Articles.AuthorOf(user), now)] + old(articles)
      ensures currentArticle == Some(articles[0])
      ensures editMode && activeTab == Editor
      ensures users == old(users) && user == old(user)
      ensures searchQuery == old(searchQuery) && notification == old(notification)
    {
      var draft := Articles.NewDraft(|articles|, Articles.AuthorOf(user), now);
      articles := [draft] + articles;
      currentArticle := Some(draft);
      editMode := true;
      activeTab := Editor;
    }

    /** `saveArticle`: every record with the argument's id becomes the argument
        with a fresh `updatedAt`; edit mode ends. */
    method SaveArticle(a: Article, now: Time)
      requires Valid()
      modifies this
      ensures Valid()
      ensures articles == Articles.ReplaceById(old(articles), Articles.Stamped(a, now))
      ensures currentArticle == Some(Articles.Stamped(a, now))
      ensures !editMode && notification == Shown(ArticleSaved, Success)
      ensures users == old(users) && user == old(user) && activeTab == old(activeTab)
      ensures searchQuery == old(searchQuery)
    {
      var updated := Articles.Stamped(a, now);
      articles := Articles.ReplaceById(articles, updated);
      currentArticle := Some(updated);
      editMode := false;
      notification := Shown(ArticleSaved, Success);
    }

    /** `EditorPage.handleSave` followed by `saveArticle`: the open article with the
        edited title, content and parsed tags is saved. The editor only exists
        while an article is selected. */
    method SubmitEditor(title: string, content: string, tagText: string, now: Time)
      requires Valid() && currentArticle.Some?
      modifies this
      ensures Valid()
      ensures articles == Articles.ReplaceById(old(articles),
        Articles.Stamped(Views.EditorSubmission(old(currentArticle).value, title, content, tagText), now))
      ensures currentArticle == Some(Articles.Stamped(
        Views.EditorSubmission(old(currentArticle).value, title, content, tagText), now))
      ensures currentArticle.value.tags == Views.ParseTags(tagText)
      ensures !editMode && notification == Shown(ArticleSaved, Success)
      ensures users == old(users) && user == old(user) && activeTab == old(activeTab)
      ensures searchQuery == old(searchQuery)
      ensures Views.TagsWellFormed(old(articles)) ==> Views.TagsWellFormed(articles)
    {
      var submitted := Views.EditorSubmission(currentArticle.value, title, content, tagText);
      if Views.TagsWellFormed(articles) {
        Views.SubmitKeepsTagsWellFormed(articles, currentArticle.value, title, content, tagText, now);
      }
      SaveArticle(submitted, now);
    }

    /** `deleteArticle`: without confirmation nothing changes; with it every record
        with the id is dropped, and an open article with that id is closed. */
    method DeleteArticle(id: int, confirmed: bool)
      requires Valid()
      modifies this
      ensures Valid()
      ensures !confirmed ==> articles == old(articles) && currentArticle == old(currentArticle)
                             && activeTab == old(activeTab) && notification == old(notification)
      ensures confirmed ==> articles == Articles.RemoveById(old(articles), id)
      ensures confirmed ==> notification == Shown(ArticleDeleted, Success)
      ensures confirmed && old(currentArticle).Some? && old(currentArticle).value.id == id ==>
                currentArticle == None && activeTab == Home
      ensures !(confirmed && old(currentArticle).Some? && old(currentArticle).value.id == id) ==>
                currentArticle == old(currentArticle) && activeTab == old(activeTab)
      ensures users == old(users) && user == old(user) && editMode == old(editMode)
      ensures searchQuery == old(searchQuery)
    {
      if confirmed {
        articles := Articles.RemoveById(articles, id);
        if currentArticle.Some? && currentArticle.value.id == id {
          currentArticle := None;
          activeTab := Home;
        }
        notification := Shown(ArticleDeleted, Success);
      }
    }

    /** `togglePublishStatus`: every record with the argument's id becomes the
        argument with its status flipped and a fresh `updatedAt`. */
    method TogglePublishStatus(a: Article, now: Time)
      requires Valid()
      modifies this
      ensures Valid()
      ensures articles == Articles.ReplaceById(old(articles), Articles.Toggled(a, now))
      ensures currentArticle == Some(Articles.Toggled(a, now))
      ensures a.status == Published ==> notification == Shown(ArticleUnpublished, Success)
      ensures a.status != Published ==> notification == Shown(ArticlePublished, Success)
      ensures users == old(users) && user == old(user) && activeTab == old(activeTab)
      ensures editMode == old(editMode) && searchQuery == old(searchQuery)
    {
      var updated := Articles.Toggled(a, now);
      articles := Articles.ReplaceById(articles, updated);
      currentArticle := Some(updated);
      var message := if updated.status == Published then ArticlePublished else ArticleUnpublished;
      notification := Shown(message, Success);
    }

    /** `setActiveTab`, as called by the header, landing and sign-in pages. */
    method Navigate(tab: Tab)
      requires Valid()
      modifies this
      ensures Valid() && activeTab == tab
      ensures users == old(users) && user == old(user) && articles == old(articles)
      ensures currentArticle == old(currentArticle) && editMode == old(editMode)
      ensures searchQuery == old(searchQuery) && notification == old(notification)
    {
      activeTab := tab;
    }

    /** The home page's `onSelectArticle`: only `currentArticle` is set. */
    method SelectArticle(a: Article)
      requires Valid()
      modifies this
      ensures Valid() && currentArticle == Some(a)
      ensures users == old(users) && user == old(user) && articles == old(articles)
      ensures activeTab == old(activeTab) && editMode == old(editMode)
      ensures searchQuery == old(searchQuery) && notification == old(notification)
    {
      currentArticle := Some(a);
    }

    /** The editor's edit/cancel button: `setEditMode(!editMode)`. */
    method ToggleEditMode()
      requires Valid()
      modifies this
      ensures Valid() && editMode == !old(editMode)
      ensures users == old(users) && user == old(user) && articles == old(articles)
      ensures activeTab == old(activeTab) && currentArticle == old(currentArticle)
      ensures searchQuery == old(searchQuery) && notification == old(notification)
    {
      editMode := !editMode;
    }

    /** The search box's `onSearchChange`. */
    method SetSearchQuery(query: string)
      requires Valid()
      modifies this
      ensures Valid() && searchQuery == query
      ensures users == old(users) && user == old(user) && articles == old(articles)
      ensures activeTab == old(activeTab) && currentArticle == old(currentArticle)
      ensures editMode == old(editMode) && notification == old(notification)
    {
      searchQuery := query;
    }

    /** The list the home page shows: the search result, then the status filter.
        It holds exactly the articles whose title matches and whose status the
        filter admits, in table order. */
    function HomeList(filter: StatusFilter): (r: seq<Article>)
      reads this
      ensures forall a :: a in r <==>
        a in articles && Contains(Lower(a.title), Lower(searchQuery))
        && (filter == All || a.status == (if filter == PublishedOnly then Published else Draft))
      ensures forall a ::
                multiset(r)[a] ==
                  if Contains(Lower(a.title), Lower(searchQuery))
                     && (filter == All || a.status == (if filter == PublishedOnly then Published else Draft))
                  then multiset(articles)[a] else 0
      ensures Seqs.IsSubsequence(r, articles)
      ensures searchQuery == "" && filter == All ==> r == articles
    {
      Views.SearchEmptyQuery(articles);
      Views.HomeViewOrder(articles, searchQuery, filter);
      Views.StatusView(Views.Search(articles, searchQuery), filter)
    }
  }

  /** The credentials of the seed: "admin"/"admin123" signs in the administrator,
      a wrong password signs in nobody. */
  lemma SeedLogins()
    ensures Users.FirstMatch(Users.SeedUsers(), "admin", "admin123") == Some(0)
    ensures Users.SeedUsers()[0].role == Admin
    ensures Users.FirstMatch(Users.SeedUsers(), "admin", "wrong").None?
  {
    Users.MatchUnique(Users.SeedUsers(), "admin", "admin123", 0);
  }

  /** The start of the session: the administrator signs in, deletes SCP-001 and
      creates a draft, which takes id 2 and is opened in the editor. */
  method DeleteThenCreateSession(t0: Time, t1: Time) returns (app: App)
    ensures fresh(app) && app.Valid()
    ensures app.articles == [Articles.NewDraft(1, 1, t1), Articles.SeedArticles(t0)[1]]
    ensures app.currentArticle == Some(Articles.NewDraft(1, 1, t1))
  {
    app := new App(t0);
    var ok := app.Login("admin", "admin123");
    Users.MatchUnique(app.users, "admin", "admin123", 0);
    assert ok && app.user == Some(Users.SeedUsers()[0]);
    app.DeleteArticle(1, true);
    Articles.SeedWithoutScp001(t0);
    app.CreateNewArticle(t1);
  }

  /** A session through the class: after deleting SCP-001 and creating a draft,
      saving the draft unedited leaves two copies of it and no SCP-002. */
  method IdReuseSession(t0: Time, t1: Time, t2: Time) returns (table: seq<Article>)
    ensures |table| == 2 && table[0] == table[1]
    ensures table[0].id == 2 && table[0].title == Articles.DraftTitle
    ensures forall a :: a in table ==> a.title != Articles.Scp002Title
  {
    var app := DeleteThenCreateSession(t0, t1);
    app.SubmitEditor(Articles.DraftTitle, Articles.DraftContent, "", t2);
    Views.IdReuseSave(t0, t1, t2);
    table := app.articles;
  }
}
