# SCP Foundation wiki: the state of the `App` component

This project models the in-memory data layer and view state of the `App`
component of a small SCP Foundation wiki written in React (App.jsx). The model
covers:

- the user table of the mock database, with sign-in by an exact match on name
  and password, and registration that appends a user whose id is the table
  length plus one;
- the article table, with create, save, delete and the publish toggle;
- the derived views: the case-insensitive title search, the home page's
  all/published/drafts filter, and the editor's comma-separated tag parser;
- the view state those handlers drive: the signed-in user, the active tab, the
  open article, the edit flag, the search query and the last notification.

Modules:

- `Records` holds the entities as datatypes.
- `Seqs` holds `Array.prototype.filter` and the subsequence order it keeps.
- `Text` holds `toLowerCase`, `includes`, `split(',')`, `join(',')` and `trim`.
- `Users` holds the user table.
- `Articles` holds the article table's transformations.
- `Views` holds the search, the status filter, the tag parser and the editor's submission.
- `AppState` holds the class `App`: one field per `useState` hook except the dark-mode flag, plus the user table the registration handler pushes into.

The pure list transformations are functions with lemmas. The handlers are
methods of `App` that reassign its fields. Each method states the new value of
every field and keeps the invariant `Valid()`:

- user names are distinct;
- user ids are position plus one;
- the signed-in user is in the table.

Article ids are `articles.length + 1` when a record is created, so they are not
unique after a deletion. Save, toggle and delete therefore act on every record
carrying the id, and the contracts are stated that way.

Some consequences of the code as written, which the model keeps:

- Deleting SCP-001 from the seed and then creating an article gives the new
  draft id `articles.length + 1` = 2 (App.jsx:60), so the table holds two
  records with id 2 (`Articles.IdReuseAfterDelete`).
- Saving that draft unedited overwrites SCP-002 as well, because save replaces
  every record with the id (App.jsx:82; `Views.SaveUnderReusedIdOverwrites`,
  and the session `AppState.IdReuseSession`).
- Selecting an article on the home page only sets `currentArticle`. It neither
  opens the editor tab nor sets the edit flag (App.jsx:146).
- Logout only clears `user` (App.jsx:132). The active tab is kept. With nobody
  signed in, the landing page shows only when that tab is `home`.

## Model

| member | source | states |
|---|---|---|
| AppState.App.constructor | App.jsx:8-14 | The initial state: the seeded users and articles, nobody signed in, the home tab, no open article, empty search, edit mode off, no notification; the table invariant holds |
| AppState.App.Login | App.jsx:26-35 | Succeeds iff some user matches both name and password; on success the first matching user is signed in, the home tab shown and a success notice set; on failure the session and tab are unchanged and an error notice set; no other field changes |
| AppState.App.Register | App.jsx:39-55 | Fails iff the name is taken, leaving users, session and tab unchanged with an error notice; otherwise appends exactly one user (next id, role user, the given credentials) after the unchanged earlier users, signs them in and shows home; names stay distinct |
| AppState.App.Logout | App.jsx:132 | Only the session user is cleared; every other field is unchanged |
| AppState.App.CreateNewArticle | App.jsx:58-73 | The table becomes the new draft (id = old length + 1, author `user?.id \|\| 1`) followed by the old table unchanged; the draft is opened in the editor with edit mode on |
| AppState.App.SaveArticle | App.jsx:76-87 | The table becomes the old one with every record of the argument's id replaced by the argument with a fresh `updatedAt`; that record is the open article; edit mode ends; users, session, tab and search are unchanged |
| AppState.App.SubmitEditor | App.jsx:466-473 | Saving from the editor replaces every record of the open article's id by that article with the edited title and content, the parsed tags and a fresh `updatedAt`; that record becomes the open article; edit mode ends with a success notice; users, session, tab and search are unchanged; stored tags stay well-formed |
| AppState.App.DeleteArticle | App.jsx:90-99 | Unconfirmed: nothing changes. Confirmed: the table loses exactly the records with the id; the open article is closed and home shown iff it had that id |
| AppState.App.TogglePublishStatus | App.jsx:102-113 | Every record of the argument's id becomes the argument with its status flipped and a fresh `updatedAt`; it becomes the open article; the notice names the new status |
| AppState.App.Navigate | App.jsx:233-253 | `setActiveTab` from the header: only the active tab changes |
| AppState.App.SelectArticle | App.jsx:146 | Selecting a card sets only the open article |
| AppState.App.ToggleEditMode | App.jsx:503 | The edit flag is negated and nothing else changes |
| AppState.App.SetSearchQuery | App.jsx:149 | Only the search query changes |
| AppState.App.HomeList | App.jsx:143-150 | The home page lists exactly the articles of the table whose lower-cased title includes the lower-cased query and whose status the filter admits, each as many times as in the table, in table order; an empty query with the all filter lists the whole table |
| AppState.SeedLogins | App.jsx:623-626 | With the seed, admin/admin123 signs in the administrator (index 0) and a wrong password signs in nobody |
| Users.FirstMatch | App.jsx:27 | `find`: the index returned matches both credentials and no earlier user does; none returned iff no user matches |
| Users.NewUser | App.jsx:44-49 | The appended user has id = table length + 1, role user, and the given name and password |
| Users.MatchUnique | App.jsx:27 | With distinct names, any matching user is the one login finds |
| Users.RegisterKeepsTable | App.jsx:40-50 | Appending a user under an untaken name keeps names distinct and ids equal to position plus one |
| Users.SeedUsers | App.jsx:623-626 | Two seeded users, admin with the admin role and a member, with distinct names and ids 1 and 2 |
| Users.Matches | App.jsx:27 | The `find` test: true iff both the user name and the password are equal, case-sensitively |
| Users.NameTaken | App.jsx:40 | `some`: true iff the name is among the table's user names |
| Users.FreeNameHasNoLogin | App.jsx:27-40 | A name no user has cannot sign in, whatever the password |
| Articles.SeedArticles | App.jsx:627-648 | The seed: ids 1 and 2, SCP-001 published by user 1 and SCP-002 a draft by user 2, both stamped at start-up |
| Articles.AuthorOf | App.jsx:65 | `user?.id \|\| 1`: the user's id when signed in with a non-zero id, else 1; never 0 |
| Articles.NewDraft | App.jsx:59-68 | The new draft has id count + 1, the fixed title and content, no tags, draft status, the author, and `createdAt` = `updatedAt` = now |
| Articles.Stamped | App.jsx:77-80 | The saved record differs from the argument in `updatedAt` only, which is now |
| Articles.Flipped | App.jsx:105 | Published becomes draft and anything else published: the status always changes |
| Articles.Toggled | App.jsx:103-107 | The toggled record has the flipped status and a fresh `updatedAt`, and every other field kept |
| Articles.ToggleTwice | App.jsx:102-107 | Toggling twice restores the status and every field except `updatedAt` |
| Articles.ReplaceById | App.jsx:82 | `map` by id: length kept; every record with the id becomes the new one; every other record is untouched |
| Articles.ReplaceKeepsIds | App.jsx:82 | Replacement never changes the id column |
| Articles.ReplaceMissing | App.jsx:82 | With no record carrying the id, save leaves the table unchanged |
| Articles.ReplaceFreshHead | App.jsx:69-82 | Replacing under the head's id, absent from the rest, touches only the head |
| Articles.ReplaceBothSharing | App.jsx:82 | Two records sharing the id are both overwritten |
| Articles.ReplaceTwice | App.jsx:109 | A second replacement under the same id overrides the first |
| Articles.ToggleTwiceInTable | App.jsx:109 | Toggling the same article twice leaves the table as one save of it would |
| Articles.RemoveById | App.jsx:92 | `filter`: exactly the records whose id differs are kept, and the id is gone |
| Articles.RemoveKeepsOrder | App.jsx:92 | Deletion keeps order, and kept plus dropped records number the whole table |
| Articles.RemoveMissing | App.jsx:92 | Deleting an absent id leaves the table as it is |
| Articles.SeedWithoutScp001 | App.jsx:627-648 | Deleting id 1 from the seed leaves SCP-002 alone |
| Articles.IdReuseAfterDelete | App.jsx:60 | Deleting SCP-001 and creating an article gives two records with id 2, the second being SCP-002 |
| Seqs.Filter | App.jsx:116-118 | An element is in the result iff it is in the input and passes the test, and then as many times as in the input; never longer |
| Seqs.FilterIsSubsequence | App.jsx:116-118 | A filter keeps the input's order |
| Seqs.SubsequenceTrans | App.jsx:379-386 | Order kept by two filters in turn is kept by both together |
| Seqs.FilterKeepsAll | App.jsx:116-118 | A filter every element passes is the identity |
| Seqs.FilterComplementLengths | App.jsx:379-380 | A filter and its complement split the input by count |
| Text.LowerChar | App.jsx:117 | `toLowerCase` of one character: ASCII and Cyrillic capitals map to their small letters, all other characters are kept |
| Text.Lower | App.jsx:117 | `toLowerCase`: same length, lower-cased character by character |
| Text.ContainsIff | App.jsx:117 | `includes` holds iff the substring occurs at some position |
| Text.ContainsEmpty | App.jsx:117 | Every string includes the empty string |
| Text.Split | App.jsx:471 | `split(',')`: at least one piece, none containing a comma; a single piece is the whole string |
| Text.Join | App.jsx:457 | `join(',')`: the result starts with the first piece, a comma follows it when there is a second, and there is at least one character per separator |
| Text.IsWhitespace | App.jsx:471 | The characters `trim` removes include space, tab and line breaks, and never letters, digits or the comma |
| Text.JoinSplit | App.jsx:457 | Joining the pieces of a split with commas gives back the string |
| Text.SplitJoin | App.jsx:471 | Splitting a join of comma-free pieces gives back the pieces |
| Text.TrimStart | App.jsx:471 | The result is a suffix, with only whitespace removed before it, and does not start with whitespace |
| Text.TrimEnd | App.jsx:471 | The result is a prefix, with only whitespace removed after it, and does not end with whitespace |
| Text.Trim | App.jsx:471 | `trim`: the result is a slice with only whitespace around it and whitespace at neither end |
| Text.TrimTrimmed | App.jsx:471 | A string with no whitespace at either end is kept by `trim` |
| Views.Search | App.jsx:116-118 | An article is listed iff it is in the table and its lower-cased title includes the lower-cased query, and then as many times as in the table |
| Views.SearchKeepsOrder | App.jsx:116-118 | The search keeps table order |
| Views.SearchEmptyQuery | App.jsx:116-118 | The empty query lists the whole table unchanged |
| Views.StatusView | App.jsx:379-386 | All is the identity; published and drafts keep exactly the articles of that status, each as many times as in the input |
| Views.HomeViewOrder | App.jsx:379-386 | The status view of the search result keeps table order |
| Views.StatusPartition | App.jsx:379-386 | The published and draft views keep order and together number the whole table |
| Views.TrimAll | App.jsx:471 | `map(t => t.trim())`: same length, each piece trimmed |
| Views.NonEmpty | App.jsx:471 | `filter(Boolean)` on strings: only the empty string is dropped |
| Views.TrimNoComma | App.jsx:471 | Trimming a comma-free piece leaves it comma-free |
| Views.ParseTags | App.jsx:471 | Every parsed tag is non-empty, trimmed and comma-free |
| Views.ParseTagsOrder | App.jsx:471 | The tags are the non-blank trimmed pieces between commas, as a subsequence in input order, each as many times as it occurs among the pieces |
| Views.ParseTagsComplete | App.jsx:471 | Every piece between commas that is not blank appears, trimmed, among the tags |
| Views.ParseNothing | App.jsx:471 | An empty tag field gives no tags |
| Views.ParseJoinedTags | App.jsx:457-471 | The editor's joined tag text, saved unedited, parses back to the same well-formed tags |
| Views.EditorSubmission | App.jsx:466-473 | The submitted record keeps id, status, author and timestamps, takes the edited title and content, and its tags are the parse of the tag text, all well-formed |
| Views.UneditedSubmission | App.jsx:455-473 | Saving the editor unedited changes only `updatedAt` |
| Views.CreateThenSave | App.jsx:58-87 | Create and an unedited save, when the new id is fresh, change only the new draft's `updatedAt` |
| Views.SaveUnderReusedIdOverwrites | App.jsx:58-87 | When the new draft's id is already taken, its unedited save overwrites the older record too |
| Views.SeedTagsWellFormed | App.jsx:627-648 | The seed's tags are all well-formed |
| Views.SubmitKeepsTagsWellFormed | App.jsx:466-473 | Saving from the editor keeps every stored tag well-formed, whatever tag text is typed |
| Views.IdReuseSave | App.jsx:58-87 | After SCP-001 is deleted and a draft created with id 2, saving the draft unedited leaves two copies of it and no SCP-002 |
| AppState.DeleteThenCreateSession | App.jsx:58-99 | Through the class: signing in as admin, deleting SCP-001 and creating a draft leaves the draft (id 2) before SCP-002, with the draft open |
| AppState.IdReuseSession | App.jsx:58-99 | Through the class: saving that draft unedited leaves a table of two identical copies of it, id 2, and no SCP-002 |
| Views.SeedSearch | App.jsx:627-648 | Searching the seed for "002" lists only SCP-002 |
| Views.SeedStatusViews | App.jsx:627-648 | In the seed, the published view is SCP-001 and the draft view SCP-002 |

## Left out

- The JSX rendering and the presentational components (`LandingPage`, `Header` markup, `AuthPage`, `HomePage` markup, `ArticleCard`, `ProfilePage`, `Footer`, `Toast`) are left out: they only display the state.
- The dark-mode flag and its `localStorage` persistence are left out: they are persistence I/O and touch no other state.
- The notification's dismissal after 3 seconds by `setTimeout` is left out: it is timer behaviour. The field `notification` records only the last message and its kind.
- `window.confirm` is the parameter `confirmed` of `DeleteArticle`.
- `new Date().toISOString()` is a clock reading passed in as `now`, a natural number, not an ISO string. Each handler reads the clock once. The two readings in `createNewArticle` are modelled as one, so `createdAt == updatedAt` there.
- The seed's four timestamps are one start-up reading `t0`.
- Text.LowerChar: lower-cases only ASCII capitals and the Cyrillic capitals U+0400-U+042F; other scripts, and the special cases of `toLowerCase`, are kept unchanged.
- Text.IsWhitespace: covers the ECMAScript WhiteSpace and LineTerminator code points, reading the Unicode space separators as U+00A0, U+1680, U+2000-U+200A, U+202F, U+205F and U+3000.
- `markdownToHTML` is left out: its regex semantics are display only, and its output is unescaped HTML.
- The delete button passes its click event instead of an id, and `useRef` is used without being imported. Both are left out: the handlers are modelled as written, not the runtime wiring of their call sites.
- src/index.jsx is not part of this model: it only bootstraps React.
- React batching of state updates, re-renders and stale closures are left out. Each handler is one atomic method over the current state.
- `mockDB.users`, a module-level array, is the field `users` of `App`.
- Checks that fields are filled in, made by the sign-in form, are left out: they sit in the form markup and not in the handlers.
- Status values other than draft and published are not representable. `Articles.Flipped` sends every non-published status to published, as the code does.
- Article id uniqueness is not claimed, because the code does not keep it.
- AppState.App.SubmitEditor: requires an open article, because the editor is rendered only when `currentArticle` is set.
