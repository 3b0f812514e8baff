/** The records held by the wiki's in-memory data layer and its view state (App.jsx). */
module Records {

  datatype Option<+T> = None | Some(value: T)

  /** An abstract clock reading; `new Date().toISOString()` becomes a value passed in. */
  type Time = nat

  datatype Role = Admin | Member

  /** A user record of the mock database (App.jsx:623-626, App.jsx:44-49). */
  datatype User = User(id: int, username: string, password: string, role: Role)

  datatype Status = Draft | Published

  /** An article record (App.jsx:59-68, App.jsx:628-647). */
  datatype Article = Article(
    id: int,
    title: string,
    content: string,
    tags: seq<string>,
    status: Status,
    authorId: int,
    createdAt: Time,
    updatedAt: Time)

  /** The values the component stores in `activeTab`. */
  datatype Tab = Home | Login | Register | Editor | Profile

  /** The status filter of the home page: 'all', 'published' or 'drafts'. */
  datatype StatusFilter = All | PublishedOnly | DraftsOnly

  datatype NoticeKind = Success | Error

  /** The messages the handlers pass to `notify`, by meaning. */
  datatype Message =
    | LoggedIn          // "you have logged in"
    | BadCredentials    // "wrong user name or password"
    | NameTaken         // "a user with this name already exists"
    | Registered        // "registration succeeded"
    | ArticleSaved      // "object saved"
    | ArticleDeleted    // "object deleted"
    | ArticlePublished  // "object published"
    | ArticleUnpublished  // "object moved back to drafts"

  /** The notification state: hidden, or showing the last message with its kind. */
  datatype Notification = Hidden | Shown(message: Message, kind: NoticeKind)
}
