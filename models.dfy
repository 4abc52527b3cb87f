/** The rows of the application's tables (users, posts, favorites), the
    notification log that stands in for the mail/database channels, and the
    invariants of the favorites table that several operations rely on. */
module Models {

  datatype Option<T> = None | Some(value: T)

  /** The favoritable_type discriminator: App\Models\Post or App\Models\User. */
  datatype Kind = PostType | UserType

  /** A row of the favorites table: `userId` favorited the post or user
      `favoritableId`, as told by `favoritableType`. */
  datatype Favorite = Favorite(userId: nat, favoritableId: nat, favoritableType: Kind)

  /** A row of the users table; `password` holds the stored hash. */
  datatype User = User(id: nat, name: string, email: string, password: string)

  /** A row of the posts table; `imagePath` is null when no image was uploaded. */
  datatype Post = Post(id: nat, title: string, body: string, imagePath: Option<string>,
                       userId: nat, createdAt: int)

  /** One NewPostFromFavoriteUser notification sent to user `notifiable`
      about post `postId`. */
  datatype Notification = Notification(notifiable: nat, postId: nat)

  /** No user holds a User-typed favorite of themselves. */
  ghost predicate NoSelfFollow(rows: seq<Favorite>)
  {
    forall i :: 0 <= i < |rows| && rows[i].favoritableType == UserType ==>
      rows[i].favoritableId != rows[i].userId
  }

  /** No (user, target, User) row occurs twice. */
  ghost predicate UniqueFollows(rows: seq<Favorite>)
  {
    forall i, j :: 0 <= i < j < |rows| && rows[i].favoritableType == UserType ==> rows[i] != rows[j]
  }

  predicate HasUser(users: seq<User>, id: nat)
  {
    exists i :: 0 <= i < |users| && users[i].id == id
  }

  /** The primary-key property of the users table. */
  predicate UniqueUserIds(users: seq<User>)
  {
    forall i, j :: 0 <= i < j < |users| ==> users[i].id != users[j].id
  }

  /** Appending a row whose id is the counter keeps ids unique and below the
      advanced counter. */
  lemma AppendFreshUser(users: seq<User>, nextId: nat, u: User)
    requires UniqueUserIds(users) && forall i :: 0 <= i < |users| ==> users[i].id < nextId
    requires u.id == nextId
    ensures UniqueUserIds(users + [u])
    ensures forall i :: 0 <= i < |users + [u]| ==> (users + [u])[i].id < nextId + 1
  {
  }

  /** The users table; `nextId` is the auto-increment counter. */
  class UserTable {
    var rows: seq<User>
    var nextId: nat

    ghost predicate Valid()
      reads this
    {
      UniqueUserIds(rows) && forall i :: 0 <= i < |rows| ==> rows[i].id < nextId
    }

    /** An empty table; auto-increment ids start at 1. */
    constructor()
      ensures rows == [] && nextId == 1 && Valid()
    {
      rows := [];
      nextId := 1;
    }
  }

  /** The notifications delivered so far, in delivery order. */
  class Outbox {
    var sent: seq<Notification>
  }
}
