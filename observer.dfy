/** PostObserver: the follower fan-out that runs when a post is created.
    Followers are looked up in the users table (whereHas over favorites), and
    one NewPostFromFavoriteUser notification goes to each of them. */
module PostObserver {
  import opened Models

  /** The lifecycle events the observer is registered for. */
  datatype PostEvent = Created | Updated | Deleted | Restored | ForceDeleted

  /** Favorite row `f` makes its owner a follower of `author`. */
  predicate Follows(f: Favorite, author: nat)
  {
    f.favoritableType == UserType && f.favoritableId == author
  }

  /** User `u` owns at least one User-typed favorite targeting `author`. */
  predicate IsFollower(favorites: seq<Favorite>, u: nat, author: nat)
  {
    exists i :: 0 <= i < |favorites| && favorites[i].userId == u && Follows(favorites[i], author)
  }

  /** A notification in `sent` is addressed to `u`. */
  predicate Notified(sent: seq<Notification>, u: nat)
  {
    exists i :: 0 <= i < |sent| && sent[i].notifiable == u
  }

  /** The whereHas query: the ids of the users, in table order, that follow `author`. */
  function Followers(users: seq<User>, favorites: seq<Favorite>, author: nat): (r: seq<nat>)
    ensures forall u :: u in r <==> HasUser(users, u) && IsFollower(favorites, u, author)
    ensures |r| <= |users|
  {
    if users == [] then []
    else
      var rest := Followers(users[1..], favorites, author);
      assert forall u :: HasUser(users, u) <==> users[0].id == u || HasUser(users[1..], u) by {
        assert forall j :: 1 <= j < |users| ==> users[j] == users[1..][j - 1];
      }
      (if IsFollower(favorites, users[0].id, author) then [users[0].id] else []) + rest
  }

  /** created: the notifications sent for a new post, one per follower of its author. */
  function CreatedNotifications(post: Post, users: seq<User>, favorites: seq<Favorite>): (sent: seq<Notification>)
    ensures |sent| == |Followers(users, favorites, post.userId)|
    ensures forall i :: 0 <= i < |sent| ==> sent[i].postId == post.id
    ensures forall u :: Notified(sent, u) <==> HasUser(users, u) && IsFollower(favorites, u, post.userId)
  {
    var fs := Followers(users, favorites, post.userId);
    var sent := seq(|fs|, i requires 0 <= i < |fs| => Notification(fs[i], post.id));
    assert forall u :: Notified(sent, u) <==> u in fs by {
      forall u ensures Notified(sent, u) <==> u in fs {
        if u in fs {
          var i :| 0 <= i < |fs| && fs[i] == u;
          assert sent[i].notifiable == u;
        }
      }
    }
    sent
  }

  /** The observer's entry point: only `created` does anything; the other
      hooks have empty bodies. */
  function Dispatch(event: PostEvent, post: Post, users: seq<User>, favorites: seq<Favorite>): (sent: seq<Notification>)
    ensures event != Created ==> sent == []
    ensures event == Created ==> forall u :: Notified(sent, u) <==> HasUser(users, u) && IsFollower(favorites, u, post.userId)
  {
    if event == Created then CreatedNotifications(post, users, favorites) else []
  }

  predicate Distinct(s: seq<nat>)
  {
    forall i, j :: 0 <= i < j < |s| ==> s[i] != s[j]
  }

  /** With unique user ids, no user is listed twice, however many matching
      favorite rows they own. */
  lemma {:induction false} FollowersDistinct(users: seq<User>, favorites: seq<Favorite>, author: nat)
    requires UniqueUserIds(users)
    ensures Distinct(Followers(users, favorites, author))
  {
    if users != [] {
      assert UniqueUserIds(users[1..]) by {
        assert forall j :: 1 <= j < |users| ==> users[j] == users[1..][j - 1];
      }
      FollowersDistinct(users[1..], favorites, author);
      var rest := Followers(users[1..], favorites, author);
      assert !HasUser(users[1..], users[0].id) by {
        assert forall j :: 1 <= j < |users| ==> users[j] == users[1..][j - 1];
      }
      assert users[0].id !in rest;
      var r := Followers(users, favorites, author);
      if IsFollower(favorites, users[0].id, author) {
        assert r == [users[0].id] + rest;
        forall i, j | 0 <= i < j < |r| ensures r[i] != r[j] {
          assert r[j] == rest[j - 1] && rest[j - 1] in rest;
          if i > 0 { assert r[i] == rest[i - 1]; }
        }
      } else {
        assert r == rest;
      }
    }
  }

  /** Each follower receives exactly one notification for the post. */
  lemma OneNotificationPerFollower(post: Post, users: seq<User>, favorites: seq<Favorite>)
    requires UniqueUserIds(users)
    ensures var sent := CreatedNotifications(post, users, favorites);
            forall i, j :: 0 <= i < j < |sent| ==> sent[i].notifiable != sent[j].notifiable
  {
    FollowersDistinct(users, favorites, post.userId);
    var fs := Followers(users, favorites, post.userId);
    var sent := CreatedNotifications(post, users, favorites);
    assert forall i :: 0 <= i < |sent| ==> sent[i].notifiable == fs[i];
  }

  /** Users whose favorites naming the author are all Post-typed (or who have
      none) receive nothing. */
  lemma NonFollowersNotNotified(post: Post, users: seq<User>, favorites: seq<Favorite>, u: nat)
    requires forall i :: (0 <= i < |favorites| && favorites[i].userId == u &&
                          favorites[i].favoritableId == post.userId) ==> favorites[i].favoritableType == PostType
    ensures !Notified(CreatedNotifications(post, users, favorites), u)
  {
  }

  /** With no follower, nothing is sent. */
  lemma {:induction false} NoFollowersNoNotifications(post: Post, users: seq<User>, favorites: seq<Favorite>)
    requires forall i :: 0 <= i < |favorites| ==> !Follows(favorites[i], post.userId)
    ensures CreatedNotifications(post, users, favorites) == []
  {
    if users != [] {
      NoFollowersNoNotifications(post, users[1..], favorites);
      assert !IsFollower(favorites, users[0].id, post.userId);
    }
  }

  /** The author is notified only if a self-targeting User favorite exists;
      when the table keeps NoSelfFollow, the author is never notified. */
  lemma AuthorNotNotified(post: Post, users: seq<User>, favorites: seq<Favorite>)
    requires NoSelfFollow(favorites)
    ensures !Notified(CreatedNotifications(post, users, favorites), post.userId)
  {
  }
}
