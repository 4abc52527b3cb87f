/** PostController: the posts table. Creating a post runs the observer's
    follower fan-out; the notifications are appended to an Outbox. */
module PostController {
  import opened Models
  import FavoriteController
  import PostObserver

  predicate HasPost(rows: seq<Post>, id: nat)
  {
    exists i :: 0 <= i < |rows| && rows[i].id == id
  }

  /** The primary-key property of the posts table. */
  predicate UniquePostIds(rows: seq<Post>)
  {
    forall i, j :: 0 <= i < j < |rows| ==> rows[i].id != rows[j].id
  }

  /** orderByDesc('created_at'): creation times never increase along the sequence. */
  predicate NewestFirst(s: seq<Post>)
  {
    forall i, j :: 0 <= i < j < |s| ==> s[i].createdAt >= s[j].createdAt
  }

  function InsertNewestFirst(p: Post, s: seq<Post>): (r: seq<Post>)
    requires NewestFirst(s)
    ensures NewestFirst(r)
    ensures multiset(r) == multiset(s) + multiset{p}
    ensures |r| == |s| + 1 && (r[0] == p || (s != [] && r[0] == s[0]))
  {
    if s == [] then [p]
    else if p.createdAt >= s[0].createdAt then [p] + s
    else
      assert s == [s[0]] + s[1..];
      var rest := InsertNewestFirst(p, s[1..]);
      var r := [s[0]] + rest;
      assert forall j :: 1 <= j < |r| ==> r[j] == rest[j - 1];
      r
  }

  function SortNewestFirst(s: seq<Post>): (r: seq<Post>)
    ensures NewestFirst(r)
    ensures multiset(r) == multiset(s)
  {
    if s == [] then []
    else
      assert s == [s[0]] + s[1..];
      InsertNewestFirst(s[0], SortNewestFirst(s[1..]))
  }

  /** Route-model binding: the stored post with the given id. */
  function FindPost(rows: seq<Post>, id: nat): (p: Post)
    requires HasPost(rows, id)
    ensures p in rows && p.id == id
  {
    if rows[0].id == id then rows[0]
    else
      assert HasPost(rows[1..], id) by {
        var i :| 0 <= i < |rows| && rows[i].id == id;
        assert rows[1..][i - 1] == rows[i];
      }
      FindPost(rows[1..], id)
  }

  /** The table after DELETE ... WHERE id = `id`. */
  function WithoutPost(rows: seq<Post>, id: nat): (r: seq<Post>)
    ensures forall p :: p in r <==> p in rows && p.id != id
    ensures !HasPost(r, id)
    ensures |r| <= |rows|
  {
    if rows == [] then []
    else
      var rest := WithoutPost(rows[1..], id);
      assert rows == [rows[0]] + rows[1..];
      var r := if rows[0].id == id then rest else [rows[0]] + rest;
      assert !HasPost(r, id) by {
        forall i | 0 <= i < |r| ensures r[i].id != id {
          assert r[i] in r;
        }
      }
      r
  }

  /** Dropping the head keeps ids unique, and the head's id does not recur. */
  lemma UniquePostIdsTail(rows: seq<Post>)
    requires rows != [] && UniquePostIds(rows)
    ensures UniquePostIds(rows[1..]) && !HasPost(rows[1..], rows[0].id)
  {
    assert forall j :: 0 <= j < |rows[1..]| ==> rows[1..][j] == rows[j + 1];
  }

  /** A head whose id is not in the tail keeps ids unique. */
  lemma UniquePostIdsCons(p: Post, s: seq<Post>)
    requires UniquePostIds(s) && !HasPost(s, p.id)
    ensures UniquePostIds([p] + s)
  {
    var r := [p] + s;
    forall i, j | 0 <= i < j < |r| ensures r[i].id != r[j].id {
      assert r[j] == s[j - 1];
      if i > 0 { assert r[i] == s[i - 1]; }
    }
  }

  /** With unique ids, exactly one row goes and the ids stay unique. */
  lemma {:induction false} WithoutPostRemovesOne(rows: seq<Post>, id: nat)
    requires UniquePostIds(rows)
    ensures UniquePostIds(WithoutPost(rows, id))
    ensures |WithoutPost(rows, id)| == if HasPost(rows, id) then |rows| - 1 else |rows|
  {
    if rows != [] {
      UniquePostIdsTail(rows);
      WithoutPostRemovesOne(rows[1..], id);
      var rest := WithoutPost(rows[1..], id);
      assert HasPost(rows, id) <==> rows[0].id == id || HasPost(rows[1..], id) by {
        assert forall j :: 0 <= j < |rows[1..]| ==> rows[1..][j] == rows[j + 1];
      }
      if rows[0].id != id {
        assert WithoutPost(rows, id) == [rows[0]] + rest;
        assert !HasPost(rest, rows[0].id) by {
          forall i | 0 <= i < |rest| ensures rest[i].id != rows[0].id {
            assert rest[i] in rest;
            var k :| 0 <= k < |rows[1..]| && rows[1..][k] == rest[i];
          }
        }
        UniquePostIdsCons(rows[0], rest);
      }
    }
  }

  /** The posts table; `nextId` is the auto-increment counter. */
  class PostTable {
    var rows: seq<Post>
    var nextId: nat

    ghost predicate Valid()
      reads this
    {
      UniquePostIds(rows) && forall i :: 0 <= i < |rows| ==> rows[i].id < nextId
    }

    /** An empty table; auto-increment ids start at 1. */
    constructor()
      ensures rows == [] && nextId == 1 && Valid()
    {
      rows := [];
      nextId := 1;
    }

    /** index: every post, newest first. */
    function Index(): (r: seq<Post>)
      reads this
      ensures NewestFirst(r)
      ensures multiset(r) == multiset(rows)
    {
      SortNewestFirst(rows)
    }

    /** show: the stored post, unchanged. */
    function Show(id: nat): (p: Post)
      reads this
      requires HasPost(rows, id)
      ensures p in rows && p.id == id
      ensures UniquePostIds(rows) ==> forall q :: q in rows && q.id == id ==> q == p
    {
      var p := FindPost(rows, id);
      assert UniquePostIds(rows) ==> forall q :: q in rows && q.id == id ==> q == p by {
        if UniquePostIds(rows) {
          forall q | q in rows && q.id == id ensures q == p {
            var i :| 0 <= i < |rows| && rows[i] == q;
            var j :| 0 <= j < |rows| && rows[j] == p;
            assert i == j;
          }
        }
      }
      p
    }

    /** store: insert a post owned by the caller (image path null without an
        upload, otherwise the path the storage layer chose), then run the
        observer's `created` hook. */
    method Store(caller: nat, title: string, body: string, upload: Option<string>, now: int,
                 users: UserTable, favorites: FavoriteController.FavoriteTable, outbox: Outbox)
      returns (post: Post)
      requires Valid()
      modifies this, outbox
      ensures Valid()
      ensures post == Post(old(nextId), title, body, upload, caller, now)
      ensures upload == None ==> post.imagePath == None
      ensures rows == old(rows) + [post] && nextId == old(nextId) + 1
      ensures !HasPost(old(rows), post.id)
      ensures outbox.sent == old(outbox.sent) + PostObserver.CreatedNotifications(post, users.rows, favorites.rows)
    {
      var imagePath: Option<string> := None;
      if upload.Some? {
        imagePath := upload;
      }
      post := Post(nextId, title, body, imagePath, caller, now);
      rows := rows + [post];
      nextId := nextId + 1;
      outbox.sent := outbox.sent + PostObserver.Dispatch(PostObserver.Created, post, users.rows, favorites.rows);
    }

    /** update: replace title and body of one post; nothing else changes. */
    method Update(id: nat, title: string, body: string) returns (post: Post)
      requires Valid() && HasPost(rows, id)
      modifies this
      ensures Valid() && nextId == old(nextId) && |rows| == |old(rows)|
      ensures forall i :: 0 <= i < |rows| ==>
                rows[i] == if old(rows)[i].id == id then old(rows)[i].(title := title, body := body)
                           else old(rows)[i]
      ensures post == old(Show(id)).(title := title, body := body) && post in rows
    {
      var found := FindPost(rows, id);
      post := found.(title := title, body := body);
      rows := seq(|rows|, i requires 0 <= i < |rows| reads this =>
                    if rows[i].id == id then rows[i].(title := title, body := body) else rows[i]);
      ghost var k :| 0 <= k < |old(rows)| && old(rows)[k] == found;
      assert rows[k] == post;
      assert forall i :: 0 <= i < |rows| ==> rows[i].id == old(rows)[i].id;
    }

    /** destroy: remove the post; every other post stays. */
    method Destroy(id: nat)
      requires Valid() && HasPost(rows, id)
      modifies this
      ensures Valid() && nextId == old(nextId)
      ensures rows == WithoutPost(old(rows), id)
      ensures |rows| == |old(rows)| - 1 && !HasPost(rows, id)
      ensures forall p :: p in old(rows) && p.id != id ==> p in rows
    {
      WithoutPostRemovesOne(rows, id);
      ghost var before := rows;
      rows := WithoutPost(rows, id);
      forall i | 0 <= i < |rows| ensures rows[i].id < nextId {
        assert rows[i] in before;
      }
    }
  }
}
