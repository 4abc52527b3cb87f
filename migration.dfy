/** The migration between the legacy post_id column of the favorites table
    and the polymorphic (favoritable_id, favoritable_type) columns. Both
    directions are bulk UPDATE ... WHERE statements, modelled as a pass over
    the rows in place. */
module FavoritesMigration {
  import opened Models

  /** A favorites row while both column sets exist; every column may be null. */
  datatype FavoriteRecord = FavoriteRecord(userId: nat, postId: Option<nat>,
                                           favoritableId: Option<nat>, favoritableType: Option<Kind>)

  /** up, on one row: WHERE post_id IS NOT NULL SET favoritable_id = post_id,
      favoritable_type = Post. */
  function UpRow(r: FavoriteRecord): (u: FavoriteRecord)
    ensures u.userId == r.userId && u.postId == r.postId
    ensures r.postId.Some? ==> u.favoritableId == r.postId && u.favoritableType == Some(PostType)
    ensures r.postId.None? ==> u == r
  {
    if r.postId.Some? then r.(favoritableId := r.postId, favoritableType := Some(PostType)) else r
  }

  /** down, on one row: WHERE favoritable_type = Post SET post_id =
      favoritable_id and null both polymorphic columns. */
  function DownRow(r: FavoriteRecord): (d: FavoriteRecord)
    ensures d.userId == r.userId
    ensures r.favoritableType == Some(PostType) ==>
              d.postId == r.favoritableId && d.favoritableId == None && d.favoritableType == None
    ensures r.favoritableType != Some(PostType) ==> d == r
  {
    if r.favoritableType == Some(PostType) then
      r.(postId := r.favoritableId, favoritableId := None, favoritableType := None)
    else r
  }

  function UpRows(s: seq<FavoriteRecord>): seq<FavoriteRecord>
  {
    seq(|s|, i requires 0 <= i < |s| => UpRow(s[i]))
  }

  function DownRows(s: seq<FavoriteRecord>): seq<FavoriteRecord>
  {
    seq(|s|, i requires 0 <= i < |s| => DownRow(s[i]))
  }

  /** Running up twice gives the table up gives once. */
  lemma UpIdempotent(s: seq<FavoriteRecord>)
    ensures UpRows(UpRows(s)) == UpRows(s)
  {
    var once := UpRows(s);
    forall i | 0 <= i < |s| ensures UpRows(once)[i] == once[i] {
      assert UpRow(UpRow(s[i])) == UpRow(s[i]);
    }
  }

  /** Running down twice gives the table down gives once. */
  lemma DownIdempotent(s: seq<FavoriteRecord>)
    ensures DownRows(DownRows(s)) == DownRows(s)
  {
    var once := DownRows(s);
    forall i | 0 <= i < |s| ensures DownRows(once)[i] == once[i] {
      assert DownRow(DownRow(s[i])) == DownRow(s[i]);
    }
  }

  /** down after up: a row with a post_id keeps it and loses its polymorphic
      columns; a row without one is treated by down alone. */
  lemma DownAfterUp(s: seq<FavoriteRecord>)
    ensures |DownRows(UpRows(s))| == |s|
    ensures forall i :: 0 <= i < |s| && s[i].postId.Some? ==>
              DownRows(UpRows(s))[i] == s[i].(favoritableId := None, favoritableType := None)
    ensures forall i :: 0 <= i < |s| && s[i].postId.None? ==> DownRows(UpRows(s))[i] == DownRow(s[i])
  {
  }

  /** A table whose rows all carry a post_id and no polymorphic data (the
      state before the polymorphic columns were filled) is restored by down
      after up. */
  lemma UpDownRoundTrip(s: seq<FavoriteRecord>)
    requires forall i :: 0 <= i < |s| ==>
               s[i].postId.Some? && s[i].favoritableId.None? && s[i].favoritableType.None?
    ensures DownRows(UpRows(s)) == s
  {
    DownAfterUp(s);
    forall i | 0 <= i < |s| ensures DownRows(UpRows(s))[i] == s[i] {
    }
  }

  /** up over the table, in place. */
  method Up(a: array<FavoriteRecord>)
    modifies a
    ensures a[..] == UpRows(old(a[..]))
    ensures forall k :: 0 <= k < a.Length ==> a[k].postId == old(a[k].postId) && a[k].userId == old(a[k].userId)
    ensures forall k :: 0 <= k < a.Length && old(a[k].postId).None? ==> a[k] == old(a[k])
    ensures forall k :: 0 <= k < a.Length && old(a[k].postId).Some? ==>
              a[k].favoritableId == old(a[k].postId) && a[k].favoritableType == Some(PostType)
  {
    for i := 0 to a.Length
      invariant forall k :: 0 <= k < i ==> a[k] == UpRow(old(a[k]))
      invariant forall k :: i <= k < a.Length ==> a[k] == old(a[k])
    {
      if a[i].postId.Some? {
        a[i] := a[i].(favoritableId := a[i].postId, favoritableType := Some(PostType));
      }
    }
  }

  /** down over the table, in place. */
  method Down(a: array<FavoriteRecord>)
    modifies a
    ensures a[..] == DownRows(old(a[..]))
    ensures forall k :: 0 <= k < a.Length && old(a[k].favoritableType) != Some(PostType) ==> a[k] == old(a[k])
    ensures forall k :: 0 <= k < a.Length && old(a[k].favoritableType) == Some(PostType) ==>
              a[k].postId == old(a[k].favoritableId) && a[k].favoritableId == None && a[k].favoritableType == None
  {
    for i := 0 to a.Length
      invariant forall k :: 0 <= k < i ==> a[k] == DownRow(old(a[k]))
      invariant forall k :: i <= k < a.Length ==> a[k] == old(a[k])
    {
      if a[i].favoritableType == Some(PostType) {
        a[i] := a[i].(postId := a[i].favoritableId, favoritableId := None, favoritableType := None);
      }
    }
  }
}
