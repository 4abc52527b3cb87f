/** FavoriteController: the favorites table as seen by one authenticated
    caller. Every operation is scoped to the caller's own rows; the target
    (a post or a user) is always an existing entity. */
module FavoriteController {
  import opened Models

  /** An HTTP outcome: status code and JSON message ("" for an empty body). */
  datatype Response = Response(status: int, message: string)

  const PostFavorited := Response(201, "")
  const PostUnfavorited := Response(204, "")
  /** firstOrFail raises, which renders as 404; its message is the framework's. */
  const FavoriteNotFound := Response(404, "")
  const SelfFavoriteRejected := Response(422, "You cannot favorite yourself")
  const AlreadyFavorited := Response(422, "Already favorited")
  const UserFavorited := Response(200, "User favorited successfully")
  const UserNotInFavorites := Response(404, "User was not in favorites")
  const UserUnfavorited := Response(200, "User removed from favorites")

  /** The caller's favorites split by target kind, as target ids. */
  datatype Listing = Listing(posts: seq<nat>, users: seq<nat>)

  /** The row matched by the controller's where('favoritable_id', ..)->where('favoritable_type', ..). */
  predicate Matches(f: Favorite, caller: nat, target: nat, kind: Kind)
  {
    f.userId == caller && f.favoritableId == target && f.favoritableType == kind
  }

  predicate HasMatch(rows: seq<Favorite>, caller: nat, target: nat, kind: Kind)
  {
    exists i :: 0 <= i < |rows| && Matches(rows[i], caller, target, kind)
  }

  /** The position of the row that firstOrFail finds, in table order. */
  function FirstMatch(rows: seq<Favorite>, caller: nat, target: nat, kind: Kind): (r: Option<nat>)
    ensures r.None? <==> !HasMatch(rows, caller, target, kind)
    ensures r.Some? ==> r.value < |rows| && Matches(rows[r.value], caller, target, kind)
    ensures r.Some? ==> forall j :: 0 <= j < r.value ==> !Matches(rows[j], caller, target, kind)
  {
    if rows == [] then None
    else if Matches(rows[0], caller, target, kind) then Some(0)
    else
      match FirstMatch(rows[1..], caller, target, kind)
      case None =>
        assert forall j :: 1 <= j < |rows| ==> rows[j] == rows[1..][j - 1];
        None
      case Some(k) => Some(k + 1)
  }

  /** The table after the bulk DELETE of every matching row. */
  function RemoveMatching(rows: seq<Favorite>, caller: nat, target: nat, kind: Kind): (r: seq<Favorite>)
    ensures forall f :: f in r <==> f in rows && !Matches(f, caller, target, kind)
    ensures !HasMatch(rows, caller, target, kind) <==> r == rows
    ensures HasMatch(rows, caller, target, kind) <==> |r| < |rows|
  {
    if rows == [] then []
    else
      var rest := RemoveMatching(rows[1..], caller, target, kind);
      assert rows == [rows[0]] + rows[1..];
      assert HasMatch(rows, caller, target, kind) <==>
        Matches(rows[0], caller, target, kind) || HasMatch(rows[1..], caller, target, kind) by {
        assert forall j :: 1 <= j < |rows| ==> rows[j] == rows[1..][j - 1];
      }
      if Matches(rows[0], caller, target, kind) then rest else [rows[0]] + rest
  }

  /** The rows owned by user `u` whose target kind is `kind`. */
  function Slice(rows: seq<Favorite>, u: nat, kind: Kind): seq<Favorite>
  {
    if rows == [] then []
    else (if rows[0].userId == u && rows[0].favoritableType == kind then [rows[0]] else [])
         + Slice(rows[1..], u, kind)
  }

  /** The rows owned by user `u`: the caller's favorites relation. */
  function OwnedBy(rows: seq<Favorite>, u: nat): seq<Favorite>
  {
    if rows == [] then []
    else (if rows[0].userId == u then [rows[0]] else []) + OwnedBy(rows[1..], u)
  }

  function Targets(rows: seq<Favorite>): seq<nat>
  {
    seq(|rows|, i requires 0 <= i < |rows| => rows[i].favoritableId)
  }

  /** How many rows of user `u` of the given kind target `t`. */
  function CountMatches(rows: seq<Favorite>, u: nat, t: nat, kind: Kind): nat
  {
    if rows == [] then 0
    else (if Matches(rows[0], u, t, kind) then 1 else 0) + CountMatches(rows[1..], u, t, kind)
  }

  /** Each target is listed once per row of the slice that names it. */
  lemma {:induction false} TargetsCount(rows: seq<Favorite>, u: nat, kind: Kind, t: nat)
    ensures multiset(Targets(Slice(rows, u, kind)))[t] == CountMatches(rows, u, t, kind)
  {
    if rows != [] {
      TargetsCount(rows[1..], u, kind, t);
      var head := if rows[0].userId == u && rows[0].favoritableType == kind then [rows[0]] else [];
      var rest := Slice(rows[1..], u, kind);
      assert Slice(rows, u, kind) == head + rest;
      assert Targets(head + rest) == Targets(head) + Targets(rest);
      assert multiset(Targets(head + rest)) == multiset(Targets(head)) + multiset(Targets(rest));
    }
  }

  /** Outside the caller's rows of the given kind, the table is unchanged
      (for every other owner and kind the rows are the same, in the same order). */
  ghost predicate OnlyTouches(before: seq<Favorite>, after: seq<Favorite>, caller: nat, kind: Kind)
  {
    forall u: nat, k: Kind :: u != caller || k != kind ==> Slice(after, u, k) == Slice(before, u, k)
  }

  lemma {:induction false} SliceConcat(a: seq<Favorite>, b: seq<Favorite>, u: nat, kind: Kind)
    ensures Slice(a + b, u, kind) == Slice(a, u, kind) + Slice(b, u, kind)
  {
    if a == [] {
      assert a + b == b;
    } else {
      assert (a + b)[0] == a[0];
      assert (a + b)[1..] == a[1..] + b;
      SliceConcat(a[1..], b, u, kind);
    }
  }

  lemma {:induction false} SliceOfRemoveMatching(rows: seq<Favorite>, caller: nat, target: nat, kind: Kind,
                                                 u: nat, k: Kind)
    requires u != caller || k != kind
    ensures Slice(RemoveMatching(rows, caller, target, kind), u, k) == Slice(rows, u, k)
  {
    if rows != [] {
      SliceOfRemoveMatching(rows[1..], caller, target, kind, u, k);
      var rest := RemoveMatching(rows[1..], caller, target, kind);
      if !Matches(rows[0], caller, target, kind) {
        assert ([rows[0]] + rest)[1..] == rest;
      }
    }
  }

  /** The bulk delete touches only the caller's rows of the given kind. */
  lemma RemoveMatchingOnlyTouches(rows: seq<Favorite>, caller: nat, target: nat, kind: Kind)
    ensures OnlyTouches(rows, RemoveMatching(rows, caller, target, kind), caller, kind)
  {
    forall u: nat, k: Kind | u != caller || k != kind
      ensures Slice(RemoveMatching(rows, caller, target, kind), u, k) == Slice(rows, u, k)
    {
      SliceOfRemoveMatching(rows, caller, target, kind, u, k);
    }
  }

  /** Inserting a row touches only the slice the row belongs to. */
  lemma AppendOnlyTouches(rows: seq<Favorite>, f: Favorite)
    ensures OnlyTouches(rows, rows + [f], f.userId, f.favoritableType)
  {
    forall u: nat, k: Kind | u != f.userId || k != f.favoritableType
      ensures Slice(rows + [f], u, k) == Slice(rows, u, k)
    {
      SliceConcat(rows, [f], u, k);
      assert Slice([f], u, k) == [] by { assert [f][1..] == []; }
    }
  }

  /** Deleting the row at position k touches only that row's slice. */
  lemma RemoveAtOnlyTouches(rows: seq<Favorite>, k: nat)
    requires k < |rows|
    ensures OnlyTouches(rows, rows[..k] + rows[k + 1..], rows[k].userId, rows[k].favoritableType)
  {
    var f := rows[k];
    assert rows == rows[..k] + ([f] + rows[k + 1..]);
    forall u: nat, kd: Kind | u != f.userId || kd != f.favoritableType
      ensures Slice(rows[..k] + rows[k + 1..], u, kd) == Slice(rows, u, kd)
    {
      SliceConcat(rows[..k], rows[k + 1..], u, kd);
      SliceConcat(rows[..k], [f] + rows[k + 1..], u, kd);
      SliceConcat([f], rows[k + 1..], u, kd);
      assert Slice([f], u, kd) == [] by { assert [f][1..] == []; }
    }
  }

  /** Favoriting a user that was not favorited and then unfavoriting them
      restores the table exactly. */
  lemma {:induction false} FavoriteUnfavoriteRoundTrip(rows: seq<Favorite>, caller: nat, target: nat)
    requires !HasMatch(rows, caller, target, UserType)
    ensures RemoveMatching(rows + [Favorite(caller, target, UserType)], caller, target, UserType) == rows
  {
    var f := Favorite(caller, target, UserType);
    if rows == [] {
      assert [f][1..] == [];
    } else {
      assert (rows + [f])[1..] == rows[1..] + [f];
      assert !HasMatch(rows[1..], caller, target, UserType) by {
        assert forall j :: 1 <= j < |rows| ==> rows[j] == rows[1..][j - 1];
      }
      assert !Matches(rows[0], caller, target, UserType);
      FavoriteUnfavoriteRoundTrip(rows[1..], caller, target);
    }
  }

  lemma {:induction false} SliceMembers(rows: seq<Favorite>, u: nat, kind: Kind)
    ensures forall f :: f in Slice(rows, u, kind) <==> f in rows && f.userId == u && f.favoritableType == kind
  {
    if rows != [] {
      SliceMembers(rows[1..], u, kind);
      assert rows == [rows[0]] + rows[1..];
    }
  }

  lemma {:induction false} PartitionCount(rows: seq<Favorite>, u: nat)
    ensures |Slice(rows, u, PostType)| + |Slice(rows, u, UserType)| == |OwnedBy(rows, u)|
  {
    if rows != [] {
      PartitionCount(rows[1..], u);
    }
  }

  lemma {:induction false} OwnedByEmpty(rows: seq<Favorite>, u: nat)
    ensures OwnedBy(rows, u) == [] <==> forall i :: 0 <= i < |rows| ==> rows[i].userId != u
  {
    if rows != [] {
      OwnedByEmpty(rows[1..], u);
      assert forall j :: 1 <= j < |rows| ==> rows[j] == rows[1..][j - 1];
    }
  }

  lemma TargetsOfSlice(rows: seq<Favorite>, u: nat, kind: Kind)
    ensures forall t :: t in Targets(Slice(rows, u, kind)) <==> HasMatch(rows, u, t, kind)
  {
    SliceMembers(rows, u, kind);
    var s := Slice(rows, u, kind);
    forall t ensures t in Targets(s) <==> HasMatch(rows, u, t, kind) {
      if t in Targets(s) {
        var i :| 0 <= i < |s| && Targets(s)[i] == t;
        assert s[i] in s;
        var j :| 0 <= j < |rows| && rows[j] == s[i];
        assert Matches(rows[j], u, t, kind);
      }
      if HasMatch(rows, u, t, kind) {
        var j :| 0 <= j < |rows| && Matches(rows[j], u, t, kind);
        assert rows[j] in s;
        var i :| 0 <= i < |s| && s[i] == rows[j];
        assert Targets(s)[i] == t;
      }
    }
  }

  /** Dropping the head keeps UniqueFollows, and a User-typed head does not recur. */
  lemma UniqueFollowsTail(rows: seq<Favorite>)
    requires rows != [] && UniqueFollows(rows)
    ensures UniqueFollows(rows[1..])
    ensures rows[0].favoritableType == UserType ==> rows[0] !in rows[1..]
  {
    assert forall j :: 0 <= j < |rows[1..]| ==> rows[1..][j] == rows[j + 1];
  }

  /** A head that is not User-typed, or does not occur in the tail, keeps UniqueFollows. */
  lemma UniqueFollowsCons(x: Favorite, s: seq<Favorite>)
    requires UniqueFollows(s)
    requires x.favoritableType == UserType ==> x !in s
    ensures UniqueFollows([x] + s)
  {
    var r := [x] + s;
    forall i, j | 0 <= i < j < |r| && r[i].favoritableType == UserType ensures r[i] != r[j] {
      assert r[j] == s[j - 1];
      if i > 0 { assert r[i] == s[i - 1]; }
    }
  }

  lemma {:induction false} RemoveMatchingKeepsUniqueFollows(rows: seq<Favorite>, caller: nat, target: nat, kind: Kind)
    requires UniqueFollows(rows)
    ensures UniqueFollows(RemoveMatching(rows, caller, target, kind))
  {
    if rows != [] {
      UniqueFollowsTail(rows);
      RemoveMatchingKeepsUniqueFollows(rows[1..], caller, target, kind);
      var rest := RemoveMatching(rows[1..], caller, target, kind);
      if !Matches(rows[0], caller, target, kind) {
        assert RemoveMatching(rows, caller, target, kind) == [rows[0]] + rest;
        UniqueFollowsCons(rows[0], rest);
      }
    }
  }

  lemma RemoveAtKeepsUniqueFollows(rows: seq<Favorite>, k: nat)
    requires k < |rows| && UniqueFollows(rows)
    ensures UniqueFollows(rows[..k] + rows[k + 1..])
  {
    var r := rows[..k] + rows[k + 1..];
    forall i, j | 0 <= i < j < |r| && r[i].favoritableType == UserType ensures r[i] != r[j] {
      var i' := if i < k then i else i + 1;
      var j' := if j < k then j else j + 1;
      assert r[i] == rows[i'] && r[j] == rows[j'];
    }
  }

  /** The favorites table. */
  class FavoriteTable {
    var rows: seq<Favorite>

    /** index: the caller's favorites, partitioned into favorited posts and
        favorited users. */
    function Index(caller: nat): (r: Listing)
      reads this
      ensures |r.posts| == |Slice(rows, caller, PostType)| && |r.users| == |Slice(rows, caller, UserType)|
      ensures forall t :: multiset(r.posts)[t] == CountMatches(rows, caller, t, PostType)
      ensures forall t :: multiset(r.users)[t] == CountMatches(rows, caller, t, UserType)
      ensures |r.posts| + |r.users| == |OwnedBy(rows, caller)|
      ensures forall t :: t in r.posts <==> HasMatch(rows, caller, t, PostType)
      ensures forall t :: t in r.users <==> HasMatch(rows, caller, t, UserType)
      ensures (forall i :: 0 <= i < |rows| ==> rows[i].userId != caller) ==> r == Listing([], [])
    {
      PartitionCount(rows, caller);
      OwnedByEmpty(rows, caller);
      TargetsOfSlice(rows, caller, PostType);
      TargetsOfSlice(rows, caller, UserType);
      forall t ensures multiset(Targets(Slice(rows, caller, PostType)))[t] == CountMatches(rows, caller, t, PostType)
                    && multiset(Targets(Slice(rows, caller, UserType)))[t] == CountMatches(rows, caller, t, UserType) {
        TargetsCount(rows, caller, PostType, t);
        TargetsCount(rows, caller, UserType, t);
      }
      Listing(Targets(Slice(rows, caller, PostType)), Targets(Slice(rows, caller, UserType)))
    }

    /** store: favorite a post. No duplicate check happens here. */
    method Store(caller: nat, post: nat) returns (resp: Response)
      modifies this
      ensures rows == old(rows) + [Favorite(caller, post, PostType)]
      ensures resp == PostFavorited
      ensures OnlyTouches(old(rows), rows, caller, PostType)
      ensures NoSelfFollow(old(rows)) ==> NoSelfFollow(rows)
      ensures UniqueFollows(old(rows)) ==> UniqueFollows(rows)
    {
      var f := Favorite(caller, post, PostType);
      AppendOnlyTouches(rows, f);
      rows := rows + [f];
      resp := PostFavorited;
    }

    /** destroy: remove the first (caller, post, Post) row, or 404. */
    method Destroy(caller: nat, post: nat) returns (resp: Response)
      modifies this
      ensures match FirstMatch(old(rows), caller, post, PostType)
              case None => resp == FavoriteNotFound && rows == old(rows)
              case Some(k) => resp == PostUnfavorited && rows == old(rows)[..k] + old(rows)[k + 1..]
      ensures resp == PostUnfavorited <==> HasMatch(old(rows), caller, post, PostType)
      ensures |rows| == if resp == PostUnfavorited then |old(rows)| - 1 else |old(rows)|
      ensures OnlyTouches(old(rows), rows, caller, PostType)
      ensures NoSelfFollow(old(rows)) ==> NoSelfFollow(rows)
      ensures UniqueFollows(old(rows)) ==> UniqueFollows(rows)
    {
      match FirstMatch(rows, caller, post, PostType)
      case None =>
        resp := FavoriteNotFound;
      case Some(k) =>
        RemoveAtOnlyTouches(rows, k);
        if UniqueFollows(rows) {
          RemoveAtKeepsUniqueFollows(rows, k);
        }
        ghost var before := rows;
        rows := rows[..k] + rows[k + 1..];
        assert forall i :: 0 <= i < |rows| ==> rows[i] == before[if i < k then i else i + 1];
        resp := PostUnfavorited;
    }

    /** favoriteUser: reject self-favorites and duplicates, otherwise insert
        one (caller, target, User) row. */
    method FavoriteUser(caller: nat, target: nat) returns (resp: Response)
      modifies this
      ensures caller == target ==> resp == SelfFavoriteRejected && rows == old(rows)
      ensures caller != target && HasMatch(old(rows), caller, target, UserType) ==>
                resp == AlreadyFavorited && rows == old(rows)
      ensures caller != target && !HasMatch(old(rows), caller, target, UserType) ==>
                resp == UserFavorited && rows == old(rows) + [Favorite(caller, target, UserType)]
      ensures resp != SelfFavoriteRejected ==> HasMatch(rows, caller, target, UserType)
      ensures OnlyTouches(old(rows), rows, caller, UserType)
      ensures NoSelfFollow(old(rows)) ==> NoSelfFollow(rows)
      ensures UniqueFollows(old(rows)) ==> UniqueFollows(rows)
    {
      if caller == target {
        resp := SelfFavoriteRejected;
        return;
      }
      var found := HasMatch(rows, caller, target, UserType);
      if found {
        resp := AlreadyFavorited;
        return;
      }
      var f := Favorite(caller, target, UserType);
      AppendOnlyTouches(rows, f);
      rows := rows + [f];
      assert Matches(rows[|rows| - 1], caller, target, UserType);
      resp := UserFavorited;
    }

    /** unfavoriteUser: delete every (caller, target, User) row; 404 when
        none was deleted. */
    method UnfavoriteUser(caller: nat, target: nat) returns (resp: Response)
      modifies this
      ensures rows == RemoveMatching(old(rows), caller, target, UserType)
      ensures !HasMatch(rows, caller, target, UserType)
      ensures resp == (if HasMatch(old(rows), caller, target, UserType) then UserUnfavorited
                       else UserNotInFavorites)
      ensures resp == UserNotInFavorites ==> rows == old(rows)
      ensures OnlyTouches(old(rows), rows, caller, UserType)
      ensures NoSelfFollow(old(rows)) ==> NoSelfFollow(rows)
      ensures UniqueFollows(old(rows)) ==> UniqueFollows(rows)
    {
      var remaining := RemoveMatching(rows, caller, target, UserType);
      RemoveMatchingOnlyTouches(rows, caller, target, UserType);
      if UniqueFollows(rows) {
        RemoveMatchingKeepsUniqueFollows(rows, caller, target, UserType);
      }
      var deleted := |rows| - |remaining|;
      ghost var before := rows;
      rows := remaining;
      forall i | 0 <= i < |rows| ensures !Matches(rows[i], caller, target, UserType) {
        assert rows[i] in remaining;
      }
      assert NoSelfFollow(before) ==> NoSelfFollow(rows) by {
        if NoSelfFollow(before) {
          forall i | 0 <= i < |rows| && rows[i].favoritableType == UserType
            ensures rows[i].favoritableId != rows[i].userId
          {
            assert rows[i] in before;
          }
        }
      }
      if deleted == 0 {
        resp := UserNotInFavorites;
      } else {
        resp := UserUnfavorited;
      }
    }
  }
}
