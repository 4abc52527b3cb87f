/** ImportUsers (import:users {url} {--limit=}): fetch user records and insert
    every one whose email is not yet taken. The HTTP fetch is an input: its
    success flag and the decoded records. */
module ImportUsers {
  import opened Models

  datatype Record = Record(name: string, email: string)

  /** The outcome of Http::get($url): successful() and json(). */
  datatype FetchResponse = FetchResponse(successful: bool, records: seq<Record>)

  datatype ExitCode = Success | Failure

  /** Stands in for Hash::make('password'): the stored default credential. */
  const DefaultPasswordHash: string := "hash:password"

  predicate EmailTaken(rows: seq<User>, email: string)
  {
    exists i :: 0 <= i < |rows| && rows[i].email == email
  }

  /** The email is that of a record in `recs`. */
  predicate EmailIn(recs: seq<Record>, email: string)
  {
    exists k :: 0 <= k < |recs| && recs[k].email == email
  }

  /** The users table has at most one row per email. */
  predicate UniqueEmails(rows: seq<User>)
  {
    forall i, j :: 0 <= i < j < |rows| ==> rows[i].email != rows[j].email
  }

  /** Some record in `recs` has the user's name and email. */
  predicate RecordFor(recs: seq<Record>, u: User)
  {
    exists k :: 0 <= k < |recs| && recs[k].name == u.name && recs[k].email == u.email
  }

  /** Rows from position `start` on were added by the import of `recs`,
      with consecutive ids from `nextId` and the default credential. */
  predicate AddedFrom(r: seq<User>, start: nat, nextId: nat, recs: seq<Record>)
  {
    forall i :: start <= i < |r| ==>
      r[i].id == nextId + (i - start) && r[i].password == DefaultPasswordHash && RecordFor(recs, r[i])
  }

  /** No row from position `start` on has the given email. */
  predicate NoneAddedWith(r: seq<User>, start: nat, email: string)
  {
    forall i :: start <= i < |r| ==> r[i].email != email
  }

  function Min(a: int, b: int): int { if a <= b then a else b }

  /** Collection::take: the first `limit` records, or for a negative limit
      the last -limit records. */
  function Take(recs: seq<Record>, limit: int): (r: seq<Record>)
    ensures limit >= 0 ==> |r| == Min(limit, |recs|) && r == recs[..|r|]
    ensures limit < 0 ==> |r| == Min(-limit, |recs|) && r == recs[|recs| - |r|..]
  {
    if limit >= 0 then recs[..Min(limit, |recs|)]
    else recs[|recs| - Min(-limit, |recs|)..]
  }

  /** The users table after the insert loop has processed `recs` in order:
      a record is inserted, with the next auto-increment id, unless its email
      is already in the table (including rows inserted earlier in the run). */
  function Imported(rows: seq<User>, nextId: nat, recs: seq<Record>): (r: seq<User>)
    ensures |rows| <= |r| <= |rows| + |recs|
    ensures r[..|rows|] == rows
    decreases |recs|
  {
    if recs == [] then rows
    else
      var before := Imported(rows, nextId, recs[..|recs| - 1]);
      var rec := recs[|recs| - 1];
      if EmailTaken(before, rec.email) then before
      else
        var r := before + [User(nextId + (|before| - |rows|), rec.name, rec.email, DefaultPasswordHash)];
        assert r[..|rows|] == before[..|rows|];
        r
  }

  /** One more record: the insert loop's next step, as `Imported` sees it. */
  lemma ImportedStep(rows: seq<User>, nextId: nat, recs: seq<Record>, i: nat)
    requires i < |recs|
    ensures Imported(rows, nextId, recs[..i + 1]) ==
            var before := Imported(rows, nextId, recs[..i]);
            if EmailTaken(before, recs[i].email) then before
            else before + [User(nextId + (|before| - |rows|), recs[i].name, recs[i].email, DefaultPasswordHash)]
  {
    assert recs[..i + 1][..i] == recs[..i];
  }

  /** After the run an email is in the table exactly when it was there
      before or belongs to one of the processed records. */
  lemma {:induction false} ImportedEmails(rows: seq<User>, nextId: nat, recs: seq<Record>, email: string)
    ensures EmailTaken(Imported(rows, nextId, recs), email) <==> EmailTaken(rows, email) || EmailIn(recs, email)
    decreases |recs|
  {
    if recs != [] {
      var init := recs[..|recs| - 1];
      ImportedEmails(rows, nextId, init, email);
      var before := Imported(rows, nextId, init);
      var rec := recs[|recs| - 1];
      assert EmailIn(recs, email) <==> EmailIn(init, email) || rec.email == email by {
        assert forall k :: 0 <= k < |init| ==> init[k] == recs[k];
      }
      if !EmailTaken(before, rec.email) {
        var r := before + [User(nextId + (|before| - |rows|), rec.name, rec.email, DefaultPasswordHash)];
        assert EmailTaken(r, email) <==> EmailTaken(before, email) || rec.email == email by {
          assert forall i :: 0 <= i < |before| ==> r[i] == before[i];
          assert r[|before|].email == rec.email;
        }
      }
    }
  }

  /** Every row the run adds carries a processed record's name and email, the
      default credential, and the next id in sequence. */
  lemma {:induction false} ImportedNewRows(rows: seq<User>, nextId: nat, recs: seq<Record>)
    ensures AddedFrom(Imported(rows, nextId, recs), |rows|, nextId, recs)
    decreases |recs|
  {
    if recs != [] {
      var init := recs[..|recs| - 1];
      ImportedNewRows(rows, nextId, init);
      var before := Imported(rows, nextId, init);
      var rec := recs[|recs| - 1];
      var added := User(nextId + (|before| - |rows|), rec.name, rec.email, DefaultPasswordHash);
      var r := Imported(rows, nextId, recs);
      assert r == if EmailTaken(before, rec.email) then before else before + [added];
      forall i | |rows| <= i < |r|
        ensures r[i].id == nextId + (i - |rows|) && r[i].password == DefaultPasswordHash
        ensures RecordFor(recs, r[i])
      {
        if i < |before| {
          assert r[i] == before[i];
          assert RecordFor(init, before[i]);
          var k :| 0 <= k < |init| && init[k].name == r[i].name && init[k].email == r[i].email;
          assert recs[k] == init[k];
        } else {
          assert r[i] == added;
          assert recs[|recs| - 1] == rec;
        }
      }
    }
  }

  /** A record whose email was already present is skipped: no added row
      carries that email, and the existing rows are kept as they were. */
  lemma {:induction false} ImportedSkipsExisting(rows: seq<User>, nextId: nat, recs: seq<Record>, email: string)
    requires EmailTaken(rows, email)
    ensures NoneAddedWith(Imported(rows, nextId, recs), |rows|, email)
    decreases |recs|
  {
    if recs != [] {
      var init := recs[..|recs| - 1];
      ImportedSkipsExisting(rows, nextId, init, email);
      var before := Imported(rows, nextId, init);
      var rec := recs[|recs| - 1];
      assert EmailTaken(before, email) by {
        var i :| 0 <= i < |rows| && rows[i].email == email;
        assert before[..|rows|][i] == before[i];
      }
      var added := User(nextId + (|before| - |rows|), rec.name, rec.email, DefaultPasswordHash);
      var r := Imported(rows, nextId, recs);
      assert r == if EmailTaken(before, rec.email) then before else before + [added];
      forall i | |rows| <= i < |r| ensures r[i].email != email {
        if i < |before| { assert r[i] == before[i]; }
      }
    }
  }

  /** If emails were unique before the run, they are unique after it. */
  lemma {:induction false} ImportedKeepsEmailsUnique(rows: seq<User>, nextId: nat, recs: seq<Record>)
    requires UniqueEmails(rows)
    ensures UniqueEmails(Imported(rows, nextId, recs))
    decreases |recs|
  {
    if recs != [] {
      var init := recs[..|recs| - 1];
      ImportedKeepsEmailsUnique(rows, nextId, init);
      var before := Imported(rows, nextId, init);
      var rec := recs[|recs| - 1];
      if !EmailTaken(before, rec.email) {
        var r := Imported(rows, nextId, recs);
        var added := User(nextId + (|before| - |rows|), rec.name, rec.email, DefaultPasswordHash);
        assert r == before + [added];
        forall i, j | 0 <= i < j < |r| ensures r[i].email != r[j].email {
          assert r[i] == before[i];
          if j < |before| { assert r[j] == before[j]; }
        }
      }
    }
  }

  /** Every email among the first `limit` records is in the table after the
      run, however many records were fetched. */
  lemma LimitEmailsPresent(rows: seq<User>, nextId: nat, recs: seq<Record>, limit: nat, j: nat)
    requires j < limit && j < |recs|
    ensures EmailTaken(Imported(rows, nextId, Take(recs, limit)), recs[j].email)
  {
    ImportedEmails(rows, nextId, Take(recs, limit), recs[j].email);
    assert Take(recs, limit)[j] == recs[j];
  }

  /** With a non-negative limit, a record past the limit whose email is
      neither in the table nor among the first `limit` records is never
      inserted. */
  lemma TakeBoundsImport(rows: seq<User>, nextId: nat, recs: seq<Record>, limit: nat, k: nat)
    requires limit <= k < |recs|
    requires !EmailTaken(rows, recs[k].email)
    requires forall j :: 0 <= j < limit ==> recs[j].email != recs[k].email
    ensures !EmailTaken(Imported(rows, nextId, Take(recs, limit)), recs[k].email)
  {
    var taken := Take(recs, limit);
    ImportedEmails(rows, nextId, taken, recs[k].email);
  }

  /** The insert loop over the records already taken: each record whose
      email is not yet in the table becomes a new user with the next id. */
  method InsertNew(users: UserTable, batch: seq<Record>) returns (imported: nat)
    requires users.Valid()
    modifies users
    ensures users.Valid()
    ensures users.rows == Imported(old(users.rows), old(users.nextId), batch)
    ensures imported == |users.rows| - |old(users.rows)|
    ensures users.nextId == old(users.nextId) + imported
  {
    ghost var rows0, id0 := users.rows, users.nextId;
    imported := 0;
    for i := 0 to |batch|
      invariant users.rows == Imported(rows0, id0, batch[..i])
      invariant imported == |users.rows| - |rows0|
      invariant users.nextId == id0 + imported
      invariant users.Valid()
    {
      ImportedStep(rows0, id0, batch, i);
      var rec := batch[i];
      if !EmailTaken(users.rows, rec.email) {
        var user := User(users.nextId, rec.name, rec.email, DefaultPasswordHash);
        AppendFreshUser(users.rows, users.nextId, user);
        users.rows := users.rows + [user];
        users.nextId := users.nextId + 1;
        imported := imported + 1;
      }
    }
    assert batch[..|batch|] == batch;
  }

  /** handle(): check the limit, then the fetch, then take the first `limit`
      records and insert each one whose email is not yet taken. */
  method Handle(users: UserTable, limit: int, fetch: FetchResponse) returns (code: ExitCode, imported: nat)
    requires users.Valid()
    modifies users
    ensures users.Valid()
    ensures limit == 0 ==> code == Failure && imported == 0 && unchanged(users)
    ensures limit != 0 && !fetch.successful ==> code == Failure && imported == 0 && unchanged(users)
    ensures limit != 0 && fetch.successful ==>
              code == Success &&
              users.rows == Imported(old(users.rows), old(users.nextId), Take(fetch.records, limit)) &&
              imported == |users.rows| - |old(users.rows)| &&
              users.nextId == old(users.nextId) + imported
  {
    if limit == 0 {
      return Failure, 0;
    }
    if !fetch.successful {
      return Failure, 0;
    }
    imported := InsertNew(users, Take(fetch.records, limit));
    code := Success;
  }
}
