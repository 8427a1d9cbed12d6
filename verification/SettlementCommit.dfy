/** Applying the list of settlement results: first to the stored credit and the account statuses in the database,
    then to the table of logged-in accounts. */
module SettlementCommit {
  import opened CostConfirmations
  import opened PaymentTypes

  type Logins = map<nat, Login>

  // ---------- stored credit ----------

  predicate Forfeits(e: Entry)
  {
    InvalidAccount in e.authFlags || Flag.Unknown in e.authFlags
  }

  function Max(a: int, b: int): int { if a < b then b else a }

  /** What the entries of one account leave of its stored credit. */
  function Remaining(amount: int, entries: seq<Entry>, account: nat): int
    decreases |entries|
  {
    if entries == [] then amount
    else
      var e := entries[0];
      var rest := if e.account != account then amount
                  else if Forfeits(e) then 0
                  else if e.diffBytes == 0 then amount
                  else Max(0, amount - e.diffBytes);
      Remaining(rest, entries[1..], account)
  }

  lemma RemainingOne(amount: int, e: Entry, account: nat)
    ensures Remaining(amount, [e], account)
            == if e.account != account then amount
               else if Forfeits(e) then 0
               else if e.diffBytes == 0 then amount
               else Max(0, amount - e.diffBytes)
  {
    var rest: seq<Entry> := [e][1..];
    assert forall x :: Remaining(x, rest, account) == x;
  }

  function TotalDiff(entries: seq<Entry>, account: nat): nat
  {
    if entries == [] then 0
    else (if entries[0].account == account then entries[0].diffBytes else 0) + TotalDiff(entries[1..], account)
  }

  /** A stored credit is charged with the sum of the differences and not below zero, whatever the order of the
      entries; any forfeiting entry leaves nothing, and a debt stays while there is no difference. */
  lemma {:induction false} CreditIsCharged(amount: int, entries: seq<Entry>, account: nat)
    ensures Remaining(amount, entries, account)
            == if exists i :: 0 <= i < |entries| && entries[i].account == account && Forfeits(entries[i]) then 0
               else if TotalDiff(entries, account) == 0 then amount
               else Max(0, amount - TotalDiff(entries, account))
    decreases |entries|
  {
    if entries != [] {
      var e, rest := entries[0], entries[1..];
      var next := if e.account != account then amount
                  else if Forfeits(e) then 0
                  else if e.diffBytes == 0 then amount
                  else Max(0, amount - e.diffBytes);
      CreditIsCharged(next, rest, account);
      assert forall i :: 0 <= i < |rest| ==> rest[i] == entries[i + 1];
      assert forall i :: 0 < i < |entries| ==> entries[i] == rest[i - 1];
      if i :| 0 <= i < |rest| && rest[i].account == account && Forfeits(rest[i]) {
        assert entries[i + 1].account == account && Forfeits(entries[i + 1]);
      }
    }
  }

  // ---------- account statuses ----------

  /** The settlement result lets the account's status be forgotten. */
  predicate Clears(e: Entry)
  {
    && Flag.AccountEmpty !in e.authFlags && Flag.Blocked !in e.authFlags && InvalidAccount !in e.authFlags
    && e.storedStatus != StatusOk
  }

  /** Forgetting a status also takes its flag back from the login table. */
  function ClearedFlags(status: Status): set<Flag>
  {
    match status
    case StatusAccountEmpty => {Flag.AccountEmpty}
    case StatusBlocked => {Flag.Blocked}
    case StatusKeyNotFound => {InvalidAccount}
    case _ => {}
  }

  predicate SomeClears(entries: seq<Entry>, account: nat)
  {
    exists e :: e in entries && e.account == account && Clears(e)
  }

  lemma SomeClearsSnoc(entries: seq<Entry>, e: Entry)
    ensures forall a :: SomeClears(entries + [e], a) <==> SomeClears(entries, a) || (e.account == a && Clears(e))
  {
    var all := entries + [e];
    assert forall x :: x in all <==> x in entries || x == e;
    forall a ensures SomeClears(all, a) <==> SomeClears(entries, a) || (e.account == a && Clears(e)) {
      if e.account == a && Clears(e) {
        assert e in all;
      }
    }
  }

  function Updated(e: Entry): Entry
  {
    if Clears(e) then e.(authRemoveFlags := e.authRemoveFlags + ClearedFlags(e.storedStatus)) else e
  }

  /** A settlement leaves an account with the status of its answer: empty or blocked after such an answer, as it was
      after an invalid account, and none in all other cases. */
  lemma StatusFollowsAnswer(statuses: Statuses, cc: CC, answer: Answer, first: bool)
    ensures var before := StatusOf(statuses, cc.account);
            var handled := HandledStatuses(statuses, cc, answer, true);
            var e := EntryFor(cc, answer, first, before);
            var after := if Clears(e) then handled - {cc.account} else handled;
            StatusOf(after, cc.account) == match answer
                                           case AccountEmpty(_) => StatusAccountEmpty
                                           case Blocked => StatusBlocked
                                           case KeyNotFound => before
                                           case _ => StatusOk
  {
  }

  // ---------- the commit to the database ----------

  method ChargeEntry(db: AccountDatabase, entry: Entry)
    modifies db`prepaid
    ensures forall a, rest :: Remaining(Amount(db.prepaid, a), rest, a)
                              == Remaining(Amount(old(db.prepaid), a), [entry] + rest, a)
  {
    ghost var was := db.prepaid;
    if InvalidAccount in entry.authFlags || Flag.Unknown in entry.authFlags {
      db.StorePrepaidAmount(entry.account, 0);
    } else if entry.diffBytes != 0 {
      var bytes := db.GetPrepaidAmount(entry.account, true);
      if bytes > 0 {
        if entry.diffBytes >= bytes {
          bytes := 0;
        } else {
          bytes := bytes - entry.diffBytes;
        }
        db.StorePrepaidAmount(entry.account, bytes);
      }
    }
    assert forall a :: a != entry.account ==> Amount(db.prepaid, a) == Amount(was, a);
    forall a, rest: seq<Entry>
      ensures Remaining(Amount(db.prepaid, a), rest, a) == Remaining(Amount(was, a), [entry] + rest, a)
    {
      assert ([entry] + rest)[1..] == rest;
    }
  }

  method ClearEntry(db: AccountDatabase, entry: Entry) returns (updated: Entry)
    modifies db`statuses
    ensures updated == Updated(entry)
    ensures db.statuses == if Clears(entry) then old(db.statuses) - {entry.account} else old(db.statuses)
  {
    updated := entry;
    assert entry.authRemoveFlags + {} == entry.authRemoveFlags;
    if Flag.AccountEmpty !in entry.authFlags && Flag.Blocked !in entry.authFlags
       && InvalidAccount !in entry.authFlags && entry.storedStatus != StatusOk {
      db.ClearAccountStatus(entry.account);
      match entry.storedStatus {
        case StatusAccountEmpty =>
          updated := updated.(authRemoveFlags := updated.authRemoveFlags + {Flag.AccountEmpty});
        case StatusBlocked =>
          updated := updated.(authRemoveFlags := updated.authRemoveFlags + {Flag.Blocked});
        case StatusKeyNotFound =>
          updated := updated.(authRemoveFlags := updated.authRemoveFlags + {InvalidAccount});
        case _ =>
      }
    }
  }

  /** The list is walked in order; without a database connection nothing is written. */
  method CommitToDatabase(db: AccountDatabase, entries: seq<Entry>, connected: bool) returns (updated: seq<Entry>)
    modifies db`prepaid, db`statuses
    ensures !connected ==> db.prepaid == old(db.prepaid) && db.statuses == old(db.statuses) && updated == entries
    ensures connected ==> forall a :: Amount(db.prepaid, a) == Remaining(Amount(old(db.prepaid), a), entries, a)
    ensures connected ==> |updated| == |entries| && forall i :: 0 <= i < |entries| ==> updated[i] == Updated(entries[i])
    ensures connected ==>
              forall a :: StatusOf(db.statuses, a)
                          == if SomeClears(entries, a) then StatusOk else StatusOf(old(db.statuses), a)
  {
    updated := if connected then [] else entries;
    var i := 0;
    while i < |entries| && connected
      invariant 0 <= i <= |entries|
      invariant !connected ==> db.prepaid == old(db.prepaid) && db.statuses == old(db.statuses) && updated == entries
      invariant connected ==> forall a :: Remaining(Amount(db.prepaid, a), entries[i..], a)
                                          == Remaining(Amount(old(db.prepaid), a), entries, a)
      invariant connected ==> |updated| == i && forall j :: 0 <= j < i ==> updated[j] == Updated(entries[j])
      invariant connected ==>
                  forall a :: StatusOf(db.statuses, a)
                              == if SomeClears(entries[..i], a) then StatusOk else StatusOf(old(db.statuses), a)
    {
      var entry := entries[i];
      ChargeEntry(db, entry);
      assert entries[i..] == [entry] + entries[i + 1..];
      assert entries[..i + 1] == entries[..i] + [entry];
      SomeClearsSnoc(entries[..i], entry);
      entry := ClearEntry(db, entry);
      updated := updated + [entry];
      i := i + 1;
    }
    assert entries[..|entries|] == entries;
  }

  // ---------- the login table ----------

  class LoginTable {
    var entries: Logins

    constructor ()
      ensures entries == map[]
    {
      entries := map[];
    }

    method CommitSettlement(list: seq<Entry>)
      modifies this
      ensures entries == Committed(old(entries), list)
    {
      var i := 0;
      while i < |list|
        invariant 0 <= i <= |list|
        invariant Committed(entries, list[i..]) == Committed(old(entries), list)
      {
        var entry := list[i];
        assert list[i..][1..] == list[i + 1..];
        if entry.account in entries {
          var login := entries[entry.account];
          login := login.(authFlags := login.authFlags + entry.authFlags);
          login := login.(authRemoveFlags := login.authRemoveFlags + entry.authRemoveFlags);
          if entry.confirmedBytes > 0 && login.confirmed < entry.confirmedBytes {
            login := login.(confirmed := entry.confirmedBytes);
          }
          entries := entries[entry.account := login];
        }
        i := i + 1;
      }
    }
  }

  function Merged(login: Login, e: Entry): Login
  {
    Login(if e.confirmedBytes > login.confirmed then e.confirmedBytes else login.confirmed,
          login.authFlags + e.authFlags, login.authRemoveFlags + e.authRemoveFlags)
  }

  function Committed(logins: Logins, list: seq<Entry>): Logins
    decreases |list|
  {
    if list == [] then logins
    else
      var e := list[0];
      Committed(if e.account in logins then logins[e.account := Merged(logins[e.account], e)] else logins, list[1..])
  }

  /** The commit logs nobody in or out; a login's confirmed bytes become the largest number reported for its
      account, never less than before, and exactly the reported flags are added. */
  lemma {:induction false} CommitReportsAll(logins: Logins, list: seq<Entry>, account: nat)
    ensures Committed(logins, list).Keys == logins.Keys
    ensures account in logins ==>
              var b, a := logins[account], Committed(logins, list)[account];
              && (forall i :: 0 <= i < |list| && list[i].account == account
                              ==> list[i].confirmedBytes <= a.confirmed)
              && (a.confirmed == b.confirmed
                  || (a.confirmed > b.confirmed
                      && exists i :: 0 <= i < |list| && list[i].account == account
                                     && a.confirmed == list[i].confirmedBytes))
              && (forall f :: f in a.authFlags
                              <==> (f in b.authFlags
                                    || exists i :: (&& 0 <= i < |list| && list[i].account == account
                                                    && f in list[i].authFlags)))
              && (forall f :: f in a.authRemoveFlags
                              <==> (f in b.authRemoveFlags
                                    || exists i :: (&& 0 <= i < |list| && list[i].account == account
                                                    && f in list[i].authRemoveFlags)))
    decreases |list|
  {
    if list != [] {
      var e, rest := list[0], list[1..];
      var next := if e.account in logins then logins[e.account := Merged(logins[e.account], e)] else logins;
      CommitReportsAll(next, rest, account);
      assert forall i :: 0 <= i < |rest| ==> rest[i] == list[i + 1];
      assert forall i :: 0 < i < |list| ==> list[i] == rest[i - 1];
    }
  }
}
