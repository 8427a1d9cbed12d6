/** Whose row a confirmation changes. A session stores a confirmation under the account that the confirmation names and
    counts its bytes for itself; nothing compares that account with the session's. */
module ConfirmedAccounts {
  import opened AccountingSession
  import C = CostConfirmations
  import opened MachineTypes
  import opened PaymentTypes
  import opened P = PrepaidAccount

  /** The account's row holds the confirmed bytes of the session. */
  predicate Tracks(account: nat, s: System)
    requires s.session.Some?
  {
    account in s.rows && s.rows[account].bytes == s.session.value.confirmed
  }

  // ---------- the exact condition ----------

  /** A confirmation that is stored leaves the account's row equal to the confirmed bytes exactly if it names the
      account, or the row holds those bytes already. */
  lemma StoredTracksIff(cfg: Config, account: nat, s: System, named: nat, valid: bool, bytes: UInt64, now: int)
    requires s.session.Some? && s.writing.None? && Stores(cfg, s.session.value, valid, bytes) && bytes < TWO_63
    ensures var t := P.Step(cfg, account, s, Confirm(named, valid, bytes, now));
            && P.Enabled(t, Write(true))
            && var u := P.Step(cfg, account, t, Write(true));
               && u.session.Some? && u.session.value.confirmed == bytes
               && (Tracks(account, u) <==> named == account || (account in s.rows && s.rows[account].bytes == bytes))
  {
    ConfirmedAtOnce(cfg, account, s, named, valid, bytes, true, now);
    ConfirmedIsStored(cfg, s.session.value, valid, bytes, true, now);
    hide HandleConfirmation, Stores, P.Step;
  }

  /** Another session's write leaves it so exactly if it names another account, or fails, also because the account's row
      was not there when it was counted, or writes the same bytes. */
  lemma ForeignTracksIff(cfg: Config, account: nat, s: System, pending: C.Pending, works: bool)
    requires s.session.Some? && Tracks(account, s) && P.Enabled(s, Foreign(pending, works))
    ensures var t := P.Step(cfg, account, s, Foreign(pending, works));
            && t.session == s.session
            && (Tracks(account, t)
                <==> || pending.cc.account != account || !works || !pending.found
                     || pending.cc.bytes == s.session.value.confirmed)
  {
  }

  // ---------- runs ----------

  lemma RunOne(cfg: Config, account: nat, s: System, i: Input, rest: seq<Input>)
    requires P.Enabled(s, i) && P.Possible(cfg, account, P.Step(cfg, account, s, i), rest)
    ensures P.Possible(cfg, account, s, [i] + rest)
    ensures P.Run(cfg, account, s, [i] + rest) == P.Run(cfg, account, P.Step(cfg, account, s, i), rest)
  {
    assert ([i] + rest)[1..] == rest;
  }

  /** A login and one confirmation that is stored. */
  function LoginAndConfirm(named: nat, bytes: UInt64, now: int): seq<Input>
  {
    [Connect(now)] + ([Certify(Good)] + ([P.Respond(Valid)]
    + ([Confirm(named, true, bytes, now)] + ([Write(true)] + []))))
  }

  /** The session right after a login without stored credit. */
  function LoggedInWith(cfg: Config, row: Option<Row>, status: Status, now: int): Account
  {
    var a := HandleCertificate(NewSession(now), Good);
    HandleResponse(cfg, a, Valid, 0, row, status)
  }

  lemma FreshLogin(cfg: Config, row: Option<Row>, now: int, bytes: UInt64)
    requires Sensible(cfg) && BytesOf(row) + cfg.prepaidInterval < TWO_63
    requires BytesOf(row) < bytes <= BytesOf(row) + cfg.prepaidInterval
    ensures var a := LoggedInWith(cfg, row, StatusOk, now);
            && a.confirmed == a.transferred == BytesOf(row) && AccountOk in a.flags && MultipleLogin !in a.flags
            && Stores(cfg, a, true, bytes)
            && var b := HandleConfirmation(cfg, a, true, bytes, true, now);
               && b.confirmed == bytes && b.transferred == BytesOf(row)
               && AccountOk in b.flags && MultipleLogin !in b.flags
  {
  }

  lemma LoginAndConfirmRuns(cfg: Config, account: nat, s: System, named: nat, bytes: UInt64, now: int)
    requires Sensible(cfg) && s.session.None? && s.login.None? && s.writing.None? && s.stored == 0
    requires s.statuses == map[]
    requires var r := BytesOf(RowOf(s.rows, account));
             r + cfg.prepaidInterval < TWO_63 && r < bytes <= r + cfg.prepaidInterval
    ensures var inputs := LoginAndConfirm(named, bytes, now);
            && P.Possible(cfg, account, s, inputs)
            && var a := LoggedInWith(cfg, RowOf(s.rows, account), StatusOk, now);
               P.Run(cfg, account, s, inputs)
               == s.(session := Some(HandleConfirmation(cfg, a, true, bytes, true, now)),
                     login := Some(Login(0, {}, {})), rows := C.Store(s.rows, CC(named, bytes)))
  {
    var row := RowOf(s.rows, account);
    FreshLogin(cfg, row, now, bytes);
    var i1, i2, i3: Input, i4, i5 := Connect(now), Certify(Good), P.Respond(Valid), Confirm(named, true, bytes, now),
                                     Write(true);
    var s1 := P.Step(cfg, account, s, i1);
    var s2 := P.Step(cfg, account, s1, i2);
    var s3 := P.Step(cfg, account, s2, i3);
    assert s3 == s.(session := Some(LoggedInWith(cfg, row, StatusOk, now)), login := Some(Login(0, {}, {})));
    ConfirmedAtOnce(cfg, account, s3, named, true, bytes, true, now);
    var s4 := P.Step(cfg, account, s3, i4);
    var s5 := P.Step(cfg, account, s4, i5);
    assert P.Possible(cfg, account, s5, []) && P.Run(cfg, account, s5, []) == s5;
    hide P.Step, P.Run, P.Possible, LoggedInWith, HandleConfirmation, Stores;
    RunOne(cfg, account, s4, i5, []);
    RunOne(cfg, account, s3, i4, [i5] + []);
    RunOne(cfg, account, s2, i3, [i4] + ([i5] + []));
    RunOne(cfg, account, s1, i2, [i3] + ([i4] + ([i5] + [])));
    RunOne(cfg, account, s, i1, [i2] + ([i3] + ([i4] + ([i5] + []))));
  }

  lemma DeletesNoneMore(i: Input, rest: seq<Input>)
    requires !i.Settle? && !SomeDeletes(rest)
    ensures !SomeDeletes([i] + rest)
  {
    assert ([i] + rest)[1..] == rest;
  }

  lemma DeletesNothing(named: nat, bytes: UInt64, now: int)
    ensures !SomeDeletes(LoginAndConfirm(named, bytes, now))
  {
    var i4, i5 := Confirm(named, true, bytes, now), Write(true);
    assert !SomeDeletes([]);
    hide SomeDeletes;
    DeletesNoneMore(i5, []);
    DeletesNoneMore(i4, [i5] + []);
    DeletesNoneMore(P.Respond(Valid), [i4] + ([i5] + []));
    DeletesNoneMore(Certify(Good), [P.Respond(Valid)] + ([i4] + ([i5] + [])));
    DeletesNoneMore(Connect(now), [Certify(Good)] + ([P.Respond(Valid)] + ([i4] + ([i5] + []))));
  }

  /** A credit within the interval is stored as it is. */
  lemma DifferenceIsStored(cfg: Config, a: Account)
    requires Sensible(cfg) && 0 <= a.confirmed - a.transferred <= cfg.prepaidInterval
    ensures StoredCredit(cfg, a, Login(0, {}, {})) == a.confirmed - a.transferred
  {
  }

  const EMPTY := System(None, None, None, map[], 0, map[], [], [])

  /** From empty tables, for any other account: the session counts the confirmed bytes for itself, the other account
      gets the row, and its own account has none although nothing was deleted. */
  lemma OtherAccountGetsRow(cfg: Config, account: nat, named: nat, bytes: UInt64, now: int)
    requires Sensible(cfg) && named != account && 0 < bytes <= cfg.prepaidInterval
    ensures var inputs := LoginAndConfirm(named, bytes, now);
            && P.Possible(cfg, account, EMPTY, inputs) && !SomeDeletes(inputs)
            && var t := P.Run(cfg, account, EMPTY, inputs);
               && LoggedIn(t) && t.session.value.confirmed == bytes
               && account !in t.rows && t.rows == map[named := Row(bytes, false)]
  {
    LoginAndConfirmRuns(cfg, account, EMPTY, named, bytes, now);
    FreshLogin(cfg, None, now, bytes);
    DeletesNothing(named, bytes, now);
    hide SomeDeletes, P.Run, P.Possible, LoggedInWith, HandleConfirmation, Stores;
  }

  /** From a row of the account, for any other account and any bytes that are more: after the logout the account's row
      is the old one, the stored credit is the difference, and the next login takes the branch "transferred bytes lower
      than prepaid amount" exactly if the difference is above the row. */
  lemma OwnRowFallsBehind(cfg: Config, account: nat, before: Row, named: nat, bytes: UInt64, now: int)
    requires Sensible(cfg) && account != 0 && named != account && before.bytes + cfg.prepaidInterval < TWO_63
    requires before.bytes < bytes <= before.bytes + cfg.prepaidInterval
    ensures var s := EMPTY.(rows := map[account := before]);
            var inputs := LoginAndConfirm(named, bytes, now);
            && P.Possible(cfg, account, s, inputs)
            && var t := P.Run(cfg, account, s, inputs);
               && P.Enabled(t, Disconnect(true))
               && var u := P.Step(cfg, account, t, Disconnect(true));
                  && u.session.None? && account in u.rows && u.rows[account] == before
                  && u.stored == bytes - before.bytes
                  && (LowerThanPrepaid(account, u) <==> bytes - before.bytes > before.bytes)
  {
    var s := EMPTY.(rows := map[account := before]);
    LoginAndConfirmRuns(cfg, account, s, named, bytes, now);
    FreshLogin(cfg, Some(before), now, bytes);
    var t := P.Run(cfg, account, s, LoginAndConfirm(named, bytes, now));
    DifferenceIsStored(cfg, t.session.value);
    hide P.Run, P.Possible, LoggedInWith, HandleConfirmation, Stores, StoredCredit;
  }

  // ---------- a session that is turned away ----------

  /** A second session that is turned away because the login is occupied is authenticated and was asked for a
      confirmation; it can still store one, of any number of bytes up to the interval, below what the row holds. */
  lemma OccupiedSessionStores(cfg: Config, prepaid: SInt32, row: Option<Row>, status: Status, bytes: UInt64, now: int)
    requires 0 < bytes <= cfg.prepaidInterval
    ensures var a := HandleCertificate(NewSession(now), Good);
            var b := HandleResponse(cfg, a, LoginOccupied, prepaid, row, status);
            MultipleLogin in b.flags && Stores(cfg, b, true, bytes)
  {
  }
}
