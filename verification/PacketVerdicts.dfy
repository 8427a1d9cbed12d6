/** What a packet of a session is answered with, and what it leaves behind: for every session and every login entry. */
module PacketVerdicts {
  import opened AccountingSession
  import opened MachineTypes
  import opened PaymentTypes

  // ---------- packets that are not checked ----------

  /** The packet is counted for the session. */
  predicate IsCounted(a: Account, control: bool, toJap: bool)
  {
    DeleteEntry !in a.flags && FatalError !in a.flags && (LoginNotFinished in a.flags ==> toJap) && !control
  }

  /** No flag asks for a check, and the packet's number is no multiple of 100. */
  predicate NeedsNoCheck(a: Account)
  {
    && TimeoutStarted !in a.flags && HardLimitReached !in a.flags && AccountEmpty !in a.flags
    && WaitingForFirstSettledCC !in a.flags && (a.sessionPackets + 1) % 100 != 0
  }

  /** A packet that is not counted changes nothing; a counted one adds its 998 bytes. Which verdict it gets, but for the
      checks of the credit. */
  lemma VerdictsApartFromCredit(cfg: Config, a: Account, login: Option<Login>, control: bool, toJap: bool, now: int,
                                row: Option<Row>)
    ensures var o := HandlePacket(cfg, a, login, control, toJap, now, row);
            var checked := IsCounted(a, control, toJap) && MultipleLogin !in a.flags && !NeedsNoCheck(a);
            && (!IsCounted(a, control, toJap) ==> o.account == a && o.login == login)
            && (IsCounted(a, control, toJap) ==> o.account.sessionPackets == a.sessionPackets + 1)
            && (o.verdict == CloseConnection
                <==> DeleteEntry in a.flags || (LoginNotFinished in a.flags && !toJap) || (checked && login.None?))
            && (o.verdict == Unchecked
                <==> && DeleteEntry !in a.flags && FatalError !in a.flags && (LoginNotFinished in a.flags ==> toJap)
                     && (control || (MultipleLogin !in a.flags && NeedsNoCheck(a))))
            && (o.verdict == Unchecked && !control ==>
                  o == Outcome(a.(transferred := Add64(a.transferred, 998), sessionPackets := a.sessionPackets + 1),
                               login, Unchecked))
            && (FatalError in a.flags && DeleteEntry !in a.flags && (LoginNotFinished in a.flags ==> toJap)
                ==> o.verdict == PrepareForClosing)
            && (IsCounted(a, control, toJap) && MultipleLogin in a.flags
                ==> o.verdict == PrepareForClosing && FatalError in o.account.flags && o.login == login
                    && o.account.transferred == Add64(a.transferred, 998) && o.account.confirmed == a.confirmed)
            && (checked && login.None?
                ==> o.account.transferred == o.account.confirmed == a.confirmed && o.account.flags == a.flags)
  {
    var b := CountPacket(a);
    SkippingIs(a);
    if login.Some? {
      ReadingCountsNothing(b, login.value, row);
      var r := ReadLogin(b, login.value, row);
      CheckingDecides(cfg, r.account, r.error, now);
    }
    hide ReadLogin, CheckCredit, Skips;
  }

  lemma SkippingIs(a: Account)
    ensures Skips(CountPacket(a)) <==> NeedsNoCheck(a)
  {
    var flags := {TimeoutStarted, HardLimitReached, AccountEmpty, WaitingForFirstSettledCC};
    assert forall f :: f in flags && f in a.flags ==> f in a.flags * flags;
  }

  lemma ReadingCountsNothing(a: Account, login: Login, row: Option<Row>)
    ensures ReadLogin(a, login, row).account.sessionPackets == a.sessionPackets
  {
  }

  lemma CheckingDecides(cfg: Config, a: Account, error: bool, now: int)
    ensures var (b, verdict) := CheckCredit(cfg, a, error, now);
            b.sessionPackets == a.sessionPackets && verdict in {Accepted, PrepareForClosing}
  {
  }

  // ---------- what the login entry reports ----------

  /** The report in the login entry that a packet acts on: the first of these. */
  function Report(login: Login): Option<Flag>
  {
    if OutdatedCC in login.authFlags then Some(OutdatedCC)
    else if AccountEmpty in login.authFlags then Some(AccountEmpty)
    else if InvalidAccount in login.authFlags then Some(InvalidAccount)
    else if Blocked in login.authFlags then Some(Blocked)
    else if Database in login.authFlags then Some(Database)
    else if Unknown in login.authFlags then Some(Unknown)
    else None
  }

  const ERRORS := {InvalidAccount, Blocked, Database, Unknown}

  predicate ReportsError(login: Login)
  {
    Report(login).Some? && Report(login).value in ERRORS
  }

  /** The session is that of an empty account, already or by this report. */
  predicate IsEmpty(a: Account, login: Login)
  {
    Report(login) == Some(AccountEmpty) || AccountEmpty in a.flags - login.authRemoveFlags
  }

  predicate BecomesEmpty(a: Account, login: Login)
  {
    Report(login) == Some(AccountEmpty) && AccountEmpty !in a.flags - login.authRemoveFlags
  }

  /** The credit once the packet is counted: what the payment instance confirmed counts when the account becomes
      empty, and not less than nothing. */
  function CreditAfter(a: Account, login: Login): int
  {
    var transferred := Add64(a.transferred, 998);
    if !BecomesEmpty(a, login) then Credit(a) - 998
    else if login.confirmed > transferred then login.confirmed - transferred
    else 0
  }

  /** The limits end the session: the debt is a whole interval, or there was no credit for 30 s at the hard limit. */
  predicate LimitsRefuse(cfg: Config, a: Account, credit: int, now: int)
  {
    || (credit < 0 && credit <= -(cfg.prepaidInterval as int))
    || (&& HardLimitReached in a.flags && now >= a.lastHardLimit + 30
        && credit <= 0 && (credit < 0 || 0 <= Signed32(cfg.hardLimit)))
  }

  /** The login entry after a packet: the report is taken from it, but for that of an empty account, which stays; the
      bytes of an outdated confirmation are used up when the row in the database is settled. */
  function EntryAfter(login: Login, row: Option<Row>): Login
  {
    match Report(login)
    case None => login
    case Some(AccountEmpty) => login
    case Some(OutdatedCC) =>
      Login(if row.Some? && row.value.settled then 0 else login.confirmed, login.authFlags - {OutdatedCC},
            login.authRemoveFlags)
    case Some(f) => login.(authFlags := login.authFlags - {f})
  }

  lemma ReadingIs(a: Account, login: Login, row: Option<Row>)
    requires a.confirmed < TWO_63 && login.confirmed < TWO_63 && -TWO_31 <= Credit(a) <= TWO_31
    requires BecomesEmpty(a, login) ==> login.confirmed <= a.transferred + TWO_31
    ensures var r := ReadLogin(a, login, row);
            && r.error == ReportsError(login) && r.login == EntryAfter(login, row)
            && (AccountEmpty in r.account.flags <==> IsEmpty(a, login))
            && (forall f :: f in a.flags && f !in login.authRemoveFlags ==> f in r.account.flags)
            && (forall f :: f in r.account.flags && f != SentCCRequest && f != AccountEmpty
                  ==> f in a.flags && f !in login.authRemoveFlags)
            && r.account.lastHardLimit == a.lastHardLimit
            && r.account.confirmed == (if BecomesEmpty(a, login)
                                          || (Report(login) == Some(OutdatedCC) && row.Some? && row.value.settled)
                                       then login.confirmed else a.confirmed)
            && Credit(r.account) == if !BecomesEmpty(a, login) then Credit(a)
                                    else if login.confirmed > a.transferred then login.confirmed - a.transferred
                                    else 0
  {
  }

  lemma CheckingIs(cfg: Config, a: Account, error: bool, now: int)
    requires Sensible(cfg) && -TWO_31 <= Credit(a) < TWO_31 && FatalError !in a.flags
    ensures var (b, verdict) := CheckCredit(cfg, a, error, now);
            && (verdict == PrepareForClosing
                <==> if AccountEmpty in a.flags then Credit(a) <= 0
                     else error || LimitsRefuse(cfg, a, Credit(a), now))
            && (verdict == PrepareForClosing || verdict == Accepted)
            && (FatalError in b.flags <==> verdict == PrepareForClosing)
            && b.confirmed == a.confirmed && b.transferred == a.transferred
            && (forall f :: f !in {FatalError, HardLimitReached, SentCCRequest} ==> (f in b.flags <==> f in a.flags))
  {
    assert PrepaidBytes(a) == Credit(a);
  }

  /** The verdict on a counted packet of a session that neither ends nor is logged in twice, for any login entry: an
      empty account is served exactly as long as it has credit; any other is served unless the entry reports an error or
      the limits refuse. What the packet leaves in the session and in the entry. */
  lemma VerdictIs(cfg: Config, a: Account, login: Login, toJap: bool, now: int, row: Option<Row>)
    requires Sensible(cfg) && Inv(cfg, a) && Settleable(login)
    requires IsCounted(a, false, toJap) && MultipleLogin !in a.flags
    requires BecomesEmpty(a, login) ==> login.confirmed <= Add64(a.transferred, 998) + cfg.prepaidInterval
    ensures var o := HandlePacket(cfg, a, Some(login), false, toJap, now, row);
            var credit := CreditAfter(a, login);
            && (o.verdict == PrepareForClosing
                <==> if IsEmpty(a, login) then credit <= 0
                     else ReportsError(login) || LimitsRefuse(cfg, a, credit, now))
            && (o.verdict == PrepareForClosing || o.verdict == Accepted)
            && (FatalError in o.account.flags <==> o.verdict == PrepareForClosing)
            && o.login == Some(EntryAfter(login, row))
            && Credit(o.account) == credit
            && o.account.confirmed == (if BecomesEmpty(a, login)
                                          || (Report(login) == Some(OutdatedCC) && row.Some? && row.value.settled)
                                       then login.confirmed else a.confirmed)
            && (AccountEmpty in o.account.flags <==> IsEmpty(a, login))
            && (forall f :: f !in {FatalError, HardLimitReached, SentCCRequest, AccountEmpty}
                  ==> (f in o.account.flags <==> f in a.flags && f !in login.authRemoveFlags))
  {
    var b := CountPacket(a);
    CountingCosts(cfg, a);
    SkippingIs(a);
    ReadingIs(b, login, row);
    var r := ReadLogin(b, login, row);
    CheckingIs(cfg, r.account, r.error, now);
    hide ReadLogin, CheckCredit, Credit, Skips;
  }

  // ---------- the limits and the grace of 30 s ----------

  predicate AtHardLimit(cfg: Config, credit: int)
  {
    credit < 0 || credit <= Signed32(cfg.hardLimit)
  }

  predicate AtALimit(cfg: Config, credit: int)
  {
    AtHardLimit(cfg, credit) || credit <= Signed32(cfg.softLimit)
  }

  /** What the checks leave: the time of the hard limit and the request for a confirmation. */
  lemma CheckingLeaves(cfg: Config, a: Account, error: bool, now: int)
    requires Sensible(cfg) && -TWO_31 <= Credit(a) < TWO_31
    ensures var (b, verdict) := CheckCredit(cfg, a, error, now);
            var checked := AccountEmpty !in a.flags && !error;
            var asks := && checked && verdict == Accepted && SentCCRequest !in a.flags
                        && AtALimit(cfg, Credit(a));
            && (HardLimitReached in b.flags
                <==> if checked then AtHardLimit(cfg, Credit(a)) else HardLimitReached in a.flags)
            && b.lastHardLimit
               == (if AccountEmpty in a.flags then now
                   else if !checked then a.lastHardLimit
                   else if verdict == PrepareForClosing then 0
                   else if AtHardLimit(cfg, Credit(a)) && HardLimitReached !in a.flags then now
                   else a.lastHardLimit)
            && (SentCCRequest in b.flags <==> SentCCRequest in a.flags || asks)
            && b.bytesToConfirm == if asks then Add64(a.transferred, cfg.prepaidInterval) else a.bytesToConfirm
  {
    assert PrepaidBytes(a) == Credit(a);
    hide Credit;
  }

  lemma ReadingLeaves(a: Account, login: Login, row: Option<Row>)
    requires login.authRemoveFlags <= REMOVABLE
    ensures var r := ReadLogin(a, login, row);
            && (HardLimitReached in r.account.flags <==> HardLimitReached in a.flags)
            && (SentCCRequest in r.account.flags
                <==> SentCCRequest in a.flags
                     || (Report(login) == Some(OutdatedCC) && row.Some? && row.value.settled))
            && r.account.bytesToConfirm == a.bytesToConfirm
            && (BecomesEmpty(a, login) || (Report(login) == Some(OutdatedCC) && row.Some? && row.value.settled)
                || r.account.transferred == a.transferred)
  {
  }

  /** What a counted packet of a session that neither ends nor is logged in twice leaves of the hard limit's time and of
      the request for a confirmation. After an outdated confirmation no request is sent, because it counts as sent. */
  lemma PacketLeaves(cfg: Config, a: Account, login: Login, toJap: bool, now: int, row: Option<Row>)
    requires Sensible(cfg) && Inv(cfg, a) && Settleable(login)
    requires IsCounted(a, false, toJap) && MultipleLogin !in a.flags
    requires BecomesEmpty(a, login) ==> login.confirmed <= Add64(a.transferred, 998) + cfg.prepaidInterval
    ensures var o := HandlePacket(cfg, a, Some(login), false, toJap, now, row);
            var credit := CreditAfter(a, login);
            var checked := !IsEmpty(a, login) && !ReportsError(login);
            var fixed := Report(login) == Some(OutdatedCC) && row.Some? && row.value.settled;
            var asks := && checked && o.verdict == Accepted && SentCCRequest !in a.flags && !fixed
                        && AtALimit(cfg, credit);
            && (HardLimitReached in o.account.flags
                <==> if checked then AtHardLimit(cfg, credit) else HardLimitReached in a.flags)
            && o.account.lastHardLimit
               == (if IsEmpty(a, login) then now
                   else if !checked then a.lastHardLimit
                   else if o.verdict == PrepareForClosing then 0
                   else if AtHardLimit(cfg, credit) && HardLimitReached !in a.flags then now
                   else a.lastHardLimit)
            && (SentCCRequest in o.account.flags <==> SentCCRequest in a.flags || fixed || asks)
            && o.account.bytesToConfirm
               == if asks then Add64(Add64(a.transferred, 998), cfg.prepaidInterval) else a.bytesToConfirm
  {
    var b := CountPacket(a);
    CountingCosts(cfg, a);
    SkippingIs(a);
    ReadingIs(b, login, row);
    ReadingLeaves(b, login, row);
    var r := ReadLogin(b, login, row);
    CheckingLeaves(cfg, r.account, r.error, now);
    hide ReadLogin, CheckCredit, Credit, Skips, AtHardLimit, AtALimit;
  }

  /** The session has been at the hard limit and without credit since then. */
  predicate InGrace(a: Account, since: int)
  {
    HardLimitReached in a.flags && a.lastHardLimit == since && Credit(a) <= 0
  }

  /** A data packet of a login of which nothing is reported. */
  predicate IsPlainData(e: Event)
  {
    e.Packet? && !e.control && e.toJap && e.login.Some? && Report(e.login.value) == None && Settleable(e.login.value)
    && AccountEmpty !in e.login.value.authFlags
  }

  /** The packet comes 30 s late, or makes the debt a whole interval. */
  predicate EndsGrace(cfg: Config, credit: int, since: int, e: Event)
  {
    e.Packet? && (e.now >= since + 30 || credit - 998 <= -(cfg.prepaidInterval as int))
  }

  lemma GraceStep(cfg: Config, a: Account, since: int, e: Event)
    requires Sensible(cfg) && Inv(cfg, a) && InGrace(a, since) && AccountEmpty !in a.flags && MultipleLogin !in a.flags
    requires IsCounted(a, false, true) && IsPlainData(e)
    ensures var b := Step(cfg, a, e);
            && Inv(cfg, b) && AccountEmpty !in b.flags && MultipleLogin !in b.flags
            && Credit(b) == Credit(a) - 998
            && (FatalError in b.flags <==> EndsGrace(cfg, Credit(a), since, e))
            && (FatalError !in b.flags ==> InGrace(b, since) && IsCounted(b, false, true))
            && (FatalError in b.flags ==> DeleteEntry !in b.flags)
  {
    var login := e.login.value;
    PacketKeepsInv(cfg, a, e);
    VerdictIs(cfg, a, login, true, e.now, e.row);
    PacketLeaves(cfg, a, login, true, e.now, e.row);
    assert !IsEmpty(a, login) && !BecomesEmpty(a, login) && CreditAfter(a, login) == Credit(a) - 998;
    hide HandlePacket, Inv, Credit, CreditAfter, Report, IsEmpty, BecomesEmpty;
  }

  lemma {:induction false} EndedStays(cfg: Config, a: Account, events: seq<Event>)
    requires FatalError in a.flags && forall e :: e in events ==> IsPlainData(e)
    ensures Run(cfg, a, events) == a
    decreases |events|
  {
    hide ReadLogin, CheckCredit;
    if events != [] {
      assert IsPlainData(events[0]);
      EndedStays(cfg, a, events[1..]);
    }
  }

  /** A client that has no credit and does not confirm is served for 30 s since it reached the hard limit, and as long
      as its debt stays below one interval; the first packet after that ends the session. */
  lemma {:induction false} GraceIsThirtySeconds(cfg: Config, a: Account, since: int, events: seq<Event>)
    requires Sensible(cfg) && Inv(cfg, a) && InGrace(a, since) && AccountEmpty !in a.flags && MultipleLogin !in a.flags
    requires IsCounted(a, false, true) && forall e :: e in events ==> IsPlainData(e)
    ensures FatalError in Run(cfg, a, events).flags
            <==> exists i :: 0 <= i < |events| && EndsGrace(cfg, Credit(a) - 998 * i, since, events[i])
    decreases |events|
  {
    hide Step, Inv, Credit, InGrace, IsPlainData, EndsGrace;
    if events != [] {
      var e, rest := events[0], events[1..];
      var b := Step(cfg, a, e);
      GraceStep(cfg, a, since, e);
      assert forall i :: 0 <= i < |rest| ==> rest[i] == events[i + 1];
      if FatalError in b.flags {
        EndedStays(cfg, b, rest);
        assert EndsGrace(cfg, Credit(a) - 998 * 0, since, events[0]);
      } else {
        GraceIsThirtySeconds(cfg, b, since, rest);
        var credit := Credit(b);
        assert forall i :: 0 <= i < |rest| ==> credit - 998 * i == Credit(a) - 998 * (i + 1);
        if FatalError in Run(cfg, b, rest).flags {
          var i :| 0 <= i < |rest| && EndsGrace(cfg, credit - 998 * i, since, rest[i]);
          assert EndsGrace(cfg, Credit(a) - 998 * (i + 1), since, events[i + 1]);
        } else {
          forall i | 0 <= i < |events| ensures !EndsGrace(cfg, Credit(a) - 998 * i, since, events[i]) {
            if i > 0 {
              assert !EndsGrace(cfg, credit - 998 * (i - 1), since, rest[i - 1]);
            }
          }
        }
      }
    }
  }

  /** The grace of a new session begins when it connects; until its login is finished, only packets for the client's
      own login are counted. */
  lemma NewSessionGrace(cfg: Config, now: int, events: seq<Event>, login: Option<Login>, row: Option<Row>, later: int)
    requires Sensible(cfg) && forall e :: e in events ==> IsPlainData(e)
    ensures var a := NewSession(now);
            && HandlePacket(cfg, a, login, false, false, later, row) == Outcome(a, login, CloseConnection)
            && (FatalError in Run(cfg, a, events).flags
                <==> exists i :: 0 <= i < |events| && EndsGrace(cfg, -998 * i, now, events[i]))
  {
    var a := NewSession(now);
    assert Inv(cfg, a) && InGrace(a, now) && IsCounted(a, false, true) && Credit(a) == 0;
    GraceIsThirtySeconds(cfg, a, now, events);
    assert forall i :: 0 <= i < |events| ==> Credit(a) - 998 * i == -998 * i;
    hide Run, IsPlainData, Inv;
  }
}
