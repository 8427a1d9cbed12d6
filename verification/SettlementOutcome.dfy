/** What a settlement does to the account it settles, answer by answer: to its stored credit, and to the session's next
    packet. */
module SettlementOutcome {
  import opened AccountingSession
  import C = CostConfirmations
  import opened ClientMessages
  import opened MachineTypes
  import opened PacketVerdicts
  import opened PaymentTypes
  import P = PrepaidAccount
  import S = SettlementCommit

  /** The payment instance does not know the account, or cannot tell: the stored credit is lost. */
  predicate LosesCredit(answer: C.Answer)
  {
    answer.KeyNotFound? || answer.InternalError? || answer.OtherError?
  }

  /** The session is ended with an error. */
  predicate EndsSession(answer: C.Answer)
  {
    LosesCredit(answer) || answer.Blocked?
  }

  /** By how much the payment instance confirms less for an empty account than the client did. */
  function Short(bytes: UInt64, answer: C.Answer): nat
  {
    match answer
    case AccountEmpty(Some(paid)) => if paid < bytes then bytes - paid else 0
    case _ => 0
  }

  /** The bytes that the payment instance sends back. */
  function SentBack(answer: C.Answer): UInt64
  {
    match answer
    case AccountEmpty(Some(paid)) => paid
    case Outdated(Some(attached)) => attached.bytes
    case _ => 0
  }

  predicate SendsNewer(answer: C.Answer)
  {
    answer.Outdated? && answer.attached.Some?
  }

  /** The system after an answer for the account and both halves of its commit. */
  function Settled(cfg: Config, account: nat, s: P.System, i: P.Input, connected: bool): P.System
    requires i.Settle? && P.Enabled(s, i) && s.toDatabase == [] && s.toLogin == []
  {
    var t := P.Step(cfg, account, s, i);
    var u := P.Step(cfg, account, t, P.CommitDatabase(connected));
    P.Step(cfg, account, u, P.CommitLogin)
  }

  /** The stored credit: lost exactly after those three answers, charged exactly with what is short, and untouched
      otherwise or when there is no connection. */
  lemma CreditAfterAnswer(cfg: Config, account: nat, s: P.System, i: P.Input, connected: bool)
    requires i.Settle? && P.Enabled(s, i) && s.toDatabase == [] && s.toLogin == []
    ensures var t := Settled(cfg, account, s, i, connected);
            t.stored == if !connected then s.stored
                        else if LosesCredit(i.answer) then 0
                        else if Short(i.bytes, i.answer) == 0 then s.stored
                        else if s.stored > Short(i.bytes, i.answer) then s.stored - Short(i.bytes, i.answer)
                        else 0
  {
    var t := P.Step(cfg, account, s, i);
    S.RemainingOne(s.stored, t.toDatabase[0], account);
  }

  /** The row, for both statements carried out: gone after these answers, replaced by a newer confirmation, marked when
      its bytes are acknowledged, and untouched otherwise. */
  lemma RowAfterAnswer(cfg: Config, account: nat, s: P.System, i: P.Input, connected: bool)
    requires i.Settle? && P.Enabled(s, i) && s.toDatabase == [] && s.toLogin == [] && i.first && i.second
    ensures var rows := Settled(cfg, account, s, i, connected).rows;
            && (i.answer.KeyNotFound? || i.answer.OtherError? || i.answer.Blocked? ==> rows == s.rows - {account})
            && (SendsNewer(i.answer) ==>
                  var cc := i.answer.attached.value; rows == s.rows[cc.account := Row(cc.bytes, true)])
            && (i.answer.Accepted? || i.answer.AccountEmpty? ==>
                  rows == if account in s.rows && s.rows[account].bytes == i.bytes
                          then s.rows[account := Row(i.bytes, true)] else s.rows)
            && (i.answer.NoAnswer? || i.answer.InternalError? || i.answer.DatabaseError? || i.answer == C.Outdated(None)
                ==> rows == s.rows)
  {
  }

  /** The one flag that an answer reports, but for the one of an account that was settled once. */
  function Reported(answer: C.Answer): set<Flag>
  {
    if SendsNewer(answer) then {OutdatedCC}
    else if answer.AccountEmpty? then {AccountEmpty}
    else if answer.KeyNotFound? then {InvalidAccount}
    else if answer.Blocked? then {Blocked}
    else if answer.InternalError? || answer.OtherError? then {Unknown}
    else {}
  }

  predicate SettlesOnce(answer: C.Answer, first: bool)
  {
    answer.Accepted? || answer.AccountEmpty? || (SendsNewer(answer) && first)
  }

  lemma EntrySays(cc: CC, answer: C.Answer, first: bool, status: Status)
    ensures var e := C.EntryFor(cc, answer, first, status);
            && e.account == cc.account && e.confirmedBytes == SentBack(answer) && e.diffBytes == Short(cc.bytes, answer)
            && e.authFlags == Reported(answer) + (if SettlesOnce(answer, first) then {SETTLED_ONCE} else {})
            && e.authRemoveFlags == if EndsSession(answer) then {} else {WaitingForFirstSettledCC}
  {
  }

  /** The answer lets the status that the account had be forgotten. */
  predicate Forgets(answer: C.Answer, status: Status)
  {
    !status.StatusOk? && !answer.AccountEmpty? && !answer.Blocked? && !answer.KeyNotFound?
  }

  /** The account's status follows the answer, for every statement that works or not: an empty or a blocked account gets
      its status, and one that is neither, nor unknown, loses it if there is a connection. */
  lemma StatusAfterAnswer(cfg: Config, account: nat, s: P.System, i: P.Input, connected: bool, other: nat)
    requires i.Settle? && P.Enabled(s, i) && s.toDatabase == [] && s.toLogin == []
    ensures var statuses := Settled(cfg, account, s, i, connected).statuses;
            var before := C.StatusOf(s.statuses, account);
            && C.StatusOf(statuses, account)
               == (if i.third && i.answer.AccountEmpty? then StatusAccountEmpty
                   else if i.third && i.answer.Blocked? then StatusBlocked
                   else if connected && Forgets(i.answer, before) then StatusOk
                   else before)
            && (other != account ==> C.StatusOf(statuses, other) == C.StatusOf(s.statuses, other))
  {
  }

  /** Taking a status back takes its flag from the session. */
  function TakenBack(answer: C.Answer, status: Status, connected: bool): set<Flag>
  {
    (if EndsSession(answer) then {} else {WaitingForFirstSettledCC})
    + (if connected && Forgets(answer, status) && FlagOf(status).Some? then {FlagOf(status).value} else {})
  }

  lemma UpdatedTakesBack(cc: CC, answer: C.Answer, first: bool, status: Status)
    ensures var e := C.EntryFor(cc, answer, first, status);
            && e.authRemoveFlags == TakenBack(answer, status, false)
            && S.Updated(e) == e.(authRemoveFlags := TakenBack(answer, status, true))
  {
  }

  /** The entry of an answer goes through both halves of the commit into the login entry. */
  lemma SettledSystem(cfg: Config, account: nat, s: P.System, i: P.Input, connected: bool)
    requires i.Settle? && P.Enabled(s, i) && s.toDatabase == [] && s.toLogin == [] && s.login.Some?
    ensures var t := Settled(cfg, account, s, i, connected);
            var e := C.EntryFor(CC(account, i.bytes), i.answer, i.first, C.StatusOf(s.statuses, account));
            && t.session == s.session && t.writing == s.writing && t.toDatabase == [] && t.toLogin == []
            && t.login == Some(S.Merged(s.login.value, if connected then S.Updated(e) else e))
  {
    hide C.EntryFor, S.Remaining, S.Merged, S.Updated, C.Handled;
  }

  lemma MergedReports(l: Login, e: C.Entry, answer: C.Answer, first: bool)
    requires e.authFlags == Reported(answer) + (if SettlesOnce(answer, first) then {SETTLED_ONCE} else {})
    ensures var m := S.Merged(l, e);
            && (SETTLED_ONCE in m.authFlags <==> SETTLED_ONCE in l.authFlags || SettlesOnce(answer, first))
            && (Report(l) == None ==>
                  && (Report(m) == Some(OutdatedCC) <==> SendsNewer(answer))
                  && (Report(m) == Some(AccountEmpty) <==> answer.AccountEmpty?)
                  && (ReportsError(m) <==> EndsSession(answer)))
  {
  }

  /** What arrives in the login entry. */
  lemma EntryAfterAnswer(cfg: Config, account: nat, s: P.System, i: P.Input, connected: bool)
    requires i.Settle? && P.Enabled(s, i) && s.toDatabase == [] && s.toLogin == [] && s.login.Some?
    ensures var l, t := s.login.value, Settled(cfg, account, s, i, connected);
            && t.session == s.session && t.writing == s.writing && t.toDatabase == [] && t.toLogin == []
            && t.login.Some?
            && var m := t.login.value;
               && m.confirmed == (if SentBack(i.answer) > l.confirmed then SentBack(i.answer) else l.confirmed)
               && l.authFlags <= m.authFlags
               && m.authRemoveFlags
                  == l.authRemoveFlags + TakenBack(i.answer, C.StatusOf(s.statuses, account), connected)
               && (SETTLED_ONCE in m.authFlags
                   <==> SETTLED_ONCE in l.authFlags || SettlesOnce(i.answer, i.first))
               && (Report(l) == None ==>
                     && (Report(m) == Some(OutdatedCC) <==> SendsNewer(i.answer))
                     && (Report(m) == Some(AccountEmpty) <==> i.answer.AccountEmpty?)
                     && (ReportsError(m) <==> EndsSession(i.answer)))
  {
    var status := C.StatusOf(s.statuses, account);
    var e := C.EntryFor(CC(account, i.bytes), i.answer, i.first, status);
    EntrySays(CC(account, i.bytes), i.answer, i.first, status);
    UpdatedTakesBack(CC(account, i.bytes), i.answer, i.first, status);
    SettledSystem(cfg, account, s, i, connected);
    MergedReports(s.login.value, e, i.answer, i.first);
    MergedReports(s.login.value, S.Updated(e), i.answer, i.first);
    hide C.EntryFor, Settled, SentBack, Reported, SettlesOnce, Report, ReportsError, EndsSession, SendsNewer, TakenBack,
         Forgets;
  }

  /** The next packet after a settlement, for every answer and a session in which nothing else was reported. The session
      is ended with an error exactly after those answers. After an empty account's it goes on exactly while the bytes
      paid cover it. After all others it goes on exactly if the limits allow it, with the credit that it had. The flag
      of a missing first settlement stays exactly after the answers that end the session. */
  lemma NextPacketAfterAnswer(cfg: Config, account: nat, s: P.System, i: P.Input, connected: bool, now: int)
    requires Sensible(cfg) && i.Settle? && P.Enabled(s, i) && s.toDatabase == [] && s.toLogin == []
    requires s.session.Some? && s.login.Some? && Inv(cfg, s.session.value) && Settleable(s.login.value)
    requires Report(s.login.value) == None && AccountEmpty !in s.session.value.flags
    requires IsCounted(s.session.value, false, true) && MultipleLogin !in s.session.value.flags
    requires SentBack(i.answer) < TWO_63
    requires i.answer.AccountEmpty? ==>
               var transferred := Add64(s.session.value.transferred, 998);
               s.login.value.confirmed <= transferred + cfg.prepaidInterval
               && SentBack(i.answer) <= transferred + cfg.prepaidInterval
    ensures var a, l := s.session.value, s.login.value;
            var t := Settled(cfg, account, s, i, connected);
            var o := HandlePacket(cfg, a, t.login, false, true, now, P.RowOf(t.rows, account));
            var transferred := Add64(a.transferred, 998);
            var paid := if SentBack(i.answer) > l.confirmed then SentBack(i.answer) else l.confirmed;
            && t.session == Some(a)
            && (o.verdict == PrepareForClosing
                <==> if i.answer.AccountEmpty? then paid <= transferred
                     else EndsSession(i.answer) || LimitsRefuse(cfg, a, Credit(a) - 998, now))
            && (o.verdict == Accepted || o.verdict == PrepareForClosing)
            && (FatalError in o.account.flags <==> o.verdict == PrepareForClosing)
            && Credit(o.account) == (if !i.answer.AccountEmpty? then Credit(a) - 998
                                     else if paid > transferred then paid - transferred else 0)
            && (AccountEmpty in o.account.flags <==> i.answer.AccountEmpty?)
            && (i.answer.AccountEmpty? ==> o.account.confirmed == paid)
            && (!i.answer.AccountEmpty? && !SendsNewer(i.answer) ==> o.account.confirmed == a.confirmed)
            && (WaitingForFirstSettledCC in o.account.flags
                <==> && WaitingForFirstSettledCC in a.flags && EndsSession(i.answer)
                     && WaitingForFirstSettledCC !in l.authRemoveFlags)
  {
    var a, t := s.session.value, Settled(cfg, account, s, i, connected);
    EntryAfterAnswer(cfg, account, s, i, connected);
    hide Settled, EndsSession;
    VerdictIs(cfg, a, t.login.value, true, now, P.RowOf(t.rows, account));
    hide HandlePacket, Inv, Credit;
  }

  // ---------- the flag that never arrives ----------

  /** Nothing closes the session, and no status code sets the bit. */
  predicate LeavesOpen(e: Event)
  {
    !e.Closing? && (e.EndOfLogin? ==> SETTLED_ONCE !in e.added)
  }

  lemma SettledOncePacket(cfg: Config, a: Account, login: Option<Login>, control: bool, toJap: bool, now: int,
                          row: Option<Row>)
    requires SETTLED_ONCE !in a.flags
    ensures SETTLED_ONCE !in HandlePacket(cfg, a, login, control, toJap, now, row).account.flags
  {
    hide Credit, PrepaidBytes, Signed32, Signed64, Sub64, LimitReached, Refused;
    if login.Some? {
      var r := ReadLogin(CountPacket(a), login.value, row);
      assert SETTLED_ONCE !in r.account.flags;
      assert SETTLED_ONCE !in CheckCredit(cfg, r.account, r.error, now).0.flags;
      hide ReadLogin, CheckCredit;
    }
  }

  lemma SettledOnceStep(cfg: Config, a: Account, e: Event)
    requires SETTLED_ONCE !in a.flags && LeavesOpen(e)
    ensures SETTLED_ONCE !in AccountingSession.Step(cfg, a, e).flags
  {
    hide Credit, PrepaidBytes, Signed32, Signed64, Sub64;
    match e
    case Packet(login, control, toJap, now, row) => SettledOncePacket(cfg, a, login, control, toJap, now, row);
    case CostConfirmation(_, _, _, _) =>
    case ChallengeResponse(_, _, _, _) =>
    case _ =>
  }

  /** The flag that an account was settled once is reported to the login entry, but it never reaches the session, where
      the end of the login looks for it: that always takes the branches of an account that was not settled. */
  lemma {:induction false} SettledOnceNeverArrives(cfg: Config, a: Account, events: seq<Event>)
    requires SETTLED_ONCE !in a.flags && forall e :: e in events ==> LeavesOpen(e)
    ensures SETTLED_ONCE !in Run(cfg, a, events).flags
    decreases |events|
  {
    hide AccountingSession.Step;
    if events != [] {
      SettledOnceStep(cfg, a, events[0]);
      SettledOnceNeverArrives(cfg, AccountingSession.Step(cfg, a, events[0]), events[1..]);
    }
  }

  /** So the end of a login always takes the credit of an account that is reported empty and not blocked: what the
      payment instance confirmed of it is not taken over, but replaced in the login entry. */
  lemma EmptyLoginLosesCredit(cfg: Config, now: int, events: seq<Event>, login: Login, status: set<Flag>)
    requires (forall e :: e in events ==> LeavesOpen(e)) && SETTLED_ONCE !in status
    requires AccountEmpty in login.authFlags
    ensures var a := Run(cfg, NewSession(now), events);
            var (b, l) := FinishLogin(a, Some(login), status);
            Blocked !in b.flags
            ==> Credit(b) == 0 && b.confirmed == a.confirmed && l == Some(login.(confirmed := a.confirmed))
  {
    SettledOnceNeverArrives(cfg, NewSession(now), events);
    EndOfLoginIs(Run(cfg, NewSession(now), events), Some(login), status);
    hide Run, FinishLogin;
  }
}
