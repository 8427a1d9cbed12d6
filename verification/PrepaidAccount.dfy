/** One account on one cascade over successive sessions: the session, its login entry, the account's row of cost
    confirmations, its stored credit and its status move together, and settlement answers arrive in between. */
module PrepaidAccount {
  import opened AccountingSession
  import C = CostConfirmations
  import opened MachineTypes
  import opened PaymentTypes
  import S = SettlementCommit

  /** A confirmation that the session is about to write, since `now`. */
  datatype Writing = Writing(pending: C.Pending, now: int)

  /** `toDatabase` and `toLogin` are settlement results that wait for the two halves of their commit. */
  datatype System = System(session: Option<Account>, login: Option<Login>, writing: Option<Writing>, rows: C.Rows,
                           stored: SInt32, statuses: C.Statuses, toDatabase: seq<C.Entry>, toLogin: seq<C.Entry>)

  /** `works`, `known`, `first`, `second` and `third` tell which statements the database carries out. A confirmation
      names an account, not necessarily that of the session that received it. `Foreign` is a write of a session of
      another connection. */
  datatype Input =
    | Connect(now: int)
    | Certify(certificate: Certificate)
    | Respond(response: Response)
    | Confirm(named: nat, valid: bool, bytes: UInt64, now: int)
    | Write(works: bool)
    | Data(control: bool, toJap: bool, now: int)
    | LoginAnswered(failed: bool)
    | FinishLogin(known: bool)
    | Drop
    | Disconnect(works: bool)
    | Settle(bytes: UInt64, answer: C.Answer, first: bool, second: bool, third: bool)
    | CommitDatabase(connected: bool)
    | CommitLogin
    | Foreign(pending: C.Pending, works: bool)

  /** These inputs do not come through the session. */
  predicate Outside(i: Input)
  {
    i.Settle? || i.CommitDatabase? || i.CommitLogin? || i.Foreign?
  }

  function RowOf(rows: C.Rows, account: nat): Option<Row>
  {
    if account in rows then Some(rows[account]) else None
  }

  /** What an input means to the session: every answer of the database comes from the system's own tables. */
  function EventOf(account: nat, s: System, i: Input): Option<Event>
  {
    match i
    case Certify(certificate) => Some(AccountCertificate(certificate))
    case Respond(response) =>
      Some(ChallengeResponse(response, s.stored, RowOf(s.rows, account), C.StatusOf(s.statuses, account)))
    case Data(control, toJap, now) => Some(Packet(s.login, control, toJap, now, RowOf(s.rows, account)))
    case LoginAnswered(failed) => Some(LoginMessage(failed))
    case FinishLogin(known) =>
      Some(EndOfLogin(s.login, if known then FlagsOf(CodeOf(C.StatusOf(s.statuses, account))) else {}))
    case Drop => Some(DropCredit)
    case _ => None
  }

  /** A session handles one message after the other; only what comes from outside goes on while it writes a
      confirmation. A login is occupied only if the account has a login entry, and the signed column refuses a count of
      2^63 or more. */
  predicate Enabled(s: System, i: Input)
  {
    match i
    case Connect(_) => s.session.None?
    case Respond(response) => s.session.Some? && s.writing.None? && (response.LoginOccupied? ==> s.login.Some?)
    case Write(works) =>
      s.session.Some? && s.writing.Some? && (works ==> s.writing.value.pending.cc.bytes < TWO_63)
    case Settle(_, answer, first, _, _) =>
      answer.Outdated? && answer.attached.Some? && first ==> answer.attached.value.bytes < TWO_63
    case CommitDatabase(_) => s.toDatabase != []
    case CommitLogin => s.toLogin != []
    case Foreign(pending, works) => works ==> pending.cc.bytes < TWO_63
    case _ => s.session.Some? && s.writing.None?
  }

  /** The login entry after an event of the session. */
  function LoginAfter(cfg: Config, a: Account, login: Option<Login>, e: Event): Option<Login>
  {
    match e
    case Packet(l, control, toJap, now, row) => HandlePacket(cfg, a, l, control, toJap, now, row).login
    case ChallengeResponse(response, _, _, _) =>
      if DeleteEntry !in a.flags && {GotAccountCert, ChallengeSent} <= a.flags && response.Valid?
      then Some(Login(0, {}, {})) else login
    case EndOfLogin(l, added) => AccountingSession.FinishLogin(a, l, added).1
    case _ => login
  }

  /** The stored credit after the database half of a commit. */
  function Charged(account: nat, stored: SInt32, e: C.Entry): SInt32
  {
    S.RemainingOne(stored, e, account);
    S.Remaining(stored, [e], account)
  }

  function Step(cfg: Config, account: nat, s: System, i: Input): System
    requires Enabled(s, i)
  {
    var event := EventOf(account, s, i);
    if event.Some? then
      var a, e := s.session.value, event.value;
      s.(session := Some(AccountingSession.Step(cfg, a, e)), login := LoginAfter(cfg, a, s.login, e))
    else
      match i
      case Connect(now) => s.(session := Some(NewSession(now)))
      case Confirm(named, valid, bytes, now) =>
        var a := s.session.value;
        if Stores(cfg, a, valid, bytes) then
          s.(writing := Some(Writing(C.Counted(s.rows, CC(named, bytes)), now)))
        else s.(session := Some(HandleConfirmation(cfg, a, valid, bytes, false, now)))
      case Write(works) =>
        var w := s.writing.value;
        var stored := works && C.WriteSucceeds(s.rows, w.pending);
        s.(session := Some(HandleConfirmation(cfg, s.session.value, true, w.pending.cc.bytes, stored, w.now)),
           rows := if works then C.Written(s.rows, w.pending) else s.rows, writing := None)
      case Disconnect(works) =>
        var a := s.session.value;
        if account != 0 && AccountOk in a.flags && MultipleLogin !in a.flags && s.login.Some? then
          s.(session := None, login := None,
             stored := if works then StoredCredit(cfg, a, s.login.value) else s.stored)
        else s.(session := None)
      case Settle(bytes, answer, first, second, third) =>
        var cc := CC(account, bytes);
        s.(rows := C.Handled(s.rows, cc, answer, first, second),
           statuses := C.HandledStatuses(s.statuses, cc, answer, third),
           toDatabase := s.toDatabase + [C.EntryFor(cc, answer, first, C.StatusOf(s.statuses, account))])
      case CommitDatabase(connected) =>
        var e := s.toDatabase[0];
        if connected then
          s.(stored := Charged(account, s.stored, e), toDatabase := s.toDatabase[1..],
             statuses := if S.Clears(e) then s.statuses - {account} else s.statuses,
             toLogin := s.toLogin + [S.Updated(e)])
        else s.(toDatabase := s.toDatabase[1..], toLogin := s.toLogin + [e])
      case CommitLogin =>
        s.(login := if s.login.Some? then Some(S.Merged(s.login.value, s.toLogin[0])) else None,
           toLogin := s.toLogin[1..])
      case Foreign(pending, works) => s.(rows := if works then C.Written(s.rows, pending) else s.rows)
  }

  /** With nothing in between, a confirmation is stored and confirmed as if in one step. */
  lemma ConfirmedAtOnce(cfg: Config, account: nat, s: System, named: nat, valid: bool, bytes: UInt64, works: bool,
                        now: int)
    requires s.session.Some? && s.writing.None? && Stores(cfg, s.session.value, valid, bytes)
    requires works ==> bytes < TWO_63
    ensures var t := Step(cfg, account, s, Confirm(named, valid, bytes, now));
            && Enabled(t, Write(works))
            && Step(cfg, account, t, Write(works))
               == s.(session := Some(HandleConfirmation(cfg, s.session.value, valid, bytes, works, now)),
                     rows := if works then C.Store(s.rows, CC(named, bytes)) else s.rows)
  {
    C.WrittenAtOnce(s.rows, CC(named, bytes));
  }

  predicate Possible(cfg: Config, account: nat, s: System, inputs: seq<Input>)
    decreases |inputs|
  {
    inputs == []
    || (Enabled(s, inputs[0]) && Possible(cfg, account, Step(cfg, account, s, inputs[0]), inputs[1..]))
  }

  function Run(cfg: Config, account: nat, s: System, inputs: seq<Input>): System
    requires Possible(cfg, account, s, inputs)
    decreases |inputs|
  {
    if inputs == [] then s else Run(cfg, account, Step(cfg, account, s, inputs[0]), inputs[1..])
  }

  // ---------- runs in which the account's row is its own ----------

  /** The two answers that put other numbers in the place of the confirmed bytes: an empty account, and an outdated
      confirmation with the newer one attached. */
  predicate Replaces(answer: C.Answer)
  {
    answer.AccountEmpty? || (answer.Outdated? && answer.attached.Some?)
  }

  /** No such answer, and the confirmations for the account are exactly those of its own session. The source checks
      neither that a confirmation names the session's account nor that no other session's does. */
  predicate Plain(account: nat, i: Input)
  {
    && (i.Settle? ==> !Replaces(i.answer))
    && (i.Confirm? ==> i.named == account)
    && (i.Foreign? ==> i.pending.cc.account != account)
  }

  predicate AllPlain(account: nat, inputs: seq<Input>)
  {
    inputs == [] || (Plain(account, inputs[0]) && AllPlain(account, inputs[1..]))
  }

  predicate PlainEntry(account: nat, e: C.Entry)
  {
    && e.account == account && AccountEmpty !in e.authFlags && OutdatedCC !in e.authFlags
    && e.confirmedBytes == 0 && e.diffBytes == 0 && e.authRemoveFlags <= REMOVABLE
  }

  predicate PlainLogin(l: Login)
  {
    && AccountEmpty !in l.authFlags && OutdatedCC !in l.authFlags
    && l.confirmed < TWO_63 && l.authRemoveFlags <= REMOVABLE
  }

  /** The session of such a run has a login entry exactly if it is authenticated; before that nothing is counted, and
      afterwards the row, if there is one, holds exactly the confirmed bytes. */
  predicate PlainSession(cfg: Config, a: Account, login: Option<Login>, row: Option<Row>)
  {
    && Inv(cfg, a) && Covered(a) && AccountEmpty !in a.flags && MultipleLogin !in a.flags
    && (login.Some? <==> AccountOk in a.flags)
    && (if AccountOk in a.flags then row.Some? ==> a.confirmed == row.value.bytes
        else a.confirmed == 0 && a.transferred == 0)
  }

  predicate PlainStatus(status: Status)
  {
    status.StatusOk? || status.StatusBlocked? || status.StatusKeyNotFound?
  }

  predicate PlainTables(cfg: Config, account: nat, s: System)
  {
    && account != 0 && s.stored <= cfg.prepaidInterval && BytesOf(RowOf(s.rows, account)) < TWO_63
    && PlainStatus(C.StatusOf(s.statuses, account))
    && (forall e :: e in s.toDatabase ==> PlainEntry(account, e))
    && (forall e :: e in s.toLogin ==> PlainEntry(account, e))
    && (s.login.Some? ==> PlainLogin(s.login.value))
  }

  predicate PlainWriting(cfg: Config, account: nat, a: Account, writing: Option<Writing>)
  {
    writing.Some? ==>
      && writing.value.pending.cc.account == account
      && Stores(cfg, a, true, writing.value.pending.cc.bytes)
  }

  predicate PlainInv(cfg: Config, account: nat, s: System)
  {
    && PlainTables(cfg, account, s)
    && (s.session.Some? ==>
          && PlainSession(cfg, s.session.value, s.login, RowOf(s.rows, account))
          && PlainWriting(cfg, account, s.session.value, s.writing))
    && (s.session.None? ==> s.login.None? && s.writing.None?)
  }

  // ---------- packets ----------

  lemma PlainReading(a: Account, login: Login, row: Option<Row>)
    requires PlainLogin(login)
    ensures var r := ReadLogin(a, login, row);
            r.account == a.(flags := a.flags - login.authRemoveFlags) && PlainLogin(r.login)
  {
  }

  lemma PlainChecking(cfg: Config, a: Account, error: bool, now: int)
    requires AccountEmpty !in a.flags
    ensures var b := CheckCredit(cfg, a, error, now).0;
            && b.confirmed == a.confirmed && AccountEmpty !in b.flags
            && (forall f :: f in {AccountOk, MultipleLogin} ==> (f in b.flags <==> f in a.flags))
  {
    hide PrepaidBytes, LimitReached, Refused;
  }

  lemma PlainPacketFlags(cfg: Config, a: Account, login: Option<Login>, control: bool, toJap: bool, now: int,
                         row: Option<Row>)
    requires AccountEmpty !in a.flags && MultipleLogin !in a.flags && TimeoutStarted in a.flags
    requires login.Some? ==> PlainLogin(login.value)
    ensures var o := HandlePacket(cfg, a, login, control, toJap, now, row);
            && AccountEmpty !in o.account.flags && MultipleLogin !in o.account.flags
            && (AccountOk in o.account.flags <==> AccountOk in a.flags)
            && o.account.confirmed == a.confirmed
            && (login.None? ==> o.account == a || o.account.transferred == a.confirmed)
            && (login.Some? <==> o.login.Some?) && (o.login.Some? ==> PlainLogin(o.login.value))
  {
    var b := CountPacket(a);
    assert TimeoutStarted in b.flags * {TimeoutStarted, HardLimitReached, AccountEmpty, WaitingForFirstSettledCC};
    if login.Some? {
      PlainReading(b, login.value, row);
      var r := ReadLogin(b, login.value, row);
      PlainChecking(cfg, r.account, r.error, now);
    }
    hide ReadLogin, CheckCredit;
  }

  lemma PlainPacket(cfg: Config, a: Account, login: Option<Login>, control: bool, toJap: bool, now: int,
                    row: Option<Row>)
    requires Sensible(cfg) && PlainSession(cfg, a, login, row) && (login.Some? ==> PlainLogin(login.value))
    ensures var o := HandlePacket(cfg, a, login, control, toJap, now, row);
            && PlainSession(cfg, o.account, o.login, row)
            && (o.login.Some? ==> PlainLogin(o.login.value))
  {
    var e := Packet(login, control, toJap, now, row);
    PacketKeepsInv(cfg, a, e);
    PacketStaysCovered(cfg, a, e);
    PlainPacketFlags(cfg, a, login, control, toJap, now, row);
    hide HandlePacket, Covered;
  }

  // ---------- confirmations ----------

  lemma ConfirmationFlags(cfg: Config, a: Account, valid: bool, bytes: UInt64, stored: bool, now: int)
    ensures var b := HandleConfirmation(cfg, a, valid, bytes, stored, now);
            && (forall f :: f in {AccountOk, MultipleLogin, AccountEmpty} ==> (f in b.flags <==> f in a.flags))
            && (AccountOk !in a.flags ==> b == a)
            && b.transferred == a.transferred
  {
    hide PrepaidBytes;
  }

  /** Accepting, rejecting or failing to store a confirmation: the row, if there is one, follows the confirmed bytes. */
  lemma PlainConfirmation(cfg: Config, a: Account, login: Option<Login>, row: Option<Row>, valid: bool,
                          bytes: UInt64, stored: bool, now: int, next: Option<Row>)
    requires Sensible(cfg) && PlainSession(cfg, a, login, row) && (stored ==> bytes < TWO_63)
    requires if Stores(cfg, a, valid, bytes) && stored then next.Some? ==> next.value.bytes == bytes else next == row
    ensures PlainSession(cfg, HandleConfirmation(cfg, a, valid, bytes, stored, now), login, next)
  {
    ConfirmationKeepsInv(cfg, a, valid, bytes, stored, now);
    ConfirmedIsStored(cfg, a, valid, bytes, stored, now);
    StaysCoveredUnless(cfg, a, CostConfirmation(valid, bytes, stored, now));
    ConfirmationFlags(cfg, a, valid, bytes, stored, now);
    hide HandleConfirmation, Inv, Covered, Stores;
  }

  lemma PlainConfirm(cfg: Config, account: nat, s: System, i: Input)
    requires Sensible(cfg) && PlainInv(cfg, account, s) && i.Confirm? && Enabled(s, i) && Plain(account, i)
    ensures PlainInv(cfg, account, Step(cfg, account, s, i))
  {
    var a, row := s.session.value, RowOf(s.rows, account);
    if Stores(cfg, a, i.valid, i.bytes) {
      assert Stores(cfg, a, true, i.bytes);
    } else {
      PlainConfirmation(cfg, a, s.login, row, i.valid, i.bytes, false, i.now, row);
    }
    hide PlainSession, PlainEntry, Stores, HandleConfirmation;
  }

  lemma PlainWrite(cfg: Config, account: nat, s: System, i: Input)
    requires Sensible(cfg) && PlainInv(cfg, account, s) && i.Write? && Enabled(s, i)
    ensures PlainInv(cfg, account, Step(cfg, account, s, i))
  {
    var w, t := s.writing.value, Step(cfg, account, s, i);
    var stored := i.works && C.WriteSucceeds(s.rows, w.pending);
    PlainConfirmation(cfg, s.session.value, s.login, RowOf(s.rows, account), true, w.pending.cc.bytes, stored, w.now,
                      RowOf(t.rows, account));
    hide PlainSession, PlainEntry, Stores, HandleConfirmation;
  }

  // ---------- the login ----------

  lemma PlainResponse(cfg: Config, account: nat, s: System, i: Input)
    requires Sensible(cfg) && PlainInv(cfg, account, s) && i.Respond? && Enabled(s, i)
    ensures PlainInv(cfg, account, Step(cfg, account, s, i))
  {
    var a, e := s.session.value, EventOf(account, s, i).value;
    ResponseKeepsInv(cfg, a, i.response, s.stored, e.row, e.status);
    StaysCoveredUnless(cfg, a, e);
    if ChallengeSent in a.flags {
      LoadingAdds(cfg, SetFlag(ClearFlag(a, ChallengeSent), AccountOk), s.stored, e.row);
    }
    hide LoadCounters, Inv, Covered, PlainEntry;
  }

  /** The end of a login that was answered, or of one that was not. */
  lemma PlainFinishing(cfg: Config, a: Account, login: Option<Login>, added: set<Flag>, row: Option<Row>)
    requires Sensible(cfg) && PlainSession(cfg, a, login, row) && (login.Some? ==> PlainLogin(login.value))
    requires added <= {GotAccountCert, WaitingForFirstSettledCC}
    ensures var (b, l) := AccountingSession.FinishLogin(a, login, added);
            PlainSession(cfg, b, l, row) && (l.Some? ==> PlainLogin(l.value))
  {
    var b := AccountingSession.FinishLogin(a, login, added).0;
    assert b.confirmed == a.confirmed && b.transferred == a.transferred;
    if AccountOk in a.flags {
      EndOfLoginKeepsInv(cfg, a, EndOfLogin(login, added));
      hide Inv, Credit;
    } else {
      assert Credit(b) == Credit(a);
      hide Credit;
    }
  }

  lemma PlainFinish(cfg: Config, account: nat, s: System, i: Input)
    requires Sensible(cfg) && PlainInv(cfg, account, s) && i.FinishLogin? && Enabled(s, i)
    ensures PlainInv(cfg, account, Step(cfg, account, s, i))
  {
    var a, e := s.session.value, EventOf(account, s, i).value;
    StatusCodesAreNoFlags();
    hide FlagsOf;
    PlainFinishing(cfg, a, s.login, e.added, RowOf(s.rows, account));
    hide PlainEntry, PlainSession, AccountingSession.FinishLogin;
  }

  lemma PlainSessionStep(cfg: Config, account: nat, s: System, i: Input)
    requires Sensible(cfg) && PlainInv(cfg, account, s) && Enabled(s, i)
    requires i.Certify? || i.LoginAnswered? || i.Drop?
    ensures PlainInv(cfg, account, Step(cfg, account, s, i))
  {
    var a, e := s.session.value, EventOf(account, s, i).value;
    StepKeepsInv(cfg, a, e);
    StaysCoveredUnless(cfg, a, e);
    hide Inv, Covered, PlainEntry;
  }

  // ---------- settlement ----------

  predicate Deleting(i: Input)
  {
    i.Settle? && C.Deletes(i.answer) && i.first
  }

  predicate Forfeiting(s: System, i: Input)
    requires Enabled(s, i)
  {
    i.CommitDatabase? && i.connected && S.Forfeits(s.toDatabase[0])
  }

  /** Settlement changes no counter of the session. The row stays or is deleted, and the stored credit stays or is
      forfeited. */
  lemma PlainSettle(cfg: Config, account: nat, s: System, i: Input)
    requires PlainTables(cfg, account, s) && Enabled(s, i) && Plain(account, i)
    requires Outside(i)
    ensures var t := Step(cfg, account, s, i);
            && PlainTables(cfg, account, t)
            && t.session == s.session && t.writing == s.writing && (t.login.Some? <==> s.login.Some?)
            && t.stored == (if Forfeiting(s, i) then 0 else s.stored)
            && var row, row' := RowOf(s.rows, account), RowOf(t.rows, account);
               && (row'.Some? <==> row.Some? && !Deleting(i))
               && (row'.Some? ==> row'.value.bytes == row.value.bytes)
  {
    match i
    case Settle(bytes, answer, first, second, third) =>
      assert PlainEntry(account, C.EntryFor(CC(account, bytes), answer, first, C.StatusOf(s.statuses, account)));
    case CommitDatabase(connected) =>
      var e := s.toDatabase[0];
      assert PlainEntry(account, e);
      S.RemainingOne(s.stored, e, account);
      assert PlainEntry(account, S.Updated(e));
    case CommitLogin =>
      assert PlainEntry(account, s.toLogin[0]);
    case Foreign(_, _) =>
  }

  lemma SettleKeepsInv(cfg: Config, account: nat, s: System, i: Input)
    requires PlainInv(cfg, account, s) && Enabled(s, i) && Plain(account, i)
    requires Outside(i)
    ensures PlainInv(cfg, account, Step(cfg, account, s, i))
  {
    PlainSettle(cfg, account, s, i);
    hide PlainTables, Step, Inv, Covered, Stores;
  }

  lemma PlainStep(cfg: Config, account: nat, s: System, i: Input)
    requires Sensible(cfg) && PlainInv(cfg, account, s) && Enabled(s, i) && Plain(account, i)
    ensures PlainInv(cfg, account, Step(cfg, account, s, i))
  {
    match i
    case Connect(now) =>
      assert PlainSession(cfg, NewSession(now), s.login, RowOf(s.rows, account));
    case Respond(_) => PlainResponse(cfg, account, s, i);
    case Confirm(_, _, _, _) => PlainConfirm(cfg, account, s, i);
    case Write(_) => PlainWrite(cfg, account, s, i);
    case Data(control, toJap, now) =>
      PlainPacket(cfg, s.session.value, s.login, control, toJap, now, RowOf(s.rows, account));
      hide PlainSession, PlainEntry, HandlePacket;
    case FinishLogin(_) => PlainFinish(cfg, account, s, i);
    case Disconnect(works) =>
      if s.login.Some? {
        StoredCreditIsTrusted(cfg, s.session.value, s.login.value);
      }
      hide StoredCredit, PlainEntry;
    case Settle(_, _, _, _, _) => SettleKeepsInv(cfg, account, s, i);
    case CommitDatabase(_) => SettleKeepsInv(cfg, account, s, i);
    case CommitLogin => SettleKeepsInv(cfg, account, s, i);
    case Foreign(_, _) => SettleKeepsInv(cfg, account, s, i);
    case _ => PlainSessionStep(cfg, account, s, i);
  }

  lemma {:induction false} PlainRunKeepsInv(cfg: Config, account: nat, s: System, inputs: seq<Input>)
    requires Sensible(cfg) && PlainInv(cfg, account, s)
    requires Possible(cfg, account, s, inputs) && AllPlain(account, inputs)
    ensures PlainInv(cfg, account, Run(cfg, account, s, inputs))
    decreases |inputs|
  {
    hide PlainInv, Step, Plain, Enabled;
    if inputs != [] {
      PlainStep(cfg, account, s, inputs[0]);
      PlainRunKeepsInv(cfg, account, Step(cfg, account, s, inputs[0]), inputs[1..]);
    }
  }

  /** Nobody is connected, and the tables hold what a cascade may leave in them. */
  predicate Idle(cfg: Config, account: nat, s: System)
  {
    s.session.None? && s.login.None? && s.writing.None? && PlainTables(cfg, account, s)
  }

  predicate LoggedIn(s: System)
  {
    s.session.Some? && AccountOk in s.session.value.flags
  }

  /** The inputs around a login keep the confirmed bytes, and authenticate nobody. */
  lemma LoginInputs(cfg: Config, account: nat, s: System, i: Input)
    requires PlainInv(cfg, account, s) && Enabled(s, i)
    requires i.Certify? || i.LoginAnswered? || i.FinishLogin? || i.Drop?
    ensures var t := Step(cfg, account, s, i);
            && t.rows == s.rows && t.stored == s.stored && t.writing == s.writing && (LoggedIn(t) <==> LoggedIn(s))
            && t.session.Some? && t.session.value.confirmed == s.session.value.confirmed
  {
    StatusCodesAreNoFlags();
    hide FlagsOf, Inv, Covered, PlainEntry;
  }

  /** So does an answer to the challenge unless it is accepted. */
  lemma ResponseInput(cfg: Config, account: nat, s: System, i: Input)
    requires Sensible(cfg) && PlainInv(cfg, account, s) && Enabled(s, i) && i.Respond?
    ensures var t := Step(cfg, account, s, i);
            && t.rows == s.rows && t.stored == s.stored && t.writing.None?
            && (LoggedIn(s) ==> t == s)
            && (LoggedIn(t) && !LoggedIn(s) ==>
                  i.response.Valid? && t.session.value.confirmed == BytesOf(RowOf(s.rows, account)))
  {
    var a, row := s.session.value, RowOf(s.rows, account);
    if {GotAccountCert, ChallengeSent} <= a.flags {
      LoadingAdds(cfg, SetFlag(ClearFlag(a, ChallengeSent), AccountOk), s.stored, row);
    }
    hide LoadCounters, Credit, Covered, PlainEntry;
  }

  /** A confirmation, begun or written, keeps the session authenticated or not. */
  lemma ConfirmingInput(cfg: Config, account: nat, s: System, i: Input)
    requires PlainInv(cfg, account, s) && Enabled(s, i) && Plain(account, i) && (i.Confirm? || i.Write?)
    ensures var t := Step(cfg, account, s, i);
            && t.stored == s.stored && (LoggedIn(t) <==> LoggedIn(s)) && t.session.Some?
            && (!LoggedIn(s) ==> t.rows == s.rows && i.Confirm?)
            && (i.Confirm? ==> t.rows == s.rows && t.session.value.confirmed == s.session.value.confirmed)
            && (i.Confirm? && t.writing.Some? ==> (t.writing.value.pending.found <==> account in s.rows))
            && (i.Write? ==>
                  var p := s.writing.value.pending;
                  && t.writing.None? && p.cc.account == account
                  && t.rows == (if i.works then C.Written(s.rows, p) else s.rows)
                  && t.session.value.confirmed == if i.works && C.WriteSucceeds(s.rows, p) then p.cc.bytes
                                                  else s.session.value.confirmed)
  {
    var a := s.session.value;
    if i.Confirm? {
      ConfirmationFlags(cfg, a, i.valid, i.bytes, false, i.now);
      ConfirmedIsStored(cfg, a, i.valid, i.bytes, false, i.now);
    } else {
      var w := s.writing.value;
      var stored := i.works && C.WriteSucceeds(s.rows, w.pending);
      ConfirmationFlags(cfg, a, true, w.pending.cc.bytes, stored, w.now);
      ConfirmedIsStored(cfg, a, true, w.pending.cc.bytes, stored, w.now);
      assert AccountOk in a.flags;
    }
    hide HandleConfirmation, PlainSession, Stores, PlainTables;
  }

  // ---------- the row and the session ----------

  predicate SomeDeletes(inputs: seq<Input>)
  {
    inputs != [] && (Deleting(inputs[0]) || SomeDeletes(inputs[1..]))
  }

  /** The row holds the confirmed bytes, and no row means none. */
  predicate Complete(account: nat, s: System)
  {
    && (LoggedIn(s) ==> s.session.value.confirmed == BytesOf(RowOf(s.rows, account)))
    && (s.writing.Some? ==> (s.writing.value.pending.found <==> account in s.rows))
  }

  lemma StepKeepsComplete(cfg: Config, account: nat, s: System, i: Input)
    requires Sensible(cfg) && PlainInv(cfg, account, s) && Enabled(s, i) && Plain(account, i) && !Deleting(i)
    requires Complete(account, s)
    ensures Complete(account, Step(cfg, account, s, i))
  {
    match i
    case Connect(_) =>
    case Disconnect(_) =>
    case Respond(_) =>
      ResponseInput(cfg, account, s, i);
      hide Step, PlainInv;
    case Confirm(_, _, _, _) =>
      ConfirmingInput(cfg, account, s, i);
      hide Step, PlainInv;
    case Write(_) =>
      ConfirmingInput(cfg, account, s, i);
      hide Step, PlainInv;
    case Data(control, toJap, now) =>
      PlainPacketFlags(cfg, s.session.value, s.login, control, toJap, now, RowOf(s.rows, account));
      hide HandlePacket, PlainTables;
    case Settle(_, _, _, _, _) =>
      PlainSettle(cfg, account, s, i);
      hide Step, PlainTables;
    case CommitDatabase(_) =>
      PlainSettle(cfg, account, s, i);
      hide Step, PlainTables;
    case CommitLogin =>
      PlainSettle(cfg, account, s, i);
      hide Step, PlainTables;
    case Foreign(_, _) =>
      PlainSettle(cfg, account, s, i);
      hide Step, PlainTables;
    case _ =>
      LoginInputs(cfg, account, s, i);
      hide Step, PlainInv;
  }

  lemma {:induction false} RunKeepsComplete(cfg: Config, account: nat, s: System, inputs: seq<Input>)
    requires Sensible(cfg) && PlainInv(cfg, account, s)
    requires Possible(cfg, account, s, inputs) && AllPlain(account, inputs)
    requires Complete(account, s) && !SomeDeletes(inputs)
    ensures Complete(account, Run(cfg, account, s, inputs))
    decreases |inputs|
  {
    hide PlainInv, Step, Plain, Enabled, Complete, Deleting;
    if inputs != [] {
      PlainStep(cfg, account, s, inputs[0]);
      StepKeepsComplete(cfg, account, s, inputs[0]);
      RunKeepsComplete(cfg, account, Step(cfg, account, s, inputs[0]), inputs[1..]);
    }
  }

  /** After any run without the two answers, in which the confirmations for the account are those of its own session,
      the row of an authenticated session is absent or holds exactly its confirmed bytes; if no answer deleted it, it is
      absent only if nothing was confirmed. */
  lemma RowTracksSession(cfg: Config, account: nat, s: System, inputs: seq<Input>)
    requires Sensible(cfg) && Idle(cfg, account, s) && Possible(cfg, account, s, inputs) && AllPlain(account, inputs)
    ensures var t := Run(cfg, account, s, inputs);
            LoggedIn(t) ==>
              && (account in t.rows ==> t.rows[account].bytes == t.session.value.confirmed)
              && (!SomeDeletes(inputs) ==> t.session.value.confirmed == BytesOf(RowOf(t.rows, account)))
  {
    PlainRunKeepsInv(cfg, account, s, inputs);
    if !SomeDeletes(inputs) {
      RunKeepsComplete(cfg, account, s, inputs);
    }
  }

  // ---------- the next login ----------

  /** The answer to the challenge will be accepted. */
  predicate Challenged(s: System)
  {
    && s.session.Some? && s.writing.None? && ChallengeSent in s.session.value.flags
    && DeleteEntry !in s.session.value.flags
  }

  /** A login after any such run: the confirmed bytes come from the row, and the credit is the stored one if it is
      positive and the row covers it; otherwise there is none. */
  lemma LoginRestores(cfg: Config, account: nat, s: System)
    requires Sensible(cfg) && PlainInv(cfg, account, s) && Challenged(s)
    ensures var row := RowOf(s.rows, account);
            var b := Step(cfg, account, s, Respond(Valid)).session.value;
            && b.confirmed == BytesOf(row)
            && Credit(b) == if 0 < s.stored <= BytesOf(row) then s.stored else 0
  {
    var a, row := s.session.value, RowOf(s.rows, account);
    LoadingAdds(cfg, SetFlag(ClearFlag(a, ChallengeSent), AccountOk), s.stored, row);
    hide LoadCounters;
  }

  /** The branch "transferred bytes lower than prepaid amount" of that login. */
  predicate LowerThanPrepaid(account: nat, s: System)
  {
    s.stored > 0 && s.stored > BytesOf(RowOf(s.rows, account))
  }

  /** While nobody is logged in, a row covers the stored credit. */
  predicate StoredIsCovered(account: nat, s: System)
  {
    !LoggedIn(s) && account in s.rows ==> s.stored <= s.rows[account].bytes
  }

  lemma LogoutIsCovered(cfg: Config, account: nat, s: System)
    requires Sensible(cfg) && PlainInv(cfg, account, s) && Enabled(s, Disconnect(true)) && StoredIsCovered(account, s)
    ensures StoredIsCovered(account, Step(cfg, account, s, Disconnect(true)))
  {
    if LoggedIn(s) {
      CastIsExact(cfg, s.session.value);
    }
    hide PlainEntry;
  }

  lemma StepKeepsCovered(cfg: Config, account: nat, s: System, i: Input)
    requires Sensible(cfg) && PlainInv(cfg, account, s) && Enabled(s, i) && Plain(account, i)
    requires StoredIsCovered(account, s) && (i.Disconnect? ==> i.works)
    ensures StoredIsCovered(account, Step(cfg, account, s, i))
  {
    match i
    case Disconnect(_) => LogoutIsCovered(cfg, account, s);
    case Settle(_, _, _, _, _) => PlainSettle(cfg, account, s, i);
    case CommitDatabase(_) => PlainSettle(cfg, account, s, i);
    case CommitLogin => PlainSettle(cfg, account, s, i);
    case Foreign(_, _) => PlainSettle(cfg, account, s, i);
    case _ => LoggedInStays(cfg, account, s, i);
  }

  /** Only a login logs in, only a logout logs out, and no other input touches the stored credit; the rows change by a
      confirmation of a session that is logged in. */
  lemma LoggedInStays(cfg: Config, account: nat, s: System, i: Input)
    requires Sensible(cfg) && PlainInv(cfg, account, s) && Enabled(s, i)
    requires Plain(account, i) && !i.Disconnect? && !Outside(i)
    ensures var t := Step(cfg, account, s, i);
            && t.stored == s.stored
            && (LoggedIn(s) ==> LoggedIn(t))
            && (LoggedIn(t) ==> LoggedIn(s) || (i.Respond? && i.response.Valid?))
            && (!LoggedIn(s) ==> t.rows == s.rows)
  {
    match i
    case Connect(_) =>
    case Respond(_) => ResponseInput(cfg, account, s, i);
    case Confirm(_, _, _, _) => ConfirmingInput(cfg, account, s, i);
    case Write(_) => ConfirmingInput(cfg, account, s, i);
    case Data(control, toJap, now) =>
      PlainPacketFlags(cfg, s.session.value, s.login, control, toJap, now, RowOf(s.rows, account));
      hide HandlePacket, PlainTables;
    case _ => LoginInputs(cfg, account, s, i);
  }

  predicate LogoutsWork(inputs: seq<Input>)
  {
    inputs == [] || ((inputs[0].Disconnect? ==> inputs[0].works) && LogoutsWork(inputs[1..]))
  }

  lemma {:induction false} RunKeepsCovered(cfg: Config, account: nat, s: System, inputs: seq<Input>)
    requires Sensible(cfg) && PlainInv(cfg, account, s)
    requires Possible(cfg, account, s, inputs) && AllPlain(account, inputs)
    requires StoredIsCovered(account, s) && LogoutsWork(inputs)
    ensures StoredIsCovered(account, Run(cfg, account, s, inputs))
    decreases |inputs|
  {
    hide PlainInv, Step, Plain, Enabled, StoredIsCovered;
    if inputs != [] {
      PlainStep(cfg, account, s, inputs[0]);
      StepKeepsCovered(cfg, account, s, inputs[0]);
      RunKeepsCovered(cfg, account, Step(cfg, account, s, inputs[0]), inputs[1..]);
    }
  }

  /** If no write at a logout fails, a login of an account that has a row never takes the branch "transferred bytes
      lower than prepaid amount": its credit is exactly the stored one, or nothing if that is negative. */
  lemma NeverLowerThanPrepaid(cfg: Config, account: nat, s: System, inputs: seq<Input>)
    requires Sensible(cfg) && Idle(cfg, account, s) && StoredIsCovered(account, s)
    requires Possible(cfg, account, s, inputs) && AllPlain(account, inputs) && LogoutsWork(inputs)
    requires Challenged(Run(cfg, account, s, inputs)) && account in Run(cfg, account, s, inputs).rows
    ensures var t := Run(cfg, account, s, inputs);
            var b := Step(cfg, account, t, Respond(Valid)).session.value;
            && !LowerThanPrepaid(account, t)
            && b.confirmed == t.rows[account].bytes && Credit(b) == if t.stored > 0 then t.stored else 0
  {
    PlainRunKeepsInv(cfg, account, s, inputs);
    RunKeepsCovered(cfg, account, s, inputs);
    LoginRestores(cfg, account, Run(cfg, account, s, inputs));
  }

  // ---------- the round trip ----------

  /** No session of the run logs in. */
  predicate NoLogin(inputs: seq<Input>)
  {
    inputs == [] || (!(inputs[0].Respond? && inputs[0].response.Valid?) && NoLogin(inputs[1..]))
  }

  /** Some result of the run forfeits the stored credit. */
  predicate Forfeited(cfg: Config, account: nat, s: System, inputs: seq<Input>)
    requires Possible(cfg, account, s, inputs)
    decreases |inputs|
  {
    inputs != []
    && (Forfeiting(s, inputs[0]) || Forfeited(cfg, account, Step(cfg, account, s, inputs[0]), inputs[1..]))
  }

  lemma LoggedOutStep(cfg: Config, account: nat, s: System, i: Input)
    requires Sensible(cfg) && PlainInv(cfg, account, s) && Enabled(s, i) && Plain(account, i) && !LoggedIn(s)
    requires !(i.Respond? && i.response.Valid?)
    ensures var t := Step(cfg, account, s, i);
            && !LoggedIn(t) && t.stored == (if Forfeiting(s, i) then 0 else s.stored)
            && var row, row' := RowOf(s.rows, account), RowOf(t.rows, account);
               && (row'.Some? <==> row.Some? && !Deleting(i))
               && (row'.Some? ==> row'.value.bytes == row.value.bytes)
  {
    match i
    case Disconnect(_) =>
    case Settle(_, _, _, _, _) => PlainSettle(cfg, account, s, i);
    case CommitDatabase(_) => PlainSettle(cfg, account, s, i);
    case CommitLogin => PlainSettle(cfg, account, s, i);
    case Foreign(_, _) => PlainSettle(cfg, account, s, i);
    case _ => LoggedInStays(cfg, account, s, i);
  }

  lemma {:induction false} LoggedOutRun(cfg: Config, account: nat, s: System, inputs: seq<Input>)
    requires Sensible(cfg) && PlainInv(cfg, account, s)
    requires Possible(cfg, account, s, inputs) && AllPlain(account, inputs)
    requires !LoggedIn(s) && NoLogin(inputs)
    ensures var t := Run(cfg, account, s, inputs);
            && PlainInv(cfg, account, t)
            && t.stored == (if Forfeited(cfg, account, s, inputs) then 0 else s.stored)
            && var row, row' := RowOf(s.rows, account), RowOf(t.rows, account);
               && (row'.Some? <==> row.Some? && !SomeDeletes(inputs))
               && (row'.Some? ==> row'.value.bytes == row.value.bytes)
    decreases |inputs|
  {
    hide PlainInv, Step, Plain, Enabled, LoggedIn, Deleting, Forfeiting, RowOf;
    if inputs != [] {
      LoggedOutStep(cfg, account, s, inputs[0]);
      PlainStep(cfg, account, s, inputs[0]);
      LoggedOutRun(cfg, account, Step(cfg, account, s, inputs[0]), inputs[1..]);
    }
  }

  /** What a logout leaves behind. */
  lemma LogoutStores(cfg: Config, account: nat, s: System, works: bool)
    requires Sensible(cfg) && PlainInv(cfg, account, s) && LoggedIn(s) && Enabled(s, Disconnect(works))
    ensures var a, t := s.session.value, Step(cfg, account, s, Disconnect(works));
            && PlainInv(cfg, account, t) && !LoggedIn(t) && t.rows == s.rows
            && t.stored == (if works then Credit(a) else s.stored)
            && (account in t.rows ==> t.rows[account].bytes == a.confirmed && Credit(a) <= a.confirmed)
  {
    PlainStep(cfg, account, s, Disconnect(works));
    CastIsExact(cfg, s.session.value);
    hide PlainEntry;
  }

  /** The round trip, with nothing given but the tables: any plain run that leaves a session logged in, a logout, any
      plain run until the next login, and that login. The credit is the old one, or nothing if that was negative;
      it is lost exactly if meanwhile a result forfeited the stored credit or the row is gone. With the row the
      confirmed bytes are the old ones. After a logout that was not written, the credit of the one before comes back. */
  lemma CreditSurvives(cfg: Config, account: nat, s: System, first: seq<Input>, works: bool, second: seq<Input>)
    requires Sensible(cfg) && Idle(cfg, account, s)
    requires Possible(cfg, account, s, first) && AllPlain(account, first) && AllPlain(account, second)
    requires LoggedIn(Run(cfg, account, s, first)) && Enabled(Run(cfg, account, s, first), Disconnect(works))
    requires var u := Step(cfg, account, Run(cfg, account, s, first), Disconnect(works));
             && Possible(cfg, account, u, second) && NoLogin(second)
             && Challenged(Run(cfg, account, u, second))
    ensures var t := Run(cfg, account, s, first);
            var u := Step(cfg, account, t, Disconnect(works));
            var v := Run(cfg, account, u, second);
            var a, b := t.session.value, Step(cfg, account, v, Respond(Valid)).session.value;
            var lost := Forfeited(cfg, account, u, second) || account !in t.rows || SomeDeletes(second);
            && (account in t.rows && !SomeDeletes(second) ==> b.confirmed == a.confirmed)
            && (works ==> Credit(b) == if !lost && Credit(a) > 0 then Credit(a) else 0)
            && (!works ==> Credit(b) == if !lost && 0 < t.stored <= a.confirmed then t.stored else 0)
  {
    PlainRunKeepsInv(cfg, account, s, first);
    var t := Run(cfg, account, s, first);
    LogoutStores(cfg, account, t, works);
    var u := Step(cfg, account, t, Disconnect(works));
    LoggedOutRun(cfg, account, u, second);
    LoginRestores(cfg, account, Run(cfg, account, u, second));
    hide PlainInv, Step, Credit, Run, Forfeited, SomeDeletes, NoLogin, AllPlain, LoggedIn, Challenged;
  }
}
