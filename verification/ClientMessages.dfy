/** What a client's own messages do to its session: confirmations, the certificate, the response to the challenge, and
    the end of the login and of the session. */
module ClientMessages {
  import opened AccountingSession
  import C = CostConfirmations
  import opened MachineTypes
  import opened PacketVerdicts
  import opened PaymentTypes
  import P = PrepaidAccount

  // ---------- confirmations ----------

  /** The session was asked for a confirmation and may still give one; an empty account may only while it logs in. */
  predicate Awaits(a: Account)
  {
    && SentCCRequest in a.flags && GotAccountCert in a.flags && AccountOk in a.flags && DeleteEntry !in a.flags
    && (AccountEmpty in a.flags ==> LoginNotFinished in a.flags)
  }

  /** More than one interval above the transferred bytes, or during the login less than was confirmed before. */
  predicate IsCheat(cfg: Config, a: Account, bytes: UInt64)
  {
    || bytes > Add64(a.transferred, cfg.prepaidInterval)
    || (LoginNotFinished in a.flags && bytes < a.confirmed)
  }

  /** It confirms more than before, or the same while nothing of the interval is used up. */
  predicate Confirms(cfg: Config, a: Account, bytes: UInt64)
  {
    bytes > a.confirmed || (bytes == a.confirmed && Credit(a) == cfg.prepaidInterval)
  }

  /** A confirmation that was not asked for or is not valid does nothing, a cheat's sets the mark of a cheat, and any
      other one is used up: what it confirms counts if it is stored, and the hard limit is lifted exactly if as many
      bytes are confirmed as were asked for. */
  lemma ConfirmationIs(cfg: Config, a: Account, valid: bool, bytes: UInt64, stored: bool, now: int)
    requires Sensible(cfg) && Inv(cfg, a)
    ensures var b := HandleConfirmation(cfg, a, valid, bytes, stored, now);
            var taken := Awaits(a) && valid && !IsCheat(cfg, a, bytes);
            var enough := b.confirmed >= a.bytesToConfirm;
            && (!Awaits(a) || !valid ==> b == a)
            && (Awaits(a) && valid && IsCheat(cfg, a, bytes) ==> b == a.(flags := a.flags + {Fake}))
            && (Stores(cfg, a, valid, bytes) <==> taken && Confirms(cfg, a, bytes))
            && (taken ==>
                  && b.transferred == a.transferred && b.sessionPackets == a.sessionPackets && b.bytesToConfirm == 0
                  && b.confirmed == (if stored && bytes > a.confirmed then bytes else a.confirmed)
                  && b.lastHardLimit == (if enough then now else a.lastHardLimit)
                  && SentCCRequest !in b.flags
                  && (Database in b.flags <==> Database in a.flags || (!stored && Confirms(cfg, a, bytes)))
                  && (HardLimitReached in b.flags <==> HardLimitReached in a.flags && !enough)
                  && (LoginSkipSettlement in b.flags <==> LoginSkipSettlement in a.flags && enough)
                  && (forall f :: f !in {SentCCRequest, Database, HardLimitReached, LoginSkipSettlement}
                        ==> (f in b.flags <==> f in a.flags)))
  {
    CastIsExact(cfg, a);
    hide Inv, Credit;
  }

  /** Until the next request a second confirmation is ignored, whatever it says; a cheat that repeats itself is marked
      once. */
  lemma SecondConfirmationIsIgnored(cfg: Config, a: Account, valid: bool, bytes: UInt64, stored: bool, now: int,
                                    again: UInt64, later: int)
    requires Sensible(cfg) && Inv(cfg, a) && (Awaits(a) ==> valid && (IsCheat(cfg, a, bytes) ==> again == bytes))
    ensures var b := HandleConfirmation(cfg, a, valid, bytes, stored, now);
            HandleConfirmation(cfg, b, true, again, stored, later) == b
  {
    ConfirmationIs(cfg, a, valid, bytes, stored, now);
    var b := HandleConfirmation(cfg, a, valid, bytes, stored, now);
    if Awaits(a) && IsCheat(cfg, a, bytes) {
      assert Awaits(b) && IsCheat(cfg, b, bytes);
    }
  }

  // ---------- the login ----------

  /** The first readable certificate counts, and only it: a good one is answered with the challenge, one with a bad
      signature marks a cheat, and neither ever authenticates. */
  lemma CertificateIs(a: Account, certificate: Certificate)
    ensures var b := HandleCertificate(a, certificate);
            var first := !certificate.Unreadable? && GotAccountCert !in a.flags && DeleteEntry !in a.flags;
            && b == a.(flags := b.flags)
            && (forall f :: f !in {GotAccountCert, TimeoutStarted, ChallengeSent, Fake}
                  ==> (f in b.flags <==> f in a.flags))
            && (forall f :: f in {GotAccountCert, TimeoutStarted} ==> (f in b.flags <==> f in a.flags || first))
            && (ChallengeSent in b.flags <==> ChallengeSent in a.flags || (first && certificate.Good?))
            && (Fake in b.flags <==> Fake in a.flags || (first && certificate.BadlySigned?))
  {
  }

  /** The session waits for the response to its challenge. */
  predicate Challenges(a: Account)
  {
    GotAccountCert in a.flags && ChallengeSent in a.flags && DeleteEntry !in a.flags
  }

  /** One challenge, one response: the first one uses the challenge up, whatever it says, and the session is
      authenticated exactly by a good one; one that is turned away because the login is occupied is marked, and one with
      a bad signature marks a cheat. Those change no counter. */
  lemma ResponseIs(cfg: Config, a: Account, response: Response, prepaid: SInt32, row: Option<Row>, status: Status)
    requires Sensible(cfg) && Inv(cfg, a)
    ensures var b := HandleResponse(cfg, a, response, prepaid, row, status);
            && (!Challenges(a) ==> b == a)
            && (Challenges(a) ==>
                  && AccountOk !in a.flags && ChallengeSent !in b.flags
                  && (AccountOk in b.flags <==> response.Valid? || response.LoginOccupied?)
                  && (Fake in b.flags <==> Fake in a.flags || response.BadSignature?)
                  && (MultipleLogin in b.flags <==> MultipleLogin in a.flags || response.LoginOccupied?)
                  && (!response.Valid? ==>
                        && b == a.(flags := b.flags)
                        && (forall f :: f !in {AccountOk, Fake, MultipleLogin, ChallengeSent}
                              ==> (f in b.flags <==> f in a.flags))))
            && HandleResponse(cfg, b, response, prepaid, row, status) == b
  {
    hide Credit, Signed32, Unsigned32;
  }

  /** The status of the account as a flag of the session. */
  function FlagOf(status: Status): Option<Flag>
  {
    match status
    case StatusBlocked => Some(Blocked)
    case StatusKeyNotFound => Some(InvalidAccount)
    case StatusAccountEmpty => Some(AccountEmpty)
    case StatusOk => None
    case StatusOther(_) => None
  }

  /** A good response: the account's status becomes a flag, the first settlement is no longer missing exactly if the row
      is settled, and without a row the client is asked to confirm. */
  lemma AcceptedLoginFlags(cfg: Config, a: Account, prepaid: SInt32, row: Option<Row>, status: Status)
    requires Challenges(a)
    ensures var b := HandleResponse(cfg, a, Valid, prepaid, row, status);
            && b.lastHardLimit == a.lastHardLimit
            && (SentCCRequest in b.flags <==> SentCCRequest in a.flags || row.None?)
            && (WaitingForFirstSettledCC in b.flags
                <==> WaitingForFirstSettledCC in a.flags && !(row.Some? && row.value.settled))
            && (forall f :: f !in {ChallengeSent, AccountOk, WaitingForFirstSettledCC, SentCCRequest}
                  ==> (f in b.flags <==> f in a.flags || FlagOf(status) == Some(f)))
  {
    hide Credit, Signed32, Unsigned32, Add64;
  }

  lemma LoginWithRow(cfg: Config, a: Account, prepaid: SInt32, row: Row, status: Status)
    requires Sensible(cfg) && a.confirmed == 0 && InBounds(cfg, Credit(a)) && Credit(a) <= 0
    requires prepaid <= cfg.prepaidInterval && row.bytes + cfg.prepaidInterval < TWO_63
    ensures var b := LogIn(cfg, a, prepaid, Some(row), status);
            var amount := if 0 < prepaid <= row.bytes - Credit(a) then prepaid else 0;
            && b.confirmed == row.bytes && b.transferred == row.bytes - Credit(a) - amount
            && b.bytesToConfirm == row.bytes - amount + cfg.prepaidInterval
  {
    LoadingAdds(cfg, a, prepaid, Some(row));
    hide LoadCounters, Credit;
  }

  lemma LoginWithoutRow(cfg: Config, a: Account, prepaid: SInt32, status: Status)
    requires Sensible(cfg) && a.confirmed == 0 && InBounds(cfg, Credit(a)) && Credit(a) <= 0
    requires prepaid <= cfg.prepaidInterval
    ensures var b := LogIn(cfg, a, prepaid, None, status);
            && b.confirmed == 0 && b.transferred == -Credit(a)
            && b.bytesToConfirm == if AccountEmpty in b.flags then a.bytesToConfirm
                                   else b.transferred + cfg.prepaidInterval
  {
    LoadingAdds(cfg, a, prepaid, None);
    hide LoadCounters, Credit;
  }

  lemma CreditIsDifference(a: Account, credit: int)
    requires -TWO_31 <= credit <= TWO_31 && a.confirmed < TWO_63 && a.transferred == a.confirmed - credit
    ensures Credit(a) == credit
  {
  }

  /** The counters continue from the row and the stored credit. The client is asked to confirm one interval above the
      transferred bytes, less what was counted before the login. */
  lemma AcceptedLoginIs(cfg: Config, a: Account, prepaid: SInt32, row: Option<Row>, status: Status)
    requires Sensible(cfg) && Inv(cfg, a) && Challenges(a)
    requires prepaid <= cfg.prepaidInterval && BytesOf(row) + cfg.prepaidInterval < TWO_63
    ensures var b := HandleResponse(cfg, a, Valid, prepaid, row, status);
            && b.confirmed == BytesOf(row)
            && Credit(b) == Credit(a) + (if 0 < prepaid <= BytesOf(row) - Credit(a) && row.Some? then prepaid else 0)
            && (row.Some? ==> b.bytesToConfirm == b.confirmed - Credit(b) + Credit(a) + cfg.prepaidInterval)
            && (row.None? ==>
                  b.bytesToConfirm == if AccountEmpty in b.flags then a.bytesToConfirm
                                      else b.confirmed - Credit(b) + cfg.prepaidInterval)
            && b.transferred == b.confirmed - Credit(b)
  {
    var c, b := SetFlag(ClearFlag(a, ChallengeSent), AccountOk), HandleResponse(cfg, a, Valid, prepaid, row, status);
    assert Credit(c) == Credit(a) && b == LogIn(cfg, c, prepaid, row, status);
    if row.Some? {
      LoginWithRow(cfg, c, prepaid, row.value, status);
    } else {
      LoginWithoutRow(cfg, c, prepaid, status);
    }
    CreditIsDifference(b, b.confirmed - b.transferred);
    hide HandleResponse, LogIn, Credit;
  }

  /** Whoever confirms what the login asks for has exactly one interval to its credit and is out of the hard limit's
      time. */
  lemma LoginRequestRefills(cfg: Config, a: Account, prepaid: SInt32, row: Option<Row>, now: int)
    requires Sensible(cfg) && Inv(cfg, a) && Challenges(a) && Credit(a) == 0 && SentCCRequest in a.flags
    requires prepaid <= cfg.prepaidInterval && BytesOf(row) + cfg.prepaidInterval < TWO_63
    requires AccountEmpty !in a.flags
    ensures var b := HandleResponse(cfg, a, Valid, prepaid, row, StatusOk);
            var c := HandleConfirmation(cfg, b, true, b.bytesToConfirm, true, now);
            && Credit(c) == cfg.prepaidInterval && c.confirmed == b.bytesToConfirm
            && HardLimitReached !in c.flags && SentCCRequest !in c.flags && c.lastHardLimit == now
            && (Fake in c.flags <==> Fake in a.flags)
  {
    AcceptedLoginIs(cfg, a, prepaid, row, StatusOk);
    AcceptedLoginFlags(cfg, a, prepaid, row, StatusOk);
    ResponseIs(cfg, a, Valid, prepaid, row, StatusOk);
    ResponseKeepsInv(cfg, a, Valid, prepaid, row, StatusOk);
    var b := HandleResponse(cfg, a, Valid, prepaid, row, StatusOk);
    ConfirmationIs(cfg, b, true, b.bytesToConfirm, true, now);
    hide HandleResponse, HandleConfirmation, Inv, FlagOf;
  }

  // ---------- the end of the login ----------

  /** The flag is there before the login entry is read: it was set, or the account's status code has its bit. */
  predicate HasBefore(a: Account, status: set<Flag>, f: Flag)
  {
    || (f in a.flags && f != LoginNotFinished && f != LoginSkipSettlement)
    || (f in status && DeleteEntry !in a.flags)
  }

  /** The end of a login takes the reports of settlement over. An empty account that is not blocked loses its credit:
      all of it, or after a first settlement what the payment instance did not confirm. */
  lemma EndOfLoginIs(a: Account, login: Option<Login>, status: set<Flag>)
    ensures var (b, l) := FinishLogin(a, login, status);
            var empties := login.Some? && AccountEmpty in b.flags && Blocked !in b.flags;
            && (forall f :: f in b.flags
                  <==> if login.None? then HasBefore(a, status, f) || f == InvalidAccount
                       else (HasBefore(a, status, f) && f !in login.value.authRemoveFlags)
                            || (f in login.value.authFlags && f in {InvalidAccount, AccountEmpty, Blocked, Unknown}))
            && (!empties ==> b == a.(flags := b.flags) && l == login)
            && (empties && SETTLED_ONCE !in b.flags ==>
                  Credit(b) == 0 && b.confirmed == a.confirmed && l == Some(login.value.(confirmed := a.confirmed)))
            && (empties && SETTLED_ONCE in b.flags ==>
                  && b.confirmed == login.value.confirmed && l == login
                  && (b.confirmed <= a.transferred ==> Credit(b) == 0)
                  && (a.transferred < b.confirmed < TWO_63 ==> Credit(b) == b.confirmed - a.transferred))
  {
  }

  // ---------- runs ----------

  /** Settlement and the status code do not touch these flags, and the session is not closed. */
  predicate LeavesLogin(e: Event)
  {
    && RemovesOnlyRemovable(e)
    && (e.EndOfLogin? ==> LoginFailed !in e.added && LoginNotFinished !in e.added)
  }

  predicate EndsLogin(e: Event)
  {
    e.LoginMessage? || e.EndOfLogin?
  }

  lemma LoginFlagsPacket(cfg: Config, a: Account, login: Option<Login>, control: bool, toJap: bool, now: int,
                         row: Option<Row>)
    requires login.Some? ==> login.value.authRemoveFlags <= REMOVABLE
    ensures var b := HandlePacket(cfg, a, login, control, toJap, now, row).account;
            forall f :: f in {LoginNotFinished, LoginFailed} ==> (f in b.flags <==> f in a.flags)
  {
    hide Credit, PrepaidBytes, Signed32, Signed64, Sub64, LimitReached, Refused;
    if login.Some? {
      var r := ReadLogin(CountPacket(a), login.value, row);
      var c := CheckCredit(cfg, r.account, r.error, now).0;
      assert forall f :: f in {LoginNotFinished, LoginFailed} ==> (f in r.account.flags <==> f in a.flags);
      assert forall f :: f in {LoginNotFinished, LoginFailed} ==> (f in c.flags <==> f in r.account.flags);
      hide ReadLogin, CheckCredit;
    }
  }

  lemma LoginFlagsStep(cfg: Config, a: Account, e: Event)
    requires LeavesLogin(e)
    ensures var b := Step(cfg, a, e);
            && (LoginNotFinished in b.flags <==> LoginNotFinished in a.flags && !EndsLogin(e))
            && (LoginFailed in b.flags
                <==> LoginFailed in a.flags || (LoginNotFinished in a.flags && e == LoginMessage(true)))
  {
    hide Credit, PrepaidBytes, Signed32, Signed64, Sub64, Add64;
    match e
    case Packet(login, control, toJap, now, row) =>
      LoginFlagsPacket(cfg, a, login, control, toJap, now, row);
      hide HandlePacket;
    case CostConfirmation(_, _, _, _) =>
    case ChallengeResponse(_, _, _, _) =>
    case _ =>
  }

  /** The event of the run that ends the login. */
  function LoginEnd(events: seq<Event>): Option<Event>
  {
    if events == [] then None else if EndsLogin(events[0]) then Some(events[0]) else LoginEnd(events[1..])
  }

  /** A session is in its login until that is answered or ended, over every run, and has failed exactly if it was
      answered so. */
  lemma {:induction false} LoginLastsIff(cfg: Config, a: Account, events: seq<Event>)
    requires forall e :: e in events ==> LeavesLogin(e)
    ensures var b := Run(cfg, a, events);
            && (LoginNotFinished in b.flags <==> LoginNotFinished in a.flags && LoginEnd(events) == None)
            && (LoginFailed in b.flags
                <==> || LoginFailed in a.flags
                     || (LoginNotFinished in a.flags && LoginEnd(events) == Some(LoginMessage(true))))
    decreases |events|
  {
    hide Step, LeavesLogin;
    if events != [] {
      assert forall e :: e in events <==> e == events[0] || e in events[1..];
      LoginFlagsStep(cfg, a, events[0]);
      LoginLastsIff(cfg, Step(cfg, a, events[0]), events[1..]);
    }
  }

  /** So before its login was answered or ended, a new session gets no packet through that is not for its own login. */
  lemma NoServiceBeforeLogin(cfg: Config, now: int, events: seq<Event>, login: Option<Login>, control: bool, time: int,
                             row: Option<Row>)
    requires forall e :: e in events ==> LeavesLogin(e)
    ensures var a := Run(cfg, NewSession(now), events);
            HandlePacket(cfg, a, login, control, false, time, row).verdict == CloseConnection
            || LoginEnd(events).Some?
  {
    LoginLastsIff(cfg, NewSession(now), events);
    hide Run;
  }

  predicate IsMessage(e: Event)
  {
    e.Packet? || e.CostConfirmation? || e.AccountCertificate? || e.ChallengeResponse?
  }

  lemma {:induction false} ClosedStays(cfg: Config, a: Account, events: seq<Event>)
    requires DeleteEntry in a.flags && forall e :: e in events ==> IsMessage(e)
    ensures Run(cfg, a, events) == a
    ensures forall e :: e in events && e.Packet? ==>
              HandlePacket(cfg, a, e.login, e.control, e.toJap, e.now, e.row) == Outcome(a, e.login, CloseConnection)
    decreases |events|
  {
    if events != [] {
      assert forall e :: e in events <==> e == events[0] || e in events[1..];
      assert IsMessage(events[0]);
      ClosedStays(cfg, a, events[1..]);
    }
  }

  /** Once its connection is being closed, no packet and no message of the client changes the session, and every packet
      closes the connection. */
  lemma ClosedSessionStays(cfg: Config, a: Account, events: seq<Event>)
    requires forall e :: e in events ==> IsMessage(e)
    ensures var b := Step(cfg, a, Closing);
            && Run(cfg, b, events) == b && b.confirmed == a.confirmed && Credit(b) == Credit(a)
            && forall e :: e in events && e.Packet? ==>
                 HandlePacket(cfg, b, e.login, e.control, e.toJap, e.now, e.row) == Outcome(b, e.login, CloseConnection)
  {
    ClosedStays(cfg, Step(cfg, a, Closing), events);
  }

  // ---------- the logout ----------

  /** The session owns the account's login entry. */
  predicate Owns(account: nat, a: Account, login: Option<Login>)
  {
    account != 0 && AccountOk in a.flags && MultipleLogin !in a.flags && login.Some?
  }

  lemma StoredIs(cfg: Config, a: Account, login: Login, credit: int)
    requires Sensible(cfg) && -TWO_31 <= credit < TWO_31
    requires if AccountEmpty in login.authFlags
             then credit == login.confirmed - a.transferred && login.confirmed < TWO_63 && a.transferred < TWO_63
             else credit == Credit(a)
    ensures StoredCredit(cfg, a, login) == if credit > cfg.prepaidInterval then 0 else credit
  {
  }

  /** The owner of the login entry takes it away and, if the database works, leaves its credit: for an empty account
      what the payment instance confirmed above the transferred bytes, and nothing above one interval. Any other session
      leaves entry and tables as they are. */
  lemma LogoutIs(cfg: Config, account: nat, s: P.System, works: bool)
    requires Sensible(cfg) && P.Enabled(s, P.Disconnect(works)) && Inv(cfg, s.session.value)
    requires s.login.Some? && AccountEmpty in s.login.value.authFlags ==>
               && s.login.value.confirmed < TWO_63 && s.session.value.transferred < TWO_63
               && -TWO_31 <= s.login.value.confirmed - s.session.value.transferred < TWO_31
    ensures var a, t := s.session.value, P.Step(cfg, account, s, P.Disconnect(works));
            && t.session.None?
            && (!Owns(account, a, s.login) ==> t.login == s.login && t.stored == s.stored)
            && (Owns(account, a, s.login) ==>
                  var credit := if AccountEmpty in s.login.value.authFlags
                                then s.login.value.confirmed - a.transferred else Credit(a);
                  && t.login.None?
                  && t.stored == if !works then s.stored else if credit > cfg.prepaidInterval then 0 else credit)
            && t.rows == s.rows && t.statuses == s.statuses && t.toDatabase == s.toDatabase && t.toLogin == s.toLogin
  {
    var a := s.session.value;
    if s.login.Some? {
      var l := s.login.value;
      StoredIs(cfg, a, l, if AccountEmpty in l.authFlags then l.confirmed - a.transferred else Credit(a));
    }
    hide StoredCredit, Credit;
  }

  /** A session whose credit was dropped leaves none. */
  lemma DroppedCreditIsNotStored(cfg: Config, account: nat, s: P.System)
    requires Sensible(cfg) && P.Enabled(s, P.Drop) && s.session.value.confirmed < TWO_63
    requires Owns(account, s.session.value, s.login) && AccountEmpty !in s.login.value.authFlags
    ensures var t := P.Step(cfg, account, s, P.Drop);
            && P.Enabled(t, P.Disconnect(true))
            && var u := P.Step(cfg, account, t, P.Disconnect(true));
               u.session.None? && u.login.None? && u.stored == 0 && u.rows == s.rows
  {
    var t := P.Step(cfg, account, s, P.Drop);
    assert Credit(t.session.value) == 0;
    StoredIs(cfg, t.session.value, t.login.value, 0);
    hide StoredCredit, Credit;
  }

  /** Exactly if its status is known, the end of a login gives the session the bits of that status's code. The flag that
      the status stands for comes only from the response or from settlement. */
  lemma EndOfLoginReadsStatus(cfg: Config, account: nat, s: P.System, known: bool)
    requires P.Enabled(s, P.FinishLogin(known)) && s.login.Some? && DeleteEntry !in s.session.value.flags
    requires s.login.value.authRemoveFlags == {} && s.login.value.authFlags == {}
    ensures var a, status := s.session.value, C.StatusOf(s.statuses, account);
            var t := P.Step(cfg, account, s, P.FinishLogin(known));
            && t.session.Some?
            && (known && status.StatusOk? ==>
                  t.session.value.flags == a.flags - {LoginNotFinished, LoginSkipSettlement})
            && (known && status.StatusAccountEmpty? ==>
                  t.session.value.flags == a.flags - {LoginNotFinished, LoginSkipSettlement} + {AccountOk})
            && (known && status.StatusKeyNotFound? ==>
                  t.session.value.flags
                  == a.flags - {LoginNotFinished, LoginSkipSettlement} + {WaitingForFirstSettledCC})
            && (known && status.StatusBlocked? ==>
                  t.session.value.flags
                  == a.flags - {LoginNotFinished, LoginSkipSettlement} + {GotAccountCert, WaitingForFirstSettledCC})
            && (!known ==> t.session.value.flags == a.flags - {LoginNotFinished, LoginSkipSettlement})
  {
    StatusCodesAreNoFlags();
    hide FlagsOf, CodeOf;
  }

  /** The end of the login of an account that is reported empty leaves nothing to be stored: the login entry holds the
      session's own confirmed bytes afterwards, so that a logout stores no credit either. */
  lemma EmptyLoginStoresNothing(cfg: Config, account: nat, s: P.System, known: bool)
    requires Sensible(cfg) && P.Enabled(s, P.FinishLogin(known)) && Owns(account, s.session.value, s.login)
    requires s.session.value.confirmed < TWO_63 && C.StatusOf(s.statuses, account).StatusOk?
    requires DeleteEntry !in s.session.value.flags
    requires s.login.value == Login(s.login.value.confirmed, {AccountEmpty}, {}) && Blocked !in s.session.value.flags
    ensures var t := P.Step(cfg, account, s, P.FinishLogin(known));
            && P.Enabled(t, P.Disconnect(true))
            && var u := P.Step(cfg, account, t, P.Disconnect(true));
               u.login.None? && u.stored == 0 && u.rows == s.rows
  {
    StatusCodesAreNoFlags();
    hide FlagsOf;
    var a, t := s.session.value, P.Step(cfg, account, s, P.FinishLogin(known));
    EndOfLoginIs(a, s.login, {});
    var b := t.session.value;
    assert b.confirmed == b.transferred == t.login.value.confirmed;
    StoredIs(cfg, b, t.login.value, 0);
    hide StoredCredit, FinishLogin, Credit;
  }

  // ---------- the session of an account ----------

  /** A login that is accepted tells the session the account's status; one that is not tells it nothing. */
  lemma StatusReachesSession(cfg: Config, account: nat, s: P.System, response: Response, f: Flag)
    requires Sensible(cfg) && P.Enabled(s, P.Respond(response)) && Inv(cfg, s.session.value)
    requires f in {Blocked, InvalidAccount, AccountEmpty} && Challenges(s.session.value)
    ensures var t := P.Step(cfg, account, s, P.Respond(response));
            && t.session.Some?
            && (f in t.session.value.flags
                <==> f in s.session.value.flags
                     || (response.Valid? && FlagOf(C.StatusOf(s.statuses, account)) == Some(f)))
            && t.login == if response.Valid? then Some(Login(0, {}, {})) else s.login
  {
    var a, row, status := s.session.value, P.RowOf(s.rows, account), C.StatusOf(s.statuses, account);
    ResponseIs(cfg, a, response, s.stored, row, status);
    if response.Valid? {
      AcceptedLoginFlags(cfg, a, s.stored, row, status);
    }
    hide HandleResponse, Inv;
  }

  /** The answer to the login of a session that is in it. */
  lemma LoginIsAnswered(cfg: Config, account: nat, s: P.System, failed: bool)
    requires P.Enabled(s, P.LoginAnswered(failed)) && LoginNotFinished in s.session.value.flags
    requires LoginFailed !in s.session.value.flags
    ensures var t := P.Step(cfg, account, s, P.LoginAnswered(failed));
            && t == s.(session := t.session) && t.session.Some?
            && LoginNotFinished !in t.session.value.flags
            && (LoginFailed in t.session.value.flags <==> failed)
  {
  }

  /** A packet that is counted takes its report from the account's login entry, and the other tables stay. */
  lemma PacketTakesReport(cfg: Config, account: nat, s: P.System, toJap: bool, now: int)
    requires Sensible(cfg) && P.Enabled(s, P.Data(false, toJap, now)) && s.login.Some?
    requires Inv(cfg, s.session.value) && Settleable(s.login.value)
    requires IsCounted(s.session.value, false, toJap) && MultipleLogin !in s.session.value.flags
    requires BecomesEmpty(s.session.value, s.login.value) ==>
               s.login.value.confirmed <= Add64(s.session.value.transferred, 998) + cfg.prepaidInterval
    ensures var a, l, t := s.session.value, s.login.value, P.Step(cfg, account, s, P.Data(false, toJap, now));
            && t == s.(session := t.session, login := Some(EntryAfter(l, P.RowOf(s.rows, account)))) && t.session.Some?
            && Credit(t.session.value) == CreditAfter(a, l)
            && (FatalError in t.session.value.flags
                <==> if IsEmpty(a, l) then CreditAfter(a, l) <= 0
                     else ReportsError(l) || LimitsRefuse(cfg, a, CreditAfter(a, l), now))
  {
    VerdictIs(cfg, s.session.value, s.login.value, toJap, now, P.RowOf(s.rows, account));
    hide HandlePacket, Inv, Credit;
  }

  /** Neither a good certificate nor a status code that is read as flags. */
  predicate Uncertified(i: P.Input)
  {
    i != P.Certify(Good) && i != P.FinishLogin(true)
  }

  predicate Unauthenticated(s: P.System)
  {
    s.session.Some? ==> ChallengeSent !in s.session.value.flags && AccountOk !in s.session.value.flags
  }

  lemma PacketAddsNeither(cfg: Config, a: Account, login: Option<Login>, control: bool, toJap: bool, now: int,
                          row: Option<Row>)
    ensures var b := HandlePacket(cfg, a, login, control, toJap, now, row).account;
            forall f :: f in {ChallengeSent, AccountOk} && f in b.flags ==> f in a.flags
  {
    hide Credit, PrepaidBytes, Signed32, Signed64, Sub64, LimitReached, Refused;
    if login.Some? {
      var r := ReadLogin(CountPacket(a), login.value, row);
      var c := CheckCredit(cfg, r.account, r.error, now).0;
      assert forall f :: f in {ChallengeSent, AccountOk} && f in r.account.flags ==> f in a.flags;
      assert forall f :: f in {ChallengeSent, AccountOk} && f in c.flags ==> f in r.account.flags;
      hide ReadLogin, CheckCredit;
    }
  }

  lemma UncertifiedEvent(cfg: Config, a: Account, e: Event)
    requires ChallengeSent !in a.flags && AccountOk !in a.flags
    requires e != AccountCertificate(Good) && !e.Packet? && (e.EndOfLogin? ==> e.added == {})
    ensures var b := Step(cfg, a, e);
            ChallengeSent !in b.flags && AccountOk !in b.flags
  {
    hide Credit, PrepaidBytes, LogIn, HandlePacket;
  }

  lemma UncertifiedStep(cfg: Config, account: nat, s: P.System, i: P.Input)
    requires P.Enabled(s, i) && Uncertified(i) && Unauthenticated(s)
    ensures Unauthenticated(P.Step(cfg, account, s, i))
  {
    var event := P.EventOf(account, s, i);
    if event.Some? {
      var a, e := s.session.value, event.value;
      if e.Packet? {
        PacketAddsNeither(cfg, a, e.login, e.control, e.toJap, e.now, e.row);
      } else {
        UncertifiedEvent(cfg, a, e);
      }
      assert P.Step(cfg, account, s, i).session == Some(Step(cfg, a, e));
      hide P.Step, HandlePacket, HandleConfirmation, HandleResponse, FinishLogin;
    } else {
      match i
      case Confirm(_, valid, bytes, now) =>
        P.ConfirmationFlags(cfg, s.session.value, valid, bytes, false, now);
        hide HandleConfirmation, Stores;
      case Write(_) =>
        var a, w := s.session.value, s.writing.value;
        P.ConfirmationFlags(cfg, a, true, w.pending.cc.bytes, i.works && C.WriteSucceeds(s.rows, w.pending), w.now);
        hide HandleConfirmation;
      case _ =>
        hide StoredCredit, C.Handled, C.EntryFor, P.Charged;
    }
  }

  /** Over every run of an account, nobody is authenticated without a good certificate, unless the end of a login reads
      a status code as flags. */
  lemma {:induction false} UncertifiedNeverLogsIn(cfg: Config, account: nat, s: P.System, inputs: seq<P.Input>)
    requires P.Possible(cfg, account, s, inputs) && Unauthenticated(s)
    requires forall i :: i in inputs ==> Uncertified(i)
    ensures !P.LoggedIn(P.Run(cfg, account, s, inputs))
    decreases |inputs|
  {
    hide P.Step, P.Enabled;
    if inputs != [] {
      assert Uncertified(inputs[0]) && forall i :: i in inputs[1..] ==> i in inputs;
      UncertifiedStep(cfg, account, s, inputs[0]);
      UncertifiedNeverLogsIn(cfg, account, P.Step(cfg, account, s, inputs[0]), inputs[1..]);
    }
  }
}
