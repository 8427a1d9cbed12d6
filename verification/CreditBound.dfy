/** The bound on a session's credit over all runs of an account: successive sessions, all settlement answers,
    confirmations that name any account, and writes of other sessions. */
module CreditBound {
  import opened AccountingSession
  import C = CostConfirmations
  import opened MachineTypes
  import opened PaymentTypes
  import opened P = PrepaidAccount
  import S = SettlementCommit

  /** What is assumed of the payment instance: the bytes it sends back fit the database column, and those that are used
      for an empty account are at most one interval above the transferred bytes. A login does not end before it was
      accepted while the account's status is that of an empty one. */
  predicate Honest(cfg: Config, account: nat, s: System, i: Input)
    requires P.Enabled(s, i)
  {
    match i
    case Data(_, _, _) =>
      s.login.Some? && AccountEmpty in s.login.value.authFlags ==>
        s.login.value.confirmed <= CountPacket(s.session.value).transferred + cfg.prepaidInterval
    case FinishLogin(_) =>
      var a, added := s.session.value, P.EventOf(account, s, i).value.added;
      if s.login.None? then !C.StatusOf(s.statuses, account).StatusAccountEmpty?
      else AccountEmpty in a.flags + added + s.login.value.authFlags ==>
             s.login.value.confirmed <= a.transferred + cfg.prepaidInterval
    case Settle(bytes, answer, first, _, _) =>
      C.EntryFor(CC(account, bytes), answer, first, StatusOk).confirmedBytes < TWO_63
    case _ => true
  }

  predicate HonestRun(cfg: Config, account: nat, s: System, inputs: seq<Input>)
    requires P.Possible(cfg, account, s, inputs)
    decreases |inputs|
  {
    inputs == []
    || (&& Honest(cfg, account, s, inputs[0])
        && HonestRun(cfg, account, P.Step(cfg, account, s, inputs[0]), inputs[1..]))
  }

  // ---------- the invariant ----------

  predicate GoodEntry(e: C.Entry)
  {
    e.confirmedBytes < TWO_63 && e.authRemoveFlags <= REMOVABLE
  }

  predicate GoodTables(cfg: Config, account: nat, s: System)
  {
    && account != 0 && s.stored <= cfg.prepaidInterval && BytesOf(RowOf(s.rows, account)) < TWO_63
    && !C.StatusOf(s.statuses, account).StatusOther?
    && (forall e :: e in s.toDatabase ==> GoodEntry(e))
    && (forall e :: e in s.toLogin ==> GoodEntry(e))
    && (s.login.Some? ==> Settleable(s.login.value))
  }

  /** The account has a login entry exactly while its session is authenticated. */
  predicate GoodSession(cfg: Config, a: Account, login: Option<Login>)
  {
    Inv(cfg, a) && MultipleLogin !in a.flags && (login.Some? <==> AccountOk in a.flags)
  }

  predicate SystemInv(cfg: Config, account: nat, s: System)
  {
    && GoodTables(cfg, account, s)
    && (s.session.Some? ==> GoodSession(cfg, s.session.value, s.login))
    && (s.session.None? ==> s.login.None? && s.writing.None?)
  }

  /** In particular a packet that is counted before the login finds no login entry: what the session assumes of its
      surroundings holds for every packet, every answer to the challenge and every end of an accepted login. */
  lemma EventsAreTrusted(cfg: Config, account: nat, s: System, i: Input)
    requires SystemInv(cfg, account, s) && P.Enabled(s, i) && Honest(cfg, account, s, i)
    requires i.FinishLogin? ==> s.login.Some?
    ensures var e := P.EventOf(account, s, i);
            e.Some? ==> Trusted(cfg, s.session.value, e.value)
  {
    StatusCodesAreNoFlags();
    hide FlagsOf, InBounds;
  }

  // ---------- the steps ----------

  lemma PacketKeepsFlags(cfg: Config, a: Account, login: Option<Login>, control: bool, toJap: bool, now: int,
                         row: Option<Row>)
    requires login.Some? ==> Settleable(login.value)
    ensures var o := HandlePacket(cfg, a, login, control, toJap, now, row);
            && (forall f :: f in {AccountOk, MultipleLogin} ==> (f in o.account.flags <==> f in a.flags))
            && (login.Some? <==> o.login.Some?) && (o.login.Some? ==> Settleable(o.login.value))
  {
    hide PrepaidBytes, LimitReached, Refused, Credit;
    if login.Some? {
      var r := ReadLogin(CountPacket(a), login.value, row);
      var c := CheckCredit(cfg, r.account, r.error, now).0;
      assert Settleable(r.login);
      assert forall f :: f in {AccountOk, MultipleLogin} ==> (f in r.account.flags <==> f in a.flags);
      assert forall f :: f in {AccountOk, MultipleLogin} ==> (f in c.flags <==> f in r.account.flags);
      hide ReadLogin, CheckCredit;
    }
  }

  lemma DataKeepsInv(cfg: Config, account: nat, s: System, i: Input)
    requires Sensible(cfg) && SystemInv(cfg, account, s) && P.Enabled(s, i) && Honest(cfg, account, s, i) && i.Data?
    ensures SystemInv(cfg, account, P.Step(cfg, account, s, i))
  {
    var a, e := s.session.value, P.EventOf(account, s, i).value;
    EventsAreTrusted(cfg, account, s, i);
    PacketKeepsInv(cfg, a, e);
    PacketKeepsFlags(cfg, a, s.login, i.control, i.toJap, i.now, RowOf(s.rows, account));
    hide Inv, HandlePacket, Trusted, GoodEntry;
  }

  lemma ConfirmingKeepsInv(cfg: Config, account: nat, s: System, i: Input)
    requires Sensible(cfg) && SystemInv(cfg, account, s) && P.Enabled(s, i) && (i.Confirm? || i.Write?)
    ensures SystemInv(cfg, account, P.Step(cfg, account, s, i))
  {
    var a := s.session.value;
    if i.Confirm? {
      ConfirmationKeepsInv(cfg, a, i.valid, i.bytes, false, i.now);
      ConfirmationFlags(cfg, a, i.valid, i.bytes, false, i.now);
    } else {
      var w := s.writing.value;
      var stored := i.works && C.WriteSucceeds(s.rows, w.pending);
      ConfirmationKeepsInv(cfg, a, true, w.pending.cc.bytes, stored, w.now);
      ConfirmationFlags(cfg, a, true, w.pending.cc.bytes, stored, w.now);
    }
    hide Inv, HandleConfirmation, Stores, GoodEntry;
  }

  lemma ResponseFlags(cfg: Config, a: Account, response: Response, prepaid: SInt32, row: Option<Row>, status: Status)
    requires ChallengeSent in a.flags ==> AccountOk !in a.flags
    requires MultipleLogin !in a.flags && (response.LoginOccupied? ==> AccountOk in a.flags)
    ensures var b := HandleResponse(cfg, a, response, prepaid, row, status);
            var accepted := DeleteEntry !in a.flags && {GotAccountCert, ChallengeSent} <= a.flags && response.Valid?;
            && MultipleLogin !in b.flags
            && (AccountOk in b.flags <==> accepted || AccountOk in a.flags)
            && (accepted ==> AccountOk !in a.flags)
  {
    hide PrepaidBytes, Signed32;
  }

  lemma RespondKeepsInv(cfg: Config, account: nat, s: System, i: Input)
    requires Sensible(cfg) && SystemInv(cfg, account, s) && P.Enabled(s, i) && i.Respond?
    ensures SystemInv(cfg, account, P.Step(cfg, account, s, i))
  {
    var a, e := s.session.value, P.EventOf(account, s, i).value;
    ResponseKeepsInv(cfg, a, i.response, s.stored, e.row, e.status);
    ResponseFlags(cfg, a, i.response, s.stored, e.row, e.status);
    hide Inv, HandleResponse, GoodEntry;
  }

  /** The end of a login that was not accepted sets no flag of an authenticated session. */
  lemma UnansweredKeepsInv(cfg: Config, a: Account, added: set<Flag>)
    requires Inv(cfg, a) && AccountOk !in a.flags && added <= {GotAccountCert, WaitingForFirstSettledCC}
    ensures var b := AccountingSession.FinishLogin(a, None, added).0;
            Inv(cfg, b) && (forall f :: f in {AccountOk, MultipleLogin} ==> (f in b.flags <==> f in a.flags))
  {
    var b := AccountingSession.FinishLogin(a, None, added).0;
    assert Credit(b) == Credit(a);
    hide Credit;
  }

  lemma FinishingKeepsFlags(a: Account, login: Login, added: set<Flag>)
    requires Settleable(login) && AccountOk in a.flags && MultipleLogin !in a.flags
    requires added <= {GotAccountCert, WaitingForFirstSettledCC, AccountOk} && a.confirmed < TWO_63
    ensures var (b, l) := AccountingSession.FinishLogin(a, Some(login), added);
            AccountOk in b.flags && MultipleLogin !in b.flags && l.Some? && Settleable(l.value)
  {
  }

  lemma FinishKeepsInv(cfg: Config, account: nat, s: System, i: Input)
    requires Sensible(cfg) && SystemInv(cfg, account, s) && P.Enabled(s, i) && Honest(cfg, account, s, i)
    requires i.FinishLogin?
    ensures SystemInv(cfg, account, P.Step(cfg, account, s, i))
  {
    var a, e := s.session.value, P.EventOf(account, s, i).value;
    StatusCodesAreNoFlags();
    hide FlagsOf;
    if s.login.Some? {
      EventsAreTrusted(cfg, account, s, i);
      EndOfLoginKeepsInv(cfg, a, e);
      assert a.confirmed < TWO_63;
      FinishingKeepsFlags(a, s.login.value, e.added);
    } else {
      UnansweredKeepsInv(cfg, a, e.added);
    }
    hide Inv, Trusted, AccountingSession.FinishLogin, GoodEntry;
  }

  lemma OutsideKeepsInv(cfg: Config, account: nat, s: System, i: Input)
    requires SystemInv(cfg, account, s) && P.Enabled(s, i) && Honest(cfg, account, s, i) && Outside(i)
    ensures SystemInv(cfg, account, P.Step(cfg, account, s, i))
  {
    hide Inv;
    match i
    case Settle(bytes, answer, first, second, third) =>
      var cc := CC(account, bytes);
      var e := C.EntryFor(cc, answer, first, C.StatusOf(s.statuses, account));
      assert e.confirmedBytes == C.EntryFor(cc, answer, first, StatusOk).confirmedBytes;
      assert GoodEntry(e);
      hide GoodEntry;
    case CommitDatabase(connected) =>
      var e := s.toDatabase[0];
      assert GoodEntry(e);
      S.RemainingOne(s.stored, e, account);
      assert GoodEntry(S.Updated(e));
      hide GoodEntry;
    case CommitLogin =>
      assert GoodEntry(s.toLogin[0]);
    case Foreign(_, _) =>
      hide GoodEntry;
  }

  lemma OtherInputsKeepInv(cfg: Config, account: nat, s: System, i: Input)
    requires Sensible(cfg) && SystemInv(cfg, account, s) && P.Enabled(s, i)
    requires i.Certify? || i.LoginAnswered? || i.Drop?
    ensures SystemInv(cfg, account, P.Step(cfg, account, s, i))
  {
    StepKeepsInv(cfg, s.session.value, P.EventOf(account, s, i).value);
    hide Inv, GoodEntry;
  }

  lemma SystemStepKeepsInv(cfg: Config, account: nat, s: System, i: Input)
    requires Sensible(cfg) && SystemInv(cfg, account, s) && P.Enabled(s, i) && Honest(cfg, account, s, i)
    ensures SystemInv(cfg, account, P.Step(cfg, account, s, i))
  {
    match i
    case Connect(now) =>
      assert Inv(cfg, NewSession(now));
      hide Inv, GoodEntry;
    case Respond(_) => RespondKeepsInv(cfg, account, s, i);
    case Confirm(_, _, _, _) => ConfirmingKeepsInv(cfg, account, s, i);
    case Write(_) => ConfirmingKeepsInv(cfg, account, s, i);
    case Data(_, _, _) => DataKeepsInv(cfg, account, s, i);
    case FinishLogin(_) => FinishKeepsInv(cfg, account, s, i);
    case Disconnect(_) =>
      if s.login.Some? {
        StoredCreditIsTrusted(cfg, s.session.value, s.login.value);
      }
      hide Inv, StoredCredit, GoodEntry;
    case Settle(_, _, _, _, _) => OutsideKeepsInv(cfg, account, s, i);
    case CommitDatabase(_) => OutsideKeepsInv(cfg, account, s, i);
    case CommitLogin => OutsideKeepsInv(cfg, account, s, i);
    case Foreign(_, _) => OutsideKeepsInv(cfg, account, s, i);
    case _ => OtherInputsKeepInv(cfg, account, s, i);
  }

  lemma {:induction false} SystemRunKeepsInv(cfg: Config, account: nat, s: System, inputs: seq<Input>)
    requires Sensible(cfg) && SystemInv(cfg, account, s)
    requires P.Possible(cfg, account, s, inputs) && HonestRun(cfg, account, s, inputs)
    ensures SystemInv(cfg, account, P.Run(cfg, account, s, inputs))
    decreases |inputs|
  {
    hide SystemInv, P.Step, Honest, P.Enabled;
    if inputs != [] {
      SystemStepKeepsInv(cfg, account, s, inputs[0]);
      SystemRunKeepsInv(cfg, account, P.Step(cfg, account, s, inputs[0]), inputs[1..]);
    }
  }

  // ---------- the bound ----------

  /** Over every run of an account, with successive sessions, all answers, and confirmations and writes for any account:
      the credit of its session lies above minus one interval and one packet and not above one interval, and its 32-bit
      value is exact; a stored credit is at most one interval. */
  lemma CreditIsBoundedInRuns(cfg: Config, account: nat, s: System, inputs: seq<Input>)
    requires Sensible(cfg) && s.session.None? && s.login.None? && s.writing.None? && GoodTables(cfg, account, s)
    requires P.Possible(cfg, account, s, inputs) && HonestRun(cfg, account, s, inputs)
    ensures var t := P.Run(cfg, account, s, inputs);
            && t.stored <= cfg.prepaidInterval
            && (t.session.Some? ==>
                  && InBounds(cfg, Credit(t.session.value))
                  && PrepaidBytes(t.session.value) == Credit(t.session.value))
  {
    SystemRunKeepsInv(cfg, account, s, inputs);
    var t := P.Run(cfg, account, s, inputs);
    if t.session.Some? {
      CastIsExact(cfg, t.session.value);
    }
  }
}
