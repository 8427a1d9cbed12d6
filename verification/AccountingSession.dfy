/** One prepaid session: how packets, confirmations, settlement reports, login and logout move its credit. The
    credit is the difference of two 64-bit counters, used as a signed 32-bit number. */
module AccountingSession {
  import opened MachineTypes
  import opened PaymentTypes

  const MIXPACKET_SIZE := 998
  const PACKETS_BEFORE_NEXT_CHECK := 100
  const HARD_LIMIT_TIMEOUT := 30

  datatype Config = Config(prepaidInterval: UInt32, hardLimit: UInt32, softLimit: UInt32)

  datatype Account = Account(confirmed: UInt64, transferred: UInt64, sessionPackets: nat, bytesToConfirm: UInt64,
                             lastHardLimit: int, flags: set<Flag>)

  datatype Verdict = CloseConnection | PrepareForClosing | Unchecked | Accepted

  // ---------- the operations ----------

  const NEW_SESSION_FLAGS :=
    {TimeoutStarted, HardLimitReached, WaitingForFirstSettledCC, SentCCRequest, LoginNotFinished}

  function NewSession(now: int): Account
  {
    Account(0, 0, 0, 0, now, NEW_SESSION_FLAGS)
  }

  /** What the counters say the account still has to its credit. */
  function Credit(a: Account): int
  {
    Signed64(Sub64(a.confirmed, a.transferred))
  }

  function PrepaidBytes(a: Account): SInt32
  {
    Signed32(Credit(a))
  }

  function SetFlag(a: Account, f: Flag): Account { a.(flags := a.flags + {f}) }

  function ClearFlag(a: Account, f: Flag): Account { a.(flags := a.flags - {f}) }

  function ZeroCredit(a: Account): Account { a.(transferred := a.confirmed) }

  function CountPacket(a: Account): Account
  {
    a.(transferred := Add64(a.transferred, MIXPACKET_SIZE), sessionPackets := a.sessionPackets + 1)
  }

  function SendCCRequest(cfg: Config, a: Account): Account
  {
    var b := SetFlag(a, SentCCRequest);
    if AccountEmpty in b.flags then b else b.(bytesToConfirm := Add64(cfg.prepaidInterval, b.transferred))
  }

  /** Use a payment-instance value as the number of confirmed bytes of an empty account. */
  function TakeOver(a: Account, confirmed: UInt64): Account
  {
    var b := a.(confirmed := confirmed);
    if b.confirmed < b.transferred then ZeroCredit(b) else b
  }

  predicate Skips(a: Account)
  {
    a.flags * {TimeoutStarted, HardLimitReached, AccountEmpty, WaitingForFirstSettledCC} == {}
    && a.sessionPackets % PACKETS_BEFORE_NEXT_CHECK != 0
  }

  /** The result of reading the login entry: the session, the entry, and whether an error ends the session. */
  datatype Reading = Reading(account: Account, login: Login, error: bool)

  function ReadLogin(a: Account, login: Login, row: Option<Row>): Reading
  {
    var b := a.(flags := a.flags - login.authRemoveFlags);
    if OutdatedCC in login.authFlags then
      var l := login.(authFlags := login.authFlags - {OutdatedCC});
      if row.Some? && row.value.settled then
        var c := b.(transferred := Add64(b.transferred, Sub64(l.confirmed, b.confirmed)), confirmed := l.confirmed);
        Reading(SetFlag(c, SentCCRequest), l.(confirmed := 0), false)
      else Reading(b, l, false)
    else if AccountEmpty in login.authFlags then
      if AccountEmpty in b.flags then Reading(b, login, false)
      else Reading(TakeOver(SetFlag(b, AccountEmpty), login.confirmed), login, false)
    else if InvalidAccount in login.authFlags then
      Reading(b, login.(authFlags := login.authFlags - {InvalidAccount}), true)
    else if Blocked in login.authFlags then
      Reading(b, login.(authFlags := login.authFlags - {Blocked}), true)
    else if Database in login.authFlags then
      Reading(b, login.(authFlags := login.authFlags - {Database}), true)
    else if Unknown in login.authFlags then
      Reading(b, login.(authFlags := login.authFlags - {Unknown}), true)
    else Reading(b, login, false)
  }

  predicate LimitReached(prepaid: SInt32, limit: UInt32)
  {
    prepaid < 0 || prepaid <= Signed32(limit)
  }

  /** The client did not confirm: in time, or within one more prepaid interval. */
  predicate Refused(cfg: Config, prepaid: SInt32, since: int, now: int)
  {
    || (now >= since + HARD_LIMIT_TIMEOUT && prepaid <= 0)
    || (prepaid < 0 && 0 - prepaid >= cfg.prepaidInterval)
  }

  /** The session after the hard-limit check, and whether the check ends it. */
  function HardLimit(cfg: Config, a: Account, now: int): (Account, bool)
  {
    var prepaid := PrepaidBytes(a);
    if !LimitReached(prepaid, cfg.hardLimit) then (ClearFlag(a, HardLimitReached), false)
    else
      var b := if HardLimitReached in a.flags then a else SetFlag(a.(lastHardLimit := now), HardLimitReached);
      if Refused(cfg, prepaid, b.lastHardLimit, now) then (SetFlag(b.(lastHardLimit := 0), FatalError), true)
      else if SentCCRequest in b.flags then (b, false)
      else (SendCCRequest(cfg, b), false)
  }

  function SoftLimit(cfg: Config, a: Account, prepaid: SInt32): Account
  {
    if LimitReached(prepaid, cfg.softLimit) && SentCCRequest !in a.flags then SendCCRequest(cfg, a) else a
  }

  /** The checks that follow when the login entry was read. */
  function CheckCredit(cfg: Config, a: Account, error: bool, now: int): (Account, Verdict)
  {
    var b := if AccountEmpty in a.flags then a.(lastHardLimit := now) else a;
    if AccountEmpty in b.flags && PrepaidBytes(b) > 0 then (b, Accepted)
    else if AccountEmpty in b.flags || error then (SetFlag(b, FatalError), PrepareForClosing)
    else
      var (c, refused) := HardLimit(cfg, b, now);
      if refused then (c, PrepareForClosing)
      else (SoftLimit(cfg, c, PrepaidBytes(b)), Accepted)
  }

  datatype Outcome = Outcome(account: Account, login: Option<Login>, verdict: Verdict)

  function HandlePacket(cfg: Config, a: Account, login: Option<Login>, control: bool, toJap: bool, now: int,
                        row: Option<Row>): Outcome
  {
    if DeleteEntry in a.flags then Outcome(a, login, CloseConnection)
    else if LoginNotFinished in a.flags && !toJap then Outcome(a, login, CloseConnection)
    else if FatalError in a.flags then Outcome(a, login, PrepareForClosing)
    else if control then Outcome(a, login, Unchecked)
    else
      var b := CountPacket(a);
      if MultipleLogin in b.flags then Outcome(SetFlag(b, FatalError), login, PrepareForClosing)
      else if Skips(b) then Outcome(b, login, Unchecked)
      else if login.None? then Outcome(ZeroCredit(b), login, CloseConnection)
      else
        var r := ReadLogin(b, login.value, row);
        var (c, verdict) := CheckCredit(cfg, r.account, r.error, now);
        Outcome(c, Some(r.login), verdict)
  }

  /** The confirmation is worth storing. */
  predicate IsNews(cfg: Config, a: Account, bytes: UInt64)
  {
    bytes > a.confirmed || (bytes == a.confirmed && Unsigned32(PrepaidBytes(a)) == cfg.prepaidInterval)
  }

  /** The confirmation reaches the database. */
  predicate Stores(cfg: Config, a: Account, valid: bool, bytes: UInt64)
  {
    && DeleteEntry !in a.flags && (LoginNotFinished in a.flags || AccountEmpty !in a.flags)
    && {GotAccountCert, AccountOk, SentCCRequest} <= a.flags && valid
    && bytes <= Add64(a.transferred, cfg.prepaidInterval) && IsNews(cfg, a, bytes)
  }

  /** A confirmation of some bytes; `valid` tells whether it passes the checks of format, signature and price
      certificates, `stored` whether the database takes it. */
  function HandleConfirmation(cfg: Config, a: Account, valid: bool, bytes: UInt64, stored: bool, now: int): Account
  {
    if DeleteEntry in a.flags || (LoginNotFinished !in a.flags && AccountEmpty in a.flags) then a
    else if !({GotAccountCert, AccountOk, SentCCRequest} <= a.flags) || !valid then a
    else if bytes > Add64(a.transferred, cfg.prepaidInterval) then SetFlag(a, Fake)
    else if bytes < a.confirmed && LoginNotFinished in a.flags then SetFlag(a, Fake)
    else
      var b := if !IsNews(cfg, a, bytes) then a
               else if stored then a.(confirmed := bytes)
               else SetFlag(a, Database);
      var c := if b.confirmed >= b.bytesToConfirm then ClearFlag(b, HardLimitReached).(lastHardLimit := now)
               else ClearFlag(b, LoginSkipSettlement);
      ClearFlag(c, SentCCRequest).(bytesToConfirm := 0)
  }

  datatype Response = BadFormat | BadSignature | LoginOccupied | Valid

  function StatusFlags(status: Status): set<Flag>
  {
    match status
    case StatusBlocked => {Blocked}
    case StatusKeyNotFound => {InvalidAccount}
    case StatusAccountEmpty => {AccountEmpty}
    case _ => {}
  }

  /** Load the counters of an authenticated account: its last confirmation and its stored credit. */
  function LoadCounters(a: Account, prepaid: SInt32, row: Option<Row>): (Account, SInt32)
  {
    var b := match row
             case None => a
             case Some(cc) =>
               var c := if cc.settled then ClearFlag(a, WaitingForFirstSettledCC) else a;
               c.(transferred := Add64(c.transferred, cc.bytes), confirmed := cc.bytes);
    if prepaid > 0 && b.transferred >= prepaid then (b.(transferred := b.transferred - prepaid), prepaid) else (b, 0)
  }

  /** Load the counters and ask for the next confirmation. */
  function LogIn(cfg: Config, a: Account, prepaid: SInt32, row: Option<Row>, status: Status): Account
  {
    var (b, amount) := LoadCounters(a, prepaid, row);
    var c := b.(flags := b.flags + StatusFlags(status));
    if row.Some? then
      c.(bytesToConfirm := Add64(Unsigned32(Signed32(cfg.prepaidInterval - amount)), row.value.bytes))
    else
      SendCCRequest(cfg, if amount > 0 then c.(transferred := Add64(c.transferred, amount)) else c)
  }

  function HandleResponse(cfg: Config, a: Account, response: Response, prepaid: SInt32, row: Option<Row>,
                          status: Status): Account
  {
    if DeleteEntry in a.flags || !({GotAccountCert, ChallengeSent} <= a.flags) then a
    else
      var b := ClearFlag(a, ChallengeSent);
      match response
      case BadFormat => b
      case BadSignature => ClearFlag(SetFlag(b, Fake), AccountOk)
      case LoginOccupied => SetFlag(SetFlag(b, AccountOk), MultipleLogin)
      case Valid => LogIn(cfg, SetFlag(b, AccountOk), prepaid, row, status)
  }

  datatype Certificate = Unreadable | BadlySigned | Good

  /** An account certificate: the first readable one counts. */
  function HandleCertificate(a: Account, certificate: Certificate): Account
  {
    if DeleteEntry in a.flags || GotAccountCert in a.flags then a
    else
      match certificate
      case Unreadable => a
      case BadlySigned => a.(flags := a.flags + {Fake, GotAccountCert, TimeoutStarted})
      case Good => a.(flags := a.flags + {ChallengeSent, GotAccountCert, TimeoutStarted})
  }

  /** The end of the login, after the first settlement; `status` stands for the bits of the database's status code,
      which the source adds to the flags as they are. Without a login entry the source can only deal with an account
      that is blocked or not empty. */
  function FinishLogin(a: Account, login: Option<Login>, status: set<Flag>): (Account, Option<Login>)
  {
    var b := a.(flags := a.flags - {LoginSkipSettlement, LoginNotFinished});
    var c := if DeleteEntry in b.flags then b else b.(flags := b.flags + status);
    if login.None? then (SetFlag(c, InvalidAccount), login)
    else
      var l := login.value;
      var d := c.(flags := (c.flags - l.authRemoveFlags)
                           + (l.authFlags * {InvalidAccount, AccountEmpty, Blocked, Unknown}));
      if Blocked in d.flags || AccountEmpty !in d.flags then (d, login)
      else if DeleteEntry in d.flags then (TakeOver(d, l.confirmed), login)
      else (ZeroCredit(d), Some(l.(confirmed := d.confirmed)))
  }

  /** The credit stored at logout. */
  function StoredCredit(cfg: Config, a: Account, login: Login): SInt32
  {
    var b := if AccountEmpty in login.authFlags then a.(confirmed := login.confirmed) else a;
    var prepaid := PrepaidBytes(b);
    if prepaid > 0 && prepaid > Signed32(cfg.prepaidInterval) then 0 else prepaid
  }

  // ---------- the bound on the credit ----------

  /** The configured interval leaves room for the signed 32-bit difference. */
  predicate Sensible(cfg: Config)
  {
    cfg.prepaidInterval + MIXPACKET_SIZE <= TWO_31
  }

  /** How far below zero a session may be and still be served; an interval of zero behaves like one of one byte. */
  function Overdraft(cfg: Config): int
  {
    if cfg.prepaidInterval == 0 then 1 else cfg.prepaidInterval
  }

  predicate InBounds(cfg: Config, credit: int)
  {
    -(Overdraft(cfg) + MIXPACKET_SIZE) < credit <= cfg.prepaidInterval
  }

  predicate Inv(cfg: Config, a: Account)
  {
    && a.confirmed < TWO_63
    && TimeoutStarted in a.flags
    && InBounds(cfg, Credit(a))
    && (FatalError !in a.flags ==> Credit(a) > -Overdraft(cfg))
    && (ChallengeSent in a.flags ==> GotAccountCert in a.flags && AccountOk !in a.flags)
    && (ChallengeSent in a.flags || GotAccountCert !in a.flags ==>
          a.confirmed == 0 && Credit(a) <= 0 && AccountOk !in a.flags)
  }

  const REMOVABLE := {WaitingForFirstSettledCC, AccountEmpty, Blocked, InvalidAccount}

  /** What settlement may put into a login entry. */
  predicate Settleable(login: Login)
  {
    login.confirmed < TWO_63 && login.authRemoveFlags <= REMOVABLE
  }

  datatype Event =
    | Packet(login: Option<Login>, control: bool, toJap: bool, now: int, row: Option<Row>)
    | CostConfirmation(valid: bool, bytes: UInt64, stored: bool, now: int)
    | AccountCertificate(certificate: Certificate)
    | ChallengeResponse(response: Response, prepaid: SInt32, row: Option<Row>, status: Status)
    | LoginMessage(failed: bool)
    | EndOfLogin(entry: Option<Login>, added: set<Flag>)
    | DropCredit
    | Closing

  function Step(cfg: Config, a: Account, e: Event): Account
  {
    match e
    case Packet(login, control, toJap, now, row) => HandlePacket(cfg, a, login, control, toJap, now, row).account
    case CostConfirmation(valid, bytes, stored, now) => HandleConfirmation(cfg, a, valid, bytes, stored, now)
    case AccountCertificate(certificate) => HandleCertificate(a, certificate)
    case ChallengeResponse(response, prepaid, row, status) => HandleResponse(cfg, a, response, prepaid, row, status)
    case LoginMessage(failed) =>
      if failed && LoginNotFinished in a.flags then SetFlag(ClearFlag(a, LoginNotFinished), LoginFailed)
      else ClearFlag(a, LoginNotFinished)
    case EndOfLogin(entry, added) => FinishLogin(a, entry, added).0
    case DropCredit => ZeroCredit(a)
    case Closing => SetFlag(a, DeleteEntry)
  }

  /** The assumptions on the surroundings: a stored credit is at most one interval; a payment-instance value that is
      used for an empty account is at most one interval above the transferred bytes; the database, whose column is
      signed, stores no count of 2^63 or more; and a packet that is counted before the login does not find the entry
      of an empty or outdated account under the number that the client claims. */
  predicate Trusted(cfg: Config, a: Account, e: Event)
  {
    match e
    case Packet(login, control, _, _, _) =>
      login.Some? ==>
        && Settleable(login.value)
        && (AccountEmpty in login.value.authFlags
            ==> login.value.confirmed <= CountPacket(a).transferred + cfg.prepaidInterval)
        && (control || AccountOk in a.flags
            || (OutdatedCC !in login.value.authFlags && AccountEmpty !in login.value.authFlags))
    case CostConfirmation(_, bytes, stored, _) => stored ==> bytes < TWO_63
    case ChallengeResponse(_, prepaid, row, _) =>
      prepaid <= cfg.prepaidInterval && (row.Some? ==> row.value.bytes < TWO_63)
    case EndOfLogin(entry, added) =>
      && {GotAccountCert, AccountOk} <= a.flags && ChallengeSent !in added
      && (entry.Some? ==>
            && Settleable(entry.value)
            && (AccountEmpty in a.flags + added + entry.value.authFlags
                ==> entry.value.confirmed <= a.transferred + cfg.prepaidInterval))
    case _ => true
  }

  lemma CastIsExact(cfg: Config, a: Account)
    requires Sensible(cfg) && Inv(cfg, a)
    ensures PrepaidBytes(a) == Credit(a)
  {
  }

  lemma CountingCosts(cfg: Config, a: Account)
    requires Sensible(cfg) && Inv(cfg, a)
    ensures Credit(CountPacket(a)) == Credit(a) - MIXPACKET_SIZE
  {
  }

  predicate SameLoginFlags(a: Account, b: Account)
  {
    && (TimeoutStarted in a.flags <==> TimeoutStarted in b.flags)
    && (ChallengeSent in a.flags <==> ChallengeSent in b.flags)
    && (GotAccountCert in a.flags <==> GotAccountCert in b.flags)
    && (AccountOk in a.flags <==> AccountOk in b.flags)
  }

  lemma ReadingKeepsCredit(cfg: Config, a: Account, login: Login, row: Option<Row>)
    requires Sensible(cfg) && Settleable(login) && a.confirmed < TWO_63
    requires InBounds(cfg, Credit(a))
    requires AccountEmpty in login.authFlags ==> login.confirmed <= a.transferred + cfg.prepaidInterval
    ensures var b := ReadLogin(a, login, row).account;
            && b.confirmed < TWO_63
            && (Credit(b) == Credit(a) || 0 <= Credit(b) <= cfg.prepaidInterval)
            && SameLoginFlags(a, b) && (FatalError in b.flags ==> FatalError in a.flags)
  {
  }

  lemma CheckingBounds(cfg: Config, a: Account, error: bool, now: int)
    requires Sensible(cfg) && FatalError !in a.flags
    requires InBounds(cfg, Credit(a))
    ensures var b := CheckCredit(cfg, a, error, now).0;
            && b.confirmed == a.confirmed && Credit(b) == Credit(a)
            && (FatalError !in b.flags ==> Credit(b) > -Overdraft(cfg))
            && SameLoginFlags(a, b) && b.transferred == a.transferred
  {
  }

  lemma PacketKeepsInv(cfg: Config, a: Account, e: Event)
    requires Sensible(cfg) && Inv(cfg, a) && e.Packet? && Trusted(cfg, a, e)
    ensures Inv(cfg, Step(cfg, a, e))
  {
    var b := CountPacket(a);
    CountingCosts(cfg, a);
    assert Credit(ZeroCredit(b)) == 0 && Credit(SetFlag(b, FatalError)) == Credit(b);
    hide Credit, ReadLogin, CheckCredit, Settleable, Skips;
    if FatalError !in a.flags && e.login.Some? {
      ReadingKeepsCredit(cfg, b, e.login.value, e.row);
      var r := ReadLogin(b, e.login.value, e.row);
      CheckingBounds(cfg, r.account, r.error, e.now);
    }
  }

  /** The confirmed bytes change exactly when the database takes a confirmation, and to its bytes. */
  lemma ConfirmedIsStored(cfg: Config, a: Account, valid: bool, bytes: UInt64, stored: bool, now: int)
    ensures HandleConfirmation(cfg, a, valid, bytes, stored, now).confirmed
            == if Stores(cfg, a, valid, bytes) && stored then bytes else a.confirmed
  {
  }

  lemma ConfirmationKeepsInv(cfg: Config, a: Account, valid: bool, bytes: UInt64, stored: bool, now: int)
    requires Sensible(cfg) && Inv(cfg, a) && (stored ==> bytes < TWO_63)
    ensures Inv(cfg, HandleConfirmation(cfg, a, valid, bytes, stored, now))
  {
  }

  /** A login adds the stored credit to what was counted before it, if the last confirmation covers it. */
  lemma LoadingAdds(cfg: Config, a: Account, prepaid: SInt32, row: Option<Row>)
    requires Sensible(cfg) && a.confirmed == 0 && InBounds(cfg, Credit(a)) && Credit(a) <= 0
    requires prepaid <= cfg.prepaidInterval && (row.Some? ==> row.value.bytes < TWO_63)
    ensures var (b, amount) := LoadCounters(a, prepaid, row);
            && b.confirmed == (if row.Some? then row.value.bytes else 0)
            && amount == (if 0 < prepaid <= b.confirmed - Credit(a) then prepaid else 0)
            && Credit(b) == Credit(a) + amount
            && b.transferred == b.confirmed - Credit(a) - amount
            && b.flags <= a.flags && a.flags - {WaitingForFirstSettledCC} <= b.flags
  {
  }

  lemma ResponseKeepsInv(cfg: Config, a: Account, response: Response, prepaid: SInt32, row: Option<Row>,
                         status: Status)
    requires Sensible(cfg) && Inv(cfg, a) && prepaid <= cfg.prepaidInterval
    requires row.Some? ==> row.value.bytes < TWO_63
    ensures Inv(cfg, HandleResponse(cfg, a, response, prepaid, row, status))
  {
    if ChallengeSent in a.flags && GotAccountCert in a.flags {
      var b := SetFlag(ClearFlag(a, ChallengeSent), AccountOk);
      LoadingAdds(cfg, b, prepaid, row);
      hide LoadCounters;
    }
  }

  lemma EndOfLoginKeepsInv(cfg: Config, a: Account, e: Event)
    requires Sensible(cfg) && Inv(cfg, a) && e.EndOfLogin? && Trusted(cfg, a, e)
    ensures Inv(cfg, Step(cfg, a, e))
  {
  }

  lemma StepKeepsInv(cfg: Config, a: Account, e: Event)
    requires Sensible(cfg) && Inv(cfg, a) && Trusted(cfg, a, e)
    ensures Inv(cfg, Step(cfg, a, e))
  {
    hide HandlePacket, HandleConfirmation, HandleResponse, FinishLogin;
    match e
    case Packet(_, _, _, _, _) => PacketKeepsInv(cfg, a, e);
    case CostConfirmation(valid, bytes, stored, now) => ConfirmationKeepsInv(cfg, a, valid, bytes, stored, now);
    case ChallengeResponse(response, prepaid, row, status) => ResponseKeepsInv(cfg, a, response, prepaid, row, status);
    case EndOfLogin(_, _) => EndOfLoginKeepsInv(cfg, a, e);
    case _ =>
  }

  predicate TrustedRun(cfg: Config, a: Account, events: seq<Event>)
    decreases |events|
  {
    events == [] || (Trusted(cfg, a, events[0]) && TrustedRun(cfg, Step(cfg, a, events[0]), events[1..]))
  }

  function Run(cfg: Config, a: Account, events: seq<Event>): Account
    decreases |events|
  {
    if events == [] then a else Run(cfg, Step(cfg, a, events[0]), events[1..])
  }

  lemma {:induction false} RunKeepsInv(cfg: Config, a: Account, events: seq<Event>)
    requires Sensible(cfg) && Inv(cfg, a) && TrustedRun(cfg, a, events)
    ensures Inv(cfg, Run(cfg, a, events))
    decreases |events|
  {
    hide Inv, Step, Trusted;
    if events != [] {
      StepKeepsInv(cfg, a, events[0]);
      RunKeepsInv(cfg, Step(cfg, a, events[0]), events[1..]);
    }
  }

  /** In every reachable state the credit is at most one prepaid interval and more than one interval and one packet
      below zero, so that the cast to 32 bits loses nothing. */
  lemma CreditIsBounded(cfg: Config, now: int, events: seq<Event>)
    requires Sensible(cfg) && TrustedRun(cfg, NewSession(now), events)
    ensures var a := Run(cfg, NewSession(now), events);
            && InBounds(cfg, Credit(a))
            && PrepaidBytes(a) == Credit(a)
            && (FatalError !in a.flags ==> Credit(a) > -Overdraft(cfg))
  {
    assert Inv(cfg, NewSession(now));
    RunKeepsInv(cfg, NewSession(now), events);
    CastIsExact(cfg, Run(cfg, NewSession(now), events));
  }

  /** Settlement takes back only these flags. */
  predicate RemovesOnlyRemovable(e: Event)
  {
    && (e.Packet? && e.login.Some? ==> e.login.value.authRemoveFlags <= REMOVABLE)
    && (e.EndOfLogin? && e.entry.Some? ==> e.entry.value.authRemoveFlags <= REMOVABLE)
  }

  lemma TimeoutFlagStays(cfg: Config, a: Account, e: Event)
    requires TimeoutStarted in a.flags && RemovesOnlyRemovable(e)
    ensures TimeoutStarted in Step(cfg, a, e).flags
  {
    hide Credit, PrepaidBytes, Signed32;
  }

  lemma {:induction false} TimeoutFlagStaysInRun(cfg: Config, a: Account, events: seq<Event>)
    requires TimeoutStarted in a.flags && forall e :: e in events ==> RemovesOnlyRemovable(e)
    ensures TimeoutStarted in Run(cfg, a, events).flags
    decreases |events|
  {
    hide Step;
    if events != [] {
      TimeoutFlagStays(cfg, a, events[0]);
      TimeoutFlagStaysInRun(cfg, Step(cfg, a, events[0]), events[1..]);
    }
  }

  /** The flag of a started timeout is set at the beginning and nothing clears it, so the shortcut of checking only
      every hundredth packet is never taken: a data packet is `Unchecked` in no reachable state. */
  lemma EveryDataPacketIsChecked(cfg: Config, now: int, events: seq<Event>, login: Option<Login>, toJap: bool,
                                 time: int, row: Option<Row>)
    requires forall e :: e in events ==> RemovesOnlyRemovable(e)
    ensures var a := Run(cfg, NewSession(now), events);
            !Skips(CountPacket(a)) && HandlePacket(cfg, a, login, false, toJap, time, row).verdict != Unchecked
  {
    TimeoutFlagStaysInRun(cfg, NewSession(now), events);
    var b := CountPacket(Run(cfg, NewSession(now), events));
    assert TimeoutStarted in b.flags * {TimeoutStarted, HardLimitReached, AccountEmpty, WaitingForFirstSettledCC};
  }

  // ---------- what a client gets ----------

  /** A client that confirms what the last request asked for, `n` packets later, has one interval less these packets
      to its credit again; nothing else is pending, and it is not taken for a cheat. */
  lemma ConfirmingTheRequestRefills(cfg: Config, a: Account, n: nat, now: int)
    requires Sensible(cfg) && Inv(cfg, a) && FatalError !in a.flags
    requires {GotAccountCert, AccountOk} <= a.flags
    requires DeleteEntry !in a.flags && AccountEmpty !in a.flags && Fake !in a.flags
    requires a.transferred + cfg.prepaidInterval + n * MIXPACKET_SIZE < TWO_63
    ensures var asked := SendCCRequest(cfg, a);
            var later := asked.(transferred := asked.transferred + n * MIXPACKET_SIZE);
            asked.bytesToConfirm < TWO_63
            && var b := HandleConfirmation(cfg, later, true, asked.bytesToConfirm, true, now);
               && b.confirmed == asked.bytesToConfirm
               && Credit(b) == cfg.prepaidInterval - n * MIXPACKET_SIZE
               && SentCCRequest !in b.flags && HardLimitReached !in b.flags
               && Fake !in b.flags && FatalError !in b.flags
  {
    assert Credit(a) <= cfg.prepaidInterval;
    var asked := SendCCRequest(cfg, a);
    assert asked.bytesToConfirm == cfg.prepaidInterval + a.transferred;
    assert asked.confirmed <= asked.bytesToConfirm;
    var later := asked.(transferred := asked.transferred + n * MIXPACKET_SIZE);
    if asked.bytesToConfirm == asked.confirmed {
      assert Credit(later) == cfg.prepaidInterval - n * MIXPACKET_SIZE;
    }
  }

  /** A packet that leaves a positive credit is forwarded and does not end the session, unless settlement reported an
      error other than an empty account or the account logged in twice. */
  lemma PositiveCreditIsServed(cfg: Config, a: Account, login: Login, toJap: bool, now: int, row: Option<Row>)
    requires Sensible(cfg) && Inv(cfg, a) && DeleteEntry !in a.flags && LoginNotFinished !in a.flags
    requires FatalError !in a.flags && MultipleLogin !in a.flags
    requires forall f :: f in login.authFlags ==> f == SETTLED_ONCE
    requires login.authRemoveFlags <= REMOVABLE && Credit(a) > MIXPACKET_SIZE
    ensures var o := HandlePacket(cfg, a, Some(login), false, toJap, now, row);
            && o.verdict == Accepted && FatalError !in o.account.flags
            && Credit(o.account) == Credit(a) - MIXPACKET_SIZE && o.login == Some(login)
  {
    CountingCosts(cfg, a);
    var b := CountPacket(a);
    assert TimeoutStarted in b.flags * {TimeoutStarted, HardLimitReached, AccountEmpty, WaitingForFirstSettledCC};
    var r := ReadLogin(b, login, row);
    assert r == Reading(b.(flags := b.flags - login.authRemoveFlags), login, false);
    assert PrepaidBytes(r.account) == Credit(a) - MIXPACKET_SIZE;
  }

  /** What the two limits decide for an account that is not empty: the session ends exactly if the client is a whole
      interval in debt, or has had no credit for 30 s since it reached the hard limit; otherwise it is asked to
      confirm exactly if it is at or below one of the limits and was not asked before. */
  lemma LimitsDecide(cfg: Config, a: Account, now: int)
    requires Sensible(cfg) && InBounds(cfg, Credit(a)) && AccountEmpty !in a.flags && FatalError !in a.flags
    ensures var (b, verdict) := CheckCredit(cfg, a, false, now);
            var credit, hard, soft := Credit(a), Signed32(cfg.hardLimit), Signed32(cfg.softLimit);
            var low := credit < 0 || credit <= hard || credit <= soft;
            && (verdict == PrepareForClosing
                <==> || (credit < 0 && credit <= -(cfg.prepaidInterval as int))
                     || (&& HardLimitReached in a.flags && now >= a.lastHardLimit + HARD_LIMIT_TIMEOUT
                         && credit <= 0 && (credit < 0 || 0 <= hard)))
            && (FatalError in b.flags <==> verdict == PrepareForClosing)
            && (verdict == Accepted ==>
                  && (HardLimitReached in b.flags <==> credit < 0 || credit <= hard)
                  && (SentCCRequest in b.flags <==> SentCCRequest in a.flags || low)
                  && b.bytesToConfirm == (if low && SentCCRequest !in a.flags
                                          then Add64(cfg.prepaidInterval, a.transferred) else a.bytesToConfirm))
  {
    assert PrepaidBytes(a) == Credit(a);
  }

  // ---------- the credit between two sessions ----------

  /** Whatever the session did, the credit stored at logout is one that the next login may trust. */
  lemma StoredCreditIsTrusted(cfg: Config, a: Account, login: Login)
    requires Sensible(cfg)
    ensures StoredCredit(cfg, a, login) <= cfg.prepaidInterval
  {
  }

  /** The credit fits the confirmed bytes: the transferred bytes did not pass zero downwards. */
  predicate Covered(a: Account)
  {
    Credit(a) <= a.confirmed
  }

  /** The bytes of the account's row; none for an account that never confirmed. */
  function BytesOf(row: Option<Row>): UInt64
  {
    if row.Some? then row.value.bytes else 0
  }

  /** Logging out and in again while the row holds the session's confirmed bytes: they are restored, and the credit is
      the old one, or nothing if the old one was negative or above the interval; the branch for a credit that the last
      confirmation does not cover is not reached. */
  lemma CreditSurvivesLogout(cfg: Config, a: Account, login: Login, next: Account, row: Option<Row>, status: Status)
    requires Sensible(cfg) && a.confirmed == BytesOf(row) < TWO_63 && Covered(a) && -TWO_31 <= Credit(a) < TWO_31
    requires AccountEmpty !in login.authFlags
    requires next.confirmed == 0 && next.transferred == 0
    requires DeleteEntry !in next.flags && {GotAccountCert, ChallengeSent} <= next.flags
    ensures var stored := StoredCredit(cfg, a, login);
            var b := HandleResponse(cfg, next, Valid, stored, row, status);
            && b.confirmed == a.confirmed
            && Credit(b) == (if 0 < Credit(a) <= cfg.prepaidInterval then Credit(a) else 0)
            && (0 < stored ==> b.transferred == b.confirmed - stored)
  {
    var stored := StoredCredit(cfg, a, login);
    assert PrepaidBytes(a) == Credit(a) && Signed32(cfg.prepaidInterval) == cfg.prepaidInterval;
    LoadingAdds(cfg, SetFlag(ClearFlag(next, ChallengeSent), AccountOk), stored, row);
    hide LoadCounters;
  }

  lemma ReadingStaysCovered(a: Account, login: Login, row: Option<Row>)
    requires OutdatedCC !in login.authFlags && a.confirmed < TWO_63 && login.confirmed < TWO_63 && Covered(a)
    ensures Covered(ReadLogin(a, login, row).account)
  {
  }

  lemma PacketStaysCovered(cfg: Config, a: Account, e: Event)
    requires Sensible(cfg) && Inv(cfg, a) && Trusted(cfg, a, e) && Covered(a)
    requires e.Packet? && (e.login.Some? ==> OutdatedCC !in e.login.value.authFlags)
    ensures Covered(Step(cfg, a, e))
  {
    var b := CountPacket(a);
    CountingCosts(cfg, a);
    assert Covered(ZeroCredit(b)) && Covered(SetFlag(b, FatalError));
    hide ReadLogin, CheckCredit, Skips, Credit;
    if FatalError !in a.flags && e.login.Some? {
      ReadingStaysCovered(b, e.login.value, e.row);
      ReadingKeepsCredit(cfg, b, e.login.value, e.row);
      var r := ReadLogin(b, e.login.value, e.row);
      CheckingBounds(cfg, r.account, r.error, e.now);
    }
  }

  /** Without an outdated answer the credit stays covered; the fix after an outdated answer keeps it exactly when
      the returned bytes cover the credit. */
  lemma StaysCoveredUnless(cfg: Config, a: Account, e: Event)
    requires Sensible(cfg) && Inv(cfg, a) && Trusted(cfg, a, e) && Covered(a)
    requires e.Packet? && e.login.Some? ==> OutdatedCC !in e.login.value.authFlags
    ensures Covered(Step(cfg, a, e))
  {
    match e
    case Packet(_, _, _, _, _) => PacketStaysCovered(cfg, a, e);
    case ChallengeResponse(response, prepaid, row, _) =>
      if ChallengeSent in a.flags && response.Valid? {
        LoadingAdds(cfg, SetFlag(ClearFlag(a, ChallengeSent), AccountOk), prepaid, row);
        hide LoadCounters;
      }
    case _ =>
  }

  lemma OutdatedFixKeepsCoveredIff(a: Account, login: Login, settled: Row)
    requires OutdatedCC in login.authFlags && settled.settled
    ensures var b := ReadLogin(a, login, Some(settled)).account;
            Credit(b) == Credit(a) && (Covered(b) <==> Credit(a) <= login.confirmed)
  {
  }
}
