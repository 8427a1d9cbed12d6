/** The session record and the login entry as the accounting instance updates them, field by field. The handlers keep
    the bound on the credit, and each refines the step of the same name in `AccountingSession`. */
module AccountingInfo {
  import C = CostConfirmations
  import opened AccountingSession
  import opened MachineTypes
  import opened PaymentTypes

  class LoginEntry {
    var confirmedBytes: UInt64
    var authFlags: set<Flag>
    var authRemoveFlags: set<Flag>

    constructor ()
      ensures Abs() == Login(0, {}, {})
    {
      confirmedBytes := 0;
      authFlags := {};
      authRemoveFlags := {};
    }

    ghost function Abs(): Login
      reads this
    {
      Login(confirmedBytes, authFlags, authRemoveFlags)
    }
  }

  ghost function AbsOf(login: LoginEntry?): Option<Login>
    reads login
  {
    if login == null then None else Some(login.Abs())
  }

  class AccInfo {
    var confirmedBytes: UInt64
    var transferredBytes: UInt64
    var sessionPackets: nat
    var bytesToConfirm: UInt64
    var lastHardLimitSeconds: int
    var authFlags: set<Flag>

    ghost function Abs(): Account
      reads this
    {
      Account(confirmedBytes, transferredBytes, sessionPackets, bytesToConfirm, lastHardLimitSeconds, authFlags)
    }

    /** The credit of the record is within its bounds. */
    ghost predicate Valid(cfg: Config)
      reads this
    {
      Inv(cfg, Abs())
    }

    constructor (now: int)
      ensures Abs() == NewSession(now)
      ensures forall cfg :: Sensible(cfg) ==> Valid(cfg)
    {
      confirmedBytes, transferredBytes, sessionPackets, bytesToConfirm := 0, 0, 0, 0;
      lastHardLimitSeconds := now;
      authFlags := {TimeoutStarted, HardLimitReached, WaitingForFirstSettledCC, SentCCRequest, LoginNotFinished};
    }

    /** The difference of the counters; within the bounds of the credit, no bit of it is lost. */
    function GetPrepaidBytes(): (r: SInt32)
      reads this
      ensures r == PrepaidBytes(Abs())
      ensures forall cfg :: Sensible(cfg) && Valid(cfg) ==>
                r == Credit(Abs()) && (transferredBytes < TWO_63 ==> r == confirmedBytes - transferredBytes)
    {
      Signed32(Signed64(Sub64(confirmedBytes, transferredBytes)))
    }

    method SendCCRequest(cfg: Config)
      modifies this
      ensures Abs() == AccountingSession.SendCCRequest(cfg, old(Abs()))
    {
      authFlags := authFlags + {SentCCRequest};
      if AccountEmpty in authFlags {
        return;
      }
      bytesToConfirm := Add64(cfg.prepaidInterval, transferredBytes);
    }

    method ReturnKickout() returns (verdict: Verdict)
      modifies this
      ensures Abs() == ZeroCredit(old(Abs())) && verdict == CloseConnection
    {
      transferredBytes := confirmedBytes;
      return CloseConnection;
    }

    method ReturnPrepareKickout() returns (verdict: Verdict)
      modifies this
      ensures Abs() == SetFlag(old(Abs()), FatalError) && verdict == PrepareForClosing
    {
      authFlags := authFlags + {FatalError};
      return PrepareForClosing;
    }

    /** The flags that settlement left in the login entry; `row` is what the database answers if it is asked. */
    method ReadLoginEntry(login: LoginEntry, row: Option<Row>) returns (error: bool)
      modifies this, login
      ensures Reading(Abs(), login.Abs(), error) == ReadLogin(old(Abs()), old(login.Abs()), row)
    {
      error := false;
      authFlags := authFlags - login.authRemoveFlags;
      if OutdatedCC in login.authFlags {
        login.authFlags := login.authFlags - {OutdatedCC};
        if row.Some? && row.value.settled {
          transferredBytes := Add64(transferredBytes, Sub64(login.confirmedBytes, confirmedBytes));
          confirmedBytes := login.confirmedBytes;
          login.confirmedBytes := 0;
          authFlags := authFlags + {SentCCRequest};
        }
      } else if AccountEmpty in login.authFlags {
        if AccountEmpty !in authFlags {
          authFlags := authFlags + {AccountEmpty};
          confirmedBytes := login.confirmedBytes;
          if confirmedBytes < transferredBytes {
            transferredBytes := confirmedBytes;
          }
        }
      } else if InvalidAccount in login.authFlags {
        login.authFlags := login.authFlags - {InvalidAccount};
        error := true;
      } else if Blocked in login.authFlags {
        login.authFlags := login.authFlags - {Blocked};
        error := true;
      } else if Database in login.authFlags {
        login.authFlags := login.authFlags - {Database};
        error := true;
      } else if Unknown in login.authFlags {
        login.authFlags := login.authFlags - {Unknown};
        error := true;
      }
    }

    /** The checks of `HandleJapPacket` behind the login entry. */
    method CheckCredit(cfg: Config, readError: bool, now: int) returns (verdict: Verdict)
      modifies this
      ensures (Abs(), verdict) == AccountingSession.CheckCredit(cfg, old(Abs()), readError, now)
    {
      var error := readError;
      if AccountEmpty in authFlags {
        lastHardLimitSeconds := now;
        if GetPrepaidBytes() <= 0 {
          error := true;
        } else {
          return Accepted;
        }
      }
      if error {
        verdict := ReturnPrepareKickout();
        return;
      }
      ghost var before := Abs();
      var prepaidBytes := GetPrepaidBytes();
      if prepaidBytes < 0 || prepaidBytes <= Signed32(cfg.hardLimit) {
        if HardLimitReached !in authFlags {
          lastHardLimitSeconds := now;
          authFlags := authFlags + {HardLimitReached};
        }
        if || (now >= lastHardLimitSeconds + HARD_LIMIT_TIMEOUT && prepaidBytes <= 0)
           || (prepaidBytes < 0 && 0 - prepaidBytes >= cfg.prepaidInterval) {
          lastHardLimitSeconds := 0;
          verdict := ReturnPrepareKickout();
          return;
        } else if SentCCRequest !in authFlags {
          SendCCRequest(cfg);
        }
      } else {
        authFlags := authFlags - {HardLimitReached};
      }
      assert (Abs(), false) == HardLimit(cfg, before, now);
      if prepaidBytes < 0 || prepaidBytes <= Signed32(cfg.softLimit) {
        if SentCCRequest !in authFlags {
          SendCCRequest(cfg);
        }
      }
      return Accepted;
    }

    /** Count a packet and decide what happens to it and to the connection. */
    method HandleJapPacket(cfg: Config, login: LoginEntry?, control: bool, toJap: bool, now: int,
                           row: Option<Row>)
      returns (verdict: Verdict)
      modifies this, login
      ensures Outcome(Abs(), AbsOf(login), verdict)
              == HandlePacket(cfg, old(Abs()), old(AbsOf(login)), control, toJap, now, row)
      ensures var e := Packet(old(AbsOf(login)), control, toJap, now, row);
              Sensible(cfg) && old(Valid(cfg)) && Trusted(cfg, old(Abs()), e) ==> Valid(cfg)
    {
      ghost var e := Packet(AbsOf(login), control, toJap, now, row);
      if Sensible(cfg) && Valid(cfg) && Trusted(cfg, Abs(), e) {
        PacketKeepsInv(cfg, Abs(), e);
      }
      hide AccountingSession.CheckCredit, ReadLogin, Inv, Trusted, Skips;
      if DeleteEntry in authFlags {
        return CloseConnection;
      }
      if LoginNotFinished in authFlags && !toJap {
        return CloseConnection;
      }
      if FatalError in authFlags {
        return PrepareForClosing;
      }
      if control {
        return Unchecked;
      }
      transferredBytes := Add64(transferredBytes, MIXPACKET_SIZE);
      sessionPackets := sessionPackets + 1;
      if MultipleLogin in authFlags {
        verdict := ReturnPrepareKickout();
        return;
      }
      if authFlags * {TimeoutStarted, HardLimitReached, AccountEmpty, WaitingForFirstSettledCC} == {}
         && sessionPackets % PACKETS_BEFORE_NEXT_CHECK != 0 {
        return Unchecked;
      }
      if login == null {
        verdict := ReturnKickout();
        return;
      }
      var error := ReadLoginEntry(login, row);
      verdict := CheckCredit(cfg, error, now);
    }

    /** A confirmation; `named` is the account that it names, which is not compared with the session's, `valid` tells
        whether it passes the checks of format, signature and price certificates, `works` whether the database stores
        it. */
    method HandleCostConfirmation(cfg: Config, db: C.AccountDatabase, named: nat, valid: bool, bytes: UInt64,
                                  works: bool, now: int)
      modifies this, db`rows
      ensures Abs() == HandleConfirmation(cfg, old(Abs()), valid, bytes, works, now)
      ensures db.rows == if Stores(cfg, old(Abs()), valid, bytes) && works
                         then C.Store(old(db.rows), CC(named, bytes)) else old(db.rows)
      ensures Sensible(cfg) && old(Valid(cfg)) && (works ==> bytes < TWO_63) ==> Valid(cfg)
    {
      ghost var before := Abs();
      if Sensible(cfg) && Valid(cfg) && (works ==> bytes < TWO_63) {
        ConfirmationKeepsInv(cfg, before, valid, bytes, works, now);
      }
      hide Inv;
      if DeleteEntry in authFlags || (LoginNotFinished !in authFlags && AccountEmpty in authFlags) {
        return;
      }
      if GotAccountCert !in authFlags || AccountOk !in authFlags || SentCCRequest !in authFlags {
        return;
      }
      if !valid {
        return;
      }
      if bytes > Add64(transferredBytes, cfg.prepaidInterval) {
        authFlags := authFlags + {Fake};
        return;
      }
      if bytes < confirmedBytes {
        if LoginNotFinished in authFlags {
          authFlags := authFlags + {Fake};
          return;
        }
      } else if bytes == confirmedBytes && Unsigned32(GetPrepaidBytes()) != cfg.prepaidInterval {
      } else {
        var dbRet := db.StoreCostConfirmation(CC(named, bytes), works);
        if !dbRet {
          authFlags := authFlags + {Database};
        } else {
          confirmedBytes := bytes;
        }
      }
      if confirmedBytes >= bytesToConfirm {
        authFlags := authFlags - {HardLimitReached};
        lastHardLimitSeconds := now;
      } else {
        authFlags := authFlags - {LoginSkipSettlement};
      }
      bytesToConfirm := 0;
      authFlags := authFlags - {SentCCRequest};
    }

    /** The account certificate; only the first readable one counts. */
    method HandleAccountCertificate(cfg: Config, certificate: Certificate)
      modifies this
      ensures Abs() == HandleCertificate(old(Abs()), certificate)
      ensures old(Valid(cfg)) ==> Valid(cfg)
    {
      if DeleteEntry in authFlags {
        return;
      }
      if GotAccountCert in authFlags {
        return;
      }
      match certificate {
        case Unreadable =>
        case BadlySigned =>
          authFlags := authFlags + {Fake, GotAccountCert, TimeoutStarted};
        case Good =>
          authFlags := authFlags + {ChallengeSent, GotAccountCert, TimeoutStarted};
      }
    }

    /** The end of the login; `status` is what the database's status code adds to the flags. Without a login entry the
        source can only deal with an account that is blocked or not empty. */
    method FinishLoginProcess(cfg: Config, login: LoginEntry?, status: set<Flag>)
      modifies this, login
      ensures (Abs(), AbsOf(login)) == FinishLogin(old(Abs()), old(AbsOf(login)), status)
      ensures Sensible(cfg) && old(Valid(cfg)) && Trusted(cfg, old(Abs()), EndOfLogin(old(AbsOf(login)), status))
              ==> Valid(cfg)
    {
      ghost var e := EndOfLogin(AbsOf(login), status);
      if Sensible(cfg) && Valid(cfg) && Trusted(cfg, Abs(), e) {
        EndOfLoginKeepsInv(cfg, Abs(), e);
      }
      hide Inv, Trusted;
      authFlags := authFlags - {LoginSkipSettlement, LoginNotFinished};
      if DeleteEntry !in authFlags {
        authFlags := authFlags + status;
      }
      if login != null {
        authFlags := authFlags - login.authRemoveFlags;
        authFlags := authFlags + (login.authFlags * {InvalidAccount, AccountEmpty, Blocked, Unknown});
      } else {
        authFlags := authFlags + {InvalidAccount};
        return;
      }
      if Blocked in authFlags {
        return;
      } else if AccountEmpty in authFlags {
        if DeleteEntry in authFlags {
          confirmedBytes := login.confirmedBytes;
          if confirmedBytes < transferredBytes {
            transferredBytes := confirmedBytes;
          }
        } else {
          login.confirmedBytes := confirmedBytes;
          transferredBytes := confirmedBytes;
        }
      }
    }

    /** Continue from the last confirmation and the stored credit. */
    method LoadCounters(prepaid: SInt32, row: Option<Row>) returns (prepaidAmount: SInt32)
      modifies this
      ensures (Abs(), prepaidAmount) == AccountingSession.LoadCounters(old(Abs()), prepaid, row)
    {
      if row.Some? {
        if row.value.settled {
          authFlags := authFlags - {WaitingForFirstSettledCC};
        }
        transferredBytes := Add64(transferredBytes, row.value.bytes);
        confirmedBytes := row.value.bytes;
      }
      prepaidAmount := prepaid;
      if prepaidAmount > 0 {
        if transferredBytes >= prepaidAmount {
          transferredBytes := transferredBytes - prepaidAmount;
        } else {
          prepaidAmount := 0;
        }
      } else {
        prepaidAmount := 0;
      }
    }

    /** Load the counters and ask for the next confirmation. */
    method LogIn(cfg: Config, prepaid: SInt32, row: Option<Row>, status: Status)
      modifies this
      ensures Abs() == AccountingSession.LogIn(cfg, old(Abs()), prepaid, row, status)
    {
      hide AccountingSession.LoadCounters;
      var prepaidAmount := LoadCounters(prepaid, row);
      match status {
        case StatusBlocked => authFlags := authFlags + {Blocked};
        case StatusKeyNotFound => authFlags := authFlags + {InvalidAccount};
        case StatusAccountEmpty => authFlags := authFlags + {AccountEmpty};
        case _ =>
      }
      if row.Some? {
        bytesToConfirm := Add64(Unsigned32(Signed32(cfg.prepaidInterval - prepaidAmount)), row.value.bytes);
      } else {
        if prepaidAmount > 0 {
          transferredBytes := Add64(transferredBytes, prepaidAmount);
        }
        SendCCRequest(cfg);
      }
    }

    /** The response to the challenge: on success, continue from the last confirmation and the stored credit. */
    method HandleChallengeResponse(cfg: Config, response: Response, prepaid: SInt32, row: Option<Row>,
                                   status: Status)
      modifies this
      ensures Abs() == HandleResponse(cfg, old(Abs()), response, prepaid, row, status)
      ensures var e := ChallengeResponse(response, prepaid, row, status);
              Sensible(cfg) && old(Valid(cfg)) && Trusted(cfg, old(Abs()), e) ==> Valid(cfg)
    {
      if Sensible(cfg) && Valid(cfg) && Trusted(cfg, Abs(), ChallengeResponse(response, prepaid, row, status)) {
        ResponseKeepsInv(cfg, Abs(), response, prepaid, row, status);
      }
      hide AccountingSession.LogIn, Inv, Trusted;
      if DeleteEntry in authFlags {
        return;
      }
      if GotAccountCert !in authFlags || ChallengeSent !in authFlags {
        return;
      }
      authFlags := authFlags - {ChallengeSent};
      match response {
        case BadFormat => return;
        case BadSignature =>
          authFlags := authFlags + {Fake};
          authFlags := authFlags - {AccountOk};
          return;
        case LoginOccupied =>
          authFlags := authFlags + {AccountOk};
          authFlags := authFlags + {MultipleLogin};
          return;
        case Valid =>
      }
      authFlags := authFlags + {AccountOk};
      LogIn(cfg, prepaid, row, status);
    }

    /** The end of the connection: an authenticated owner of the login entry leaves its credit in the database, and the
        entry goes unless another login already waits for it. */
    method CleanupTableEntry(cfg: Config, db: C.AccountDatabase, account: nat, login: LoginEntry?, owner: bool,
                             ongoing: bool, works: bool)
      returns (entry: LoginEntry?)
      modifies this, db`prepaid
      ensures var owned := account != 0 && AccountOk in old(authFlags) && login != null && owner;
              && db.prepaid == (if owned && works
                                then old(db.prepaid)[account := StoredCredit(cfg, old(Abs()), login.Abs())]
                                else old(db.prepaid))
              && entry == if owned && !ongoing then null else login
    {
      entry := login;
      if account != 0 {
        if AccountOk in authFlags && login != null && owner {
          if AccountEmpty in login.authFlags {
            confirmedBytes := login.confirmedBytes;
          }
          var prepaid := GetPrepaidBytes();
          if prepaid > 0 {
            if prepaid > Signed32(cfg.prepaidInterval) {
              prepaid := 0;
            }
          }
          if works {
            db.StorePrepaidAmount(account, prepaid);
          }
          if !ongoing {
            entry := null;
          }
        }
      }
    }
  }
}
