/** What the parts of the accounting share: flags, login entries and cost confirmations. */
module PaymentTypes {
  import opened MachineTypes

  datatype Flag =
    | GotAccountCert | AccountOk | WaitingForFirstSettledCC | SentCCRequest | Database | Blocked | HardLimitReached
    | Fake | ChallengeSent | AccountEmpty | FatalError | OutdatedCC | InvalidAccount | TimeoutStarted | MultipleLogin
    | Unknown | LoginNotFinished | LoginFailed | LoginSkipSettlement | DeleteEntry

  /** The source gives both names to one bit. */
  const SETTLED_ONCE: Flag := DeleteEntry

  /** An account's entry in the table of logged-in users. */
  datatype Login = Login(confirmed: UInt64, authFlags: set<Flag>, authRemoveFlags: set<Flag>)

  /** A confirmation: the account and the number of bytes its owner signed for. */
  datatype CC = CC(account: nat, bytes: UInt64)

  /** What the table of cost confirmations keeps for an account. */
  datatype Row = Row(bytes: UInt64, settled: bool)

  /** What the table of account statuses says; the source keeps the payment instance's error code. */
  datatype Status = StatusOk | StatusBlocked | StatusKeyNotFound | StatusAccountEmpty | StatusOther(other: UInt32)

  function CodeOf(status: Status): UInt32
  {
    match status
    case StatusOk => 0
    case StatusKeyNotFound => 4
    case StatusAccountEmpty => 10
    case StatusBlocked => 21
    case StatusOther(code) => code
  }

  /** The bit of a flag in the session's word of flags. */
  function BitOf(f: Flag): UInt32
  {
    match f
    case GotAccountCert => 0x1
    case AccountOk => 0x2
    case WaitingForFirstSettledCC => 0x4
    case SentCCRequest => 0x20
    case Database => 0x40
    case Blocked => 0x80
    case HardLimitReached => 0x200
    case Fake => 0x400
    case ChallengeSent => 0x800
    case AccountEmpty => 0x1000
    case FatalError => 0x2000
    case OutdatedCC => 0x4000
    case InvalidAccount => 0x8000
    case TimeoutStarted => 0x1_0000
    case MultipleLogin => 0x2_0000
    case Unknown => 0x4_0000
    case DeleteEntry => 0x8_0000
    case LoginNotFinished => 0x10_0000
    case LoginFailed => 0x20_0000
    case LoginSkipSettlement => 0x40_0000
  }

  /** The flags that a word sets when it is added to the flags as it is. */
  function FlagsOf(word: UInt32): set<Flag>
  {
    set f: Flag | word / BitOf(f) % 2 == 1
  }

  lemma SmallWords(word: UInt32)
    requires word < 0x20
    ensures forall f: Flag :: f in FlagsOf(word) ==> f in {GotAccountCert, AccountOk, WaitingForFirstSettledCC}
  {
  }

  /** A status code read as flags never sets the flag that it stands for: an empty account's code sets the flag of an
      authenticated account, a blocked account's code those of a received certificate and of a missing settlement. */
  lemma StatusCodesAreNoFlags()
    ensures FlagsOf(CodeOf(StatusOk)) == {}
    ensures FlagsOf(CodeOf(StatusAccountEmpty)) == {AccountOk}
    ensures FlagsOf(CodeOf(StatusBlocked)) == {GotAccountCert, WaitingForFirstSettledCC}
    ensures FlagsOf(CodeOf(StatusKeyNotFound)) == {WaitingForFirstSettledCC}
  {
    SmallWords(0);
    SmallWords(4);
    SmallWords(10);
    SmallWords(21);
  }
}
