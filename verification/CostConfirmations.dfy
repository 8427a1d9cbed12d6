/** The table of cost confirmations of one cascade, and what settling does to it while clients keep storing new
    confirmations. */
module CostConfirmations {
  import opened MachineTypes
  import opened PaymentTypes

  type Rows = map<nat, Row>

  /** Stored credit by account; the source keeps a signed 32-bit number. */
  type Prepaid = map<nat, int>

  /** Accounts without an entry are in order. */
  type Statuses = map<nat, Status>

  const MAX_SETTLED_CCS := 10

  // ---------- the statements ----------

  function Store(rows: Rows, cc: CC): Rows
  {
    rows[cc.account := Row(cc.bytes, false)]
  }

  function Mark(rows: Rows, cc: CC): Rows
  {
    if cc.account in rows && rows[cc.account].bytes == cc.bytes then rows[cc.account := Row(cc.bytes, true)] else rows
  }

  function Amount(prepaid: Prepaid, account: nat): int
  {
    if account in prepaid then prepaid[account] else 0
  }

  function Delete(rows: Rows, account: nat): Rows
  {
    rows - {account}
  }

  predicate Unsettled(rows: Rows, cc: CC)
  {
    cc.account in rows && rows[cc.account] == Row(cc.bytes, false)
  }

  /** A possible result of the SELECT with its LIMIT: unsettled rows, none twice, all of them if they are few. */
  predicate Selected(rows: Rows, ccs: seq<CC>)
  {
    && |ccs| <= MAX_SETTLED_CCS
    && (forall i :: 0 <= i < |ccs| ==> Unsettled(rows, ccs[i]))
    && (forall i, j :: 0 <= i < j < |ccs| ==> ccs[i].account != ccs[j].account)
    && (|ccs| < MAX_SETTLED_CCS ==> forall a :: a in rows && !rows[a].settled ==> CC(a, rows[a].bytes) in ccs)
  }

  // ---------- copying the result of the query ----------

  function ParsedPrefix(tuples: seq<Option<CC>>): seq<CC>
  {
    if tuples == [] || tuples[0].None? then [] else [tuples[0].value] + ParsedPrefix(tuples[1..])
  }

  function Parsed(tuples: seq<Option<CC>>): seq<CC>
  {
    if tuples == [] then []
    else if tuples[0].None? then Parsed(tuples[1..])
    else [tuples[0].value] + Parsed(tuples[1..])
  }

  /** The copying loop of the query: a tuple that cannot be parsed lowers the count but is not skipped. */
  method CopyTuples(tuples: seq<Option<CC>>) returns (ccs: seq<CC>)
    ensures ccs == ParsedPrefix(tuples)
  {
    ccs := [];
    var n, i := |tuples|, 0;
    while i < n
      invariant 0 <= i <= n <= |tuples|
      invariant ccs + ParsedPrefix(tuples[i..]) == ParsedPrefix(tuples)
      invariant n < |tuples| ==> i < |tuples| && tuples[i].None?
      decreases n - i
    {
      if tuples[i].Some? {
        assert tuples[i..][1..] == tuples[i + 1..];
        ccs := ccs + [tuples[i].value];
        i := i + 1;
      } else {
        n := n - 1;
      }
    }
  }

  lemma {:induction false} ParsedEmptyIff(tuples: seq<Option<CC>>)
    ensures Parsed(tuples) == [] <==> forall i :: 0 <= i < |tuples| ==> tuples[i].None?
  {
    if tuples != [] {
      ParsedEmptyIff(tuples[1..]);
      assert forall i :: 0 <= i < |tuples| - 1 ==> tuples[1..][i] == tuples[i + 1];
      if forall i :: 0 <= i < |tuples[1..]| ==> tuples[1..][i].None? {
        assert forall i :: 0 < i < |tuples| ==> tuples[i] == tuples[1..][i - 1];
      }
    }
  }

  /** One unreadable row hides every row after it: the loop delivers all readable rows only if no readable row
      follows an unreadable one. */
  lemma {:induction false} CopyIsCompleteIff(tuples: seq<Option<CC>>)
    ensures ParsedPrefix(tuples) == Parsed(tuples)
            <==> forall i, j :: 0 <= i < j < |tuples| && tuples[i].None? ==> tuples[j].None?
  {
    if tuples != [] {
      var rest := tuples[1..];
      CopyIsCompleteIff(rest);
      if tuples[0].None? {
        ParsedEmptyIff(rest);
        assert forall j :: 0 < j < |tuples| ==> tuples[j] == rest[j - 1];
        assert forall j :: 0 <= j < |rest| ==> rest[j] == tuples[j + 1];
      } else {
        assert forall i :: 0 <= i < |rest| ==> rest[i] == tuples[i + 1];
        assert ParsedPrefix(tuples)[1..] == ParsedPrefix(rest) && Parsed(tuples)[1..] == Parsed(rest);
        if forall i, j :: 0 <= i < j < |rest| && rest[i].None? ==> rest[j].None? {
          forall i, j | 0 <= i < j < |tuples| && tuples[i].None? ensures tuples[j].None? {
            assert rest[i - 1].None? && rest[j - 1] == tuples[j];
          }
        }
      }
    }
  }

  // ---------- the answers of the payment instance ----------

  datatype Answer =
    | NoAnswer
    | Accepted
    | KeyNotFound
    | AccountEmpty(confirmed: Option<UInt64>)
    | Outdated(attached: Option<CC>)
    | Blocked
    | DatabaseError
    | InternalError
    | OtherError

  /** What a settlement result says about one account; `storedStatus` is the status before the answer. */
  datatype Entry = Entry(account: nat, authFlags: set<Flag>, authRemoveFlags: set<Flag>, confirmedBytes: UInt64,
                         diffBytes: UInt64, storedStatus: Status)

  predicate Deletes(answer: Answer)
  {
    answer.KeyNotFound? || answer.Blocked? || answer.OtherError?
  }

  /** The rows after an answer to `cc`; `first` and `second` tell whether the database carries out the first and
      the second statement. */
  function Handled(rows: Rows, cc: CC, answer: Answer, first: bool, second: bool): Rows
  {
    match answer
    case Accepted => if first then Mark(rows, cc) else rows
    case AccountEmpty(_) => if first then Mark(rows, cc) else rows
    case Outdated(Some(attached)) =>
      if !first then rows
      else if !second then Store(rows, attached)
      else Mark(Store(rows, attached), attached)
    case _ => if Deletes(answer) && first then Delete(rows, cc.account) else rows
  }

  function StatusOf(statuses: Statuses, account: nat): Status
  {
    if account in statuses then statuses[account] else StatusOk
  }

  /** Only an empty or a blocked account gets a status. */
  function HandledStatuses(statuses: Statuses, cc: CC, answer: Answer, works: bool): Statuses
  {
    if !works then statuses
    else if answer.AccountEmpty? then statuses[cc.account := StatusAccountEmpty]
    else if answer.Blocked? then statuses[cc.account := StatusBlocked]
    else statuses
  }

  function EntryFor(cc: CC, answer: Answer, first: bool, status: Status): Entry
  {
    match answer
    case NoAnswer => Entry(cc.account, {}, {WaitingForFirstSettledCC}, 0, 0, status)
    case Accepted => Entry(cc.account, {SETTLED_ONCE}, {WaitingForFirstSettledCC}, 0, 0, status)
    case KeyNotFound => Entry(cc.account, {InvalidAccount}, {}, 0, 0, status)
    case AccountEmpty(None) =>
      Entry(cc.account, {Flag.AccountEmpty, SETTLED_ONCE}, {WaitingForFirstSettledCC}, 0, 0, status)
    case AccountEmpty(Some(b)) =>
      Entry(cc.account, {Flag.AccountEmpty, SETTLED_ONCE}, {WaitingForFirstSettledCC}, b,
            if b < cc.bytes then cc.bytes - b else 0, status)
    case Outdated(None) => Entry(cc.account, {}, {WaitingForFirstSettledCC}, 0, 0, status)
    case Outdated(Some(attached)) =>
      Entry(cc.account, if first then {OutdatedCC, SETTLED_ONCE} else {OutdatedCC}, {WaitingForFirstSettledCC},
            attached.bytes, 0, status)
    case Blocked => Entry(cc.account, {Flag.Blocked}, {}, 0, 0, status)
    case DatabaseError => Entry(cc.account, {}, {WaitingForFirstSettledCC}, 0, 0, status)
    case InternalError => Entry(cc.account, {Flag.Unknown}, {}, 0, 0, status)
    case OtherError => Entry(cc.account, {Flag.Unknown}, {}, 0, 0, status)
  }

  /** The tables of one cascade. The boolean parameters tell which statements the database carries out. */
  class AccountDatabase {
    var rows: Rows
    var prepaid: Prepaid
    var statuses: Statuses

    constructor ()
      ensures rows == map[] && prepaid == map[] && statuses == map[]
    {
      rows, prepaid, statuses := map[], map[], map[];
    }

    /** Counts the rows of the account, then updates or inserts. */
    method StoreCostConfirmation(cc: CC, works: bool) returns (ok: bool)
      modifies this`rows
      ensures ok == works
      ensures rows == if works then Store(old(rows), cc) else old(rows)
    {
      if !works {
        return false;
      }
      var count := if cc.account in rows then 1 else 0;
      if count == 0 {
        rows := rows + map[cc.account := Row(cc.bytes, false)];
      } else {
        rows := rows[cc.account := rows[cc.account].(bytes := cc.bytes, settled := false)];
      }
      return true;
    }

    method MarkAsSettled(cc: CC, works: bool) returns (ok: bool)
      modifies this`rows
      ensures ok == works
      ensures rows == if works then Mark(old(rows), cc) else old(rows)
    {
      if works {
        var was := rows;
        rows := map a | a in was :: if a == cc.account && was[a].bytes == cc.bytes then was[a].(settled := true)
                                    else was[a];
      }
      return works;
    }

    method DeleteCC(account: nat, works: bool) returns (ok: bool)
      modifies this`rows
      ensures ok == works
      ensures rows == if works then Delete(old(rows), account) else old(rows)
    {
      if works {
        var was := rows;
        rows := map a | a in was && a != account :: was[a];
      }
      return works;
    }

    method GetAccountStatus(account: nat) returns (status: Status)
      ensures status == StatusOf(statuses, account)
    {
      status := StatusOk;
      if account in statuses {
        status := statuses[account];
      }
    }

    method StoreAccountStatus(account: nat, status: Status, works: bool)
      modifies this`statuses
      ensures statuses == if works then old(statuses)[account := status] else old(statuses)
    {
      if works {
        var count := if account in statuses then 1 else 0;
        statuses := if count == 0 then statuses + map[account := status] else statuses[account := status];
      }
    }

    method ClearAccountStatus(account: nat)
      modifies this`statuses
      ensures statuses == old(statuses) - {account}
    {
      var was := statuses;
      statuses := map a | a in was && a != account :: was[a];
    }

    method StorePrepaidAmount(account: nat, bytes: int)
      modifies this`prepaid
      ensures prepaid == old(prepaid)[account := bytes]
    {
      var count := if account in prepaid then 1 else 0;
      prepaid := if count == 0 then prepaid + map[account := bytes] else prepaid[account := bytes];
    }

    method GetPrepaidAmount(account: nat, delete: bool) returns (bytes: int)
      modifies this`prepaid
      ensures bytes == Amount(old(prepaid), account)
      ensures prepaid == if delete then old(prepaid) - {account} else old(prepaid)
    {
      if account !in prepaid {
        assert prepaid - {account} == prepaid;
        return 0;
      }
      bytes := prepaid[account];
      if delete {
        prepaid := prepaid - {account};
      }
    }

    /** Apply one answer to the tables and make the list entry for the commit. */
    method HandleSettleResult(cc: CC, answer: Answer, first: bool, second: bool, third: bool)
      returns (entry: Option<Entry>)
      modifies this`rows, this`statuses
      ensures rows == Handled(old(rows), cc, answer, first, second)
      ensures statuses == HandledStatuses(old(statuses), cc, answer, third)
      ensures entry == Some(EntryFor(cc, answer, first, StatusOf(old(statuses), cc.account)))
    {
      var storedStatus := GetAccountStatus(cc.account);
      var deleteCC := false;
      var authFlags: set<Flag>, authRemoveFlags: set<Flag> := {}, {};
      var confirmedBytes: UInt64, diffBytes: UInt64 := 0, 0;
      var ok;
      match answer {
        case NoAnswer =>
          authRemoveFlags := {WaitingForFirstSettledCC};
        case KeyNotFound =>
          authFlags := authFlags + {InvalidAccount};
          deleteCC := true;
        case AccountEmpty(confirmed) =>
          authRemoveFlags := authRemoveFlags + {WaitingForFirstSettledCC};
          authFlags := authFlags + {Flag.AccountEmpty};
          if confirmed.Some? {
            confirmedBytes := confirmed.value;
            if confirmedBytes < cc.bytes {
              diffBytes := cc.bytes - confirmedBytes;
            }
          }
          StoreAccountStatus(cc.account, StatusAccountEmpty, third);
          authFlags := authFlags + {SETTLED_ONCE};
          ok := MarkAsSettled(cc, first);
        case Outdated(attached) =>
          authRemoveFlags := authRemoveFlags + {WaitingForFirstSettledCC};
          if attached.Some? {
            authFlags := authFlags + {OutdatedCC};
            ok := StoreCostConfirmation(attached.value, first);
            if ok {
              authFlags := authFlags + {SETTLED_ONCE};
              ok := MarkAsSettled(attached.value, second);
            }
            confirmedBytes := attached.value.bytes;
          }
        case Blocked =>
          authFlags := authFlags + {Flag.Blocked};
          deleteCC := true;
          StoreAccountStatus(cc.account, StatusBlocked, third);
        case DatabaseError =>
          authRemoveFlags := authRemoveFlags + {WaitingForFirstSettledCC};
        case InternalError =>
          authFlags := authFlags + {Flag.Unknown};
        case OtherError =>
          authFlags := authFlags + {Flag.Unknown};
          deleteCC := true;
        case Accepted =>
          authRemoveFlags := authRemoveFlags + {WaitingForFirstSettledCC};
          authFlags := authFlags + {SETTLED_ONCE};
          ok := MarkAsSettled(cc, first);
      }
      if deleteCC {
        ok := DeleteCC(cc.account, first);
      }
      assert authFlags == EntryFor(cc, answer, first, storedStatus).authFlags;
      assert authRemoveFlags == EntryFor(cc, answer, first, storedStatus).authRemoveFlags;
      entry := None;
      if authFlags != {} || authRemoveFlags != {} {
        entry := Some(Entry(cc.account, authFlags, authRemoveFlags, confirmedBytes, diffBytes, storedStatus));
      }
    }
  }

  /** The answer acknowledges exactly the bytes that the row of the account holds, and the database marks it. */
  predicate SettlesRow(row: CC, cc: CC, answer: Answer, first: bool)
  {
    (answer.Accepted? || answer.AccountEmpty?) && cc == row && first
  }

  /** The answer replaces or removes the row of the account. */
  predicate Destroys(row: CC, cc: CC, answer: Answer, first: bool, second: bool)
  {
    || (Deletes(answer) && cc.account == row.account && first)
    || (&& answer.Outdated? && answer.attached.Some? && answer.attached.value.account == row.account && first
        && (second || answer.attached.value != row))
  }

  /** Exactly when a confirmation that is waiting to be settled is still waiting after an answer. */
  lemma StillWaitingIff(rows: Rows, row: CC, cc: CC, answer: Answer, first: bool, second: bool)
    requires Unsettled(rows, row)
    ensures Unsettled(Handled(rows, cc, answer, first, second), row)
            <==> !SettlesRow(row, cc, answer, first) && !Destroys(row, cc, answer, first, second)
  {
    if answer.Outdated? && answer.attached.Some? {
      var attached := answer.attached.value;
      assert Unsettled(Store(rows, attached), row) <==> attached.account != row.account || attached == row;
    }
  }

  // ---------- settling while confirmations arrive ----------

  /** A confirmation on its way into the table: no lock joins counting the account's rows and writing. */
  datatype Pending = Pending(cc: CC, found: bool)

  /** The confirmation that the payment instance sent back: being stored, then being marked. */
  datatype Returned = Nothing | Storing(pending: Pending) | Marking(cc: CC)

  /** `writing` holds what the clients' threads are about to write, `acked` is history: what the payment instance
      accepted, paid as far as it could, or sent back. */
  datatype State = State(rows: Rows, inFlight: seq<CC>, returned: Returned, writing: map<nat, Pending>, acked: set<CC>)

  datatype Event =
    | Count(cc: CC)
    | Write(account: nat, works: bool)
    | Fetch(ccs: seq<CC>)
    | Reply(answer: Answer, works: bool)
    | StoreReturned(works: bool)
    | MarkReturned(works: bool)
    | GiveUp

  function Counted(rows: Rows, cc: CC): Pending
  {
    Pending(cc, cc.account in rows)
  }

  /** An insertion fails if the account has a row by now, an update without a row does nothing. */
  function Written(rows: Rows, p: Pending): Rows
  {
    if p.found <==> p.cc.account in rows then Store(rows, p.cc) else rows
  }

  predicate WriteSucceeds(rows: Rows, p: Pending)
  {
    p.found || p.cc.account !in rows
  }

  /** Counting and writing without interruption stores the confirmation. */
  lemma WrittenAtOnce(rows: Rows, cc: CC)
    ensures Written(rows, Counted(rows, cc)) == Store(rows, cc) && WriteSucceeds(rows, Counted(rows, cc))
  {
  }

  function Acks(cc: CC, answer: Answer): set<CC>
  {
    match answer
    case Accepted => {cc}
    case AccountEmpty(_) => {cc}
    case Outdated(Some(attached)) => {attached}
    case _ => {}
  }

  predicate Enabled(s: State, e: Event)
  {
    match e
    case Count(cc) => cc.account !in s.writing
    case Write(account, _) => account in s.writing && s.writing[account].cc.account == account
    case Fetch(ccs) => s.inFlight == [] && s.returned.Nothing? && Selected(s.rows, ccs)
    case Reply(_, _) => s.inFlight != [] && s.returned.Nothing?
    case StoreReturned(_) => s.returned.Storing?
    case MarkReturned(_) => s.returned.Marking?
    case GiveUp => s.returned.Nothing?
  }

  /** The rows right after an answer, before a returned confirmation is stored. */
  function Answered(rows: Rows, cc: CC, answer: Answer, works: bool): Rows
  {
    if !works then rows
    else if answer.Accepted? || answer.AccountEmpty? then Mark(rows, cc)
    else if Deletes(answer) then Delete(rows, cc.account)
    else rows
  }

  function ReturnedBy(rows: Rows, answer: Answer): Returned
  {
    if answer.Outdated? && answer.attached.Some? then Storing(Counted(rows, answer.attached.value)) else Nothing
  }

  function Step(s: State, e: Event): State
    requires Enabled(s, e)
  {
    match e
    case Count(cc) => s.(writing := s.writing[cc.account := Counted(s.rows, cc)])
    case Write(account, works) =>
      s.(rows := if works then Written(s.rows, s.writing[account]) else s.rows, writing := s.writing - {account})
    case Fetch(ccs) => s.(inFlight := ccs)
    case Reply(answer, works) =>
      var cc := s.inFlight[0];
      s.(rows := Answered(s.rows, cc, answer, works), inFlight := s.inFlight[1..],
         returned := ReturnedBy(s.rows, answer), acked := s.acked + Acks(cc, answer))
    case StoreReturned(works) =>
      var p := s.returned.pending;
      if works && WriteSucceeds(s.rows, p) then s.(rows := Written(s.rows, p), returned := Marking(p.cc))
      else s.(returned := Nothing)
    case MarkReturned(works) =>
      s.(rows := if works then Mark(s.rows, s.returned.cc) else s.rows, returned := Nothing)
    case GiveUp => s.(inFlight := [])
  }

  /** Without anything in between, the steps of an answer do what `HandleSettleResult` does. */
  lemma StepsRefineHandled(s: State, answer: Answer, first: bool, second: bool)
    requires Enabled(s, Reply(answer, first))
    ensures var s1 := Step(s, Reply(answer, first));
            var s2 := if s1.returned.Storing? then Step(s1, StoreReturned(first)) else s1;
            var s3 := if s2.returned.Marking? then Step(s2, MarkReturned(second)) else s2;
            s3.rows == Handled(s.rows, s.inFlight[0], answer, first, second) && s3.returned == Nothing
  {
  }

  predicate Possible(s: State, events: seq<Event>)
    decreases |events|
  {
    events == [] || (Enabled(s, events[0]) && Possible(Step(s, events[0]), events[1..]))
  }

  function Run(s: State, events: seq<Event>): State
    requires Possible(s, events)
    decreases |events|
  {
    if events == [] then s else Run(Step(s, events[0]), events[1..])
  }

  const START := State(map[], [], Nothing, map[], {})

  predicate SettledIsAcked(s: State, account: nat)
  {
    && (account in s.rows && s.rows[account].settled ==> CC(account, s.rows[account].bytes) in s.acked)
    && (s.returned.Storing? ==> s.returned.pending.cc in s.acked)
    && (s.returned.Marking? ==> s.returned.cc in s.acked)
  }

  /** Settled means acknowledged, for every row and over every interleaving. */
  lemma {:induction false} SettledMeansAcknowledged(s: State, events: seq<Event>, account: nat)
    requires Possible(s, events) && SettledIsAcked(s, account)
    ensures SettledIsAcked(Run(s, events), account)
    decreases |events|
  {
    if events != [] {
      SettledMeansAcknowledged(Step(s, events[0]), events[1..], account);
    }
  }

  /** From an empty table. */
  lemma SettledMeansAcknowledgedFromStart(events: seq<Event>, account: nat)
    requires Possible(START, events)
    ensures var s := Run(START, events);
            account in s.rows && s.rows[account].settled ==> CC(account, s.rows[account].bytes) in s.acked
  {
    SettledMeansAcknowledged(START, events, account);
  }

  /** The step neither replaces nor removes the row of the account; writing the same confirmation again does no
      harm. */
  predicate Harmless(s: State, row: CC, e: Event)
    requires Enabled(s, e)
  {
    match e
    case Write(account, works) => account != row.account || !works || s.writing[account].cc == row
    case Reply(answer, works) => !(Deletes(answer) && s.inFlight[0].account == row.account && works)
    case StoreReturned(works) =>
      s.returned.pending.cc.account != row.account || !works || s.returned.pending.cc == row
    case _ => true
  }

  predicate HarmlessRun(s: State, row: CC, events: seq<Event>)
    requires Possible(s, events)
    decreases |events|
  {
    events == [] || (Harmless(s, row, events[0]) && HarmlessRun(Step(s, events[0]), row, events[1..]))
  }

  /** `row` itself was sent back and is about to be stored or marked. */
  predicate ComesBack(s: State, row: CC)
  {
    (s.returned.Storing? && s.returned.pending.cc == row) || (s.returned.Marking? && s.returned.cc == row)
  }

  /** Some answer of the run acknowledges `row`. */
  predicate AckedIn(s: State, row: CC, events: seq<Event>)
    requires Possible(s, events)
    decreases |events|
  {
    && events != []
    && ((events[0].Reply? && row in Acks(s.inFlight[0], events[0].answer))
        || AckedIn(Step(s, events[0]), row, events[1..]))
  }

  lemma HarmlessStep(s: State, row: CC, e: Event)
    requires Enabled(s, e) && Harmless(s, row, e)
    requires row.account in s.rows && s.rows[row.account].bytes == row.bytes
    ensures var t := Step(s, e);
            && row.account in t.rows && t.rows[row.account].bytes == row.bytes
            && (Unsettled(s.rows, row) && !ComesBack(s, row) && !(e.Reply? && row in Acks(s.inFlight[0], e.answer))
                ==> Unsettled(t.rows, row) && !ComesBack(t, row))
  {
  }

  lemma {:induction false} BytesStay(s: State, row: CC, events: seq<Event>)
    requires row.account in s.rows && s.rows[row.account].bytes == row.bytes
    requires Possible(s, events) && HarmlessRun(s, row, events)
    ensures var t := Run(s, events);
            row.account in t.rows && t.rows[row.account].bytes == row.bytes
    decreases |events|
  {
    if events != [] {
      HarmlessStep(s, row, events[0]);
      BytesStay(Step(s, events[0]), row, events[1..]);
    }
  }

  /** A confirmation stored while an older one is being settled is not lost: unless a later confirmation replaces
      it, or an answer returns another confirmation for its account or makes the mix delete the account's row, it
      keeps its bytes, and it stays selectable until its own bytes are acknowledged. */
  lemma {:induction false} NewestStaysSelectable(s: State, row: CC, events: seq<Event>)
    requires Unsettled(s.rows, row) && !ComesBack(s, row) && Possible(s, events) && HarmlessRun(s, row, events)
    ensures var t := Run(s, events);
            row.account in t.rows && t.rows[row.account].bytes == row.bytes
            && (!AckedIn(s, row, events) ==> Unsettled(t.rows, row))
    decreases |events|
  {
    if events != [] {
      var t, e := Step(s, events[0]), events[0];
      HarmlessStep(s, row, e);
      if e.Reply? && row in Acks(s.inFlight[0], e.answer) {
        BytesStay(t, row, events[1..]);
      } else {
        NewestStaysSelectable(t, row, events[1..]);
      }
    }
  }

  /** A waiting row is in the next batch unless the batch is full of others. */
  lemma SelectedUnlessFull(rows: Rows, ccs: seq<CC>, row: CC)
    requires Unsettled(rows, row) && Selected(rows, ccs) && row !in ccs
    ensures |ccs| == MAX_SETTLED_CCS
  {
    assert row == CC(row.account, rows[row.account].bytes);
  }

  /** Whatever is in flight, a row that waits can be settled next: the transaction is given up, the row is fetched, and
      an answer that accepts it settles exactly this row. */
  lemma WaitingRowCanBeSettled(s: State, row: CC, others: seq<CC>)
    requires s.returned.Nothing? && Unsettled(s.rows, row) && Selected(s.rows, [row] + others)
    ensures var events := [GiveUp] + ([Fetch([row] + others)] + ([Reply(Accepted, true)] + []));
            && Possible(s, events)
            && Run(s, events) == s.(rows := s.rows[row.account := Row(row.bytes, true)], inFlight := others,
                                    acked := s.acked + {row})
  {
    var e1, e2, e3: Event := GiveUp, Fetch([row] + others), Reply(Accepted, true);
    var s1 := Step(s, e1);
    var s2 := Step(s1, e2);
    assert ([row] + others)[1..] == others;
    var s3 := Step(s2, e3);
    var last := [e3] + [];
    assert last == [e3] && last[1..] == [] && Possible(s3, []) && Run(s3, []) == s3;
    assert ([e2] + ([e3] + []))[1..] == [e3] + [];
    assert ([e1] + ([e2] + ([e3] + [])))[1..] == [e2] + ([e3] + []);
    assert Possible(s2, last) && Run(s2, last) == Run(s3, last[1..]);
    assert Possible(s1, [e2] + ([e3] + [])) && Run(s1, [e2] + ([e3] + [])) == s3;
  }

  // ---------- a confirmation that is reported stored and is not ----------

  /** A returned confirmation that was counted as present still is: nothing is deleted before it is stored. */
  predicate ReturnedIsPresent(s: State)
  {
    s.returned.Storing? && s.returned.pending.found ==> s.returned.pending.cc.account in s.rows
  }

  lemma {:induction false} RunKeepsReturned(s: State, events: seq<Event>)
    requires Possible(s, events) && ReturnedIsPresent(s)
    ensures ReturnedIsPresent(Run(s, events))
    decreases |events|
  {
    if events != [] {
      RunKeepsReturned(Step(s, events[0]), events[1..]);
    }
  }

  predicate WritesFor(account: nat, events: seq<Event>)
  {
    events != [] && ((events[0].Write? && events[0].account == account) || WritesFor(account, events[1..]))
  }

  /** Whether the account's row is gone after the next event, given whether it is gone before: a deleting answer takes
      it away, and storing a returned confirmation puts it back. */
  predicate GoneAfter(s: State, e: Event, account: nat, gone: bool)
    requires Enabled(s, e)
  {
    match e
    case Reply(answer, works) => gone || (Deletes(answer) && works && s.inFlight[0].account == account)
    case StoreReturned(works) => gone && !(works && s.returned.pending.cc.account == account)
    case _ => gone
  }

  predicate LeftDeleted(s: State, events: seq<Event>, account: nat, gone: bool)
    requires Possible(s, events)
    decreases |events|
  {
    if events == [] then gone
    else LeftDeleted(Step(s, events[0]), events[1..], account, GoneAfter(s, events[0], account, gone))
  }

  lemma {:induction false} RowIsGoneIff(s: State, events: seq<Event>, account: nat)
    requires Possible(s, events) && ReturnedIsPresent(s) && !WritesFor(account, events) && account in s.writing
    ensures var t := Run(s, events);
            && (account !in t.rows <==> LeftDeleted(s, events, account, account !in s.rows))
            && account in t.writing && t.writing[account] == s.writing[account]
    decreases |events|
  {
    if events != [] {
      RowIsGoneIff(Step(s, events[0]), events[1..], account);
    }
  }

  /** A client's write that works reports success and leaves no row exactly if the row was there when it was counted,
      and since then a deleting answer took it away and no returned confirmation put it back. */
  lemma SuccessWithoutRowIff(before: seq<Event>, cc: CC, since: seq<Event>)
    requires Possible(START, before) && Enabled(Run(START, before), Count(cc))
    requires Possible(Step(Run(START, before), Count(cc)), since) && !WritesFor(cc.account, since)
    ensures var s := Step(Run(START, before), Count(cc));
            var t := Run(s, since);
            var write := Write(cc.account, true);
            && Enabled(t, write)
            && (WriteSucceeds(t.rows, t.writing[cc.account]) && cc.account !in Step(t, write).rows
                <==> cc.account in s.rows && LeftDeleted(s, since, cc.account, false))
  {
    RunKeepsReturned(START, before);
    RowIsGoneIff(Step(Run(START, before), Count(cc)), since, cc.account);
  }

  lemma RunOne(s: State, e: Event, rest: seq<Event>)
    requires Enabled(s, e) && Possible(Step(s, e), rest)
    ensures Possible(s, [e] + rest) && Run(s, [e] + rest) == Run(Step(s, e), rest)
  {
    assert ([e] + rest)[1..] == rest;
  }

  /** From the start: a confirmation is stored and fetched, the next one is counted, the answer deletes the row, and the
      write of the next one, an update, reports success and stores nothing. */
  lemma NextConfirmationIsLost(account: nat, a: UInt64, b: UInt64)
    ensures var before := [Count(CC(account, a)), Write(account, true), Fetch([CC(account, a)])];
            var since := [Reply(KeyNotFound, true)];
            && Possible(START, before) && Enabled(Run(START, before), Count(CC(account, b)))
            && var s := Step(Run(START, before), Count(CC(account, b)));
               && Possible(s, since) && !WritesFor(account, since)
               && var t := Run(s, since);
                  && Enabled(t, Write(account, true))
                  && WriteSucceeds(t.rows, t.writing[account]) && Step(t, Write(account, true)).rows == map[]
  {
    var older, newer := CC(account, a), CC(account, b);
    var e1, e2, e3, reply := Count(older), Write(account, true), Fetch([older]), Reply(KeyNotFound, true);
    var s1 := Step(START, e1);
    var s2 := Step(s1, e2);
    assert s2.rows == map[account := Row(a, false)];
    assert Selected(s2.rows, [older]);
    var s3 := Step(s2, e3);
    var s4 := Step(s3, Count(newer));
    var s5 := Step(s4, reply);
    assert s5.rows == map[] && s5.writing[account] == Pending(newer, true);
    assert !WritesFor(account, [reply]) by {
      assert [reply][1..] == [];
    }
    assert Possible(s3, []) && Run(s3, []) == s3 && Possible(s5, []) && Run(s5, []) == s5;
    hide Run, Possible, Step, WritesFor;
    RunOne(s4, reply, []);
    RunOne(s2, e3, []);
    RunOne(s1, e2, [e3] + []);
    RunOne(START, e1, [e2] + ([e3] + []));
    assert [reply] + [] == [reply] && [e1] + ([e2] + ([e3] + [])) == [e1, e2, e3];
  }

  /** While `older` is being settled the client confirms `newer`; the instance returns its own record. */
  function LosingRun(older: CC, newer: CC, record: CC): seq<Event>
  {
    [Count(older)] + ([Write(older.account, true)] + ([Fetch([older])] + ([Count(newer)] + ([Write(newer.account, true)]
    + ([Reply(Outdated(Some(record)), true)] + ([StoreReturned(true)] + ([MarkReturned(true)] + [])))))))
  }

  /** From the start, for any three different numbers of bytes: an outdated answer destroys a newer confirmation. The
      returned record overwrites it and is marked settled, and the newer one is never acknowledged. */
  lemma OutdatedAnswerLosesNewer(account: nat, a: UInt64, b: UInt64, c: UInt64)
    requires a != b && b != c
    ensures var events := LosingRun(CC(account, a), CC(account, b), CC(account, c));
            && Possible(START, events)
            && Run(START, events).rows == map[account := Row(c, true)]
            && CC(account, b) !in Run(START, events).acked
  {
    var older, newer, record := CC(account, a), CC(account, b), CC(account, c);
    var e1, e2, e3, e4 := Count(older), Write(account, true), Fetch([older]), Count(newer);
    var e5, e6, e7, e8 := Write(account, true), Reply(Outdated(Some(record)), true), StoreReturned(true),
                          MarkReturned(true);
    var s1 := Step(START, e1);
    var s2 := Step(s1, e2);
    assert s2.rows == map[account := Row(a, false)];
    assert Selected(s2.rows, [older]);
    var s3 := Step(s2, e3);
    var s4 := Step(s3, e4);
    var s5 := Step(s4, e5);
    var s6 := Step(s5, e6);
    var s7 := Step(s6, e7);
    var s8 := Step(s7, e8);
    assert s8.rows == map[account := Row(c, true)] && s8.acked == {record};
    assert Possible(s8, []) && Run(s8, []) == s8;
    hide Run, Possible, Step;
    var r7 := [e8] + [];
    var r6 := [e7] + r7;
    var r5 := [e6] + r6;
    var r4 := [e5] + r5;
    var r3 := [e4] + r4;
    var r2 := [e3] + r3;
    RunOne(s7, e8, []);
    RunOne(s6, e7, r7);
    RunOne(s5, e6, r6);
    RunOne(s4, e5, r5);
    RunOne(s3, e4, r4);
    RunOne(s2, e3, r3);
    RunOne(s1, e2, r2);
    RunOne(START, e1, [e2] + r2);
  }
}
