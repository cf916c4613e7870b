/** What the closed forms of the sender's run imply: how `--start` and `--limit` bound it,
    which messages go out and in what order, and how the counters relate to them. */
module RunProperties {
  import opened PyText
  import opened MessageMutator
  import opened OutcomeClassifier
  import opened Dispatch
  import opened MixedIds

  // ---------------------------------------------------------------- the limit

  /** The send count only grows along the rows. */
  lemma {:induction false} SendsBeforeMonotone(job: Job, j: nat, k: nat)
    requires j <= k <= |job.rows|
    ensures SendsBefore(job, j) <= SendsBefore(job, k)
    decreases k - j
  {
    if j < k {
      SendsBeforeMonotone(job, j, k - 1);
    }
  }

  /** From a row where the limit has not been passed, the run stops without passing it. */
  lemma {:induction false} StopFromWithin(job: Job, k: nat)
    requires job.limit > 0 && Lo(job) <= k <= |job.rows| && SendsBefore(job, k) <= job.limit
    ensures SendsBefore(job, StopFrom(job, k)) <= job.limit
    decreases |job.rows| - k
  {
    if k < |job.rows| && !LimitReached(job, SendsBefore(job, k)) {
      StopFromWithin(job, k + 1);
    }
  }

  /** The run stops at the last row or where the limit is reached, never elsewhere. */
  lemma {:induction false} StopFromReason(job: Job, k: nat)
    requires Lo(job) <= k <= |job.rows|
    ensures StopFrom(job, k) == |job.rows| || LimitReached(job, SendsBefore(job, StopFrom(job, k)))
    decreases |job.rows| - k
  {
    if k < |job.rows| && !LimitReached(job, SendsBefore(job, k)) {
      StopFromReason(job, k + 1);
    }
  }

  /** Every row the run looks at is looked at with the limit not yet reached. */
  lemma {:induction false} StopFromVisited(job: Job, m: nat, k: nat)
    requires Lo(job) <= m <= k <= |job.rows| && k < StopFrom(job, m)
    ensures !LimitReached(job, SendsBefore(job, k))
    decreases k - m
  {
    if m < k {
      StopFromVisited(job, m + 1, k);
    }
  }

  /** With a positive limit the run sends at most `limit` messages, stops before the last
      row only once it has sent exactly `limit`, and looks at every row before the stop
      with fewer than `limit` sent. */
  lemma LimitBoundsRun(job: Job)
    requires job.limit > 0
    ensures SendsBefore(job, Stop(job)) <= job.limit
    ensures Stop(job) < |job.rows| ==> SendsBefore(job, Stop(job)) == job.limit
    ensures forall k :: Lo(job) <= k < Stop(job) ==> SendsBefore(job, k) < job.limit
  {
    StopFromWithin(job, Lo(job));
    StopFromReason(job, Lo(job));
    forall k | Lo(job) <= k < Stop(job)
      ensures SendsBefore(job, k) < job.limit
    {
      StopFromVisited(job, Lo(job), k);
    }
  }

  /** A negative limit is reached before anything is sent: the run looks at no row. */
  lemma NegativeLimitSendsNothing(job: Job)
    requires job.limit < 0
    ensures Stop(job) == Lo(job) && SendsBefore(job, Stop(job)) == 0
  {
  }

  /** Without a limit the run goes on to the last row. */
  lemma {:induction false} StopFromUnlimited(job: Job, k: nat)
    requires job.limit == 0 && Lo(job) <= k <= |job.rows|
    ensures StopFrom(job, k) == |job.rows|
    decreases |job.rows| - k
  {
    if k < |job.rows| {
      StopFromUnlimited(job, k + 1);
    }
  }

  /** Without a limit every row from the start row on is looked at. */
  lemma NoLimitVisitsAll(job: Job)
    requires job.limit == 0
    ensures Stop(job) == |job.rows|
  {
    StopFromUnlimited(job, Lo(job));
  }

  // ---------------------------------------------------------------- send numbers

  /** Two non-blank rows the run looks at get different send numbers, the later row the
      larger one: every message handed to the browser has its own number, counted from
      zero in row order. */
  lemma SendNumbersIncrease(job: Job, j: nat, k: nat)
    requires Lo(job) <= j < k <= |job.rows| && !IsBlank(job.rows[j].id)
    ensures SendsBefore(job, j) < SendsBefore(job, k)
  {
    SendsBeforeMonotone(job, j + 1, k);
  }

  /** The first message of a run gets send number zero. */
  lemma FirstSendNumberZero(job: Job)
    ensures SendsBefore(job, Lo(job)) == 0
  {
  }

  /** Row `k` is skipped exactly when the program's test `args.start and i < args.start`
      holds for it. */
  lemma StartSkips(job: Job, k: nat)
    requires k < |job.rows|
    ensures k < Lo(job) <==> job.start != 0 && k < job.start
  {
  }

  /** Entry `q` of the send log is the message of a non-blank row looked at whose send
      number is `q`. */
  predicate LogEntry(job: Job, q: nat, e: Send)
  {
    Lo(job) <= e.row < |job.rows| && !IsBlank(job.rows[e.row].id) &&
    SendsBefore(job, e.row) == q && e == SendOf(job, e.row)
  }

  /** The messages handed to the browser before row `k`: one per non-blank row looked at,
      in row order, the `q`-th of them carrying message number `q` to the stripped ID of
      its row, with the verdict that row is recorded with; and every non-blank row looked
      at has its message in the log, at its send number. */
  lemma SendLogNumbers(job: Job, k: nat)
    requires Lo(job) <= k <= |job.rows|
    ensures |SendLog(job, k)| == SendsBefore(job, k)
    ensures forall q :: 0 <= q < |SendLog(job, k)| ==>
              var e := SendLog(job, k)[q];
              Lo(job) <= e.row < k && !IsBlank(job.rows[e.row].id) &&
              e.recipient == Strip(job.rows[e.row].id) &&
              e.message == MsgWithLineEndSpaces(job.base, q) &&
              (e.delivered <==> Outcome(job, e.row) == Succeeded)
    ensures forall p, q :: 0 <= p < q < |SendLog(job, k)| ==>
              SendLog(job, k)[p].row < SendLog(job, k)[q].row
    ensures forall i :: Lo(job) <= i < k && !IsBlank(job.rows[i].id) ==>
              SendsBefore(job, i) < |SendLog(job, k)| &&
              SendLog(job, k)[SendsBefore(job, i)] == SendOf(job, i)
  {
    SendLogEntries(job, k);
    var log := SendLog(job, k);
    forall q | 0 <= q < |log|
      ensures var e := log[q];
              Lo(job) <= e.row < k && !IsBlank(job.rows[e.row].id) &&
              e.recipient == Strip(job.rows[e.row].id) &&
              e.message == MsgWithLineEndSpaces(job.base, q) &&
              (e.delivered <==> Outcome(job, e.row) == Succeeded)
    {
      EntryFields(job, k, q);
    }
    forall p, q | 0 <= p < q < |log|
      ensures log[p].row < log[q].row
    {
      EntryFields(job, k, p);
      EntryFields(job, k, q);
      SendNumberOrder(job, log[p].row, log[q].row);
    }
    forall i | Lo(job) <= i < k && !IsBlank(job.rows[i].id)
      ensures SendsBefore(job, i) < |log| && log[SendsBefore(job, i)] == SendOf(job, i)
    {
      RowLogged(job, k, i);
    }
  }

  lemma EntryFields(job: Job, k: nat, q: nat)
    requires Lo(job) <= k <= |job.rows| && EntriesHold(job, k) && q < |SendLog(job, k)|
    ensures var e := SendLog(job, k)[q];
            Lo(job) <= e.row < k && !IsBlank(job.rows[e.row].id) && SendsBefore(job, e.row) == q &&
            e.recipient == Strip(job.rows[e.row].id) &&
            e.message == MsgWithLineEndSpaces(job.base, q) &&
            (e.delivered <==> Outcome(job, e.row) == Succeeded)
  {
    var e := SendLog(job, k)[q];
    assert LogEntry(job, q, e);
    if k <= e.row {
      SendsBeforeMonotone(job, k, e.row);
    }
  }

  /** Of two non-blank rows looked at, the one with the smaller send number comes first. */
  lemma SendNumberOrder(job: Job, a: nat, b: nat)
    requires Lo(job) <= a < |job.rows| && Lo(job) <= b < |job.rows| && !IsBlank(job.rows[b].id)
    requires SendsBefore(job, a) < SendsBefore(job, b)
    ensures a < b
  {
    if b < a {
      SendNumbersIncrease(job, b, a);
    }
  }

  lemma RowLogged(job: Job, k: nat, i: nat)
    requires Lo(job) <= i < k <= |job.rows| && EntriesHold(job, k) && !IsBlank(job.rows[i].id)
    ensures SendsBefore(job, i) < |SendLog(job, k)|
    ensures SendLog(job, k)[SendsBefore(job, i)] == SendOf(job, i)
  {
    SendNumbersIncrease(job, i, k);
    var q := SendsBefore(job, i);
    assert LogEntry(job, q, SendLog(job, k)[q]);
    var r := SendLog(job, k)[q].row;
    if r < i {
      SendNumbersIncrease(job, r, i);
    } else if i < r {
      SendNumbersIncrease(job, i, r);
    }
  }

  /** The send log of the rows before `k` has one entry per send number, each the message
      of the row with that number. */
  predicate EntriesHold(job: Job, k: nat)
    requires k <= |job.rows|
  {
    |SendLog(job, k)| == SendsBefore(job, k) &&
    forall q :: 0 <= q < |SendLog(job, k)| ==> LogEntry(job, q, SendLog(job, k)[q])
  }

  lemma {:induction false} SendLogEntries(job: Job, k: nat)
    requires Lo(job) <= k <= |job.rows|
    ensures EntriesHold(job, k)
  {
    if k > Lo(job) {
      SendLogEntries(job, k - 1);
      if IsBlank(job.rows[k - 1].id) {
        BlankRowLogs(job, k);
      } else {
        SentRowLogs(job, k);
      }
    }
  }

  /** A blank row adds nothing to the log. */
  lemma BlankRowLogs(job: Job, k: nat)
    requires Lo(job) < k <= |job.rows| && IsBlank(job.rows[k - 1].id)
    requires EntriesHold(job, k - 1)
    ensures EntriesHold(job, k)
  {
    assert SendLog(job, k) == SendLog(job, k - 1);
  }

  /** A non-blank row adds its message, with the next send number. */
  lemma SentRowLogs(job: Job, k: nat)
    requires Lo(job) < k <= |job.rows| && !IsBlank(job.rows[k - 1].id)
    requires EntriesHold(job, k - 1)
    ensures EntriesHold(job, k)
  {
    var prev := SendLog(job, k - 1);
    var e := SendOf(job, k - 1);
    assert SendLog(job, k) == prev + [e];
    assert LogEntry(job, |prev|, e);
    forall q | 0 <= q < |prev| + 1
      ensures LogEntry(job, q, (prev + [e])[q])
    {
      if q < |prev| {
        assert (prev + [e])[q] == prev[q];
      }
    }
  }

  // ---------------------------------------------------------------- no blank IDs

  /** No ID from the start row on is blank. */
  predicate NoBlankFrom(job: Job)
  {
    forall i :: Lo(job) <= i < |job.rows| ==> !IsBlank(job.rows[i].id)
  }

  /** Where no ID is blank, every row looked at sends one message. */
  lemma {:induction false} NoBlankSends(job: Job, k: nat)
    requires NoBlankFrom(job) && Lo(job) <= k <= |job.rows|
    ensures SendsBefore(job, k) == k - Lo(job)
  {
    if k > Lo(job) {
      NoBlankSends(job, k - 1);
    }
  }

  lemma {:induction false} NoBlankStopFrom(job: Job, k: nat)
    requires NoBlankFrom(job) && job.limit > 0
    requires Lo(job) <= k <= |job.rows| && k <= Lo(job) + job.limit
    ensures StopFrom(job, k) == if Lo(job) + job.limit < |job.rows| then Lo(job) + job.limit
                                else |job.rows|
    decreases |job.rows| - k
  {
    NoBlankSends(job, k);
    if k < |job.rows| && k < Lo(job) + job.limit {
      NoBlankStopFrom(job, k + 1);
    }
  }

  /** With no blank ID and a positive limit, the run messages the `limit` rows from the start
      row on (fewer when the rows run out), row `Lo + q` with send number `q`. */
  lemma NoBlankRun(job: Job)
    requires NoBlankFrom(job) && job.limit > 0
    ensures Stop(job) == if Lo(job) + job.limit < |job.rows| then Lo(job) + job.limit
                         else |job.rows|
    ensures SendsBefore(job, Stop(job)) == Stop(job) - Lo(job)
    ensures forall k :: Lo(job) <= k < Stop(job) ==>
              SendOf(job, k).message == MsgWithLineEndSpaces(job.base, k - Lo(job))
  {
    NoBlankStopFrom(job, Lo(job));
    NoBlankSends(job, Stop(job));
    forall k | Lo(job) <= k < Stop(job)
      ensures SendOf(job, k).message == MsgWithLineEndSpaces(job.base, k - Lo(job))
    {
      NoBlankSends(job, k);
    }
  }

  /** Ten recipients, `--start 2 --limit 3`: rows 2, 3 and 4 are messaged, all three with the
      first variant, and rows 5 to 9 are not looked at. */
  lemma StartTwoLimitThree(job: Job)
    requires |job.rows| == 10 && job.start == 2 && job.limit == 3 && NoBlankFrom(job)
    ensures Stop(job) == 5 && SendsBefore(job, 5) == 3
    ensures forall k :: 2 <= k < 5 ==> SendOf(job, k).message == MsgWithLineEndSpaces(job.base, 0)
  {
    NoBlankRun(job);
    forall k | 2 <= k < 5
      ensures SendOf(job, k).message == MsgWithLineEndSpaces(job.base, 0)
    {
      SameBlockSameMessage(job.base, k - 2, 0);
    }
  }

  // ---------------------------------------------------------------- the status document

  /** A freshly built item list has one pending item per row, item `i` carrying index `i`,
      the row's ID, its hearts (zero without a hearts column) and a stamp later than the
      one before. */
  lemma InitialItemsShape(rows: seq<Row>, hasHearts: bool, firstStamp: nat)
    ensures var items := InitialItems(rows, hasHearts, firstStamp);
            |items| == |rows| &&
            forall i :: 0 <= i < |items| ==>
              items[i].index == i && items[i].id == rows[i].id && items[i].status == Pending &&
              items[i].hearts == (if hasHearts then rows[i].hearts else 0) &&
              items[i].updated == firstStamp + i
  {
  }

  /** Rows the run does not look at keep their entry; a blank row it looks at is failed, any
      other is a success exactly when its message was delivered. A row looked at keeps its
      index, ID and hearts and carries the stamp of its turn: the rows before it from the
      start row on each took one tick of the clock. */
  lemma RecordedRows(job: Job, before: Item, clock0: nat, k: nat)
    requires k < |job.rows|
    ensures k < Lo(job) || Stop(job) <= k ==> Recorded(job, before, clock0, k) == before
    ensures Lo(job) <= k < Stop(job) && IsBlank(job.rows[k].id) ==>
              Recorded(job, before, clock0, k).status == Failed
    ensures Lo(job) <= k < Stop(job) && !IsBlank(job.rows[k].id) ==>
              (Recorded(job, before, clock0, k).status == Succeeded <==> SendOf(job, k).delivered)
    ensures Lo(job) <= k < Stop(job) ==>
              var r := Recorded(job, before, clock0, k);
              r.index == before.index && r.id == before.id && r.hearts == before.hearts &&
              r.updated == clock0 + 1 + (k - Lo(job))
  {
  }

  // ---------------------------------------------------------------- missing IDs

  /** The recipients file is read with `pd.read_csv`, which makes an empty ID field a missing
      value, and `str()` renders that as "nan". Such a row is not blank: the run sends the
      message to the recipient "nan" and counts it as a sent message. */
  lemma MissingIdIsMessaged(job: Job, k: nat)
    requires Lo(job) <= k < Stop(job) && job.rows[k].id == AsText(Missing)
    ensures !IsBlank(job.rows[k].id)
    ensures SendOf(job, k).recipient == "nan"
    ensures SendsBefore(job, k + 1) == SendsBefore(job, k) + 1
    ensures SendLog(job, k + 1) == SendLog(job, k) + [SendOf(job, k)]
  {
    assert IsStripped("nan") by {
      assert !IsSpace('n') && !IsSpace('a');
    }
    StripStripped("nan");
  }
}
