/** The sender's run (`main`): the status file is rebuilt when it does not fit the recipient
    list, then the recipients from the start row on are messaged one by one until the send
    limit is reached, each row's status being recorded and saved as soon as it is known. */
module Dispatch {
  import opened Optional
  import opened PyText
  import opened MessageMutator
  import opened OutcomeClassifier

  // ---------------------------------------------------------------- data

  /** One row of the recipients file: its ID cell as `str()` renders it (an empty field,
      which `pd.read_csv` reads as a missing value, becomes "nan") and its hearts. */
  datatype Row = Row(id: string, hearts: int)

  /** The status of one recipient: "pending", "success" or "fail". */
  datatype Status = Pending | Succeeded | Failed

  /** One entry of the status file's item list; `updated` is a logical timestamp. */
  datatype Item = Item(index: nat, id: string, hearts: int, status: Status, updated: nat)

  /** What the status file holds: the items and the creation stamp of its metadata. */
  datatype Snapshot = Snapshot(items: seq<Item>, created: Option<nat>)

  /** The browser, seen from the sender: given the number of messages sent so far, the
      recipient and the message, what the compose form reported. */
  type Channel = (nat, string, string) -> ChannelReply

  /** One message handed to the browser. */
  datatype Send = Send(row: nat, recipient: string, message: string, delivered: bool)

  /** The inputs of one run: the rows, the base message, `--start`, `--limit`, the browser. */
  datatype Job = Job(rows: seq<Row>, base: string, start: int, limit: int, channel: Channel)

  // ---------------------------------------------------------------- the run, as values

  /** Rows before `--start` are skipped (a start of zero or below skips nothing); the first
      row looked at, or the row count when the start lies beyond the last row. */
  function Lo(job: Job): (lo: nat)
    ensures lo <= |job.rows|
    ensures job.start <= 0 ==> lo == 0
    ensures 0 < job.start <= |job.rows| ==> lo == job.start
  {
    if job.start <= 0 then 0
    else if job.start <= |job.rows| then job.start
    else |job.rows|
  }

  /** An ID cell that is empty after stripping gets no message. */
  predicate IsBlank(id: string)
  {
    AllSpace(id)
  }

  /** How many messages were sent before row `k` is looked at (`sent` at that moment):
      the non-blank rows from `Lo` up to `k`. */
  function SendsBefore(job: Job, k: nat): (n: nat)
    requires k <= |job.rows|
    ensures k <= Lo(job) ==> n == 0
    ensures k > Lo(job) ==> n <= k - Lo(job)
  {
    if k <= Lo(job) then 0
    else SendsBefore(job, k - 1) + (if IsBlank(job.rows[k - 1].id) then 0 else 1)
  }

  /** `args.limit and sent >= args.limit` */
  predicate LimitReached(job: Job, sent: int)
  {
    job.limit != 0 && sent >= job.limit
  }

  /** The row at which the run stops when it has reached row `k`. */
  function StopFrom(job: Job, k: nat): (s: nat)
    requires Lo(job) <= k <= |job.rows|
    ensures k <= s <= |job.rows|
    decreases |job.rows| - k
  {
    if k == |job.rows| || LimitReached(job, SendsBefore(job, k)) then k
    else StopFrom(job, k + 1)
  }

  /** The rows looked at are `Lo(job) .. Stop(job) - 1`. */
  function Stop(job: Job): nat
  {
    StopFrom(job, Lo(job))
  }

  /** The message handed to the browser for the non-blank row `k`. */
  function SendOf(job: Job, k: nat): (s: Send)
    requires Lo(job) <= k < |job.rows|
    ensures s.row == k && s.recipient == Strip(job.rows[k].id)
    ensures s.message == MsgWithLineEndSpaces(job.base, SendsBefore(job, k))
  {
    var n := SendsBefore(job, k);
    var recipient := Strip(job.rows[k].id);
    var message := MsgWithLineEndSpaces(job.base, n);
    Send(k, recipient, message, Delivered(job.channel(n, recipient, message)))
  }

  /** The status recorded for row `k` once it has been looked at. */
  function Outcome(job: Job, k: nat): Status
    requires Lo(job) <= k < |job.rows|
  {
    if IsBlank(job.rows[k].id) then Failed
    else if SendOf(job, k).delivered then Succeeded
    else Failed
  }

  /** The messages sent for the rows before `k`, in order. */
  function SendLog(job: Job, k: nat): seq<Send>
    requires k <= |job.rows|
  {
    if k <= Lo(job) then []
    else SendLog(job, k - 1) + (if IsBlank(job.rows[k - 1].id) then [] else [SendOf(job, k - 1)])
  }

  /** How many of the rows before `k` were recorded as successes; never more than the
      messages sent. */
  function SuccessesBefore(job: Job, k: nat): (n: nat)
    requires k <= |job.rows|
    ensures n <= SendsBefore(job, k)
  {
    if k <= Lo(job) then 0
    else SuccessesBefore(job, k - 1) + (if Outcome(job, k - 1) == Succeeded then 1 else 0)
  }

  /** How many of the rows before `k` had a message sent that was not delivered: the rows
      counted by `fail += 1`, a blank row being recorded as failed without being counted. */
  function FailuresBefore(job: Job, k: nat): nat
    requires k <= |job.rows|
  {
    if k <= Lo(job) then 0
    else FailuresBefore(job, k - 1) +
         (if !IsBlank(job.rows[k - 1].id) && !SendOf(job, k - 1).delivered then 1 else 0)
  }

  /** Row `k` after the run, from its entry before the run and the clock at the start. */
  function Recorded(job: Job, before: Item, clock0: nat, k: nat): Item
    requires k < |job.rows|
  {
    if Lo(job) <= k < Stop(job) then
      before.(status := Outcome(job, k), updated := clock0 + 1 + (k - Lo(job)))
    else before
  }

  /** The status document with its clock and what was last written out: what the sender
      holds in memory at one moment. */
  datatype Doc = Doc(items: seq<Item>, clock: nat, saves: nat, created: Option<nat>,
                     persisted: Option<Snapshot>)

  /** The document after row `i` is set to `status`, stamped with the next tick and saved. */
  function Stamped(d: Doc, i: nat, status: Status): Doc
    requires i < |d.items|
  {
    var items := d.items[i := d.items[i].(status := status, updated := d.clock + 1)];
    Doc(items, d.clock + 1, d.saves + 1, d.created, Some(Snapshot(items, d.created)))
  }

  /** The item list once the rows before `p` have been recorded, one slot at a time. */
  function Applied(job: Job, before: seq<Item>, clock0: nat, p: nat): (r: seq<Item>)
    requires |before| == |job.rows| && p <= |before|
    ensures |r| == |before|
  {
    if p <= Lo(job) then before
    else Applied(job, before, clock0, p - 1)[p - 1 := Recorded(job, before[p - 1], clock0, p - 1)]
  }

  /** The counters of the dispatch loop and the messages handed to the browser. */
  datatype Tally = Tally(success: nat, fail: nat, sent: nat, sends: seq<Send>)

  /** The counters once the rows before `p` have been looked at. */
  function TallyAt(job: Job, p: nat): Tally
    requires p <= |job.rows|
  {
    Tally(SuccessesBefore(job, p), FailuresBefore(job, p), SendsBefore(job, p), SendLog(job, p))
  }

  /** What looking at row `i` with outcome `status` adds to the counters. */
  function Counted(t: Tally, job: Job, i: nat, status: Status): Tally
    requires Lo(job) <= i < |job.rows|
  {
    if IsBlank(job.rows[i].id) then t
    else if status == Succeeded then Tally(t.success + 1, t.fail, t.sent + 1, t.sends + [SendOf(job, i)])
    else Tally(t.success, t.fail + 1, t.sent + 1, t.sends + [SendOf(job, i)])
  }

  /** The document once the rows before `p` have been recorded, starting from `o`: one clock
      tick and one save per row looked at, and the last save holds the document itself. */
  ghost function DocAt(job: Job, o: Doc, p: nat): Doc
    requires |o.items| == |job.rows| && p <= |job.rows|
  {
    var items := Applied(job, o.items, o.clock, p);
    var n := if p <= Lo(job) then 0 else p - Lo(job);
    Doc(items, o.clock + n, o.saves + n, o.created,
        if p <= Lo(job) then o.persisted else Some(Snapshot(items, o.created)))
  }

  /** The run has looked at the rows `Lo(job) .. p - 1` and no other, going from document
      `o` to document `d` with counters `t`. */
  ghost predicate Progress(job: Job, o: Doc, d: Doc, p: nat, t: Tally)
  {
    |o.items| == |job.rows| && Lo(job) <= p <= Stop(job) && StopFrom(job, p) == Stop(job) &&
    t == TallyAt(job, p) && d == DocAt(job, o, p)
  }

  // ---------------------------------------------------------------- the status file

  /** The freshly initialised item list: every row pending, in row order. */
  function InitialItems(rows: seq<Row>, hasHearts: bool, firstStamp: nat): seq<Item>
  {
    seq(|rows|, i requires 0 <= i < |rows| =>
      Item(i, rows[i].id, if hasHearts then rows[i].hearts else 0, Pending, firstStamp + i))
  }

  /** The status document held in memory by the sender, with the clock that stands for
      `now_ts()` and what was last written to the status file. */
  class StatusStore {
    var items: seq<Item>
    var created: Option<nat>
    var clock: nat
    var persisted: Option<Snapshot>
    var saves: nat

    /** The document as it stands. */
    ghost function State(): Doc
      reads this
    {
      Doc(items, clock, saves, created, persisted)
    }

    /** `load_status`: the file's content, or an empty document when the file is missing
        or unreadable (`None`). */
    constructor Load(file: Option<Snapshot>, clock0: nat)
      ensures file.Some? ==> items == file.value.items && created == file.value.created
      ensures file.None? ==> items == [] && created == None
      ensures clock == clock0 && persisted == file && saves == 0
    {
      if file.Some? {
        items, created := file.value.items, file.value.created;
      } else {
        items, created := [], None;
      }
      clock, persisted, saves := clock0, file, 0;
    }

    /** `now_ts()`: a stamp later than every earlier one. */
    method Now() returns (stamp: nat)
      modifies this
      ensures clock == old(clock) + 1 && stamp == clock
      ensures items == old(items) && created == old(created)
      ensures persisted == old(persisted) && saves == old(saves)
    {
      clock := clock + 1;
      stamp := clock;
    }

    /** `save_status`: the whole document is written out. */
    method Save()
      modifies this
      ensures persisted == Some(Snapshot(items, created)) && saves == old(saves) + 1
      ensures items == old(items) && created == old(created) && clock == old(clock)
    {
      persisted := Some(Snapshot(items, created));
      saves := saves + 1;
    }

    /** The initialisation step of `main`: the document is rebuilt, stamped and saved when
        a reset is asked for, when it has no items or when its item count differs from the
        row count; otherwise it is left alone. Either way it ends with one item per row. */
    method InitStatus(rows: seq<Row>, hasHearts: bool, reset: bool) returns (rebuilt: bool)
      modifies this
      ensures rebuilt <==> reset || old(items) == [] || |old(items)| != |rows|
      ensures |items| == |rows|
      ensures rebuilt ==> created == Some(old(clock) + 1) &&
                          items == InitialItems(rows, hasHearts, old(clock) + 2) &&
                          clock == old(clock) + 1 + |rows| &&
                          persisted == Some(Snapshot(items, created)) && saves == old(saves) + 1
      ensures !rebuilt ==> items == old(items) && created == old(created) &&
                           clock == old(clock) && persisted == old(persisted) &&
                           saves == old(saves)
    {
      rebuilt := reset || items == [] || |items| != |rows|;
      if rebuilt {
        var stamp := Now();
        items, created := [], Some(stamp);
        var i := 0;
        while i < |rows|
          invariant 0 <= i <= |rows|
          invariant clock == old(clock) + 1 + i && created == Some(old(clock) + 1)
          invariant saves == old(saves) && persisted == old(persisted)
          invariant items == InitialItems(rows[..i], hasHearts, old(clock) + 2)
        {
          var updated := Now();
          var hearts := if hasHearts then rows[i].hearts else 0;
          items := items + [Item(i, rows[i].id, hearts, Pending, updated)];
          i := i + 1;
        }
        assert rows[..i] == rows;
        Save();
      }
    }

    /** Records the status of row `i`: sets it, stamps it and saves the document. */
    method Record(i: nat, status: Status)
      requires i < |items|
      modifies this
      ensures State() == Stamped(old(State()), i, status)
    {
      var stamp := Now();
      items := items[i := items[i].(status := status, updated := stamp)];
      Save();
    }

    /** One pass of the dispatch loop over a row it does not skip, when the limit has not
        been reached: the row is looked at, counted and recorded. */
    method Advance(job: Job, ghost o: Doc, i: nat, success0: nat, fail0: nat, sent0: nat,
                   sends0: seq<Send>) returns (next: nat, success: nat, fail: nat, sent: nat, sends: seq<Send>)
      requires Progress(job, o, State(), i, Tally(success0, fail0, sent0, sends0))
      requires i < |job.rows| && !LimitReached(job, sent0) && success0 + fail0 == sent0
      modifies this
      ensures next == i + 1
      ensures Progress(job, o, State(), next, Tally(success, fail, sent, sends))
      ensures success + fail == sent
    {
      next := i + 1;
      var status;
      status, success, fail, sent, sends := VisitRow(job, i, success0, fail0, sent0, sends0);
      RecordOutcome(job, o, i, status, Tally(success0, fail0, sent0, sends0));
    }

    /** Records the outcome of row `i`: one more row of the run is done. */
    method RecordOutcome(job: Job, ghost o: Doc, i: nat, status: Status, ghost t: Tally)
      requires Progress(job, o, State(), i, t)
      requires i < |job.rows| && !LimitReached(job, t.sent) && status == Outcome(job, i)
      modifies this
      ensures Progress(job, o, State(), i + 1, Counted(t, job, i, status))
    {
      ProgressStep(job, o, State(), i, t, status);
      Record(i, status);
    }

    /** The dispatch loop of `main`. From row `Lo(job)` on, each row is looked at in turn
        until the limit is reached: a blank ID is marked failed without sending; any other
        ID is sent message number `sent`, marked with the verdict and counted. Every row
        looked at is stamped and saved. */
    method Dispatch(job: Job) returns (success: nat, fail: nat, sent: nat, sends: seq<Send>)
      requires |items| == |job.rows|
      modifies this
      ensures |items| == |job.rows|
      ensures forall k :: 0 <= k < |job.rows| ==>
                items[k] == Recorded(job, old(items)[k], old(clock), k)
      ensures sent == SendsBefore(job, Stop(job)) && success == SuccessesBefore(job, Stop(job))
      ensures fail == FailuresBefore(job, Stop(job)) && success + fail == sent
      ensures sends == SendLog(job, Stop(job))
      ensures clock == old(clock) + (Stop(job) - Lo(job))
      ensures saves == old(saves) + (Stop(job) - Lo(job))
      ensures created == old(created)
      ensures persisted == if Stop(job) == Lo(job) then old(persisted)
                           else Some(Snapshot(items, created))
    {
      ghost var o := State();
      success, fail, sent, sends := 0, 0, 0, [];
      var i := 0;
      ghost var p := Lo(job);
      while i < |job.rows|
        invariant i <= |job.rows|
        invariant p == if i < Lo(job) then Lo(job) else i
        invariant Progress(job, o, State(), p, Tally(success, fail, sent, sends))
        invariant success + fail == sent
      {
        if job.start != 0 && i < job.start {
          i := i + 1;
          continue;
        }
        if job.limit != 0 && sent >= job.limit {
          break;
        }
        i, success, fail, sent, sends := Advance(job, o, i, success, fail, sent, sends);
        p := i;
      }
      StopAt(job, p, sent);
      AppliedAll(job, o.items, o.clock, p);
    }
  }

  /** Looks at row `i` when `sent0` messages have gone out before it: a blank ID fails
      without a message; any other ID is stripped and sent message number `sent0`, the
      verdict on the browser's reply becomes the row's status and is counted, and the
      message joins the log. */
  method VisitRow(job: Job, i: nat, success0: nat, fail0: nat, sent0: nat, sends0: seq<Send>)
      returns (status: Status, success: nat, fail: nat, sent: nat, sends: seq<Send>)
    requires Lo(job) <= i < |job.rows| && sent0 == SendsBefore(job, i)
    requires success0 + fail0 == sent0
    ensures status == Outcome(job, i)
    ensures success + fail == sent
    ensures Tally(success, fail, sent, sends) ==
              Counted(Tally(success0, fail0, sent0, sends0), job, i, status)
  {
    success, fail, sent, sends := success0, fail0, sent0, sends0;
    var tid := Strip(job.rows[i].id);
    if tid == [] {
      return Failed, success, fail, sent, sends;
    }
    var message := MsgWithLineEndSpaces(job.base, sent);
    var ok := SendOne(job.channel(sent, tid, message));
    assert SendOf(job, i) == Send(i, tid, message, ok);
    sends := sends + [Send(i, tid, message, ok)];
    if ok {
      status := Succeeded;
      success := success + 1;
    } else {
      status := Failed;
      fail := fail + 1;
    }
    sent := sent + 1;
  }

  /** `main`'s two steps together: after initialisation the status document has one item per
      row, so every row the dispatch loop looks at has an entry to record into. */
  method RunSender(store: StatusStore, job: Job, hasHearts: bool, reset: bool)
      returns (rebuilt: bool, success: nat, fail: nat, sent: nat)
    modifies store
    ensures |store.items| == |job.rows|
    ensures sent == SendsBefore(job, Stop(job)) && success + fail == sent
    ensures success == SuccessesBefore(job, Stop(job)) && fail == FailuresBefore(job, Stop(job))
    ensures rebuilt <==> reset || old(store.items) == [] || |old(store.items)| != |job.rows|
    ensures forall k :: 0 <= k < |job.rows| ==>
              store.items[k].status ==
                if Lo(job) <= k < Stop(job) then Outcome(job, k)
                else if rebuilt then Pending
                else old(store.items)[k].status
    ensures rebuilt ==>
              var initial := InitialItems(job.rows, hasHearts, old(store.clock) + 2);
              var clock1 := old(store.clock) + 1 + |job.rows|;
              (forall k :: 0 <= k < |job.rows| ==>
                 store.items[k] == Recorded(job, initial[k], clock1, k)) &&
              store.created == Some(old(store.clock) + 1) &&
              store.clock == clock1 + (Stop(job) - Lo(job)) &&
              store.saves == old(store.saves) + 1 + (Stop(job) - Lo(job)) &&
              store.persisted == Some(Snapshot(store.items, store.created))
    ensures !rebuilt ==>
              (forall k :: 0 <= k < |job.rows| ==>
                 store.items[k] == Recorded(job, old(store.items)[k], old(store.clock), k)) &&
              store.created == old(store.created) &&
              store.clock == old(store.clock) + (Stop(job) - Lo(job)) &&
              store.saves == old(store.saves) + (Stop(job) - Lo(job)) &&
              store.persisted == if Stop(job) == Lo(job) then old(store.persisted)
                                 else Some(Snapshot(store.items, store.created))
  {
    rebuilt := store.InitStatus(job.rows, hasHearts, reset);
    ghost var initial := store.items;
    ghost var clock1 := store.clock;
    var sends;
    success, fail, sent, sends := store.Dispatch(job);
    if Stop(job) == Lo(job) {
      // an empty run records nothing, so the file saved by the initialisation still holds
      assert store.items == initial by {
        forall k | 0 <= k < |job.rows| ensures store.items[k] == initial[k] {
          assert store.items[k] == Recorded(job, initial[k], clock1, k);
        }
      }
    }
  }

  // ---------------------------------------------------------------- properties

  /** Where the loop has got to without stopping, it stops exactly where the spec says: at
      this row when the limit is reached or the rows are exhausted, later otherwise. */
  lemma StopStep(job: Job, k: nat)
    requires Lo(job) <= k <= Stop(job) && StopFrom(job, k) == Stop(job)
    ensures k < |job.rows| && !LimitReached(job, SendsBefore(job, k)) ==>
              k < Stop(job) && StopFrom(job, k + 1) == Stop(job)
    ensures k == |job.rows| || LimitReached(job, SendsBefore(job, k)) ==> k == Stop(job)
  {
  }

  /** The bookkeeping of one row looked at: what it adds to the counts and to the log. */
  lemma Step(job: Job, k: nat)
    requires Lo(job) <= k < |job.rows|
    ensures SendsBefore(job, k + 1) == SendsBefore(job, k) + (if IsBlank(job.rows[k].id) then 0 else 1)
    ensures SuccessesBefore(job, k + 1) ==
              SuccessesBefore(job, k) + (if Outcome(job, k) == Succeeded then 1 else 0)
    ensures FailuresBefore(job, k + 1) ==
              FailuresBefore(job, k) +
              (if !IsBlank(job.rows[k].id) && !SendOf(job, k).delivered then 1 else 0)
    ensures SendLog(job, k + 1) ==
              SendLog(job, k) + (if IsBlank(job.rows[k].id) then [] else [SendOf(job, k)])
  {
  }

  /** Recording a visited row stamps it with its place in the run. */
  lemma RecordedVisited(job: Job, before: Item, clock0: nat, k: nat)
    requires Lo(job) <= k < Stop(job)
    ensures Recorded(job, before, clock0, k) ==
              before.(status := Outcome(job, k), updated := clock0 + 1 + (k - Lo(job)))
  {
  }

  /** The slots from `p` on are still as before. */
  lemma {:induction false} AppliedSlot(job: Job, before: seq<Item>, clock0: nat, p: nat, k: nat)
    requires |before| == |job.rows| && p <= |before| && k < |before|
    ensures Applied(job, before, clock0, p)[k] ==
              if k < p then Recorded(job, before[k], clock0, k) else before[k]
  {
    if p > Lo(job) {
      AppliedSlot(job, before, clock0, p - 1, k);
      var prev := Applied(job, before, clock0, p - 1);
      assert Applied(job, before, clock0, p) ==
             prev[p - 1 := Recorded(job, before[p - 1], clock0, p - 1)];
    } else if k < p {
      assert Recorded(job, before[k], clock0, k) == before[k];
    }
  }

  /** One row looked at takes the run from row `i` to row `i + 1`. */
  lemma ProgressStep(job: Job, o: Doc, d: Doc, i: nat, t: Tally, status: Status)
    requires Progress(job, o, d, i, t)
    requires i < |job.rows| && !LimitReached(job, t.sent) && status == Outcome(job, i)
    ensures Progress(job, o, Stamped(d, i, status), i + 1, Counted(t, job, i, status))
  {
    StopStep(job, i);
    TallyStep(job, i, t, status);
    DocStep(job, o, d, i);
  }

  /** Looking at row `i` takes the counters of the rows before it to those up to it. */
  lemma TallyStep(job: Job, i: nat, t: Tally, status: Status)
    requires Lo(job) <= i < |job.rows| && t == TallyAt(job, i) && status == Outcome(job, i)
    ensures Counted(t, job, i, status) == TallyAt(job, i + 1)
  {
    Step(job, i);
  }

  /** Recording row `i` takes the document of the rows before it to that of the rows up to it. */
  lemma DocStep(job: Job, o: Doc, d: Doc, i: nat)
    requires |o.items| == |job.rows| && Lo(job) <= i < Stop(job) && d == DocAt(job, o, i)
    ensures Stamped(d, i, Outcome(job, i)) == DocAt(job, o, i + 1)
  {
    StampedApplied(job, o, d, i);
    var r := Stamped(d, i, Outcome(job, i));
    var e := DocAt(job, o, i + 1);
    assert r.items == e.items;
    assert r.clock == e.clock && r.saves == e.saves && r.created == e.created;
  }

  /** Stamping row `i` with its outcome at the next tick is what recording it means. */
  lemma StampedApplied(job: Job, o: Doc, d: Doc, i: nat)
    requires |o.items| == |job.rows| && Lo(job) <= i < Stop(job)
    requires d.items == Applied(job, o.items, o.clock, i) && d.clock == o.clock + (i - Lo(job))
    ensures Stamped(d, i, Outcome(job, i)).items == Applied(job, o.items, o.clock, i + 1)
  {
    var r := Recorded(job, o.items[i], o.clock, i);
    AppliedStep(job, o.items, o.clock, i);
    StampedSlot(job, o, d, i);
    UpdateSame(d.items, i, d.items[i].(status := Outcome(job, i), updated := d.clock + 1), r);
  }

  /** The slot that stamping row `i` writes is the recorded row. */
  lemma StampedSlot(job: Job, o: Doc, d: Doc, i: nat)
    requires |o.items| == |job.rows| && Lo(job) <= i < Stop(job)
    requires d.items == Applied(job, o.items, o.clock, i) && d.clock == o.clock + (i - Lo(job))
    ensures d.items[i].(status := Outcome(job, i), updated := d.clock + 1) ==
              Recorded(job, o.items[i], o.clock, i)
  {
    RecordedVisited(job, o.items[i], o.clock, i);
    AppliedSlot(job, o.items, o.clock, i, i);
  }

  /** Stamping changes row `i` only: it takes the status and the next tick, and the
      document is saved as it then stands. */
  lemma StampedChangesOneRow(d: Doc, i: nat, status: Status)
    requires i < |d.items|
    ensures var r := Stamped(d, i, status);
            |r.items| == |d.items| && r.items[i].status == status &&
            r.items[i].updated == r.clock && r.clock == d.clock + 1 &&
            (forall k :: 0 <= k < |d.items| && k != i ==> r.items[k] == d.items[k]) &&
            r.saves == d.saves + 1 && r.created == d.created &&
            r.persisted == Some(Snapshot(r.items, r.created))
  {
  }

  /** Updating a slot with equal items gives equal lists. */
  lemma UpdateSame(s: seq<Item>, i: nat, x: Item, y: Item)
    requires i < |s| && x == y
    ensures s[i := x] == s[i := y]
  {
  }

  /** Recording row `p` takes the list of the rows before it to that of the rows up to it. */
  lemma AppliedStep(job: Job, before: seq<Item>, clock0: nat, p: nat)
    requires |before| == |job.rows| && Lo(job) <= p < |before|
    ensures Applied(job, before, clock0, p + 1) ==
              Applied(job, before, clock0, p)[p := Recorded(job, before[p], clock0, p)]
  {
  }

  /** Where the loop leaves off without the rows being exhausted, the limit was reached, so
      it is the stop. */
  lemma StopAt(job: Job, p: nat, sent: nat)
    requires Lo(job) <= p <= |job.rows| && StopFrom(job, p) == Stop(job)
    requires sent == SendsBefore(job, p)
    requires p == |job.rows| || LimitReached(job, sent)
    ensures p == Stop(job)
  {
  }

  /** Once the rows up to the stop have been recorded, every row is as `Recorded` says. */
  lemma AppliedAll(job: Job, before: seq<Item>, clock0: nat, p: nat)
    requires |before| == |job.rows| && Stop(job) <= p <= |before|
    ensures forall k :: 0 <= k < |job.rows| ==>
              Applied(job, before, clock0, p)[k] == Recorded(job, before[k], clock0, k)
  {
    forall k | 0 <= k < |job.rows| {
      AppliedSlot(job, before, clock0, p, k);
    }
  }
}
