/**
 * The job lifecycle of the bulk-import component: submitting the request, the
 * acknowledgement that carries a job id, the status poll that runs every two seconds
 * while a job id is set and `loading` is true, and cancelling.
 *
 * `JobState` and the step functions describe each handler's effect on the component's
 * state; `BulkScraping` holds that state in fields and updates it in place. The timer
 * is a discrete `Tick` event: one status request together with its reply.
 */
module ImportJob {
  import opened Wrappers
  import opened LinkParser
  import opened BrandEntries
  import opened RequestBuilder

  const Completed: string := "completed"
  const Failed: string := "failed"

  /** The fields of a status reply the poll reads; `progress` and `message` may be absent. */
  datatype StatusBody = StatusBody(success: bool, status: string, progress: Option<int>, message: Option<string>)

  /** The outcome of one `GET /api/scrape/bulk-status/{jobId}`. */
  datatype PollReply = PollThrew | PollAnswered(body: StatusBody)

  /** The outcome of `POST /api/scrape/bulk-perfumes`; `jobId` is `job_id`, possibly absent. */
  datatype SubmitReply = SubmitThrew | SubmitAnswered(success: bool, jobId: Option<string>)

  datatype JobState = JobState(
    loading: bool,
    progress: int,
    jobId: Option<string>,
    results: Option<StatusBody>,
    statusMessage: string,
    items: seq<BrandEntry>)

  const Initial: JobState := JobState(false, 0, None, None, "", InitialEntries)

  /** `jobId` is truthy: set and not the empty string. */
  predicate HasJob(s: JobState) {
    s.jobId.Some? && s.jobId.value != ""
  }

  /** The interval exists exactly when `jobId && loading`. */
  predicate PollingEnabled(s: JobState) {
    HasJob(s) && s.loading
  }

  /** A successful reply whose status ends the job. */
  predicate IsTerminal(r: PollReply) {
    r.PollAnswered? && r.body.success && (r.body.status == Completed || r.body.status == Failed)
  }

  function OrZero(p: Option<int>): int {
    match p
    case None => 0
    case Some(n) => n
  }

  function OrEmpty(m: Option<string>): string {
    match m
    case None => ""
    case Some(t) => t
  }

  /** `handleCancel`; `statusMessage` is not reset. */
  function Cancelled(s: JobState): JobState {
    s.(loading := false, progress := 0, jobId := None, results := None, items := InitialEntries)
  }

  /**
   * `handleSubmit` up to the POST: nothing when validation fails; otherwise `loading` is
   * set, and cleared again when a file cannot be read.
   */
  function SubmitStarted(s: JobState): JobState {
    if !Validate(s.items) then s
    else if !Readable(s.items) then s.(loading := false, progress := 0, results := None)
    else s.(loading := true, progress := 0, results := None)
  }

  /** `handleSubmit` after the POST: a success stores the job id and sets progress to 10. */
  function Acknowledged(s: JobState, reply: SubmitReply): JobState {
    match reply
    case SubmitThrew => s.(loading := false)
    case SubmitAnswered(success, jobId) => if success then s.(jobId := jobId, progress := 10) else s
  }

  /** The body of the interval callback once the status request has settled. */
  function PollApplied(s: JobState, reply: PollReply): JobState {
    match reply
    case PollThrew => s
    case PollAnswered(body) =>
      if !body.success then s
      else
        var t := s.(progress := OrZero(body.progress), statusMessage := OrEmpty(body.message));
        if body.status == Completed then t.(loading := false, results := Some(body))
        else if body.status == Failed then t.(loading := false)
        else t
  }

  /** One interval tick: a request is made only while polling is enabled. */
  function Ticked(s: JobState, reply: PollReply): JobState {
    if PollingEnabled(s) then PollApplied(s, reply) else s
  }

  /** The discrete events the component reacts to. */
  datatype Event =
    | Cancel
    | AddRow
    | RemoveRow(id: int)
    | UpdateRow(id: int, edit: Edit)
    | UploadFile(id: int, file: UploadedFile)
    | Submit
    | Ack(submitReply: SubmitReply)
    | Tick(pollReply: PollReply)
    | LateReply(lateReply: PollReply)   // a status reply that settles after its interval was cleared

  function Step(s: JobState, e: Event): JobState
    requires WellFormed(s.items)
  {
    match e
    case Cancel => Cancelled(s)
    case AddRow => s.(items := AddItem(s.items))
    case RemoveRow(id) => s.(items := RemoveItem(s.items, id))
    case UpdateRow(id, edit) => s.(items := UpdateItem(s.items, id, edit))
    case UploadFile(id, file) => s.(items := FileUpload(s.items, id, file))
    case Submit => SubmitStarted(s)
    case Ack(reply) => Acknowledged(s, reply)
    case Tick(reply) => Ticked(s, reply)
    case LateReply(reply) => PollApplied(s, reply)
  }

  /** Every event keeps the entry list non-empty with unique ids. */
  lemma StepKeepsWellFormed(s: JobState, e: Event)
    requires WellFormed(s.items)
    ensures WellFormed(Step(s, e).items)
  {
    match e
    case Cancel => InitialWellFormed();
    case AddRow => AddKeepsWellFormed(s.items);
    case RemoveRow(id) => RemoveKeepsWellFormed(s.items, id);
    case UpdateRow(id, edit) => UpdateKeepsWellFormed(s.items, id, edit);
    case UploadFile(id, file) => UploadKeepsWellFormed(s.items, id, file);
    case _ =>
  }

  function Run(s: JobState, evs: seq<Event>): JobState
    requires WellFormed(s.items)
    decreases |evs|
  {
    if evs == [] then s
    else
      StepKeepsWellFormed(s, evs[0]);
      Run(Step(s, evs[0]), evs[1..])
  }

  /** The job ids a run of events sends status requests for, in order. */
  function PolledJobs(s: JobState, evs: seq<Event>): seq<string>
    requires WellFormed(s.items)
    decreases |evs|
  {
    if evs == [] then []
    else
      StepKeepsWellFormed(s, evs[0]);
      (if evs[0].Tick? && PollingEnabled(s) then [s.jobId.value] else [])
        + PolledJobs(Step(s, evs[0]), evs[1..])
  }

  predicate NoSubmit(evs: seq<Event>) {
    forall i :: 0 <= i < |evs| ==> !evs[i].Submit?
  }

  // Properties of the job lifecycle

  /** Runs keep the entry list invariant. */
  lemma {:induction false} RunKeepsWellFormed(s: JobState, evs: seq<Event>)
    requires WellFormed(s.items)
    ensures WellFormed(Run(s, evs).items)
    decreases |evs|
  {
    if evs != [] {
      StepKeepsWellFormed(s, evs[0]);
      RunKeepsWellFormed(Step(s, evs[0]), evs[1..]);
    }
  }

  /** Only a submit sets `loading`: without one, an idle component never sends a status request. */
  lemma {:induction false} IdleStaysQuiet(s: JobState, evs: seq<Event>)
    requires WellFormed(s.items) && !s.loading && NoSubmit(evs)
    ensures PolledJobs(s, evs) == [] && !Run(s, evs).loading
    decreases |evs|
  {
    if evs != [] {
      StepKeepsWellFormed(s, evs[0]);
      assert NoSubmit(evs[1..]) by {
        forall i | 0 <= i < |evs[1..]| ensures !evs[1..][i].Submit? {
          assert evs[1..][i] == evs[i + 1];
        }
      }
      IdleStaysQuiet(Step(s, evs[0]), evs[1..]);
    }
  }

  /** A tick polls the current job exactly when polling is enabled. */
  lemma TickPollsOnlyWhenEnabled(s: JobState, reply: PollReply)
    requires WellFormed(s.items)
    ensures PolledJobs(s, [Tick(reply)]) == (if PollingEnabled(s) then [s.jobId.value] else [])
    ensures !PollingEnabled(s) ==> Step(s, Tick(reply)) == s
  {
    assert [Tick(reply)][1..] == [];
  }

  /** A `completed` or `failed` reply clears `loading`; `completed` also stores the reply. */
  lemma TerminalReplyStops(s: JobState, reply: PollReply)
    requires WellFormed(s.items) && PollingEnabled(s) && IsTerminal(reply)
    ensures !PollingEnabled(Step(s, Tick(reply)))
    ensures reply.body.status == Completed ==> Step(s, Tick(reply)).results == Some(reply.body)
    ensures Step(s, Tick(reply)).progress == OrZero(reply.body.progress)
  {
  }

  /** After a terminal reply, no further status request is sent until the next submit. */
  lemma TerminalReplyEndsPolling(s: JobState, reply: PollReply, evs: seq<Event>)
    requires WellFormed(s.items) && PollingEnabled(s) && IsTerminal(reply) && NoSubmit(evs)
    ensures PolledJobs(s, [Tick(reply)] + evs) == [s.jobId.value]
  {
    var evs' := [Tick(reply)] + evs;
    assert evs'[0] == Tick(reply) && evs'[1..] == evs;
    StepKeepsWellFormed(s, Tick(reply));
    IdleStaysQuiet(Step(s, Tick(reply)), evs);
  }

  /** Any other status, a non-success reply or a thrown request keeps polling the same job. */
  lemma OtherReplyKeepsPolling(s: JobState, reply: PollReply)
    requires WellFormed(s.items) && PollingEnabled(s) && !IsTerminal(reply)
    ensures PollingEnabled(Step(s, Tick(reply))) && Step(s, Tick(reply)).jobId == s.jobId
    ensures reply.PollThrew? || !reply.body.success ==> Step(s, Tick(reply)) == s
  {
  }

  /** Cancel clears the job and the form but leaves the status message. */
  lemma CancelResets(s: JobState)
    requires WellFormed(s.items)
    ensures var c := Step(s, Cancel);
      !c.loading && c.jobId.None? && c.progress == 0 && c.results.None?
      && c.items == InitialEntries && c.statusMessage == s.statusMessage
  {
  }

  /**
   * A submit leaves the status message alone, so a resubmission after a finished job shows
   * the previous job's message, not the stage text, until a status reply replaces it.
   */
  lemma SubmitKeepsStatusMessage(s: JobState)
    requires WellFormed(s.items)
    ensures Step(s, Submit).statusMessage == s.statusMessage
    ensures Readable(s.items) && s.statusMessage != ""
      ==> StatusLineOf(Step(s, Submit)) == Some(ServerMessage(s.statusMessage))
  {
    if Readable(s.items) {
      ReadableIsValid(s.items);
    }
  }

  /** After a cancel, no status request is sent until the next submit. */
  lemma CancelEndsPolling(s: JobState, evs: seq<Event>)
    requires WellFormed(s.items) && NoSubmit(evs)
    ensures PolledJobs(s, [Cancel] + evs) == []
  {
    var evs' := [Cancel] + evs;
    assert evs'[0] == Cancel && evs'[1..] == evs;
    StepKeepsWellFormed(s, Cancel);
    IdleStaysQuiet(Step(s, Cancel), evs);
  }

  /** A successful acknowledgement stores the job id and sets progress to 10, which starts polling. */
  lemma AckStartsPolling(s: JobState, id: string)
    requires WellFormed(s.items) && s.loading && id != ""
    ensures Step(s, Ack(SubmitAnswered(true, Some(id)))) == s.(jobId := Some(id), progress := 10)
    ensures PollingEnabled(Step(s, Ack(SubmitAnswered(true, Some(id)))))
  {
  }

  /**
   * A non-success acknowledgement changes nothing: `loading` stays set, and polling goes
   * on exactly as before, so on a first submit there is no job to poll.
   */
  lemma RejectedAckKeepsLoading(s: JobState, id: Option<string>)
    requires WellFormed(s.items) && s.loading
    ensures Step(s, Ack(SubmitAnswered(false, id))) == s
    ensures Step(s, Ack(SubmitAnswered(false, id))).loading
    ensures PollingEnabled(Step(s, Ack(SubmitAnswered(false, id)))) <==> HasJob(s)
    ensures s.jobId.None? ==> !PollingEnabled(Step(s, Ack(SubmitAnswered(false, id))))
  {
  }

  /** A thrown POST clears `loading`. */
  lemma FailedPostStopsLoading(s: JobState)
    requires WellFormed(s.items)
    ensures !Step(s, Ack(SubmitThrew)).loading
    ensures Step(s, Ack(SubmitThrew)).jobId == s.jobId
  {
  }

  /** A form with a row lacking a file is not submitted: the state does not change. */
  lemma InvalidFormNotSubmitted(s: JobState)
    requires WellFormed(s.items) && !Validate(s.items)
    ensures Step(s, Submit) == s
  {
  }

  /** A valid form whose files can all be read starts loading and clears earlier results. */
  lemma SubmitStartsLoading(s: JobState)
    requires WellFormed(s.items) && Readable(s.items)
    ensures var t := Step(s, Submit); t.loading && t.progress == 0 && t.results.None? && t.jobId == s.jobId
  {
    ReadableIsValid(s.items);
  }

  /** Two `running` replies and then `completed`: three requests for the job, then none. */
  lemma RunningTwiceThenCompleted(s: JobState, running: PollReply, done: PollReply, evs: seq<Event>)
    requires WellFormed(s.items) && PollingEnabled(s) && NoSubmit(evs)
    requires running.PollAnswered? && running.body.success && running.body.status == "running"
    requires done.PollAnswered? && done.body.success && done.body.status == Completed
    ensures PolledJobs(s, [Tick(running), Tick(running), Tick(done)] + evs)
      == [s.jobId.value, s.jobId.value, s.jobId.value]
    ensures Run(s, [Tick(running), Tick(running), Tick(done)]).results == Some(done.body)
  {
    var id := s.jobId.value;
    assert running.body.status != Completed && running.body.status != Failed by {
      assert running.body.status[0] != Completed[0] && running.body.status[0] != Failed[0];
    }
    OtherReplyKeepsPolling(s, running);
    var s1 := Step(s, Tick(running));
    OtherReplyKeepsPolling(s1, running);
    var s2 := Step(s1, Tick(running));
    var tail := [Tick(done)] + evs;
    TerminalReplyEndsPolling(s2, done, evs);
    var all := [Tick(running), Tick(running), Tick(done)] + evs;
    assert all[0] == Tick(running) && all[1..] == [Tick(running)] + tail;
    assert ([Tick(running)] + tail)[0] == Tick(running) && ([Tick(running)] + tail)[1..] == tail;
    var three := [Tick(running), Tick(running), Tick(done)];
    assert three[1..] == [Tick(running), Tick(done)] && three[1..][1..] == [Tick(done)];
    assert [Tick(done)][1..] == [];
    TerminalReplyStops(s2, done);
    StepKeepsWellFormed(s2, Tick(done));
    calc {
      Run(s, three);
      Run(s1, [Tick(running), Tick(done)]);
      Run(s2, [Tick(done)]);
      Step(s2, Tick(done));
    }
  }

  /**
   * A submit after a finished job does not clear the old job id, so a tick that comes
   * before the new job's acknowledgement polls the old job again.
   */
  lemma ResubmitPollsPreviousJob(s: JobState, reply: PollReply)
    requires WellFormed(s.items) && !s.loading && HasJob(s) && Readable(s.items)
    ensures PollingEnabled(Step(s, Submit))
    ensures PolledJobs(s, [Submit, Tick(reply)]) == [s.jobId.value]
  {
    ReadableIsValid(s.items);
    var evs := [Submit, Tick(reply)];
    assert evs[1..] == [Tick(reply)] && evs[1..][1..] == [];
    var t := Step(s, Submit);
    StepKeepsWellFormed(s, Submit);
    TickPollsOnlyWhenEnabled(t, reply);
    assert PolledJobs(s, evs) == PolledJobs(t, [Tick(reply)]);
  }

  /**
   * When the previous job's first reply after a resubmission is `completed`, it clears
   * `loading` and stores the previous job's results; the new job's acknowledgement then
   * stores the new id but does not turn polling back on.
   */
  lemma ResubmitEndsOnPreviousJob(s: JobState, prev: StatusBody, newId: string)
    requires WellFormed(s.items) && !s.loading && HasJob(s) && Readable(s.items) && newId != ""
    requires prev.success && prev.status == Completed
    ensures var t1 := Step(s, Submit);
      var t2 := Step(t1, Tick(PollAnswered(prev)));
      var t3 := Step(t2, Ack(SubmitAnswered(true, Some(newId))));
      t3.jobId == Some(newId) && !PollingEnabled(t3) && t3.results == Some(prev)
  {
    ReadableIsValid(s.items);
    var t1 := Step(s, Submit);
    assert t1.loading && t1.jobId == s.jobId && t1.items == s.items;
    var t2 := Step(t1, Tick(PollAnswered(prev)));
    assert !t2.loading && t2.results == Some(prev) && t2.items == s.items;
  }

  /** When the new job's acknowledgement comes before the first tick, that tick polls the new job. */
  lemma ResubmitAckFirstPollsNewJob(s: JobState, newId: string, reply: PollReply)
    requires WellFormed(s.items) && !s.loading && HasJob(s) && Readable(s.items) && newId != ""
    ensures PolledJobs(s, [Submit, Ack(SubmitAnswered(true, Some(newId))), Tick(reply)]) == [newId]
  {
    ReadableIsValid(s.items);
    var ack := Ack(SubmitAnswered(true, Some(newId)));
    var evs := [Submit, ack, Tick(reply)];
    assert evs[1..] == [ack, Tick(reply)] && evs[1..][1..] == [Tick(reply)] && evs[1..][1..][1..] == [];
    var t1 := Step(s, Submit);
    StepKeepsWellFormed(s, Submit);
    var t2 := Step(t1, ack);
    StepKeepsWellFormed(t1, ack);
    assert PollingEnabled(t2) && t2.jobId == Some(newId);
    assert PolledJobs(s, evs) == PolledJobs(t1, [ack, Tick(reply)]);
    assert PolledJobs(t1, [ack, Tick(reply)]) == PolledJobs(t2, [Tick(reply)]);
    TickPollsOnlyWhenEnabled(t2, reply);
  }

  /** A reply that settles after a cancel is still applied: a `completed` one stores its results. */
  lemma LateReplyAfterCancelApplied(s: JobState, reply: PollReply)
    requires WellFormed(s.items) && reply.PollAnswered? && reply.body.success && reply.body.status == Completed
    ensures var c := Step(Step(s, Cancel), LateReply(reply));
      c.results == Some(reply.body) && c.progress == OrZero(reply.body.progress) && !c.loading
  {
    InitialWellFormed();
  }

  /** The progress phase shown while loading and no status message is set. */
  datatype Stage = CheckingBrands | AnalysingPages | SavingData

  function StageRank(st: Stage): nat {
    match st
    case CheckingBrands => 0
    case AnalysingPages => 1
    case SavingData => 2
  }

  function StageFor(progress: int): Stage {
    if progress < 30 then CheckingBrands
    else if progress < 60 then AnalysingPages
    else SavingData
  }

  /** What the text under the progress bar shows: the server's message, or else the stage. */
  datatype StatusLine = ServerMessage(text: string) | StageText(stage: Stage)

  function StatusLineOf(s: JobState): (r: Option<StatusLine>)
    ensures r.Some? <==> s.loading
    ensures r.Some? && s.statusMessage != "" ==> r.value == ServerMessage(s.statusMessage)
    ensures r.Some? && s.statusMessage == "" ==> r.value == StageText(StageFor(s.progress))
  {
    if !s.loading then None
    else if s.statusMessage != "" then Some(ServerMessage(s.statusMessage))
    else Some(StageText(StageFor(s.progress)))
  }

  /** The stage never moves backwards as progress grows. */
  lemma StageMonotone(p: int, q: int)
    requires p <= q
    ensures StageRank(StageFor(p)) <= StageRank(StageFor(q))
  {
  }

  /** The thresholds: below 30, from 30 below 60, and from 60. */
  lemma StageThresholds(p: int)
    ensures StageFor(p) == CheckingBrands <==> p < 30
    ensures StageFor(p) == AnalysingPages <==> 30 <= p < 60
    ensures StageFor(p) == SavingData <==> 60 <= p
  {
  }

  /** With no message, the acknowledged progress of 10 shows the first stage. */
  lemma AckShowsFirstStage(s: JobState, id: string)
    requires WellFormed(s.items) && s.loading && s.statusMessage == "" && id != ""
    ensures StatusLineOf(Step(s, Ack(SubmitAnswered(true, Some(id))))) == Some(StageText(CheckingBrands))
  {
  }

  /**
   * The component: the state hooks as fields, each handler a method that updates them in
   * place. The entry list is never empty and its ids are unique.
   */
  class BulkScraping {
    var loading: bool
    var progress: int
    var jobId: Option<string>
    var results: Option<StatusBody>
    var statusMessage: string
    var brandItems: seq<BrandEntry>

    function State(): JobState
      reads this
    {
      JobState(loading, progress, jobId, results, statusMessage, brandItems)
    }

    predicate Valid()
      reads this
    {
      WellFormed(brandItems)
    }

    /** The initial values of the `useState` hooks. */
    constructor()
      ensures State() == Initial && Valid()
    {
      loading := false;
      progress := 0;
      jobId := None;
      results := None;
      statusMessage := "";
      brandItems := InitialEntries;
    }

    method HandleCancel()
      requires Valid()
      modifies this
      ensures State() == Step(old(State()), Cancel) && Valid()
    {
      loading := false;
      progress := 0;
      jobId := None;
      results := None;
      brandItems := InitialEntries;
    }

    method AddBrandItem()
      requires Valid()
      modifies this
      ensures State() == Step(old(State()), AddRow) && Valid()
    {
      AddKeepsWellFormed(brandItems);
      brandItems := AddItem(brandItems);
    }

    method RemoveBrandItem(id: int)
      requires Valid()
      modifies this
      ensures State() == Step(old(State()), RemoveRow(id)) && Valid()
    {
      RemoveKeepsWellFormed(brandItems, id);
      if |brandItems| > 1 {
        brandItems := WithoutId(brandItems, id);
      }
    }

    method UpdateBrandItem(id: int, edit: Edit)
      requires Valid()
      modifies this
      ensures State() == Step(old(State()), UpdateRow(id, edit)) && Valid()
    {
      UpdateKeepsWellFormed(brandItems, id, edit);
      brandItems := UpdateItem(brandItems, id, edit);
    }

    method HandleFileUpload(id: int, file: UploadedFile)
      requires Valid()
      modifies this
      ensures State() == Step(old(State()), UploadFile(id, file)) && Valid()
    {
      UploadKeepsWellFormed(brandItems, id, file);
      brandItems := FileUpload(brandItems, id, file);
    }

    /**
     * `handleSubmit` up to the POST: returns the request body it would send, or `None`
     * when validation fails or a file cannot be read.
     */
    method HandleSubmit(parseJson: string -> JsonOutcome) returns (request: Option<seq<BrandPayload>>)
      requires Valid()
      modifies this
      ensures State() == Step(old(State()), Submit) && Valid()
      ensures request.Some? <==> Readable(old(brandItems))
      ensures request.Some? ==> IsPayloadFor(old(brandItems), parseJson, request.value)
    {
      if !Validate(brandItems) {
        assert !Readable(brandItems);
        return None;
      }
      loading := true;
      progress := 0;
      results := None;
      request := BuildRequest(brandItems, parseJson);
      if request.None? {
        loading := false;
      }
    }

    /** The rest of `handleSubmit`, once the POST has settled. */
    method ReceiveAck(reply: SubmitReply)
      requires Valid()
      modifies this
      ensures State() == Step(old(State()), Ack(reply)) && Valid()
    {
      match reply {
        case SubmitThrew =>
          loading := false;
        case SubmitAnswered(success, id) =>
          if success {
            jobId := id;
            progress := 10;
          }
      }
    }

    /** The status reply handler: the body of the interval callback after `await`. */
    method ApplyPollReply(reply: PollReply)
      requires Valid()
      modifies this
      ensures State() == PollApplied(old(State()), reply) && Valid()
    {
      if reply.PollAnswered? && reply.body.success {
        var body := reply.body;
        progress := OrZero(body.progress);
        statusMessage := OrEmpty(body.message);
        if body.status == Completed {
          loading := false;
          results := Some(body);
        } else if body.status == Failed {
          loading := false;
        }
      }
    }

    /** One interval tick: returns the job id it sends a status request for, if any. */
    method Tick(reply: PollReply) returns (polled: Option<string>)
      requires Valid()
      modifies this
      ensures State() == Step(old(State()), Event.Tick(reply)) && Valid()
      ensures polled.Some? <==> PollingEnabled(old(State()))
      ensures polled.Some? ==> polled == old(jobId)
    {
      if jobId.Some? && jobId.value != "" && loading {
        polled := jobId;
        ApplyPollReply(reply);
      } else {
        polled := None;
      }
    }

    /** A status reply that settles after its interval was cleared. */
    method ReceiveLateReply(reply: PollReply)
      requires Valid()
      modifies this
      ensures State() == Step(old(State()), LateReply(reply)) && Valid()
    {
      ApplyPollReply(reply);
    }

    /** The text under the progress bar. */
    method CurrentStatusLine() returns (line: Option<StatusLine>)
      requires Valid()
      ensures line == StatusLineOf(State())
      ensures line.Some? <==> loading
    {
      if !loading {
        line := None;
      } else if statusMessage != "" {
        line := Some(ServerMessage(statusMessage));
      } else {
        line := Some(StageText(StageFor(progress)));
      }
    }
  }
}
