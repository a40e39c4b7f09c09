/**
  * analysis_service/main.py with the table of analysis_service/database.py: the follow-up
  * records of the memory service, the periodic job that sends the due ones, the `sync-chat`
  * endpoint that may schedule one, and the `pending-tasks` listing.
  *
  * The database is a sequence of records held by FollowUpDb. The risk model, the follow-up
  * planner and the title generator are oracles passed in as results (an `Err` stands for an
  * exception they raise), the e-mail service is a boolean oracle per record, and the clock is
  * a parameter counted in seconds.
  *
  * Which columns the table has is a parameter too (`Schema`): the table as declared has no
  * `user_email` column although both code paths use one, and `AS_DECLARED` and `WITH_EMAIL`
  * are the two cases.
  */
module FollowUpService {
  import opened Wrappers
  import Seqs

  const SECONDS_PER_HOUR: nat := 3600
  /** What SQLAlchemy's constructor raises for a keyword that is not a column. */
  const INVALID_KEYWORD_ERROR: string := "'user_email' is an invalid keyword argument for ScheduledFollowUp"

  /** The status column's values. */
  datatype Status = Pending | Sent | Failed | FailedNoEmail | Cancelled

  /** A row of `scheduled_followups`; `email` is the `user_email` attribute. */
  datatype FollowUp = FollowUp(
    userId: string,
    email: Option<string>,
    topic: string,
    contextSummary: string,
    emailContent: string,
    createdAt: int,
    scheduledTime: int,
    status: Status)

  /** Whether the table has a `user_email` column. */
  datatype Schema = Schema(hasEmailColumn: bool)

  /** The table as database.py declares it. */
  const AS_DECLARED: Schema := Schema(false)
  /** The table with the column both code paths expect. */
  const WITH_EMAIL: Schema := Schema(true)

  /** One entry of the posted history. */
  datatype Turn = Turn(role: string, text: string)

  /** The fields of the risk model's report. */
  datatype RiskAssessment = RiskAssessment(isCritical: bool, riskLevel: string, needsFollowup: bool, summary: string, recommendedAction: string)

  /** The follow-up planner's answer. */
  datatype FollowUpPlan = FollowUpPlan(needsFollowup: bool, topic: string, contextSummary: string, suggestedDelayHours: int, emailDraft: string)

  /** `results["scheduled_followup"]`. */
  datatype Scheduled = Scheduled(topic: string, time: int)

  /** The `results` dictionary of `sync_chat_history`; an absent key is None. */
  datatype SyncResult = SyncResult(
    riskAssessment: Option<RiskAssessment>,
    riskError: Option<string>,
    followupPlan: Option<FollowUpPlan>,
    scheduled: Option<Scheduled>,
    followupError: Option<string>,
    suggestedTitle: Option<string>)

  // ---------------------------------------------------------------- the scheduler rule

  /** Python truthiness of an optional string. */
  predicate Truthy(s: Option<string>) {
    s.Some? && s.value != ""
  }

  /** The job's query: pending and scheduled no later than now. */
  predicate Due(r: FollowUp, now: int) {
    r.status == Pending && r.scheduledTime <= now
  }

  /** The status a due record gets: sent or failed by the send's outcome when it has an
      address, `failed_no_email` without one. */
  function Outcome(r: FollowUp, delivered: bool): Status {
    if Truthy(r.email) then (if delivered then Sent else Failed) else FailedNoEmail
  }

  /** Every due record with its new status; the others as they were. */
  function Processed(records: seq<FollowUp>, now: int, send: FollowUp -> bool): seq<FollowUp> {
    seq(|records|, i requires 0 <= i < |records| =>
      if Due(records[i], now) then records[i].(status := Outcome(records[i], send(records[i]))) else records[i])
  }

  /** The addresses the job sends to, in table order. */
  function Attempted(records: seq<FollowUp>, now: int): seq<string>
    decreases |records|
  {
    if records == [] then []
    else
      var last := records[|records| - 1];
      Attempted(records[..|records| - 1], now) + (if Due(last, now) && Truthy(last.email) then [last.email.value] else [])
  }

  /** The job stops at its first due record when the table has no address column: building
      the log line reads the missing attribute, and nothing is committed. */
  predicate Aborts(records: seq<FollowUp>, now: int, schema: Schema) {
    !schema.hasEmailColumn && exists i :: 0 <= i < |records| && Due(records[i], now)
  }

  /** The job touches exactly the due records, moves each out of `pending` to the status its
      address and send decide, and keeps every other field; running it again at the same time
      changes nothing. */
  lemma ProcessedSpec(records: seq<FollowUp>, now: int, send: FollowUp -> bool)
    ensures var r := Processed(records, now, send);
            && |r| == |records|
            && (forall i :: 0 <= i < |r| && !Due(records[i], now) ==> r[i] == records[i])
            && (forall i :: 0 <= i < |r| && Due(records[i], now) ==>
                  && r[i].(status := Pending) == records[i]
                  && r[i].status in {Sent, Failed, FailedNoEmail}
                  && (r[i].status == FailedNoEmail <==> !Truthy(records[i].email)))
            && Processed(r, now, send) == r
  {
  }

  /** An address is sent to only for a due record that has one. */
  lemma {:induction false} AttemptedSpec(records: seq<FollowUp>, now: int)
    ensures forall a :: a in Attempted(records, now) <==>
              exists i :: 0 <= i < |records| && Due(records[i], now) && Truthy(records[i].email) && records[i].email.value == a
    decreases |records|
  {
    if records != [] {
      var init := records[..|records| - 1];
      AttemptedSpec(init, now);
      assert forall i :: 0 <= i < |init| ==> init[i] == records[i];
    }
  }

  /** `get_pending_tasks`. */
  function PendingTasks(records: seq<FollowUp>): seq<FollowUp> {
    Seqs.Filter(records, IsPending())
  }

  /** The query's condition: `status = 'pending'`. */
  function IsPending(): FollowUp -> bool {
    (r: FollowUp) => r.status == Pending
  }

  /** The listing holds exactly the pending records, in table order. */
  lemma PendingTasksSpec(records: seq<FollowUp>)
    ensures forall r :: r in PendingTasks(records) <==> r in records && r.status == Pending
    ensures |PendingTasks(records)| <= |records|
  {
    Seqs.FilterMembers(records, IsPending());
  }

  /** After a committed run nothing due at that time is still listed as pending. */
  lemma NothingDueAfterRun(records: seq<FollowUp>, now: int, send: FollowUp -> bool)
    ensures forall r :: r in PendingTasks(Processed(records, now, send)) ==> r.scheduledTime > now
  {
    var p := Processed(records, now, send);
    ProcessedSpec(records, now, send);
    PendingTasksSpec(p);
  }

  // ---------------------------------------------------------------- sync-chat

  /** The record `sync_chat_history` builds for a plan that needs a follow-up. */
  function NewFollowUp(userId: string, email: Option<string>, plan: FollowUpPlan, now: int): FollowUp {
    FollowUp(userId, email, plan.topic, plan.contextSummary, plan.emailDraft, now,
             now + plan.suggestedDelayHours * SECONDS_PER_HOUR, Pending)
  }

  /** Whether the planner asked for a follow-up. */
  predicate WantsFollowUp(plan: Result<FollowUpPlan, string>) {
    plan.Ok? && plan.value.needsFollowup
  }

  /** The rows `sync_chat_history` adds: one for a plan that needs a follow-up, none when
      the constructor refuses the `user_email` keyword. */
  function NewRecords(userId: string, email: Option<string>, plan: Result<FollowUpPlan, string>, now: int,
                      schema: Schema): seq<FollowUp>
  {
    if WantsFollowUp(plan) && schema.hasEmailColumn then [NewFollowUp(userId, email, plan.value, now)] else []
  }

  /** The endpoint's answer for the given oracle outcomes. */
  function SyncResultFor(history: seq<Turn>, plan: Result<FollowUpPlan, string>, risk: Result<RiskAssessment, string>,
                         title: Result<string, string>, now: int, schema: Schema): SyncResult
  {
    SyncResult(
      if risk.Ok? then Some(risk.value) else None,
      if risk.Err? then Some(risk.error) else None,
      if plan.Ok? then Some(plan.value) else None,
      if WantsFollowUp(plan) && schema.hasEmailColumn
      then Some(Scheduled(plan.value.topic, now + plan.value.suggestedDelayHours * SECONDS_PER_HOUR)) else None,
      if plan.Err? then Some(plan.error)
      else if WantsFollowUp(plan) && !schema.hasEmailColumn then Some(INVALID_KEYWORD_ERROR) else None,
      if |history| >= 2 && title.Ok? then Some(title.value) else None)
  }

  /** The answer never aborts on an analysis failure: each failure is reported under its own
      key, a follow-up is scheduled exactly when a row is added, and a title is offered only
      for a history of at least two entries. */
  lemma SyncResultSpec(userId: string, email: Option<string>, history: seq<Turn>, plan: Result<FollowUpPlan, string>,
                       risk: Result<RiskAssessment, string>, title: Result<string, string>, now: int, schema: Schema)
    ensures var r := SyncResultFor(history, plan, risk, title, now, schema);
            var added := NewRecords(userId, email, plan, now, schema);
            && (r.riskAssessment.Some? <==> r.riskError.None?)
            && (plan.Err? ==> r.followupError == Some(plan.error) && r.followupPlan.None?)
            && (r.scheduled.Some? <==> |added| == 1)
            && (r.scheduled.None? <==> added == [])
            && (|added| == 1 ==> added[0].status == Pending && r.scheduled.value.time == added[0].scheduledTime)
            && (r.suggestedTitle.Some? ==> |history| >= 2)
  {
  }

  /** As declared, the table makes the endpoint fail every follow-up it should schedule:
      the plan is returned with an error and no row is added. */
  lemma AsDeclaredNeverSchedules(userId: string, email: Option<string>, history: seq<Turn>, plan: Result<FollowUpPlan, string>,
                                 risk: Result<RiskAssessment, string>, title: Result<string, string>, now: int)
    requires WantsFollowUp(plan)
    ensures NewRecords(userId, email, plan, now, AS_DECLARED) == []
    ensures SyncResultFor(history, plan, risk, title, now, AS_DECLARED).followupError == Some(INVALID_KEYWORD_ERROR)
    ensures SyncResultFor(history, plan, risk, title, now, AS_DECLARED).scheduled.None?
  {
  }

  /** As declared, the table makes the job abort on any due record, so nothing due is ever
      sent or moved out of `pending`. */
  lemma AsDeclaredNeverSends(records: seq<FollowUp>, now: int, i: nat)
    requires i < |records| && Due(records[i], now)
    ensures Aborts(records, now, AS_DECLARED)
  {
  }

  /** With the column, a plan that needs a follow-up adds one pending row for the user and
      address, due the suggested number of hours later, and a job run at that time or later
      sends it (or marks it `failed_no_email`). */
  lemma WithEmailSchedulesAndSends(userId: string, email: Option<string>, plan: FollowUpPlan, now: int,
                                   later: int, send: FollowUp -> bool)
    requires plan.needsFollowup
    requires later >= now + plan.suggestedDelayHours * SECONDS_PER_HOUR
    ensures var added := NewRecords(userId, email, Ok(plan), now, WITH_EMAIL);
            && |added| == 1 && added[0].userId == userId && added[0].email == email && added[0].status == Pending
            && !Aborts(added, later, WITH_EMAIL)
            && Processed(added, later, send)[0].status == Outcome(added[0], send(added[0]))
            && (Truthy(email) ==> Attempted(added, later) == [email.value])
  {
    var added := NewRecords(userId, email, Ok(plan), now, WITH_EMAIL);
    assert added[..0] == [];
  }

  // ---------------------------------------------------------------- the database

  class FollowUpDb {
    var records: seq<FollowUp>
    const schema: Schema

    constructor (schema: Schema, records: seq<FollowUp>)
      ensures this.schema == schema && this.records == records
    {
      this.schema := schema;
      this.records := records;
    }

    /** `check_for_due_followups` at time `now`: each due record in turn gets its new
      status, and the run is committed; a run that fails part-way commits nothing. */
    method CheckForDueFollowUps(now: int, send: FollowUp -> bool) returns (sentTo: seq<string>, aborted: bool)
      modifies this
      ensures aborted == Aborts(old(records), now, schema)
      ensures aborted ==> records == old(records) && sentTo == []
      ensures !aborted ==> records == Processed(old(records), now, send) && sentTo == Attempted(old(records), now)
    {
      var updated: seq<FollowUp> := [];
      sentTo := [];
      var i := 0;
      while i < |records|
        invariant 0 <= i <= |records| && records == old(records)
        invariant |updated| == i
        invariant forall j :: 0 <= j < i ==> updated[j] == Processed(records, now, send)[j]
        invariant !schema.hasEmailColumn ==> forall j :: 0 <= j < i ==> !Due(records[j], now)
        invariant sentTo == Attempted(records[..i], now)
      {
        var item := records[i];
        assert records[..i + 1][..i] == records[..i];
        if Due(item, now) {
          if !schema.hasEmailColumn {
            sentTo := [];
            aborted := true;
            return;
          }
          var status: Status;
          if Truthy(item.email) {
            var delivered := send(item);
            sentTo := sentTo + [item.email.value];
            status := if delivered then Sent else Failed;
          } else {
            status := FailedNoEmail;
          }
          updated := updated + [item.(status := status)];
        } else {
          updated := updated + [item];
        }
        i := i + 1;
      }
      assert records[..i] == records;
      records := updated;
      aborted := false;
    }

    /** `sync_chat_history` at time `now`, with the oracles' outcomes: the answer is filled in
      step by step, and a row is added when a follow-up is scheduled. */
    method SyncChat(userId: string, history: seq<Turn>, email: Option<string>, now: int,
                    risk: Result<RiskAssessment, string>, plan: Result<FollowUpPlan, string>,
                    title: Result<string, string>)
      returns (result: SyncResult)
      modifies this
      ensures result == SyncResultFor(history, plan, risk, title, now, schema)
      ensures records == old(records) + NewRecords(userId, email, plan, now, schema)
    {
      result := SyncResult(None, None, None, None, None, None);
      match risk {
        case Ok(assessment) => result := result.(riskAssessment := Some(assessment));
        case Err(e) => result := result.(riskError := Some(e));
      }
      match plan {
        case Err(e) =>
          result := result.(followupError := Some(e));
        case Ok(p) =>
          result := result.(followupPlan := Some(p));
          if p.needsFollowup {
            var triggerTime := now + p.suggestedDelayHours * SECONDS_PER_HOUR;
            if !schema.hasEmailColumn {
              result := result.(followupError := Some(INVALID_KEYWORD_ERROR));
            } else {
              records := records + [NewFollowUp(userId, email, p, now)];
              result := result.(scheduled := Some(Scheduled(p.topic, triggerTime)));
            }
          }
      }
      if |history| >= 2 {
        if title.Ok? {
          result := result.(suggestedTitle := Some(title.value));
        }
      }
    }
  }
}
