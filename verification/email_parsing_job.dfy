/** The parse worker of src/jobs/email-parsing.job.ts with the retry policy
    of src/jobs/queue.config.ts: each attempt parses the queued HTML and
    writes either the parsed fields with a success status, or a failed
    status with the error message; a failed attempt is retried up to three
    attempts in all. */
module ParseJob {
  import opened Common
  import opened Store
  import Parser
  import Ingestion

  /** `attempts: 3` in the queue's default job options. */
  const MaxAttempts: nat := 3

  /** Why an attempt failed: the parser's error, or the record being gone
      when the worker writes to it (an update of a missing row throws, in
      the `try` and again in the `catch`). */
  datatype Failure = ParseFailed(error: AppError) | RecordMissing

  datatype AttemptResult = Completed(newsletterId: string) | Threw(failure: Failure)

  datatype Attempt = Attempt(result: AttemptResult, store: Store)

  /** The worker never touches what identifies a newsletter, who owns it,
      what was received, or the reader's flags. */
  predicate SameDelivery(a: Newsletter, b: Newsletter) {
    && a.id == b.id && a.userId == b.userId && a.messageId == b.messageId
    && a.fromEmail == b.fromEmail && a.fromName == b.fromName && a.subject == b.subject
    && a.receivedAt == b.receivedAt && a.htmlContent == b.htmlContent
    && a.isRead == b.isRead && a.isArchived == b.isArchived
  }

  /** The success write: the parsed fields, `parsedAt` and the success
      status. A message left by an earlier failure stays in `parseError`. */
  function ParsedRecord(n: Newsletter, parsed: Parser.ParsedContent, nowMs: int): (r: Newsletter)
    ensures SameDelivery(n, r)
    ensures r.parseStatus == Success && r.parsedAt == Some(nowMs) && r.parseError == n.parseError
    ensures r.title == Some(parsed.title) && r.author == parsed.author
    ensures r.cleanContent == parsed.cleanContent && r.textContent == parsed.textContent
    ensures r.excerpt == Some(parsed.excerpt) && r.estimatedReadTime == Some(parsed.estimatedReadTime)
    ensures r.publication == parsed.publication
  {
    n.(title := Some(parsed.title), author := parsed.author, cleanContent := parsed.cleanContent,
       textContent := parsed.textContent, excerpt := Some(parsed.excerpt),
       estimatedReadTime := Some(parsed.estimatedReadTime), publication := parsed.publication,
       parsedAt := Some(nowMs), parseStatus := Success)
  }

  /** The failure write: the failed status and the error's message; every
      other field keeps whatever it held. */
  function FailedRecord(n: Newsletter, message: string): (r: Newsletter)
    ensures SameDelivery(n, r)
    ensures r.parseStatus == Failed && r.parseError == Some(message)
    ensures OnlyStatusChanged(n, r)
  {
    n.(parseStatus := Failed, parseError := Some(message))
  }

  /** `r` differs from `n` at most in the parse status and error. */
  predicate OnlyStatusChanged(n: Newsletter, r: Newsletter) {
    r.(parseStatus := n.parseStatus, parseError := n.parseError) == n
  }

  /** Only the record `id` may differ between the two stores. */
  predicate OnlyRecordChanged(s: Store, t: Store, id: string) {
    && t.users == s.users && t.subscriptions == s.subscriptions && t.queue == s.queue
    && t.newsletters.Keys == s.newsletters.Keys
    && (forall k :: k in s.newsletters && k != id ==> t.newsletters[k] == s.newsletters[k])
  }

  /** One attempt of the worker on `job`, at `nowMs`. Every error the parser
      raises is an `Error` instance, so the recorded message is its message
      and the 'Unknown error' fallback is never taken. */
  function RunAttempt(s: Store, job: Job, engine: Parser.Engine, nowMs: int): (a: Attempt)
    ensures job.newsletterId !in s.newsletters ==> a == Attempt(Threw(RecordMissing), s)
    ensures a.result.Completed? <==>
      job.newsletterId in s.newsletters && Parser.ParseNewsletterEmail(engine, job.html, job.fromEmail).Ok?
    ensures a.result.Completed? ==> a.result.newsletterId == job.newsletterId
    ensures OnlyRecordChanged(s, a.store, job.newsletterId)
    ensures job.newsletterId in s.newsletters ==>
      var before := s.newsletters[job.newsletterId];
      var after := a.store.newsletters[job.newsletterId];
      match Parser.ParseNewsletterEmail(engine, job.html, job.fromEmail)
      case Ok(parsed) => after == ParsedRecord(before, parsed, nowMs)
      case Err(e) =>
        && a.result == Threw(ParseFailed(e))
        && e.EmailParsing?
        && after == FailedRecord(before, e.message)
  {
    var id := job.newsletterId;
    if id !in s.newsletters then Attempt(Threw(RecordMissing), s)
    else
      match Parser.ParseNewsletterEmail(engine, job.html, job.fromEmail)
      case Ok(parsed) =>
        Attempt(Completed(id), s.(newsletters := s.newsletters[id := ParsedRecord(s.newsletters[id], parsed, nowMs)]))
      case Err(e) =>
        var message := MessageOf(ErrorValue(e.message), "Unknown error");
        Attempt(Threw(ParseFailed(e)), s.(newsletters := s.newsletters[id := FailedRecord(s.newsletters[id], message)]))
  }

  /** A failed attempt repeated at any later time fails the same way and
      leaves the store as the first one left it: the parse depends only on
      the job, and the failure write does not read the clock. */
  lemma {:induction false} FailedAttemptRepeats(s: Store, job: Job, engine: Parser.Engine, nowMs: int, laterMs: int)
    requires RunAttempt(s, job, engine, nowMs).result.Threw?
    ensures var first := RunAttempt(s, job, engine, nowMs);
      RunAttempt(first.store, job, engine, laterMs) == first
  {
    var first := RunAttempt(s, job, engine, nowMs);
    var id := job.newsletterId;
    if id in s.newsletters {
      var e := Parser.ParseNewsletterEmail(engine, job.html, job.fromEmail).error;
      var n := s.newsletters[id];
      assert first.store.newsletters[id] == FailedRecord(n, e.message);
      assert FailedRecord(FailedRecord(n, e.message), e.message) == FailedRecord(n, e.message);
      assert first.store.newsletters[id := FailedRecord(first.store.newsletters[id], e.message)] == first.store.newsletters;
    }
  }

  /** The job under the queue's retry policy: attempts run, at the given
      clock readings, until one completes or three have failed; the last
      attempt's outcome is the job's. */
  method RunJob(s: Store, job: Job, engine: Parser.Engine, clock: seq<int>)
    returns (attempts: nat, last: AttemptResult, t: Store)
    requires |clock| == MaxAttempts
    ensures 1 <= attempts <= MaxAttempts
    ensures last == RunAttempt(s, job, engine, clock[0]).result
    ensures t == RunAttempt(s, job, engine, clock[0]).store
    ensures last.Completed? <==> attempts == 1 && RunAttempt(s, job, engine, clock[0]).result.Completed?
    ensures last.Threw? ==> attempts == MaxAttempts
  {
    var first := RunAttempt(s, job, engine, clock[0]);
    attempts, last, t := 1, first.result, first.store;
    while last.Threw? && attempts < MaxAttempts
      invariant 1 <= attempts <= MaxAttempts
      invariant last == first.result && t == first.store
      invariant last.Completed? ==> attempts == 1
      decreases MaxAttempts - attempts
    {
      FailedAttemptRepeats(s, job, engine, clock[0], clock[attempts]);
      var next := RunAttempt(t, job, engine, clock[attempts]);
      attempts, last, t := attempts + 1, next.result, next.store;
    }
  }

  /** The job ingestion queues finds its record, so its worker either
      completes or records the parser's failure on that record. */
  lemma QueuedJobFindsRecord(s: Store, p: Ingestion.Payload, nowMs: nat, newsletterId: string,
                             subscriptionId: string, engine: Parser.Engine, parseMs: int)
    requires SubscriptionsUnique(s.subscriptions)
    requires newsletterId !in s.newsletters && subscriptionId !in s.subscriptions
    requires Ingestion.ProcessIncomingEmail(s, p, nowMs, newsletterId, subscriptionId).result == Ok(Ingestion.Queued(newsletterId))
    ensures var t := Ingestion.ProcessIncomingEmail(s, p, nowMs, newsletterId, subscriptionId).store;
      var a := RunAttempt(t, t.queue[|t.queue| - 1], engine, parseMs);
      && a.result != Threw(RecordMissing)
      && a.store.newsletters[newsletterId].parseStatus != Pending
  {
    Ingestion.QueuedJobMatchesRecord(s, p, nowMs, newsletterId, subscriptionId);
  }
}
