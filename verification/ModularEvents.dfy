/** The events a run of the modular pipeline logs (src/pipeline/modular_pipeline.cpp). */
module ModularEvents {
  import opened Decimal
  import opened DelimitedText
  import opened EventLog
  import opened ModularDisk

  /** Texts of keys and numbers. */
  predicate Tidy(s: string) {
    Without(s, 'q') && Without(s, '\n')
  }

  function Key(text: string, n: nat): string {
    text + ToDecimal(n)
  }

  function StartPayload(backends: nat, committed: nat, total: nat): string {
    Key("{\"backends\":\"", backends)
      + (Key("\",\"committed\":\"", committed) + (Key("\",\"total\":\"", total) + "\"}"))
  }

  function EndPayload(committed: nat, total: nat): string {
    Key("{\"committed\":\"", committed) + (Key("\",\"total\":\"", total) + "\"}")
  }

  /** event_payload */
  function BatchPayload(begin: nat, count: nat, inFlight: nat): string {
    Key("{\"begin\":\"", begin) + (Key("\",\"count\":\"", count) + (Key("\",\"in_flight\":\"", inFlight) + "\"}"))
  }

  lemma TidyKey(text: string, n: nat)
    requires Tidy(text)
    ensures Tidy(Key(text, n))
  {
  }

  function StartEvent(job: Job, committed: nat, utc: Utc): (e: Event)
    ensures Plain(e)
  {
    var payload := StartPayload(job.backends, committed, |job.tasks|);
    StartTidy(job.backends, committed, |job.tasks|);
    assert Tidy("pipeline_start") && Tidy("pipeline_resume");
    Event(if committed == 0 then "pipeline_start" else "pipeline_resume", payload, utc)
  }

  lemma StartTidy(backends: nat, committed: nat, total: nat)
    ensures Tidy(StartPayload(backends, committed, total))
  {
    hide Key;
    TidyKey("{\"backends\":\"", backends);
    TidyKey("\",\"committed\":\"", committed);
    TidyKey("\",\"total\":\"", total);
  }

  function SubmittedEvent(begin: nat, count: nat, inFlight: nat, utc: Utc): (e: Event)
    ensures Plain(e)
  {
    BatchTidy(begin, count, inFlight);
    assert Tidy("batch_submitted");
    Event("batch_submitted", BatchPayload(begin, count, inFlight), utc)
  }

  function CommittedEvent(begin: nat, count: nat, inFlight: nat, utc: Utc): (e: Event)
    ensures Plain(e)
  {
    BatchTidy(begin, count, inFlight);
    assert Tidy("batch_committed");
    Event("batch_committed", BatchPayload(begin, count, inFlight), utc)
  }

  lemma BatchTidy(begin: nat, count: nat, inFlight: nat)
    ensures Tidy(BatchPayload(begin, count, inFlight))
  {
    hide Key;
    TidyKey("{\"begin\":\"", begin);
    TidyKey("\",\"count\":\"", count);
    TidyKey("\",\"in_flight\":\"", inFlight);
  }

  function FailedEvent(committed: nat, utc: Utc): (e: Event)
    ensures Plain(e)
  {
    TidyKey("{\"committed\":\"", committed);
    assert Tidy("pipeline_failed");
    Event("pipeline_failed", Key("{\"committed\":\"", committed) + "\"}", utc)
  }

  function EndEvent(complete: bool, committed: nat, total: nat, utc: Utc): (e: Event)
    ensures Plain(e)
  {
    EndTidy(committed, total);
    assert Tidy("pipeline_complete") && Tidy("pipeline_stopped");
    Event(if complete then "pipeline_complete" else "pipeline_stopped", EndPayload(committed, total), utc)
  }

  lemma EndTidy(committed: nat, total: nat)
    ensures Tidy(EndPayload(committed, total))
  {
    hide Key;
    TidyKey("{\"committed\":\"", committed);
    TidyKey("\",\"total\":\"", total);
  }
}
