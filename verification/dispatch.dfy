/** The send loop `send_emails_with_report`: one message per recipient in
    loader order, a per-department tally of successful sends, and a fixed
    pause after each success only. Whether a send succeeds is decided by the
    mail relay, which the model takes as an oracle: one outcome per recipient. */
module Dispatch {
  import opened Wrappers
  import opened Strings
  import opened Recipients
  import opened Template

  /** Seconds paused after every successful send. */
  const DelayBetweenEmails: nat := 5

  /** The message `send_email` hands to the relay. */
  datatype Message = Message(sender: string, to: string, subject: string, html: string)

  /** What the loop does, in order: try to send a message (and learn whether
      it went out), or pause. */
  datatype Event = Attempt(message: Message, delivered: bool) | Sleep(seconds: nat)

  /** The message `send_email` builds for one recipient: from the SMTP user
      to the recipient under the template subject, with the template body
      personalised for the recipient and ending in the beacon tag. */
  function Compose(sender: string, recipient: Row, subject: string, bodyTemplate: string): (m: Message)
    ensures m.to == recipient.email && m.sender == sender && m.subject == subject
    ensures m.html == RenderBody(bodyTemplate, recipient.name, recipient.departmentCode)
    ensures EndsWith(m.html, BeaconTag)
  {
    Message(sender, recipient.email, subject,
            RenderBody(bodyTemplate, recipient.name, recipient.departmentCode))
  }

  /** `sent_count.get(d, 0)`. */
  function Get(m: map<string, int>, d: string): (c: int) {
    if d in m then m[d] else 0
  }

  /** The number of recipients of department `d` whose send succeeded. */
  function SentTo(recipients: seq<Row>, outcomes: seq<bool>, d: string): (c: nat)
    requires |outcomes| == |recipients|
  {
    if |recipients| == 0 then 0
    else
      var n := |recipients| - 1;
      SentTo(recipients[..n], outcomes[..n], d)
        + (if outcomes[n] && recipients[n].departmentCode == d then 1 else 0)
  }

  /** The number of successful sends. */
  function CountTrue(outcomes: seq<bool>): (c: nat)
    ensures c <= |outcomes|
  {
    if |outcomes| == 0 then 0
    else CountTrue(outcomes[..|outcomes| - 1]) + (if outcomes[|outcomes| - 1] then 1 else 0)
  }

  /** The attempts in a trace, in order. */
  function Attempts(trace: seq<Event>): (r: seq<Event>) {
    if |trace| == 0 then []
    else
      var last := trace[|trace| - 1];
      Attempts(trace[..|trace| - 1]) + (if last.Attempt? then [last] else [])
  }

  /** The number of pauses in a trace. */
  function Sleeps(trace: seq<Event>): (c: nat) {
    if |trace| == 0 then 0
    else Sleeps(trace[..|trace| - 1]) + (if trace[|trace| - 1].Sleep? then 1 else 0)
  }

  /** The sum of the counts in a tally. */
  ghost function Total(m: map<string, int>): (t: int)
    decreases m.Keys
  {
    if m.Keys == {} then 0
    else
      var k :| k in m.Keys;
      m[k] + Total(m - {k})
  }

  /** The sum does not depend on which key is taken first. */
  lemma {:induction false} TotalWithout(m: map<string, int>, k: string)
    requires k in m
    ensures Total(m) == m[k] + Total(m - {k})
    decreases m.Keys
  {
    var k' :| k' in m.Keys && Total(m) == m[k'] + Total(m - {k'});
    if k' != k {
      var m1 := m - {k'};
      var m2 := m - {k};
      TotalWithout(m1, k);
      TotalWithout(m2, k');
      assert m1 - {k} == m2 - {k'};
    }
  }

  /** Adding one to a key's count adds one to the sum. */
  lemma TotalIncrement(m: map<string, int>, d: string)
    ensures Total(m[d := Get(m, d) + 1]) == Total(m) + 1
  {
    var m' := m[d := Get(m, d) + 1];
    TotalWithout(m', d);
    assert m' - {d} == m - {d};
    if d in m {
      TotalWithout(m, d);
    } else {
      assert m - {d} == m;
    }
  }

  lemma SentToStep(recipients: seq<Row>, outcomes: seq<bool>, i: nat, d: string)
    requires |outcomes| == |recipients| && i < |recipients|
    ensures SentTo(recipients[..i + 1], outcomes[..i + 1], d)
         == SentTo(recipients[..i], outcomes[..i], d)
            + (if outcomes[i] && recipients[i].departmentCode == d then 1 else 0)
  {
    assert recipients[..i + 1][..i] == recipients[..i];
    assert outcomes[..i + 1][..i] == outcomes[..i];
  }

  lemma CountTrueStep(outcomes: seq<bool>, i: nat)
    requires i < |outcomes|
    ensures CountTrue(outcomes[..i + 1]) == CountTrue(outcomes[..i]) + (if outcomes[i] then 1 else 0)
  {
    assert outcomes[..i + 1][..i] == outcomes[..i];
  }

  /** The attempts the loop makes, in order, when the outcomes are known:
      one per recipient. */
  function Outbox(recipients: seq<Row>, outcomes: seq<bool>, subject: string,
                  bodyTemplate: string, smtpUser: string): (r: seq<Event>)
    requires |outcomes| == |recipients|
    ensures |r| == |recipients|
    ensures forall k :: 0 <= k < |r| ==>
      r[k] == Attempt(Compose(smtpUser, recipients[k], subject, bodyTemplate), outcomes[k])
  {
    seq(|recipients|, k requires 0 <= k < |recipients| =>
      Attempt(Compose(smtpUser, recipients[k], subject, bodyTemplate), outcomes[k]))
  }

  lemma OutboxStep(recipients: seq<Row>, outcomes: seq<bool>, subject: string,
                   bodyTemplate: string, smtpUser: string, i: nat)
    requires |outcomes| == |recipients| && i < |recipients|
    ensures Outbox(recipients[..i + 1], outcomes[..i + 1], subject, bodyTemplate, smtpUser)
         == Outbox(recipients[..i], outcomes[..i], subject, bodyTemplate, smtpUser)
            + [Attempt(Compose(smtpUser, recipients[i], subject, bodyTemplate), outcomes[i])]
  {
  }

  /** The events of one iteration: the attempt, then a pause if it went out. */
  function StepEvents(message: Message, delivered: bool): (r: seq<Event>) {
    [Attempt(message, delivered)] + (if delivered then [Sleep(DelayBetweenEmails)] else [])
  }

  /** Every pause lasts the fixed delay and directly follows a successful
      attempt, and every successful attempt is directly followed by a pause. */
  ghost predicate Paced(trace: seq<Event>) {
    && (forall p :: 0 <= p < |trace| && trace[p].Sleep? ==>
          trace[p].seconds == DelayBetweenEmails && 0 < p && trace[p - 1].Attempt? && trace[p - 1].delivered)
    && (forall p :: 0 <= p < |trace| && trace[p].Attempt? && trace[p].delivered ==>
          p + 1 < |trace| && trace[p + 1] == Sleep(DelayBetweenEmails))
  }

  lemma TraceStep(trace: seq<Event>, message: Message, delivered: bool)
    ensures Attempts(trace + StepEvents(message, delivered)) == Attempts(trace) + [Attempt(message, delivered)]
    ensures Sleeps(trace + StepEvents(message, delivered)) == Sleeps(trace) + (if delivered then 1 else 0)
    ensures Paced(trace) ==> Paced(trace + StepEvents(message, delivered))
  {
    var a := trace + [Attempt(message, delivered)];
    assert a[..|trace|] == trace;
    if delivered {
      var t := a + [Sleep(DelayBetweenEmails)];
      assert t[..|a|] == a;
      assert t == trace + StepEvents(message, delivered);
    } else {
      assert a == trace + StepEvents(message, delivered);
    }
  }

  /** One more recipient in the tally: the counts stay those of `SentTo`,
      every key keeps a positive count, and the sum stays the number of
      successes. */
  lemma TallyStep(before: map<string, int>, after: map<string, int>,
                  recipients: seq<Row>, outcomes: seq<bool>, i: nat)
    requires |outcomes| == |recipients| && i < |recipients|
    requires forall d :: Get(before, d) == SentTo(recipients[..i], outcomes[..i], d)
    requires forall d :: d in before ==> before[d] > 0
    requires Total(before) == CountTrue(outcomes[..i])
    requires after == if outcomes[i] then
      before[recipients[i].departmentCode := Get(before, recipients[i].departmentCode) + 1] else before
    ensures forall d :: Get(after, d) == SentTo(recipients[..i + 1], outcomes[..i + 1], d)
    ensures forall d :: d in after ==> after[d] > 0
    ensures Total(after) == CountTrue(outcomes[..i + 1])
  {
    forall d
      ensures Get(after, d) == SentTo(recipients[..i + 1], outcomes[..i + 1], d)
    {
      SentToStep(recipients, outcomes, i, d);
    }
    CountTrueStep(outcomes, i);
    if outcomes[i] {
      TotalIncrement(before, recipients[i].departmentCode);
    }
  }

  /** The events of a whole run, in order: for each recipient the attempt,
      followed by a pause when it went out. */
  function Schedule(recipients: seq<Row>, outcomes: seq<bool>, subject: string,
                    bodyTemplate: string, smtpUser: string): (r: seq<Event>)
    requires |outcomes| == |recipients|
  {
    if |recipients| == 0 then []
    else
      var n := |recipients| - 1;
      Schedule(recipients[..n], outcomes[..n], subject, bodyTemplate, smtpUser)
        + StepEvents(Compose(smtpUser, recipients[n], subject, bodyTemplate), outcomes[n])
  }

  lemma ScheduleStep(recipients: seq<Row>, outcomes: seq<bool>, subject: string,
                     bodyTemplate: string, smtpUser: string, i: nat)
    requires |outcomes| == |recipients| && i < |recipients|
    ensures Schedule(recipients[..i + 1], outcomes[..i + 1], subject, bodyTemplate, smtpUser)
         == Schedule(recipients[..i], outcomes[..i], subject, bodyTemplate, smtpUser)
            + StepEvents(Compose(smtpUser, recipients[i], subject, bodyTemplate), outcomes[i])
  {
    assert recipients[..i + 1][..i] == recipients[..i];
    assert outcomes[..i + 1][..i] == outcomes[..i];
  }

  /** A run makes exactly one attempt per recipient, in order, and pauses
      once per successful send. */
  lemma {:induction false} ScheduleCounts(recipients: seq<Row>, outcomes: seq<bool>, subject: string,
                                         bodyTemplate: string, smtpUser: string)
    requires |outcomes| == |recipients|
    ensures var trace := Schedule(recipients, outcomes, subject, bodyTemplate, smtpUser);
      && Attempts(trace) == Outbox(recipients, outcomes, subject, bodyTemplate, smtpUser)
      && Sleeps(trace) == CountTrue(outcomes)
    decreases |recipients|
  {
    if |recipients| > 0 {
      var n := |recipients| - 1;
      var (rs, os) := (recipients[..n], outcomes[..n]);
      var message := Compose(smtpUser, recipients[n], subject, bodyTemplate);
      var prev := Schedule(rs, os, subject, bodyTemplate, smtpUser);
      var trace := Schedule(recipients, outcomes, subject, bodyTemplate, smtpUser);
      assert trace == prev + StepEvents(message, outcomes[n]);
      assert CountTrue(outcomes) == CountTrue(os) + (if outcomes[n] then 1 else 0);
      ScheduleCounts(rs, os, subject, bodyTemplate, smtpUser);
      TraceStep(prev, message, outcomes[n]);
      assert Outbox(recipients, outcomes, subject, bodyTemplate, smtpUser)
          == Outbox(rs, os, subject, bodyTemplate, smtpUser) + [Attempt(message, outcomes[n])] by {
        OutboxStep(recipients, outcomes, subject, bodyTemplate, smtpUser, n);
        assert recipients[..n + 1] == recipients && outcomes[..n + 1] == outcomes;
      }
    }
  }

  /** Every pause of a run lasts the fixed delay and directly follows a
      success, and every success is directly followed by a pause. */
  lemma {:induction false} SchedulePaced(recipients: seq<Row>, outcomes: seq<bool>, subject: string,
                                        bodyTemplate: string, smtpUser: string)
    requires |outcomes| == |recipients|
    ensures Paced(Schedule(recipients, outcomes, subject, bodyTemplate, smtpUser))
    decreases |recipients|
  {
    if |recipients| > 0 {
      var n := |recipients| - 1;
      var (rs, os) := (recipients[..n], outcomes[..n]);
      SchedulePaced(rs, os, subject, bodyTemplate, smtpUser);
      TraceStep(Schedule(rs, os, subject, bodyTemplate, smtpUser),
                Compose(smtpUser, recipients[n], subject, bodyTemplate), outcomes[n]);
    } else {
      assert Paced([]);
    }
  }

  /** A run makes exactly one attempt per recipient, in order, pauses once
      per successful send, and paces its sends. */
  lemma ScheduleIsPaced(recipients: seq<Row>, outcomes: seq<bool>, subject: string,
                        bodyTemplate: string, smtpUser: string)
    requires |outcomes| == |recipients|
    ensures var trace := Schedule(recipients, outcomes, subject, bodyTemplate, smtpUser);
      && Attempts(trace) == Outbox(recipients, outcomes, subject, bodyTemplate, smtpUser)
      && Sleeps(trace) == CountTrue(outcomes)
      && Paced(trace)
  {
    ScheduleCounts(recipients, outcomes, subject, bodyTemplate, smtpUser);
    SchedulePaced(recipients, outcomes, subject, bodyTemplate, smtpUser);
  }

  /** What the loop has done once it has handled `recipients` with
      `outcomes`: the tally holds the positive per-department success counts
      and sums to the number of successes, and the trace is the schedule so
      far. */
  ghost predicate Progress(recipients: seq<Row>, outcomes: seq<bool>, subject: string,
                           bodyTemplate: string, smtpUser: string,
                           sentCount: map<string, int>, trace: seq<Event>)
    requires |outcomes| == |recipients|
  {
    && (forall d :: Get(sentCount, d) == SentTo(recipients, outcomes, d))
    && (forall d :: d in sentCount ==> sentCount[d] > 0)
    && Total(sentCount) == CountTrue(outcomes)
    && trace == Schedule(recipients, outcomes, subject, bodyTemplate, smtpUser)
  }

  /** One pass of the send loop extends its progress by one recipient. */
  lemma LoopStep(recipients: seq<Row>, outcomes: seq<bool>, subject: string,
                 bodyTemplate: string, smtpUser: string, i: nat,
                 before: map<string, int>, after: map<string, int>, trace: seq<Event>)
    requires |outcomes| == |recipients| && i < |recipients|
    requires Progress(recipients[..i], outcomes[..i], subject, bodyTemplate, smtpUser, before, trace)
    requires after == if outcomes[i] then
      before[recipients[i].departmentCode := Get(before, recipients[i].departmentCode) + 1] else before
    ensures Progress(recipients[..i + 1], outcomes[..i + 1], subject, bodyTemplate, smtpUser, after,
                     trace + StepEvents(Compose(smtpUser, recipients[i], subject, bodyTemplate), outcomes[i]))
  {
    ScheduleStep(recipients, outcomes, subject, bodyTemplate, smtpUser, i);
    TallyStep(before, after, recipients, outcomes, i);
  }

  /** Before the loop nothing has been done: an empty tally and trace. */
  lemma LoopEntry(recipients: seq<Row>, outcomes: seq<bool>, subject: string,
                  bodyTemplate: string, smtpUser: string)
    requires |outcomes| == |recipients|
    ensures Progress(recipients[..0], outcomes[..0], subject, bodyTemplate, smtpUser, map[], [])
  {
    assert Total(map[]) == 0;
  }

  /** After the loop the progress covers every recipient. */
  lemma LoopExit(recipients: seq<Row>, outcomes: seq<bool>, subject: string,
                 bodyTemplate: string, smtpUser: string,
                 sentCount: map<string, int>, trace: seq<Event>)
    requires |outcomes| == |recipients|
    requires Progress(recipients[..|recipients|], outcomes[..|outcomes|], subject, bodyTemplate, smtpUser, sentCount, trace)
    ensures forall d :: d in sentCount <==> SentTo(recipients, outcomes, d) > 0
    ensures forall d :: d in sentCount ==> sentCount[d] == SentTo(recipients, outcomes, d)
    ensures Total(sentCount) == CountTrue(outcomes)
    ensures trace == Schedule(recipients, outcomes, subject, bodyTemplate, smtpUser)
  {
    assert recipients[..|recipients|] == recipients;
    assert outcomes[..|outcomes|] == outcomes;
  }

  /** `send_emails_with_report` after loading and splitting: for each
      recipient in order, compose and try to send the message; on success add
      one to its department's count and pause; on failure go straight on. */
  method SendAll(recipients: seq<Row>, subject: string, bodyTemplate: string,
                 smtpUser: string, outcomes: seq<bool>)
    returns (sentCount: map<string, int>, trace: seq<Event>)
    requires |outcomes| == |recipients|
    ensures forall d :: d in sentCount <==> SentTo(recipients, outcomes, d) > 0
    ensures forall d :: d in sentCount ==> sentCount[d] == SentTo(recipients, outcomes, d)
    ensures Total(sentCount) == CountTrue(outcomes)
    ensures trace == Schedule(recipients, outcomes, subject, bodyTemplate, smtpUser)
  {
    sentCount := map[];
    trace := [];
    LoopEntry(recipients, outcomes, subject, bodyTemplate, smtpUser);
    for i := 0 to |recipients|
      invariant Progress(recipients[..i], outcomes[..i], subject, bodyTemplate, smtpUser, sentCount, trace)
    {
      var recipient := recipients[i];
      var message := Compose(smtpUser, recipient, subject, bodyTemplate);
      var emailSent := outcomes[i];
      var before, earlier := sentCount, trace;
      trace := trace + StepEvents(message, emailSent);
      if emailSent {
        sentCount := sentCount[recipient.departmentCode := Get(sentCount, recipient.departmentCode) + 1];
      }
      LoopStep(recipients, outcomes, subject, bodyTemplate, smtpUser, i, before, sentCount, earlier);
    }
    LoopExit(recipients, outcomes, subject, bodyTemplate, smtpUser, sentCount, trace);
  }

  /** A failed send leaves every department's count as it was. */
  lemma {:induction false} FailedSendChangesNothing(recipients: seq<Row>, outcomes: seq<bool>, r: Row, d: string)
    requires |outcomes| == |recipients|
    ensures SentTo(recipients + [r], outcomes + [false], d) == SentTo(recipients, outcomes, d)
  {
    assert (recipients + [r])[..|recipients|] == recipients;
    assert (outcomes + [false])[..|outcomes|] == outcomes;
  }

  /** The result of a run: the final tally and what the loop did. */
  datatype Report = Report(sentCount: map<string, int>, trace: seq<Event>)

  /** `send_emails_with_report`: load the recipients, split the template,
      then send. A template without a newline raises `IndexError` before any
      message is sent. */
  method SendEmailsWithReport(rows: seq<Row>, departmentCode: string, templateContent: string,
                              smtpUser: string, outcomes: seq<bool>)
    returns (r: Result<Report, Error>)
    requires |outcomes| == |ReadCsv(rows, departmentCode)|
    ensures r.Failure? <==> '\n' !in templateContent
    ensures r.Failure? ==> r.error == IndexError
    ensures r.Success? ==> forall d :: d in r.value.sentCount <==>
      SentTo(ReadCsv(rows, departmentCode), outcomes, d) > 0
    ensures r.Success? ==> forall d :: d in r.value.sentCount ==>
      r.value.sentCount[d] == SentTo(ReadCsv(rows, departmentCode), outcomes, d)
    ensures r.Success? ==>
      && ReadEmailTemplate(templateContent).Success?
      && r.value.trace == Schedule(ReadCsv(rows, departmentCode), outcomes,
                                   ReadEmailTemplate(templateContent).value.0,
                                   ReadEmailTemplate(templateContent).value.1, smtpUser)
  {
    var recipients := ReadCsv(rows, departmentCode);
    var template := ReadEmailTemplate(templateContent);
    if template.Failure? {
      return Failure(template.error);
    }
    var (subject, bodyTemplate) := template.value;
    var sentCount, trace := SendAll(recipients, subject, bodyTemplate, smtpUser, outcomes);
    return Success(Report(sentCount, trace));
  }

  /** Three recipients of one department whose second send fails: the count
      is two, all three were attempted in order, and there were two pauses. */
  lemma SecondOfThreeFails(a: Row, b: Row, c: Row, subject: string, bodyTemplate: string, smtpUser: string)
    requires a.departmentCode == b.departmentCode == c.departmentCode
    ensures SentTo([a, b, c], [true, false, true], a.departmentCode) == 2
    ensures CountTrue([true, false, true]) == 2
    ensures var trace := Schedule([a, b, c], [true, false, true], subject, bodyTemplate, smtpUser);
      && Attempts(trace) == [Attempt(Compose(smtpUser, a, subject, bodyTemplate), true),
                             Attempt(Compose(smtpUser, b, subject, bodyTemplate), false),
                             Attempt(Compose(smtpUser, c, subject, bodyTemplate), true)]
      && Sleeps(trace) == 2
  {
    var d := a.departmentCode;
    assert [a, b, c][..2] == [a, b] && [a, b][..1] == [a] && [a][..0] == [];
    assert [true, false, true][..2] == [true, false] && [true, false][..1] == [true] && [true][..0] == [];
    assert SentTo([a], [true], d) == 1;
    assert SentTo([a, b], [true, false], d) == 1;
    ScheduleIsPaced([a, b, c], [true, false, true], subject, bodyTemplate, smtpUser);
    var outbox := Outbox([a, b, c], [true, false, true], subject, bodyTemplate, smtpUser);
    assert outbox[0] == Attempt(Compose(smtpUser, a, subject, bodyTemplate), true);
    assert outbox[1] == Attempt(Compose(smtpUser, b, subject, bodyTemplate), false);
    assert outbox[2] == Attempt(Compose(smtpUser, c, subject, bodyTemplate), true);
  }
}
