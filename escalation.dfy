/** The escalation ladder of the fire-alarm session: given the action counter and
    the seconds counted since activation, which text (if any) one paced poll sends,
    and what the action counter becomes. */
module Escalation {

  datatype Option<T> = None | Some(value: T)

  /** The contacts the alarm texts (config.phoneBrad and config.phoneAnn). */
  datatype Contact = PhoneBrad | PhoneAnn

  /** The rung of the ladder a text announces. */
  datatype Rung = First | Second | Third | Recurring

  /** A text handed to the SMS transport: its rung and its recipients, in the order given. */
  datatype Notice = Notice(rung: Rung, recipients: seq<Contact>)

  /** The new value of the action counter and the text the poll sends, if any. */
  datatype Decision = Decision(action: nat, notice: Option<Notice>)

  /** Time between paced polls, in microseconds (pollingDelay = .1 s). */
  const PollingDelay: nat := 100_000
  const MicrosPerSecond: nat := 1_000_000
  const MicrosPerMinute: nat := 60_000_000

  /** Polls per minute at the polling delay, which the recurring rung uses as a
      period of counted seconds (600, not a minute of seconds). */
  const RecurringPeriod: nat := MicrosPerMinute / PollingDelay

  /** Counted seconds before the second, third and recurring texts may go out. */
  const SecondAfter: nat := 60
  const ThirdAfter: nat := 120
  const RecurringAfter: nat := 200

  /** Rung i of the once-only part of the ladder. */
  function LadderRung(i: nat): Rung
  {
    if i == 0 then First else if i == 1 then Second else Third
  }

  /** The time condition under which a text of this rung may be sent. */
  predicate ThresholdMet(rung: Rung, runningSeconds: nat)
  {
    match rung
    case First => true
    case Second => runningSeconds >= SecondAfter
    case Third => runningSeconds >= ThirdAfter
    case Recurring => runningSeconds >= RecurringAfter && runningSeconds % RecurringPeriod == 0
  }

  /** Who receives a text of the given rung. */
  function RecipientsFor(rung: Rung): (r: seq<Contact>)
    // the first contact is texted at every rung, and first
    ensures |r| > 0 && r[0] == PhoneBrad
    // the second contact joins at the third rung and stays for the recurring one
    ensures PhoneAnn in r <==> rung == Third || rung == Recurring
    ensures |r| == if rung == Third || rung == Recurring then 2 else 1
  {
    match rung
    case First => [PhoneBrad]
    case Second => [PhoneBrad]
    case Third => [PhoneBrad, PhoneAnn]
    case Recurring => [PhoneBrad, PhoneAnn]
  }

  /** The if/elif chain of one paced poll: at most one text, in the priority
      FIRST, SECOND, THIRD, recurring. */
  function Escalate(action: nat, runningSeconds: nat): (d: Decision)
    // the counter never decreases, rises by at most one, and never passes 3
    ensures action <= d.action <= action + 1
    ensures action <= 3 ==> d.action <= 3
    // it rises exactly when a once-only rung is sent, and that rung is the next one
    ensures d.action == action + 1 <==> d.notice.Some? && d.notice.value.rung != Recurring
    ensures d.action == action + 1 ==> action < 3 && d.notice.value.rung == LadderRung(action)
    // the first poll sends FIRST whatever the clock says
    ensures action == 0 ==> d.notice == Some(Notice(First, RecipientsFor(First)))
    // a text is sent exactly when some rung of the chain is enabled
    ensures d.notice.Some? <==>
      action == 0 || (action == 1 && runningSeconds >= SecondAfter) ||
      (action == 2 && runningSeconds >= ThirdAfter) ||
      (runningSeconds >= RecurringAfter && runningSeconds % RecurringPeriod == 0)
    // every text goes to its rung's recipients once its time condition holds
    ensures d.notice.Some? ==>
      d.notice.value.recipients == RecipientsFor(d.notice.value.rung) &&
      ThresholdMet(d.notice.value.rung, runningSeconds)
    // the recurring text is reached only past the top of the ladder, at a multiple of 600
    ensures d.notice.Some? && d.notice.value.rung == Recurring ==>
      action >= 3 && d.action == action && runningSeconds >= RecurringPeriod
  {
    if action < 1 then
      Decision(action + 1, Some(Notice(First, RecipientsFor(First))))
    else if runningSeconds >= SecondAfter && action == 1 then
      Decision(action + 1, Some(Notice(Second, RecipientsFor(Second))))
    else if runningSeconds >= ThirdAfter && action == 2 then
      Decision(action + 1, Some(Notice(Third, RecipientsFor(Third))))
    else if runningSeconds >= RecurringAfter && runningSeconds % RecurringPeriod == 0 then
      Decision(action, Some(Notice(Recurring, RecipientsFor(Recurring))))
    else
      Decision(action, None)
  }
}
