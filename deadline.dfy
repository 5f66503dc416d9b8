/**
 The deadline policy: how long an expiring action lives, whether it is due,
 and the message that goes with its expiry.
 */
module DeadlinePolicy {
  import opened Model

  const MillisPerMinute: int := 60000

  /** Only a bounce may omit its duration; the other kinds read it unconditionally. */
  predicate HasDuration(a: ExpiringAction)
  {
    a.payload.BouncePayload? || a.apiRequest.durationMillis.Some?
  }

  /** The action's lifetime; a bounce without one falls back to the configured default. */
  function DurationMillis(a: ExpiringAction, config: Config): (d: int)
    requires HasDuration(a)
    ensures a.apiRequest.durationMillis.Some? ==> d == a.apiRequest.durationMillis.value
    ensures a.apiRequest.durationMillis.None? ==>
      a.payload.BouncePayload? && d == config.defaultBounceExpirationMinutes * MillisPerMinute
  {
    match a.apiRequest.durationMillis
    case Some(d) => d
    case None => config.defaultBounceExpirationMinutes * MillisPerMinute
  }

  predicate IsExpiringDue(a: ExpiringAction, now: int, config: Config)
    requires HasDuration(a)
  {
    now - a.startMillis > DurationMillis(a, config)
  }

  /** Due exactly when the clock is strictly past start + duration: not at the deadline itself, and for good once past it. */
  lemma DueIffPastDeadline(a: ExpiringAction, now: int, config: Config)
    requires HasDuration(a)
    ensures IsExpiringDue(a, now, config) <==> now > a.startMillis + DurationMillis(a, config)
    ensures now == a.startMillis + DurationMillis(a, config) ==> !IsExpiringDue(a, now, config)
    ensures forall later :: later >= now && IsExpiringDue(a, now, config) ==> IsExpiringDue(a, later, config)
  {
  }

  /** A bounce with no duration of its own falls due just after the configured default has elapsed. */
  lemma DefaultBounceDeadline(a: ExpiringAction, now: int, config: Config)
    requires a.payload.BouncePayload? && a.apiRequest.durationMillis.None?
    ensures IsExpiringDue(a, now, config) <==>
      now > a.startMillis + config.defaultBounceExpirationMinutes * MillisPerMinute
  {
  }

  function ActionName(k: Kind): string
  {
    match k
    case Bounce => "Bounce"
    case Pause => "Pause"
    case Scale => "Scale"
    case SkipHealthchecks => "Skip healthchecks"
  }

  /** The part of the message every expiry has: the action's name and its formatted duration. */
  function BaseMessage(a: ExpiringAction, config: Config, formatDuration: int -> string): string
    requires HasDuration(a)
  {
    ActionName(KindOf(a)) + " expired after " + formatDuration(DurationMillis(a, config))
  }

  predicate HasUserMessage(a: ExpiringAction)
  {
    a.apiRequest.message.Some? && |a.apiRequest.message.value| > 0
  }

  function Message(a: ExpiringAction, config: Config, formatDuration: int -> string): string
    requires HasDuration(a)
  {
    var msg := BaseMessage(a, config, formatDuration);
    if HasUserMessage(a) then msg + " (" + a.apiRequest.message.value + ")" else msg
  }

  /**
   The message starts with "<name> expired after <duration>" and adds the user's
   note in parentheses exactly when that note is present and non-empty.
   */
  lemma MessageShape(a: ExpiringAction, config: Config, formatDuration: int -> string)
    requires HasDuration(a)
    ensures var m := Message(a, config, formatDuration);
            var base := BaseMessage(a, config, formatDuration);
            && base <= m
            && (m == base <==> !HasUserMessage(a))
            && (HasUserMessage(a) ==> m[|base|..] == " (" + a.apiRequest.message.value + ")")
  {
    var m := Message(a, config, formatDuration);
    var base := BaseMessage(a, config, formatDuration);
    if HasUserMessage(a) {
      var suffix := " (" + a.apiRequest.message.value + ")";
      assert m == base + suffix;
      assert |m| > |base|;
    }
  }
}
