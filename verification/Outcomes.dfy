/** The ConfigReady condition as the record of a config's last transaction, and what
    IsRecoverable and ReadyFromApplied read from it. */
module Outcomes {
  import opened GoInt
  import opened Messages
  import opened Conditions

  // Strings as their bytes.
  const TRUE: Text := [84, 114, 117, 101]
  const FALSE: Text := [70, 97, 108, 115, 101]
  const READY: Text := [82, 101, 97, 100, 121]
  const FAILED: Text := [70, 97, 105, 108, 101, 100]
  const UNRECOVERABLE: Text := [85, 110, 114, 101, 99, 111, 118, 101, 114, 97, 98, 108, 101]
  const PENDING: Text := [80, 101, 110, 100, 105, 110, 103]
  const CONFIG_READY: Text := [67, 111, 110, 102, 105, 103, 82, 101, 97, 100, 121]
  const NOT_APPLIED: Text :=
    [99, 111, 110, 102, 105, 103, 32, 110, 111, 116, 32, 97, 112, 112, 108, 105, 101, 100, 32, 121, 101, 116]

  datatype Config = Config(generation: int, conditions: seq<Condition>)

  /** The condition of the type, or the False condition that stands for its absence. */
  function GetCondition(cs: seq<Condition>, t: Text): Condition {
    match Lookup(cs, t)
    case Some(c) => c
    case None => Condition(t, FALSE, 0, 0, [], [])
  }

  function NewCondition(t: Text, status: Text, reason: Text, msg: Text, now: int): Condition {
    Condition(t, status, 0, now, reason, TruncateMessage(msg, MAX_MESSAGE_BYTES))
  }

  datatype Outcome = Applied | FailedRecoverably | FailedUnrecoverably

  function StatusOf(o: Outcome): Text {
    if o == Applied then TRUE else FALSE
  }

  function ReasonOf(o: Outcome): Text {
    match o case Applied => READY case FailedRecoverably => FAILED case FailedUnrecoverably => UNRECOVERABLE
  }

  /** ConfigReady, ConfigFailed and ConfigFailedUnrecoverable. */
  function ConfigCondition(o: Outcome, generation: int, msg: Text, now: int): Condition {
    NewCondition(CONFIG_READY, StatusOf(o), ReasonOf(o), msg, now).(observedGeneration := generation)
  }

  predicate IsRecoverable(c: Config) {
    var cond := GetCondition(c.conditions, CONFIG_READY);
    cond.reason != UNRECOVERABLE || cond.observedGeneration != c.generation
  }

  function ReadyFromApplied(c: Config, now: int): Condition {
    if Lookup(c.conditions, CONFIG_READY) == None then NewCondition(READY, FALSE, PENDING, NOT_APPLIED, now)
    else
      var cond := GetCondition(c.conditions, CONFIG_READY);
      if cond.status == TRUE then NewCondition(READY, TRUE, READY, cond.message, now)
      else NewCondition(READY, FALSE, cond.reason, cond.message, now)
  }

  // ----- Runs

  /** What happens to a config: its spec changes, a transaction for some generation of it
      ends, or a condition of another type is set. */
  datatype Event =
    | SpecChange(generation: int)
    | Record(outcome: Outcome, of: int, msg: Text, now: int)
    | SetOther(condition: Condition)

  predicate Possible(c: Config, e: Event) {
    match e
    case SpecChange(g) => g > c.generation
    case Record(_, of, _, _) => of <= c.generation
    case SetOther(cond) => cond.typ != CONFIG_READY
  }

  function After(c: Config, e: Event): Config {
    match e
    case SpecChange(g) => c.(generation := g)
    case Record(o, of, msg, now) => c.(conditions := SetOne(c.conditions, ConfigCondition(o, of, msg, now)))
    case SetOther(cond) => c.(conditions := SetOne(c.conditions, cond))
  }

  function AfterAll(c: Config, events: seq<Event>): Config {
    if events == [] then c else After(AfterAll(c, events[..|events| - 1]), events[|events| - 1])
  }

  predicate PossibleRun(c: Config, events: seq<Event>) {
    events == [] || (
      && PossibleRun(c, events[..|events| - 1])
      && Possible(AfterAll(c, events[..|events| - 1]), events[|events| - 1]))
  }

  /** The last recorded outcome. */
  function LastRecord(events: seq<Event>): (r: Option<Event>)
    ensures r != None ==> r.value.Record?
  {
    if events == [] then None
    else if events[|events| - 1].Record? then Some(events[|events| - 1])
    else LastRecord(events[..|events| - 1])
  }

  /** The ConfigReady entry is the last recorded outcome, up to its transition time. */
  lemma {:induction false} EntryIsLastRecord(c: Config, events: seq<Event>)
    requires c.conditions == [] && PossibleRun(c, events)
    ensures SameEntry(
              Lookup(AfterAll(c, events).conditions, CONFIG_READY),
              match LastRecord(events)
              case None => None
              case Some(e) => Some(ConfigCondition(e.outcome, e.of, e.msg, e.now)))
    ensures LastRecord(events) != None ==> LastRecord(events).value.of <= AfterAll(c, events).generation
    decreases |events|
  {
    if events != [] {
      var before, e := AfterAll(c, events[..|events| - 1]), events[|events| - 1];
      EntryIsLastRecord(c, events[..|events| - 1]);
      match e
      case SpecChange(_) =>
      case Record(o, of, msg, now) =>
        SetOneRefinesUpdate(before.conditions, ConfigCondition(o, of, msg, now), CONFIG_READY);
      case SetOther(cond) =>
        SetOneRefinesUpdate(before.conditions, cond, CONFIG_READY);
    }
  }

  /** After any run, a config is skipped exactly when its last recorded outcome was
      unrecoverable for the generation it has now. */
  lemma RecoverableIff(c: Config, events: seq<Event>)
    requires c.conditions == [] && PossibleRun(c, events)
    ensures var last := LastRecord(events);
            !IsRecoverable(AfterAll(c, events))
            <==> last != None && last.value.outcome == FailedUnrecoverably
                 && last.value.of == AfterAll(c, events).generation
  {
    hide AfterAll, TruncateMessage;
    EntryIsLastRecord(c, events);
  }

  /** A spec change always makes a config recoverable again, whatever was recorded before. */
  lemma SpecChangeRecovers(c: Config, events: seq<Event>, generation: int)
    requires c.conditions == [] && PossibleRun(c, events)
    requires generation > AfterAll(c, events).generation
    ensures IsRecoverable(After(AfterAll(c, events), SpecChange(generation)))
  {
    hide AfterAll, TruncateMessage;
    EntryIsLastRecord(c, events);
  }

  /** After any run, Ready follows the last outcome: Pending before the first, True after a
      success, else False with the outcome's reason. The message, truncated when it was
      recorded, is not truncated a second time. */
  lemma ReadyFollows(c: Config, events: seq<Event>, now: int)
    requires c.conditions == [] && PossibleRun(c, events)
    ensures var r, last := ReadyFromApplied(AfterAll(c, events), now), LastRecord(events);
            && r.typ == READY
            && (last == None ==> r.status == FALSE && r.reason == PENDING && r.message == NOT_APPLIED)
            && (last != None ==>
                  && r.status == (if last.value.outcome == Applied then TRUE else FALSE)
                  && r.reason == (match last.value.outcome
                                  case Applied => READY
                                  case FailedRecoverably => FAILED
                                  case FailedUnrecoverably => UNRECOVERABLE)
                  && r.message == TruncateMessage(last.value.msg, MAX_MESSAGE_BYTES))
  {
    hide AfterAll, TruncateMessage;
    EntryIsLastRecord(c, events);
    TruncateBounds(NOT_APPLIED, MAX_MESSAGE_BYTES);
    if LastRecord(events) != None { TruncateBounds(LastRecord(events).value.msg, MAX_MESSAGE_BYTES); }
  }
}
