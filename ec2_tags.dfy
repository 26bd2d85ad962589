/** Tag rules, state gate, selection and dispatch of the EC2 cleanup script
    (ec2_tags.py). Actions and lifecycle states are strings, as in the script:
    anything other than "stop" and "terminate" can reach the functions below. */
module Ec2Tags {

  datatype Option<T> = None | Some(value: T)

  /** One `{Key, Value}` record of an instance's tag list. */
  datatype Tag = Tag(key: string, value: string)

  /** What the script reads of one instance: its id, `state['Name']` and its tags
      (a missing tag list, `None` in the SDK, is the empty sequence). */
  datatype Instance = Instance(id: string, state: string, tags: seq<Tag>)

  /** The `tag_key`/`tag_value` pair passed as the `ec2_tag` keyword argument;
      a missing `tag_value` is the empty string, its default. */
  datatype TagQuery = TagQuery(key: string, value: string)

  /** The keyword arguments of `perform_action_on_instance`: three independent
      inputs, as the function reads them (`None` is an absent or empty `ec2_tag` dict). */
  datatype Selection = Selection(noTags: bool, noNameTag: bool, tag: Option<TagQuery>)

  /** The selection policy the command line sets up: exactly one per run. */
  datatype Mode = NoTags | NoNameTag | SpecificTag(key: string, value: string)

  /** The two commands the script can send to an instance handle. */
  datatype Command = Stop | Terminate

  /** One command sent to the provider; `accepted` is false when the provider
      refused a stop with a `ClientError` (the script catches it and goes on). */
  datatype Issued = Issued(id: string, command: Command, accepted: bool)

  /** Outcome of `main`: it exits before touching any instance when the action is
      not allowed, otherwise it finishes one pass over the instances. */
  datatype RunOutcome =
    | Exited
    | Finished(log: seq<Issued>, actionTaken: bool, nothingToDo: bool)

  const STOP: string := "stop"
  const TERMINATE: string := "terminate"
  const NAME_KEY: string := "Name"

  // ---------------------------------------------------------------------------
  // Tag predicate

  /** True iff the tag list holds a tag with key `key` and, unless `value` is
      empty, with value `value`. Scans the list and stops at the first match. */
  function TagExist(tags: seq<Tag>, key: string, value: string := ""): (r: bool)
    ensures value != "" ==>
      (r <==> exists i :: 0 <= i < |tags| && tags[i].key == key && tags[i].value == value)
    ensures value == "" ==> (r <==> exists i :: 0 <= i < |tags| && tags[i].key == key)
    ensures tags == [] ==> !r
  {
    if tags == [] then false
    else if value != "" && tags[0].key == key && tags[0].value == value then true
    else if value == "" && tags[0].key == key then true
    else TagExist(tags[1..], key, value)
  }

  /** Some tag of the list has key `key`, whatever its value. */
  ghost predicate HasKey(tags: seq<Tag>, key: string) {
    exists i :: 0 <= i < |tags| && tags[i].key == key
  }

  /** Leaving out the value is the same as passing the empty string, and both
      match on the key alone. */
  lemma TagExistDefaultIsKeyOnly(tags: seq<Tag>, key: string)
    ensures TagExist(tags, key) == TagExist(tags, key, "")
    ensures TagExist(tags, key) <==> HasKey(tags, key)
  {
  }

  /** A match on key and value implies a match on the key alone; the converse
      needs a tag carrying that very value. */
  lemma TagExistValueNarrows(tags: seq<Tag>, key: string, value: string)
    ensures TagExist(tags, key, value) ==> TagExist(tags, key)
    ensures value != "" && TagExist(tags, key) && !TagExist(tags, key, value) ==>
      forall i :: 0 <= i < |tags| && tags[i].key == key ==> tags[i].value != value
  {
  }

  // ---------------------------------------------------------------------------
  // State gate and action validation

  /** `is_action_allowed`: only "stop" and "terminate" let the script go on. */
  predicate ActionAllowed(action: string) {
    action == STOP || action == TERMINATE
  }

  /** `check_proper_instance_state`: may `action` be applied to an instance in
      lifecycle state `state`? Unknown actions give false. */
  function ProperState(action: string, state: string): (r: bool)
    ensures r ==> ActionAllowed(action)
  {
    if action == TERMINATE then
      state != "terminated" && state != "shutting-down"
    else if action == STOP then
      state != "terminated" && state != "shutting-down" && state != "stopping" && state != "stopped"
    else
      false
  }

  /** The six lifecycle states of an EC2 instance. */
  datatype Lifecycle = Pending | Running | Stopping | Stopped | ShuttingDown | Terminated

  function StateName(l: Lifecycle): string {
    match l
    case Pending => "pending"
    case Running => "running"
    case Stopping => "stopping"
    case Stopped => "stopped"
    case ShuttingDown => "shutting-down"
    case Terminated => "terminated"
  }

  /** Over the known lifecycle, a stop is allowed only from pending and running,
      a terminate from everything but shutting-down and terminated. */
  lemma GateOnLifecycle(l: Lifecycle)
    ensures ProperState(STOP, StateName(l)) <==> l == Pending || l == Running
    ensures ProperState(TERMINATE, StateName(l)) <==> l != ShuttingDown && l != Terminated
  {
  }

  /** A state name outside the known lifecycle passes the gate for both actions. */
  lemma UnknownStatePasses(state: string)
    requires forall l: Lifecycle :: StateName(l) != state
    ensures ProperState(STOP, state) && ProperState(TERMINATE, state)
  {
    assert StateName(Terminated) != state && StateName(ShuttingDown) != state;
    assert StateName(Stopping) != state && StateName(Stopped) != state;
  }

  /** Whatever may be stopped may also be terminated. */
  lemma StopGateImpliesTerminateGate(state: string)
    ensures ProperState(STOP, state) ==> ProperState(TERMINATE, state)
  {
  }

  /** The states an accepted command moves an instance into fail the gate of
      that same command (`RepeatPassSendsNothing` lifts this to a whole pass). */
  lemma GateBlocksRepeat(action: string, l: Lifecycle)
    requires ActionAllowed(action)
    requires action == STOP ==> l == Stopping || l == Stopped
    requires action == TERMINATE ==> l == ShuttingDown || l == Terminated
    ensures !ProperState(action, StateName(l))
  {
  }

  // ---------------------------------------------------------------------------
  // Selection

  /** The `if/elif` chain of `perform_action_on_instance`: is this instance
      selected by the given keyword arguments? */
  function Selected(sel: Selection, tags: seq<Tag>): (r: bool)
    ensures r ==> sel.noTags || sel.noNameTag || sel.tag.Some?
    ensures r && !sel.noNameTag && tags != [] ==> sel.tag.Some? && HasKey(tags, sel.tag.value.key)
  {
    if sel.noTags && tags == [] then true
    else if sel.noNameTag then
      (if tags != [] then !TagExist(tags, NAME_KEY) else true)
    else if sel.tag.Some? && tags != [] then TagExist(tags, sel.tag.value.key, sel.tag.value.value)
    else false
  }

  /** Reference meaning of each selection policy, in terms of the tags alone. */
  ghost predicate ShouldAct(m: Mode, tags: seq<Tag>) {
    match m
    case NoTags => tags == []
    case NoNameTag => !HasKey(tags, NAME_KEY)
    case SpecificTag(k, v) =>
      tags != [] && exists i :: 0 <= i < |tags| && tags[i].key == k && (v == "" || tags[i].value == v)
  }

  /** The keyword arguments the command line passes for a policy. */
  function FlagsOf(m: Mode): (r: Selection)
    ensures (r.noTags && !r.noNameTag && r.tag.None?) ||
            (!r.noTags && r.noNameTag && r.tag.None?) ||
            (!r.noTags && !r.noNameTag && r.tag.Some?)
    ensures r.noTags <==> m.NoTags?
    ensures r.noNameTag <==> m.NoNameTag?
    ensures m.SpecificTag? ==> r.tag == Some(TagQuery(m.key, m.value))
  {
    match m
    case NoTags => Selection(true, false, None)
    case NoNameTag => Selection(false, true, None)
    case SpecificTag(k, v) => Selection(false, false, Some(TagQuery(k, v)))
  }

  /** With one policy set, as the command line always does, the chain selects
      exactly what the policy means. */
  lemma SelectedMatchesMode(m: Mode, tags: seq<Tag>)
    ensures Selected(FlagsOf(m), tags) == ShouldAct(m, tags)
  {
  }

  /** When several inputs are set at once, the first branch of the chain that
      applies decides: no-tags only for an untagged instance, then no-name, then
      the specific tag; with no input set nothing is selected. */
  lemma SelectedPrecedence(sel: Selection, tags: seq<Tag>)
    ensures sel.noTags && tags == [] ==> Selected(sel, tags)
    ensures !(sel.noTags && tags == []) && sel.noNameTag ==>
      (Selected(sel, tags) <==> !HasKey(tags, NAME_KEY))
    ensures !(sel.noTags && tags == []) && !sel.noNameTag ==>
      (Selected(sel, tags) <==>
         sel.tag.Some? && ShouldAct(SpecificTag(sel.tag.value.key, sel.tag.value.value), tags))
    ensures !sel.noTags && !sel.noNameTag && sel.tag.None? ==> !Selected(sel, tags)
  {
  }

  /** Lines 131-153 of the script: the three command-line inputs (an absent
      `-k`/`-v` is the empty string) give one policy, or a usage error. */
  function ModeOfArgs(noName: bool, tagKey: string, tagValue: string): (r: Option<Mode>)
    ensures r.None? <==>
      (noName && (tagKey != "" || tagValue != "")) || ((tagKey != "") != (tagValue != ""))
    ensures r == Some(NoNameTag) <==> noName && tagKey == "" && tagValue == ""
    ensures r == Some(NoTags) <==> !noName && tagKey == "" && tagValue == ""
    ensures r.Some? && r.value.SpecificTag? <==> !noName && tagKey != "" && tagValue != ""
    ensures r.Some? && r.value.SpecificTag? ==> r.value == SpecificTag(tagKey, tagValue)
  {
    if noName && (tagKey != "" || tagValue != "") then None
    else if (tagKey != "") != (tagValue != "") then None
    else if noName then Some(NoNameTag)
    else if tagKey != "" && tagValue != "" then Some(SpecificTag(tagKey, tagValue))
    else Some(NoTags)
  }

  // ---------------------------------------------------------------------------
  // Dispatch

  /** The command `perform_action_on_instance` sends: terminate for "terminate",
      stop for every other action. */
  function CommandFor(action: string): (c: Command)
    ensures c == Terminate <==> action == TERMINATE
  {
    if action == TERMINATE then Terminate else Stop
  }

  /** `perform_action_on_instance`: decides selection from the tags alone (the
      state gate is the caller's), and on selection sends one command.
      `stopRefused` is the provider's answer to a stop: a `ClientError`, which is
      caught, so the result is still true. */
  method PerformAction(action: string, inst: Instance, sel: Selection, stopRefused: bool)
    returns (taken: bool, issued: seq<Issued>)
    ensures taken == Selected(sel, inst.tags)
    ensures !taken ==> issued == []
    ensures taken ==> |issued| == 1 && issued[0].id == inst.id
    ensures taken ==> (issued[0].command == Terminate <==> action == TERMINATE)
    ensures taken ==> (issued[0].accepted <==> action == TERMINATE || !stopRefused)
  {
    var tags := inst.tags;
    taken := false;
    if sel.noTags && tags == [] {
      taken := true;
    } else if sel.noNameTag {
      if tags != [] {
        taken := !TagExist(tags, NAME_KEY);
      } else {
        taken := true;
      }
    } else if sel.tag.Some? && tags != [] {
      taken := TagExist(tags, sel.tag.value.key, sel.tag.value.value);
    }
    if !taken {
      return taken, [];
    }
    if action == TERMINATE {
      issued := [Issued(inst.id, Terminate, true)];
    } else {
      issued := [Issued(inst.id, Stop, !stopRefused)];
    }
  }

  // ---------------------------------------------------------------------------
  // Orchestrator

  /** An instance gets a command iff it passes the state gate and is selected. */
  predicate Eligible(action: string, inst: Instance, sel: Selection) {
    ProperState(action, inst.state) && Selected(sel, inst.tags)
  }

  /** The commands one pass sends for one instance. */
  function StepLog(action: string, inst: Instance, sel: Selection, refused: set<string>): (r: seq<Issued>)
    ensures |r| <= 1
    ensures r != [] <==> Eligible(action, inst, sel)
    ensures r != [] ==> r[0].id == inst.id && r[0].command == CommandFor(action)
    ensures r != [] ==> (!r[0].accepted <==> r[0].command == Stop && inst.id in refused)
  {
    if Eligible(action, inst, sel) then
      [Issued(inst.id, CommandFor(action), action == TERMINATE || inst.id !in refused)]
    else []
  }

  /** The commands a pass over `insts` sends, in order. */
  function Plan(action: string, insts: seq<Instance>, sel: Selection, refused: set<string>): (r: seq<Issued>)
    ensures |r| <= |insts|
    ensures forall k :: 0 <= k < |r| ==> r[k].command == CommandFor(action)
    decreases |insts|
  {
    if insts == [] then []
    else Plan(action, insts[..|insts| - 1], sel, refused) + StepLog(action, insts[|insts| - 1], sel, refused)
  }

  /** Some instance of the collection is eligible. */
  ghost predicate AnyEligible(action: string, insts: seq<Instance>, sel: Selection) {
    exists i :: 0 <= i < |insts| && Eligible(action, insts[i], sel)
  }

  /** `main`: validate the action, then one pass over the instances, OR-ing the
      per-instance results into the flag that decides "Nothing to do".
      `refused` holds the ids whose stop request the provider refuses. */
  method Run(action: string, instances: seq<Instance>, sel: Selection, refused: set<string>)
    returns (r: RunOutcome)
    ensures r.Exited? <==> !ActionAllowed(action)
    ensures r.Finished? ==> r.log == Plan(action, instances, sel, refused)
    ensures r.Finished? ==> (r.actionTaken <==> AnyEligible(action, instances, sel))
    ensures r.Finished? ==> (r.nothingToDo <==> !r.actionTaken)
    ensures r.Finished? ==> (r.nothingToDo <==> r.log == [])
  {
    if !ActionAllowed(action) {
      return Exited;
    }
    var log: seq<Issued> := [];
    var actionTaken := false;
    var i := 0;
    while i < |instances|
      invariant 0 <= i <= |instances|
      invariant log == Plan(action, instances[..i], sel, refused)
      invariant actionTaken <==> AnyEligible(action, instances[..i], sel)
    {
      var inst := instances[i];
      assert instances[..i + 1][..i] == instances[..i];
      if ProperState(action, inst.state) {
        var changed, issued := PerformAction(action, inst, sel, inst.id in refused);
        log := log + issued;
        if changed {
          actionTaken := true;
        }
      }
      i := i + 1;
    }
    assert instances[..i] == instances;
    PlanEmptyIffNoneEligible(action, instances, sel, refused);
    r := Finished(log, actionTaken, !actionTaken);
  }

  // ---------------------------------------------------------------------------
  // Properties of a pass

  /** The lifecycle states an accepted command moves an instance into. */
  function TargetStates(action: string): set<string> {
    if action == TERMINATE then {StateName(ShuttingDown), StateName(Terminated)}
    else {StateName(Stopping), StateName(Stopped)}
  }

  /** A second pass after the first one took effect sends nothing: the same
      instances (same ids and tags), each one the first pass commanded now in a
      state its command leads to, every other one in its old state. An instance
      whose stop was refused does not take effect and stays eligible. */
  lemma RepeatPassSendsNothing(action: string, a: seq<Instance>, b: seq<Instance>, sel: Selection, refused: set<string>)
    requires ActionAllowed(action)
    requires |a| == |b|
    requires forall i :: 0 <= i < |a| ==> b[i].id == a[i].id && b[i].tags == a[i].tags
    requires forall i :: 0 <= i < |a| && Eligible(action, a[i], sel) ==> b[i].state in TargetStates(action)
    requires forall i :: 0 <= i < |a| && !Eligible(action, a[i], sel) ==> b[i].state == a[i].state
    ensures Plan(action, b, sel, refused) == []
  {
    forall i | 0 <= i < |b| ensures !Eligible(action, b[i], sel) {
      if Eligible(action, a[i], sel) {
        var l := if b[i].state == StateName(Stopping) then Stopping
          else if b[i].state == StateName(Stopped) then Stopped
          else if b[i].state == StateName(ShuttingDown) then ShuttingDown
          else Terminated;
        GateBlocksRepeat(action, l);
      } else {
        assert b[i] == Instance(a[i].id, a[i].state, a[i].tags);
      }
    }
    PlanEmptyIffNoneEligible(action, b, sel, refused);
  }

  /** Three running instances, the first and third named: a stop pass with the
      no-name policy stops only the second one. */
  lemma NoNameStopScenario()
    ensures var insts := [
        Instance("i-1", "running", [Tag("Name", "Dummy-instance-1")]),
        Instance("i-2", "running", []),
        Instance("i-3", "running", [Tag("Name", "Dummy-instance-3")])];
      Plan(STOP, insts, FlagsOf(NoNameTag), {}) == [Issued("i-2", Stop, true)]
  {
  }

  /** Instances are processed independently: the pass over a concatenation is
      the concatenation of the passes. */
  lemma {:induction false} PlanAppend(action: string, a: seq<Instance>, b: seq<Instance>, sel: Selection, refused: set<string>)
    ensures Plan(action, a + b, sel, refused) == Plan(action, a, sel, refused) + Plan(action, b, sel, refused)
    decreases |b|
  {
    if b == [] {
      assert a + b == a;
    } else {
      var b' := b[..|b| - 1];
      assert (a + b)[..|a + b| - 1] == a + b';
      assert (a + b)[|a + b| - 1] == b[|b| - 1];
      PlanAppend(action, a, b', sel, refused);
    }
  }

  /** No command is sent iff no instance is eligible. */
  lemma {:induction false} PlanEmptyIffNoneEligible(action: string, insts: seq<Instance>, sel: Selection, refused: set<string>)
    ensures Plan(action, insts, sel, refused) == [] <==> !AnyEligible(action, insts, sel)
    decreases |insts|
  {
    if insts != [] {
      var front := insts[..|insts| - 1];
      PlanEmptyIffNoneEligible(action, front, sel, refused);
      if AnyEligible(action, front, sel) {
        var i :| 0 <= i < |front| && Eligible(action, front[i], sel);
        assert insts[i] == front[i];
      }
      if AnyEligible(action, insts, sel) && !Eligible(action, insts[|insts| - 1], sel) {
        var i :| 0 <= i < |insts| && Eligible(action, insts[i], sel);
        assert front[i] == insts[i];
      }
    }
  }

  /** Every command sent belongs to an eligible instance, is the command for the
      action, and is refused only when it is a stop the provider refused. */
  lemma {:induction false} PlanCommandsAreEligible(action: string, insts: seq<Instance>, sel: Selection, refused: set<string>)
    ensures forall k :: 0 <= k < |Plan(action, insts, sel, refused)| ==>
      var c := Plan(action, insts, sel, refused)[k];
      c.command == CommandFor(action) &&
      (!c.accepted <==> c.command == Stop && c.id in refused) &&
      exists i :: 0 <= i < |insts| && insts[i].id == c.id && Eligible(action, insts[i], sel)
    decreases |insts|
  {
    if insts != [] {
      var front := insts[..|insts| - 1];
      PlanCommandsAreEligible(action, front, sel, refused);
      var p := Plan(action, insts, sel, refused);
      var pf := Plan(action, front, sel, refused);
      forall k | 0 <= k < |p|
        ensures p[k].command == CommandFor(action)
        ensures !p[k].accepted <==> p[k].command == Stop && p[k].id in refused
        ensures exists i :: 0 <= i < |insts| && insts[i].id == p[k].id && Eligible(action, insts[i], sel)
      {
        if k < |pf| {
          assert p[k] == pf[k];
          var i :| 0 <= i < |front| && front[i].id == pf[k].id && Eligible(action, front[i], sel);
          assert insts[i] == front[i];
        } else {
          assert Eligible(action, insts[|insts| - 1], sel);
        }
      }
    }
  }

  /** How many commands of the log target instance `id`. */
  function CountFor(log: seq<Issued>, id: string): nat {
    if log == [] then 0
    else CountFor(log[..|log| - 1], id) + (if log[|log| - 1].id == id then 1 else 0)
  }

  lemma {:induction false} CountForAppend(a: seq<Issued>, b: seq<Issued>, id: string)
    ensures CountFor(a + b, id) == CountFor(a, id) + CountFor(b, id)
    decreases |b|
  {
    if b == [] {
      assert a + b == a;
    } else {
      assert (a + b)[..|a + b| - 1] == a + b[..|b| - 1];
      CountForAppend(a, b[..|b| - 1], id);
    }
  }

  /** Instance ids are unique within one collection, as the provider's are. */
  predicate DistinctIds(insts: seq<Instance>) {
    forall i, j :: 0 <= i < j < |insts| ==> insts[i].id != insts[j].id
  }

  /** With unique ids, each eligible instance receives exactly one command and
      every other instance, or any id outside the collection, none. */
  lemma {:induction false} PlanOneCommandPerEligible(action: string, insts: seq<Instance>, sel: Selection, refused: set<string>)
    requires DistinctIds(insts)
    ensures forall i :: 0 <= i < |insts| ==>
      CountFor(Plan(action, insts, sel, refused), insts[i].id) == (if Eligible(action, insts[i], sel) then 1 else 0)
    ensures forall id :: (forall i :: 0 <= i < |insts| ==> insts[i].id != id) ==>
      CountFor(Plan(action, insts, sel, refused), id) == 0
    decreases |insts|
  {
    if insts != [] {
      var n := |insts| - 1;
      var front := insts[..n];
      var last := insts[n];
      PlanOneCommandPerEligible(action, front, sel, refused);
      var pf := Plan(action, front, sel, refused);
      var step := StepLog(action, last, sel, refused);
      forall id
        ensures CountFor(Plan(action, insts, sel, refused), id) == CountFor(pf, id) + CountFor(step, id)
      {
        CountForAppend(pf, step, id);
      }
      forall i | 0 <= i < |insts|
        ensures CountFor(Plan(action, insts, sel, refused), insts[i].id) == (if Eligible(action, insts[i], sel) then 1 else 0)
      {
        if i < n {
          assert front[i] == insts[i];
          assert insts[i].id != last.id;
          assert step == [] || (step[0].id == last.id && step[..0] == []);
        } else {
          assert forall j :: 0 <= j < |front| ==> front[j].id != last.id by {
            forall j | 0 <= j < |front| ensures front[j].id != last.id {
              assert front[j] == insts[j];
            }
          }
          assert step == [] || step[..0] == [];
        }
      }
      forall id | forall i :: 0 <= i < |insts| ==> insts[i].id != id
        ensures CountFor(Plan(action, insts, sel, refused), id) == 0
      {
        forall j | 0 <= j < |front| ensures front[j].id != id {
          assert front[j] == insts[j];
        }
        assert last.id != id;
        assert step == [] || step[..0] == [];
      }
    }
  }

  /** Which ids are refused changes only the `accepted` flags of the log: the
      instances commanded and the commands sent stay the same. */
  lemma {:induction false} PlanIgnoresRefusals(action: string, insts: seq<Instance>, sel: Selection, r1: set<string>, r2: set<string>)
    ensures |Plan(action, insts, sel, r1)| == |Plan(action, insts, sel, r2)|
    ensures forall k :: 0 <= k < |Plan(action, insts, sel, r1)| ==>
      Plan(action, insts, sel, r1)[k].id == Plan(action, insts, sel, r2)[k].id &&
      Plan(action, insts, sel, r1)[k].command == Plan(action, insts, sel, r2)[k].command
    decreases |insts|
  {
    if insts != [] {
      PlanIgnoresRefusals(action, insts[..|insts| - 1], sel, r1, r2);
    }
  }
}
