# EC2 tag actions — Dafny model

A model of the decision logic of `ec2-tags-actions`. This is a cleanup script that walks the EC2
instances of a region and stops or terminates the ones a tag rule selects. The model covers
the script's core, `ec2_tags.py`:

- the tag predicate `check_tag_exist`, where an empty value is a wildcard;
- the lifecycle-state gate `check_proper_instance_state`;
- action validation `is_action_allowed`;
- the selection chain and dispatch of `perform_action_on_instance`;
- the pass over all instances in `main`, with its "action taken" flag.

It also covers the older exact-match predicate `check_tag` in `main.py`.

Layout:

- `ec2_tags.dfy`, module `Ec2Tags`: data model, predicates, dispatch, orchestrator and their lemmas.
- `main.dfy`, module `MainScript`: `check_tag` and how it relates to `check_tag_exist`.

Modelling choices:

- Actions and states are strings, as in the script. An unknown action gets `false` from the
  gate, and dispatch sends a stop for any action other than `"terminate"`.
- An instance is a record of id, state name and tag list. A missing tag list (`None`) is the
  empty sequence, since the script only tests whether it is truthy.
- The keyword arguments of `perform_action_on_instance` are three independent inputs
  (`Selection`), read with the script's `if/elif` precedence. `Mode` is the single policy the
  command line builds. `FlagsOf` turns a policy into the keyword arguments.
- The calls to `terminate()`/`stop()` become entries `Issued(id, command, accepted)` in a
  command log. The methods return the entries they issue. The provider's answer to a stop is
  an input: `refused` is the set of ids for which `stop()` raises `ClientError`. Such an entry
  has `accepted == false`, and the instance still counts as acted on.
- The instance collection is an input sequence. It replaces the region and the SDK query.

Where tests and code disagree, the model follows the code:

- Unknown state names such as `"test"` pass the gate for both actions (`UnknownStatePasses`).
  `tests/unit/test_utils_funcs.py:143-144,163-164` expect false.
- `is_action_allowed` calls `sys.exit()` with no code. The test at
  `tests/unit/test_utils_funcs.py:124` expects code 1. The model only records that the run
  stops (`Exited`).
- `check_tag` has no default value and no wildcard (`EmptyValueIsNotWildcard`).
  `tests/test_check_tag.py:70-82,100-111` expect wildcard behaviour.

The docstring of `perform_action_on_instance` says it returns true when the action was
performed. After a refused stop it still returns true (ec2_tags.py:77-85), and the model
follows the code.

## Model

| member | source | states |
|---|---|---|
| `Ec2Tags.TagExist` | ec2_tags.py:13-24 | With a non-empty value: true iff some tag matches both key and value. With an empty value: true iff some tag has the key. Always false on an empty list. |
| `Ec2Tags.TagExistDefaultIsKeyOnly` | ec2_tags.py:13-23 | Omitting the value behaves exactly like passing `""`. Both are true iff some tag has the key. |
| `Ec2Tags.TagExistValueNarrows` | ec2_tags.py:17-23 | A key-and-value match implies a key-only match. A key-only match without a value match means every tag with that key has another value. |
| `Ec2Tags.ProperState` | ec2_tags.py:27-35 | The gate passes only for the allowed actions `stop` and `terminate`. Any other action gets false. |
| `Ec2Tags.GateOnLifecycle` | ec2_tags.py:31-34 | Over the six lifecycle states: stop is allowed exactly from pending and running. Terminate is allowed from every state except shutting-down and terminated. |
| `Ec2Tags.UnknownStatePasses` | ec2_tags.py:31-34 | A state name outside the lifecycle passes the gate for both stop and terminate. |
| `Ec2Tags.StopGateImpliesTerminateGate` | ec2_tags.py:31-34 | Every state that passes the stop gate also passes the terminate gate. |
| `Ec2Tags.ActionAllowed` | ec2_tags.py:38-45 | Only `stop` and `terminate` let the run go on. Its contract is the first clause of `Run`: the run exits before any command iff the action is not allowed. |
| `Ec2Tags.GateBlocksRepeat` | ec2_tags.py:31-34 | The states a stop leads to (stopping, stopped) fail the stop gate. The states a terminate leads to (shutting-down, terminated) fail the terminate gate. |
| `Ec2Tags.Selected` | ec2_tags.py:59-70 | The if/elif chain over the three selection inputs. Nothing is selected when no input is set. A tagged instance selected without the no-name input carries the requested key. |
| `Ec2Tags.FlagsOf` | ec2_tags.py:144-153 | The keyword arguments the command line builds for a policy: exactly one of the three inputs is set, and a specific tag passes its key and value unchanged. |
| `Ec2Tags.SelectedMatchesMode` | ec2_tags.py:59-70 | For each single policy, selection matches an independent definition. No-tags: the list is empty. No-name: no tag has key `Name`. Specific tag: the list is non-empty and some tag matches. |
| `Ec2Tags.SelectedPrecedence` | ec2_tags.py:59-70 | With several inputs set, the first applicable branch decides: no-tags (only for an untagged instance), then no-name, then the specific tag. The later branches are stated by the independent definitions of the no-name and specific-tag policies. With no input set, nothing is selected. |
| `Ec2Tags.ModeOfArgs` | ec2_tags.py:131-153 | Setting `-n` together with `-k`/`-v`, or only one of `-k`/`-v`, is a usage error. Otherwise exactly one policy results: no-name, a specific tag with both parts non-empty, or no-tags by default. |
| `Ec2Tags.PerformAction` | ec2_tags.py:48-85 | Returns exactly the selection decision. If not selected, it issues nothing. If selected, it issues one command for the instance: terminate for `terminate`, stop otherwise. A refused stop is recorded as not accepted, and the return value stays true. |
| `Ec2Tags.CommandFor` | ec2_tags.py:74-79 | The command sent is terminate exactly for the action `terminate`, and stop for every other action. |
| `Ec2Tags.StepLog` | ec2_tags.py:100-110 | One loop iteration issues at most one command. It issues one iff the instance passes the state gate and the selection. The command targets that instance and is the command for the action. It is unaccepted exactly when it is a stop the provider refused. |
| `Ec2Tags.Plan` | ec2_tags.py:100-110 | The commands of a whole pass, which `Run`'s log is proved equal to: at most one per instance, each one the command for the action. |
| `Ec2Tags.Run` | ec2_tags.py:88-112 | An invalid action exits before any command is issued. Otherwise the log is the commands for the gate-passing, selected instances, in order. The flag is the OR over instances of gate-and-selection. "Nothing to do" holds iff the flag is false, which is iff no command was issued. |
| `Ec2Tags.PlanAppend` | ec2_tags.py:100-110 | Instances are handled independently: a pass over `a + b` issues the commands for `a` followed by those for `b`. |
| `Ec2Tags.PlanEmptyIffNoneEligible` | ec2_tags.py:99-112 | No command is issued iff no instance passes both the state gate and the selection. |
| `Ec2Tags.PlanCommandsAreEligible` | ec2_tags.py:100-110 | Every issued command belongs to an instance that passes both the gate and the selection, and is the command for the action. A command is unaccepted exactly when it is a stop the provider refused. |
| `Ec2Tags.PlanOneCommandPerEligible` | ec2_tags.py:100-110 | With unique ids, each eligible instance gets exactly one command. Every other instance, and every id outside the collection, gets none. |
| `Ec2Tags.PlanIgnoresRefusals` | ec2_tags.py:77-85 | Which stops the provider refuses changes only the accepted flags. The instances commanded and the commands sent stay the same. |
| `Ec2Tags.RepeatPassSendsNothing` | ec2_tags.py:99-112 | A second pass over the same instances sends nothing if the first one took effect: each instance it commanded is now in a state its command leads to, and every other instance kept its state. A refused stop does not take effect, so its instance stays eligible. |
| `Ec2Tags.NoNameStopScenario` | tests/functional/test_main.py:326-355 | Three running instances, the 1st and 3rd with a `Name` tag, stop with the no-name policy: only the 2nd is stopped. |
| `MainScript.CheckTag` | main.py:6-13 | True iff some tag has exactly the given key and exactly the given value. |
| `MainScript.CheckTagFalseCases` | main.py:10-13 | False on an empty list, on a key no tag has, and on a key present only with other values. |
| `MainScript.CheckTagAgreesWithTagExist` | main.py:10-13 | For a non-empty value, `check_tag` equals `check_tag_exist`. For any value, `check_tag` implies `check_tag_exist`. |
| `MainScript.EmptyValueIsNotWildcard` | main.py:11 | An empty value is not a wildcard: for every tag list holding key `k` whose tags all carry non-empty values, `check_tag(tags, k, "")` is false while `check_tag_exist(tags, k, "")` is true. |

## Left out

- Creating the SDK resource and enumerating `ec2.instances.all()`: the instance collection is an input sequence.
- The real `stop()`/`terminate()` calls and the provider's state transitions: each call is a log entry. The provider's answer to a stop is the input set `refused`.
- Provider errors other than a stop's `ClientError`: the script lets them propagate and end the run. The model has no path for them, and a terminate is always recorded as accepted.
- Printed messages and `sys.exit()`: an invalid action is the `Exited` outcome. "Nothing to do" is the returned `nothingToDo` flag.
- The argparse parser itself (ec2_tags.py:118-129): `ModeOfArgs` starts from the parsed values, with an absent `-k`/`-v` as the empty string.
- The region argument and its default: the instance collection stands in for the region.
- Tag records missing their `Key` or `Value` entry: every tag has both strings.
- The `__main__` block and the inline test function of main.py (main.py:16-47): printing and script code only.
- `check_aws_region`: the tests import it, but it is not part of this model.
