# UCCA oracle replay and reward environment, modelled in Dafny

This project models the two small pieces of logic that sit around the
external UCCA parser library (TUPA) and a trained TensorFlow reward network:

- **The oracle replay and its `Settings`** (`passage2oracles.py`). `Settings` is
  the configuration over the three parser variants `implicit`, `linkage` and
  `unlabeled`, with its renderings as a dictionary, a list, a file-name
  suffix and a name. `gen_actions` replays the gold action sequence of a
  passage. At each step it takes the oracle's candidate action whose text is
  smallest, applies it, adds a node label when the state asks for one, and
  emits one line. It stops right after the step that finishes the parse.
- **The reinforcement-learning environment `UccaEnv`** (`drl_ucca/envs/environment.py`).
  It keeps two fixed catalogues: 10 action types and 14 edge labels. An
  action vector `(type code, has-label flag, label code)` is decoded into a
  type and an optional label. Label codes count from 1, and 0 means "no
  label". `step` first scores the action with the reward model on the
  current observation followed by the action vector. Only then does it apply
  the decoded action and observe the new state. `reset` starts a fresh
  parser state.

Files:

- `wrappers.dfy`: `Option` (Python's `None`-or-value) and `Result`.
- `builtins.dfy` (module `Builtins`): the Python behaviour the code relies on.
  This covers list indexing with negative indices, `str.join`, the `<` order
  on strings with its order lemmas, `min(..., key=...)`, `itertools.combinations`,
  filtered list comprehensions and `*string` unpacking.
- `oracles.dfy` (module `Oracles`): `Settings` and the replay. The
  constructor's attribute loop is the method `New`, proved against the
  function `FromArgs`. `gen_actions` is the method `GenActions`, proved against
  the function `Replay`, with lemmas about every replay.
- `environment.dfy` (module `Environment`): the catalogues, the decoder, the
  reward-model input and the class `UccaEnv` with `Reset` and `Step`.

Collaborators are parameters:

- The TUPA state, oracle and feature extractor are fields of the datatypes
  `Oracles.Tupa` and `Environment.Parser`. Their fields are arbitrary
  functions: a new state for a passage, the transition, `need_label`,
  `finished`, the oracle's candidates and label, and the textual forms.
- The trained reward network is an arbitrary function `rewardModel` from the
  input vector to a number.

Every property holds for all such functions.

`Settings` objects are never changed after construction, so they are
modelled as values (a datatype). `UccaEnv` overwrites its `state` and
`stateVec` fields, so it is a class whose methods modify them. It keeps the
invariant `Ready()`: after `reset`, the observation is always the current
state's features.

## Model

| member | source | states |
|---|---|---|
| `Environment.CatalogsDistinct` | drl_ucca/envs/environment.py:11-12 | there are exactly 10 action types and 14 labels, and neither catalogue repeats a name |
| `Environment.Decode` | drl_ucca/envs/environment.py:65-66 | a vector is accepted exactly when it has at least three entries, its type code is in 0..9 and, with the flag set, its label code is in 1..14. The type is the type code's entry. The label is absent exactly when the flag is 0; otherwise it is the entry at label code − 1 |
| `Environment.DecodeAsWritten` | drl_ucca/envs/environment.py:65-66 | `step`'s own indexing with Python list semantics: a vector decodes exactly when it has a type code in −10..9 and a flag, and, with the flag set, a label code in −13..14. The type is the entry at the type code modulo 10, so negative codes count from the end. The label is absent when the flag is 0 and is otherwise the entry at (label code − 1) modulo 14 |
| `Environment.DecodeAgreesWithStep` | drl_ucca/envs/environment.py:65-66 | on every accepted vector, the decoder gives the same action as `step`'s own indexing with Python list semantics |
| `Environment.DecodeIgnoresLabelCode` | drl_ucca/envs/environment.py:66 | with the flag clear, the label code has no effect and there is no label |
| `Environment.DecodeInjective` | drl_ucca/envs/environment.py:65-66 | with the flag set and label codes in 1..14, distinct (type code, label code) pairs decode to distinct actions |
| `Environment.DecodeCoversCatalogs` | drl_ucca/envs/environment.py:65-66 | every type, alone or with any label, is the decoding of some accepted vector |
| `Environment.LabelCodeZeroIsU` | drl_ucca/envs/environment.py:66 | for every type code in 0..9, as written, flag set with label code 0 decodes to that type with label "U", exactly as label code 14 does; the corrected decoder rejects code 0 and accepts code 14 |
| `Environment.RewardInput` | drl_ucca/envs/environment.py:78-79 | the reward model's input has length \|obs\| + \|act\|: the observation is its prefix and the action vector's entries follow in order |
| `Environment.EnvironmentSettingIsDefault` | drl_ucca/envs/environment.py:18-19 | as written, unpacking the string "implicit" passes single characters, so every setting is off. The dictionary handed to the configuration maps implicit and linkage to false and unlabeled to None |
| `Environment.EnvironmentSettingIsImplicit` | drl_ucca/envs/environment.py:18-19 | passing the name "implicit" itself enables the implicit setting alone. The dictionary then maps implicit to true, linkage to false and unlabeled to None |
| `Environment.UccaEnv.constructor` | drl_ucca/envs/environment.py:16-19 | keeps the parser and reward model. As written, the settings are built from the characters of "implicit", so the dictionary handed to `config.update` maps implicit and linkage to false and unlabeled to None. There is no state yet |
| `Environment.UccaEnv.GetReward` | drl_ucca/envs/environment.py:78-80 | after a reset, the reward model applied to the current observation followed by the action vector's entries |
| `Environment.UccaEnv.Reset` | drl_ucca/envs/environment.py:73-76 | the state becomes a fresh state for the passage; the observation becomes its features and is returned |
| `Environment.UccaEnv.Step` | drl_ucca/envs/environment.py:62-71 | the reward is the model applied to the observation from before the move followed by the action vector. The new state is the transition of the old one by the decoded action. The returned observation is the new state's features and also the new `stateVec`. `done` is whether the new state is finished; info is empty |
| `Oracles.FromArgs` | passage2oracles.py:30-32 | each setting is enabled exactly when its name is among the arguments; other arguments are ignored |
| `Oracles.New` | passage2oracles.py:30-32 | setting the attributes one by one in the order of SETTINGS gives exactly `FromArgs(args)` |
| `Oracles.Settings.Dict` | passage2oracles.py:39-40 | the keys are exactly the three names; implicit and linkage map to their flag; unlabeled maps to None when off and to the empty list when on |
| `Oracles.DictInjective` | passage2oracles.py:39-40 | distinct settings give distinct dictionaries |
| `Oracles.Settings.List` | passage2oracles.py:42-43 | exactly the enabled names, in the order of SETTINGS and each once |
| `Oracles.FromListRoundTrip` | passage2oracles.py:42-43 | building settings from `list()` gives back the same settings |
| `Oracles.Settings.Suffix` | passage2oracles.py:45-46 | empty when nothing is enabled, otherwise "_" followed by the enabled names joined by "_" |
| `Oracles.SuffixTable` | passage2oracles.py:45-46 | the exact suffix of each of the eight settings, e.g. "_implicit_linkage" |
| `Oracles.SuffixInjective` | passage2oracles.py:45-46 | distinct settings give distinct suffixes, so their oracle file names differ |
| `Oracles.Settings.ToString` | passage2oracles.py:48-49 | "default" when nothing is enabled, otherwise the enabled names joined by "-" |
| `Oracles.ToStringTable` | passage2oracles.py:48-49 | the exact name of each of the eight settings, e.g. "implicit-unlabeled" |
| `Oracles.ToStringInjective` | passage2oracles.py:48-49 | distinct settings have distinct names |
| `Oracles.CompatibleExactly` | passage2oracles.py:28 | a combination is compatible exactly when it does not contain both linkage and unlabeled |
| `Oracles.SettingCombinations` | passage2oracles.py:36 | the combinations of the three names of sizes 1, 2 and 3, in `itertools` order |
| `Oracles.CompatibleCombinations` | passage2oracles.py:36-37 | the compatible combinations listed by size, then by combination order: all except (linkage, unlabeled) and the triple |
| `Oracles.All` | passage2oracles.py:34-37 | `all()` offers exactly six settings; which six is `Oracles.AllSettings` |
| `Oracles.AllSettings` | passage2oracles.py:34-37 | `all()` is exactly the six settings: none; implicit; linkage; unlabeled; implicit+linkage; implicit+unlabeled |
| `Oracles.AllIsTheCompatibleSettings` | passage2oracles.py:35-37 | a setting is in `all()` exactly when it does not enable both linkage and unlabeled; there are 6 |
| `Builtins.ArgMin` | passage2oracles.py:57 | the position `min(..., key=str)` picks is a position of the non-empty candidate list |
| `Builtins.ArgMinIsFirstMinimum` | passage2oracles.py:57 | `min(..., key=str)` picks a candidate whose text no other candidate's text is below, and the first such candidate |
| `Oracles.NextStep` | passage2oracles.py:57-64 | one pass of the loop body: it fails exactly when the candidate set is empty; otherwise the step starts from the current state and takes one of its candidates |
| `Oracles.NextStepFollowsOracle` | passage2oracles.py:57-63 | a loop pass fails exactly when the candidate set is empty. Otherwise it starts from the current state and follows the oracle. The chosen action is the first candidate whose text no other candidate's text is below. A label is added exactly when the state needs one after the transition, and it is the oracle's label. The line is the action's text, plus a space and the label's text when there is a label |
| `Oracles.Replay` | passage2oracles.py:56-66 | the loop with its step bound: it never takes more steps than the bound, and it stops for the bound only after taking that many steps |
| `Oracles.GenActions` | passage2oracles.py:52-66 | the lines emitted and the way the loop stops are exactly those of `Replay` from a fresh state |
| `Oracles.ReplayFollowsOracle` | passage2oracles.py:57-64 | every step of every replay follows the oracle, as above |
| `Oracles.ReplayChains` | passage2oracles.py:56-58 | each step starts where the previous one ended, the first at the start state; an empty candidate set at the state reached is what ends a replay with NoCandidates |
| `Oracles.ReplayStopsAtFinish` | passage2oracles.py:64-66 | no step before the last leaves the parse finished. The last step does so exactly when the replay ends with Finished |
| `Oracles.ReplayFuelIrrelevant` | passage2oracles.py:56 | a replay that ends before its bound gives the same result with any larger bound |
| `Builtins.JoinAfterEmpty` | passage2oracles.py:46 | joining after a leading empty string is empty for no names, else the separator followed by the join |

## Findings

| source | as written | input that shows it | evidently intended | confidence | as-written member | corrected member |
|---|---|---|---|---|---|---|
| drl_ucca/envs/environment.py:18 | `Settings(*('implicit'))` unpacks the characters of the string, as the parentheses without a trailing comma make no tuple | the constructor's setting has every flag off, with implicit false in the dictionary handed to the configuration; passage2oracles.py:69 writes the tuple `('implicit', 'linkage')` | the name "implicit" is passed, enabling the implicit setting | low, not executed | `Environment.EnvironmentSettingIsDefault` | `Environment.EnvironmentSettingIsImplicit` |
| drl_ucca/envs/environment.py:66 | with the flag set, the label is the catalogue entry at label code − 1 under Python indexing, so code 0 reads index −1 | action vector (t, 1, 0), for any type code t in 0..9, decodes to type t with label "U", the same as (t, 1, 14) | label code 0 is reserved for "no label", so a flagged vector with code 0 is rejected and decoding is one-to-one | medium, not executed | `Environment.LabelCodeZeroIsU` | `Environment.DecodeInjective` |

`Environment.EnvironmentSettingArgs` is the argument list evidently meant, and
`EnvironmentSettingIsImplicit` states its effect. The constructor of `UccaEnv`
keeps the code as written (`EnvironmentSettingArgsAsWritten`, every setting off),
since the two differ on every construction. `Environment.Decode` is the corrected decoder, and `UccaEnv.Step` uses it.
`Environment.DecodeAsWritten` keeps the code's own indexing, and
`Environment.DecodeAgreesWithStep` shows that the two agree on every
accepted vector. Negative type codes wrap around in the same way (−1 is
REDUCE). Codes past the end of a catalogue raise IndexError; the as-written
decoder gives None for them.

## Left out

- TensorFlow session creation, checkpoint restore and `sess.run` (drl_ucca/envs/environment.py:26-31, 80): the reward network is an arbitrary function of the input vector. Its float32 arithmetic is not modelled; observations and rewards are `real`.
- The internals of the TUPA `State`, `Oracle`, `Actions`, `Config` and `DenseFeatureExtractor`. They are abstract functions. The environment's `Config` set-up (`config.update`, `set_format("ucca")`, the feature extractor's options) is reduced to the dictionary handed to `config.update` (the field `configUpdate`).
- The oracle's own memory and the `Actions()` registry passed to `get_actions` count as part of the abstract state. The in-place mutation of the TUPA state object (and any aliasing of it) is modelled as a new state value.
- Oracles.GenActions: Python's `while True` loop is bounded by a `fuel` step count. A replay whose oracle never finishes ends with OutOfFuel rather than looping forever. The generator's lazy `yield` becomes the list of lines emitted, together with how the replay ended. An empty candidate set (the ValueError of `min`) ends it with NoCandidates after the lines already emitted.
- Environment.UccaEnv.GetReward: requires a prior `Reset`; before one, `_get_reward` raises AttributeError on `self.stateVec`, which the model does not represent.
- Environment.UccaEnv.Step: requires a prior `Reset` and an accepted action vector, so two-entry vectors with the flag clear, which the code decodes without reading a label code, are excluded. The code fails with AttributeError before any reset. On out-of-range codes it wraps or raises IndexError after the reward has been computed; see Findings. The has-label flag is an integer tested for non-zero; boolean or float flags are not modelled.
- `str(action)` and `str(label)` are abstract functions: the textual form of TUPA actions is not part of this model.
- Oracles.NextStep: actions are taken to be unchanged by `state.transition` and `state.label_node`. The line therefore begins with the same text that `min(..., key=str)` compared. In Python the action object is handed to `transition` before `str(action)` is read at passage2oracles.py:59, and a mutation there would change that text.
- Python dictionaries keep insertion order; `Settings.Dict` is a Dafny `map` and says nothing about key order.
- Corpus I/O is not part of this model: `basename`, `passage_files`, `load_passage`, `produce_oracle` with its file writing, and the `__main__` loop. The same holds for the gym registration metadata.
- An 88-action vocabulary, partial-credit reward scoring and the writing of training tuples do not occur in these two files and are not modelled. The same goes for a guard against stepping after the parse has finished: the code has none.
