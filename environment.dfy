/**
 * The reinforcement-learning environment over the UCCA parser: an action
 * vector (type code, has-label flag, label code) is scored by a trained
 * reward model on the current observation, decoded into a parser action,
 * and applied to the parser state, whose features become the next
 * observation.
 *
 * The parser state, its feature extractor and the trained reward network
 * are outside this model: a `Parser` value and the `rewardModel` function
 * stand for them.
 */
module Environment {
  import opened Wrappers
  import opened Builtins
  import Oracles

  /** The edge labels; label code `k` (from 1) names the `k - 1`-th. */
  const AllLabels: seq<string> := ["H", "A", "C", "L", "D", "E", "G", "S", "N", "P", "R", "F", "Terminal", "U"]

  /** The action types; type code `k` names the `k`-th. */
  const AllTypes: seq<string> :=
    ["SWAP", "IMPLICIT", "NODE", "RIGHT-EDGE", "LEFT-EDGE", "RIGHT-REMOTE", "LEFT-REMOTE", "SHIFT", "FINISH", "REDUCE"]

  predicate Distinct(s: seq<string>)
  {
    forall i, j :: 0 <= i < j < |s| ==> s[i] != s[j]
  }

  /** There are 10 action types and 14 labels, with no name repeated. */
  lemma CatalogsDistinct()
    ensures |AllTypes| == 10 && Distinct(AllTypes)
    ensures |AllLabels| == 14 && Distinct(AllLabels)
  {
  }

  /** A parser action: its type and, for labelled types, its label. */
  datatype Action = Action(kind: string, tag: Option<string>)

  datatype DecodeError = InvalidCode

  /**
   * An action vector the decoder accepts: a type code within the types and,
   * when the has-label flag is set, a label code from 1 to the number of
   * labels. With the flag clear, the label code is ignored.
   */
  predicate ValidAction(a: seq<int>)
  {
    && |a| >= 3
    && 0 <= a[0] < |AllTypes|
    && (a[1] != 0 ==> 1 <= a[2] <= |AllLabels|)
  }

  /**
   * The decoding of an action vector: the type named by its first entry,
   * and a label only when the flag (second entry) is set, named by the third
   * entry counted from 1. Codes outside these ranges are rejected.
   */
  function Decode(a: seq<int>): (r: Result<Action, DecodeError>)
    ensures r.Ok? <==> ValidAction(a)
    ensures r.Ok? ==> r.value.kind == AllTypes[a[0]]
    ensures r.Ok? ==> (r.value.tag.None? <==> a[1] == 0)
    ensures r.Ok? && a[1] != 0 ==> r.value.tag == Some(AllLabels[a[2] - 1])
  {
    if !ValidAction(a) then Err(InvalidCode)
    else Ok(Action(AllTypes[a[0]], if a[1] != 0 then Some(AllLabels[a[2] - 1]) else None))
  }

  /**
   * The decoding as the environment's `step` computes it, with Python's
   * list indexing: a negative code counts from the end of a catalog, and an
   * index past the end raises IndexError (None here).
   */
  function DecodeAsWritten(a: seq<int>): (r: Option<Action>)
    ensures r.Some? <==>
      && |a| >= 2 && -|AllTypes| <= a[0] < |AllTypes|
      && (a[1] != 0 ==> |a| >= 3 && -|AllLabels| <= a[2] - 1 < |AllLabels|)
    ensures r.Some? ==> r.value.kind == AllTypes[a[0] % |AllTypes|]
    ensures r.Some? ==> r.value.tag == if a[1] == 0 then None else Some(AllLabels[(a[2] - 1) % |AllLabels|])
  {
    match Index(a, 0)
    case None => None
    case Some(typeCode) =>
      match Index(AllTypes, typeCode)
      case None => None
      case Some(kind) =>
        match Index(a, 1)
        case None => None
        case Some(flag) =>
          if flag == 0 then Some(Action(kind, None))
          else
            match Index(a, 2)
            case None => None
            case Some(labelCode) =>
              match Index(AllLabels, labelCode - 1)
              case None => None
              case Some(name) => Some(Action(kind, Some(name)))
  }

  /** On the vectors it accepts, the decoder agrees with the environment's own decoding. */
  lemma DecodeAgreesWithStep(a: seq<int>)
    requires ValidAction(a)
    ensures DecodeAsWritten(a) == Some(Decode(a).value)
  {
  }

  /**
   * As written, a set flag with label code 0 indexes the labels at -1 and
   * so yields the last label, "U", exactly as label code 14 does, whatever
   * the type; the decoder rejects label code 0.
   */
  lemma LabelCodeZeroIsU(t: int)
    requires 0 <= t < |AllTypes|
    ensures DecodeAsWritten([t, 1, 0]) == DecodeAsWritten([t, 1, 14]) == Some(Action(AllTypes[t], Some("U")))
    ensures Decode([t, 1, 0]).Err? && Decode([t, 1, 14]) == Ok(Action(AllTypes[t], Some("U")))
  {
  }

  /** With the flag clear, the label code does not matter. */
  lemma DecodeIgnoresLabelCode(t: int, x: int, y: int)
    requires 0 <= t < |AllTypes|
    ensures Decode([t, 0, x]) == Decode([t, 0, y])
    ensures Decode([t, 0, x]).Ok? && Decode([t, 0, x]).value.tag == None
  {
  }

  /**
   * Label codes 1..14 with the flag set: distinct (type code, label code)
   * pairs decode to distinct actions, since neither catalog repeats a name.
   */
  lemma DecodeInjective(t1: int, c1: int, t2: int, c2: int)
    requires ValidAction([t1, 1, c1]) && ValidAction([t2, 1, c2])
    requires Decode([t1, 1, c1]) == Decode([t2, 1, c2])
    ensures t1 == t2 && c1 == c2
  {
    CatalogsDistinct();
    assert AllTypes[t1] == AllTypes[t2];
    assert AllLabels[c1 - 1] == AllLabels[c2 - 1];
  }

  /** Every type, with no label or with any label, is the decoding of some vector. */
  lemma DecodeCoversCatalogs(kind: string, tag: Option<string>)
    requires kind in AllTypes
    requires tag.Some? ==> tag.value in AllLabels
    ensures exists a :: Decode(a) == Ok(Action(kind, tag))
  {
    var t :| 0 <= t < |AllTypes| && AllTypes[t] == kind;
    if tag.Some? {
      var l :| 0 <= l < |AllLabels| && AllLabels[l] == tag.value;
      assert Decode([t, 1, l + 1]) == Ok(Action(kind, tag));
    } else {
      assert Decode([t, 0, 0]) == Ok(Action(kind, tag));
    }
  }

  /** The action vector's entries as numbers, as they enter the reward model. */
  function AsReals(v: seq<int>): seq<real>
  {
    seq(|v|, i requires 0 <= i < |v| => v[i] as real)
  }

  /** The reward model's input: the observation followed by the action vector. */
  function RewardInput(obs: seq<real>, act: seq<int>): (input: seq<real>)
    ensures |input| == |obs| + |act|
    ensures input[..|obs|] == obs
    ensures forall i :: 0 <= i < |act| ==> input[|obs| + i] == act[i] as real
  {
    obs + AsReals(act)
  }

  /** What the environment uses of the parser library, for passages `P` and states `S`. */
  datatype Parser<!P, !S> = Parser(
    newState: P -> S,                // State(passage)
    transition: (S, Action) -> S,    // state.transition(action)
    finished: S -> bool,             // state.finished
    features: S -> seq<real>)        // extract_features(state)["numeric"]

  /** The arguments the environment's constructor hands to Settings: the characters of "implicit", one by one. */
  function EnvironmentSettingArgsAsWritten(): (args: seq<string>)
    ensures |args| == 8
  {
    Chars("implicit")
  }

  /** The arguments the constructor evidently means: the one name "implicit". */
  function EnvironmentSettingArgs(): (args: seq<string>)
    ensures "implicit" in args && "linkage" !in args && "unlabeled" !in args
  {
    ["implicit"]
  }

  /**
   * Unpacking the string "implicit" passes one-character arguments, none of
   * which is a setting name, so as written the environment runs with every
   * setting off.
   */
  lemma EnvironmentSettingIsDefault()
    ensures Oracles.FromArgs(EnvironmentSettingArgsAsWritten()) == Oracles.Settings(false, false, false)
    ensures Oracles.FromArgs(EnvironmentSettingArgsAsWritten()).Dict()
         == map["implicit" := Oracles.Flag(false), "linkage" := Oracles.Flag(false), "unlabeled" := Oracles.NoneValue]
  {
    var args := EnvironmentSettingArgsAsWritten();
    assert "implicit" !in args && "linkage" !in args && "unlabeled" !in args;
  }

  /** Passing the name itself enables exactly the implicit setting. */
  lemma EnvironmentSettingIsImplicit()
    ensures Oracles.FromArgs(EnvironmentSettingArgs()) == Oracles.Settings(true, false, false)
    ensures Oracles.FromArgs(EnvironmentSettingArgs()).Dict()
         == map["implicit" := Oracles.Flag(true), "linkage" := Oracles.Flag(false), "unlabeled" := Oracles.NoneValue]
  {
  }

  /**
   * The environment: a parser state and its observation (the state's
   * features), stepped by action vectors and scored by the reward model.
   */
  class UccaEnv<P, S> {
    const parser: Parser<P, S>
    const rewardModel: seq<real> -> real
    /** The dictionary the constructor hands to `config.update`. */
    const configUpdate: map<string, Oracles.Value>
    var state: Option<S>
    var stateVec: seq<real>

    /** After a reset: there is a state, and the observation is its features. */
    ghost predicate Ready()
      reads this
    {
      state.Some? && stateVec == parser.features(state.value)
    }

    constructor (parser: Parser<P, S>, rewardModel: seq<real> -> real)
      ensures this.parser == parser && this.rewardModel == rewardModel
      ensures configUpdate
           == map["implicit" := Oracles.Flag(false), "linkage" := Oracles.Flag(false), "unlabeled" := Oracles.NoneValue]
      ensures state.None?
    {
      this.parser := parser;
      this.rewardModel := rewardModel;
      var setting := Oracles.New(EnvironmentSettingArgsAsWritten());
      EnvironmentSettingIsDefault();
      this.configUpdate := setting.Dict();
      this.state := None;
      this.stateVec := [];
    }

    /** The reward model's score for an action vector at the current observation. */
    function GetReward(actVec: seq<int>): (reward: real)
      requires Ready()
      reads this
      ensures reward == rewardModel(stateVec + AsReals(actVec))
    {
      rewardModel(RewardInput(stateVec, actVec))
    }

    /** Replaces the state with a fresh one for `passage` and returns its features. */
    method Reset(passage: P) returns (obs: seq<real>)
      modifies this
      ensures Ready()
      ensures state == Some(parser.newState(passage))
      ensures obs == stateVec
    {
      state := Some(parser.newState(passage));
      stateVec := parser.features(state.value);
      obs := stateVec;
    }

    /**
     * Scores `action` on the observation from before the move, then decodes
     * and applies it, and observes the new state; returns the new
     * observation, the reward, whether the parse is finished, and no info.
     */
    method Step(action: seq<int>) returns (obs: seq<real>, reward: real, done: bool, info: string)
      requires Ready() && ValidAction(action)
      modifies this
      ensures Ready()
      ensures reward == rewardModel(RewardInput(old(stateVec), action))
      ensures state == Some(parser.transition(old(state).value, Decode(action).value))
      ensures obs == stateVec == parser.features(state.value)
      ensures done == parser.finished(state.value)
      ensures info == ""
    {
      reward := GetReward(action);
      var act := Decode(action).value;
      state := Some(parser.transition(state.value, act));
      stateVec := parser.features(state.value);
      return stateVec, reward, parser.finished(state.value), "";
    }
  }
}
