/**
 * Oracle sequences for UCCA passages: the `Settings` configuration (which
 * of the implicit, linkage and unlabeled variants of the parser is used)
 * and the replay of the gold action sequence through an oracle.
 *
 * The parser state, the oracle, and the textual forms of actions and labels
 * belong to an external parser library; here they are the functions of a
 * `Tupa` value, so the replay's selection rule and emission protocol are
 * stated for every oracle.
 */
module Oracles {
  import opened Wrappers
  import opened Builtins

  // ---------------------------------------------------------------- Settings

  /** The setting names, in their fixed order. */
  const SETTINGS: seq<string> := ["implicit", "linkage", "unlabeled"]

  /** Groups of settings that may not all be enabled together. */
  const INCOMPATIBLE: seq<seq<string>> := [["linkage", "unlabeled"]]

  /** The values a setting contributes to a configuration dictionary. */
  datatype Value = Flag(b: bool) | NoneValue | EmptyList

  /** Per-setting (off, on) values where they are not (False, True). */
  const VALUES: map<string, (Value, Value)> := map["unlabeled" := (NoneValue, EmptyList)]

  /** One configuration: whether each named setting is enabled. */
  datatype Settings = Settings(implicit: bool, linkage: bool, unlabeled: bool)
  {
    /** `getattr(self, attr)`. */
    function Get(attr: string): bool
      requires attr in SETTINGS
    {
      if attr == "implicit" then implicit
      else if attr == "linkage" then linkage
      else unlabeled
    }

    /** `setattr(self, attr, v)`, on a value. */
    function With(attr: string, v: bool): (s: Settings)
      requires attr in SETTINGS
      ensures s.Get(attr) == v
      ensures forall other :: other in SETTINGS && other != attr ==> s.Get(other) == Get(other)
    {
      if attr == "implicit" then this.(implicit := v)
      else if attr == "linkage" then this.(linkage := v)
      else this.(unlabeled := v)
    }

    /**
     * `dict()`: every setting name mapped to its value: a flag for implicit
     * and linkage, None or an empty list for unlabeled.
     */
    function Dict(): (d: map<string, Value>)
      ensures d.Keys == {"implicit", "linkage", "unlabeled"}
      ensures d["implicit"] == Flag(implicit) && d["linkage"] == Flag(linkage)
      ensures d["unlabeled"] == if unlabeled then EmptyList else NoneValue
    {
      map attr | attr in SETTINGS ::
        var pair := if attr in VALUES then VALUES[attr] else (Flag(false), Flag(true));
        if Get(attr) then pair.1 else pair.0
    }

    /** `list()`: the enabled setting names, in the order of SETTINGS. */
    function List(): (names: seq<string>)
      ensures names == (if implicit then ["implicit"] else [])
                     + (if linkage then ["linkage"] else [])
                     + (if unlabeled then ["unlabeled"] else [])
      ensures forall attr :: attr in names <==> attr in SETTINGS && Get(attr)
    {
      FilterMembers(attr => attr in SETTINGS && Get(attr), SETTINGS);
      Filter(attr => attr in SETTINGS && Get(attr), SETTINGS)
    }

    /** `suffix()`: empty by default, otherwise `_` before each enabled name. */
    function Suffix(): (r: string)
      ensures List() == [] ==> r == ""
      ensures List() != [] ==> r == "_" + Join("_", List())
    {
      JoinAfterEmpty("_", List());
      Join("_", [""] + List())
    }

    /** `str()`: the enabled names joined by `-`, or "default" when there are none. */
    function ToString(): (r: string)
      ensures List() == [] ==> r == "default"
      ensures List() != [] ==> r == Join("-", List())
    {
      var joined := Join("-", List());
      assert List() != [] ==> joined != "" by {
        if List() != [] {
          JoinNotEmpty("-", List());
        }
      }
      if joined == "" then "default" else joined
    }
  }

  /** `Settings(*args)`: a setting is enabled exactly when its name is an argument. */
  function FromArgs(args: seq<string>): (s: Settings)
    ensures forall attr :: attr in SETTINGS ==> (s.Get(attr) <==> attr in args)
  {
    Settings("implicit" in args, "linkage" in args, "unlabeled" in args)
  }

  /** `Settings.__init__`: sets each attribute in turn, in the order of SETTINGS. */
  method New(args: seq<string>) returns (s: Settings)
    ensures s == FromArgs(args)
  {
    s := Settings(false, false, false);
    for k := 0 to |SETTINGS|
      invariant forall j :: 0 <= j < k ==> s.Get(SETTINGS[j]) == (SETTINGS[j] in args)
    {
      s := s.With(SETTINGS[k], SETTINGS[k] in args);
    }
    assert s.Get(SETTINGS[0]) == s.implicit;
    assert s.Get(SETTINGS[1]) == s.linkage;
    assert s.Get(SETTINGS[2]) == s.unlabeled;
  }

  /** The names that `list()` returns rebuild the same settings. */
  lemma FromListRoundTrip(s: Settings)
    ensures FromArgs(s.List()) == s
  {
    var t := FromArgs(s.List());
    assert t.Get("implicit") == s.Get("implicit");
    assert t.Get("linkage") == s.Get("linkage");
    assert t.Get("unlabeled") == s.Get("unlabeled");
  }

  /** `dict()` loses nothing: distinct settings give distinct dictionaries. */
  lemma DictInjective(s: Settings, t: Settings)
    requires s.Dict() == t.Dict()
    ensures s == t
  {
    assert s.Dict()["unlabeled"] == t.Dict()["unlabeled"];
  }

  /** A combination is compatible unless it holds every name of an incompatible group. */
  predicate Compatible(c: seq<string>)
  {
    !exists group :: group in INCOMPATIBLE && forall name :: name in group ==> name in c
  }

  /** The compatible combinations of fewer than `k` names, smaller ones first. */
  function CombinationsUpTo(k: nat): seq<seq<string>>
  {
    if k == 0 then []
    else CombinationsUpTo(k - 1) + Filter(Compatible, Combinations(SETTINGS, k - 1))
  }

  /** `Settings.all()`: one setting per compatible combination of names, six in all. */
  function All(): (r: seq<Settings>)
    ensures |r| == 6
  {
    var combos := CombinationsUpTo(|SETTINGS| + 1);
    assert |combos| == 6 by {
      CompatibleCombinations();
    }
    seq(|combos|, i requires 0 <= i < |combos| => FromArgs(combos[i]))
  }

  /** With a single incompatible group, compatibility means not both linkage and unlabeled. */
  lemma CompatibleExactly(c: seq<string>)
    ensures Compatible(c) <==> !("linkage" in c && "unlabeled" in c)
  {
    if "linkage" in c && "unlabeled" in c {
      assert INCOMPATIBLE[0] in INCOMPATIBLE;
    }
  }

  /** The combinations of the names after the first. */
  lemma TailCombinations()
    ensures Combinations(SETTINGS[1..], 0) == [[]]
    ensures Combinations(SETTINGS[1..], 1) == [["linkage"], ["unlabeled"]]
    ensures Combinations(SETTINGS[1..], 2) == [["linkage", "unlabeled"]]
    ensures Combinations(SETTINGS[1..], 3) == []
  {
    var l, u := "linkage", "unlabeled";
    var lu, uOnly, none: seq<string> := [l, u], [u], [];
    assert SETTINGS[1..] == lu && lu[1..] == uOnly && uOnly[1..] == none;
    assert [u] + none == [u] && [l] + none == [l] && [l] + [u] == [l, u];
    assert Combinations(none, 0) == [[]] && Combinations(none, 1) == [] && Combinations(none, 2) == [];
    assert Combinations(uOnly, 0) == [[]];
    assert Combinations(uOnly, 1) == Prepend(u, [[]]) == [[u]];
    assert Combinations(uOnly, 2) == Prepend(u, []) == [];
    assert Combinations(lu, 1) == Prepend(l, [[]]) + [[u]] == [[l], [u]];
    assert Combinations(lu, 2) == Prepend(l, [[u]]) + [] == [[l, u]];
    assert Combinations(lu, 3) == Prepend(l, []) + [] == [];
  }

  /** The combinations of the setting names, size by size. */
  lemma SettingCombinations()
    ensures Combinations(SETTINGS, 1) == [["implicit"], ["linkage"], ["unlabeled"]]
    ensures Combinations(SETTINGS, 2) == [["implicit", "linkage"], ["implicit", "unlabeled"], ["linkage", "unlabeled"]]
    ensures Combinations(SETTINGS, 3) == [["implicit", "linkage", "unlabeled"]]
  {
    var i, l, u := "implicit", "linkage", "unlabeled";
    var none: seq<string> := [];
    TailCombinations();
    assert [i] + none == [i] && [i] + [l] == [i, l] && [i] + [u] == [i, u] && [i] + [l, u] == [i, l, u];
    assert Combinations(SETTINGS, 1) == Prepend(i, [[]]) + [[l], [u]];
    assert Combinations(SETTINGS, 2) == Prepend(i, [[l], [u]]) + [[l, u]];
    assert Prepend(i, [[l], [u]]) == [[i, l]] + Prepend(i, [[u]]);
    assert Combinations(SETTINGS, 3) == Prepend(i, [[l, u]]) + [];
  }

  /** The compatible combinations, smallest first: all but linkage with unlabeled. */
  lemma CompatibleCombinations()
    ensures CombinationsUpTo(|SETTINGS| + 1) ==
      [[], ["implicit"], ["linkage"], ["unlabeled"], ["implicit", "linkage"], ["implicit", "unlabeled"]]
  {
    var i, l, u := "implicit", "linkage", "unlabeled";
    CompatibleUpToPairs();
    SettingCombinations();
    CompatibleTriple();
    assert CombinationsUpTo(4) == CombinationsUpTo(3) + Filter(Compatible, Combinations(SETTINGS, 3));
  }

  lemma CompatibleUpToPairs()
    ensures CombinationsUpTo(3) ==
      [[], ["implicit"], ["linkage"], ["unlabeled"], ["implicit", "linkage"], ["implicit", "unlabeled"]]
  {
    CompatibleUpToSingles();
    SettingCombinations();
    CompatiblePairs();
    assert CombinationsUpTo(3) == CombinationsUpTo(2) + Filter(Compatible, Combinations(SETTINGS, 2));
  }

  lemma CompatibleUpToSingles()
    ensures CombinationsUpTo(2) == [[], ["implicit"], ["linkage"], ["unlabeled"]]
  {
    SettingCombinations();
    CompatibleSingles();
    CompatibleExactly([]);
    assert CombinationsUpTo(1) == CombinationsUpTo(0) + Filter(Compatible, [[]]);
    assert CombinationsUpTo(2) == CombinationsUpTo(1) + Filter(Compatible, Combinations(SETTINGS, 1));
  }

  lemma CompatibleSingles()
    ensures Filter(Compatible, [["implicit"], ["linkage"], ["unlabeled"]]) == [["implicit"], ["linkage"], ["unlabeled"]]
  {
    var i, l, u := "implicit", "linkage", "unlabeled";
    CompatibleExactly([i]);
    CompatibleExactly([l]);
    CompatibleExactly([u]);
    assert [[i], [l], [u]][1..] == [[l], [u]] && [[l], [u]][1..] == [[u]];
  }

  lemma CompatiblePairs()
    ensures Filter(Compatible, [["implicit", "linkage"], ["implicit", "unlabeled"], ["linkage", "unlabeled"]])
         == [["implicit", "linkage"], ["implicit", "unlabeled"]]
  {
    var i, l, u := "implicit", "linkage", "unlabeled";
    CompatibleExactly([i, l]);
    CompatibleExactly([i, u]);
    CompatibleExactly([l, u]);
    assert [[i, l], [i, u], [l, u]][1..] == [[i, u], [l, u]] && [[i, u], [l, u]][1..] == [[l, u]];
  }

  lemma CompatibleTriple()
    ensures Filter(Compatible, [["implicit", "linkage", "unlabeled"]]) == []
  {
    CompatibleExactly(["implicit", "linkage", "unlabeled"]);
  }

  /**
   * `all()` lists six settings: the default, each single setting, then
   * implicit with linkage and implicit with unlabeled; linkage together
   * with unlabeled never appears.
   */
  lemma AllSettings()
    ensures All() == [Settings(false, false, false),
                      Settings(true, false, false), Settings(false, true, false), Settings(false, false, true),
                      Settings(true, true, false), Settings(true, false, true)]
  {
    var i, l, u := "implicit", "linkage", "unlabeled";
    CompatibleCombinations();
    assert FromArgs([]) == Settings(false, false, false);
    assert FromArgs([i]) == Settings(true, false, false);
    assert FromArgs([l]) == Settings(false, true, false);
    assert FromArgs([u]) == Settings(false, false, true);
    assert FromArgs([i, l]) == Settings(true, true, false);
    assert FromArgs([i, u]) == Settings(true, false, true);
  }

  /** A setting is offered by `all()` exactly when it does not combine linkage with unlabeled. */
  lemma AllIsTheCompatibleSettings(s: Settings)
    ensures s in All() <==> !(s.linkage && s.unlabeled)
    ensures |All()| == 6
  {
    AllSettings();
  }

  /** The enabled names of each of the eight settings. */
  lemma ListTable(s: Settings)
    ensures s.List() ==
      match (s.implicit, s.linkage, s.unlabeled)
      case (false, false, false) => []
      case (true, false, false) => ["implicit"]
      case (false, true, false) => ["linkage"]
      case (false, false, true) => ["unlabeled"]
      case (true, true, false) => ["implicit", "linkage"]
      case (true, false, true) => ["implicit", "unlabeled"]
      case (false, true, true) => ["linkage", "unlabeled"]
      case (true, true, true) => ["implicit", "linkage", "unlabeled"]
  {
  }

  /** The rendering of `str()` for each of the eight settings. */
  lemma ToStringTable(s: Settings)
    ensures s.ToString() ==
      match (s.implicit, s.linkage, s.unlabeled)
      case (false, false, false) => "default"
      case (true, false, false) => "implicit"
      case (false, true, false) => "linkage"
      case (false, false, true) => "unlabeled"
      case (true, true, false) => "implicit-linkage"
      case (true, false, true) => "implicit-unlabeled"
      case (false, true, true) => "linkage-unlabeled"
      case (true, true, true) => "implicit-linkage-unlabeled"
  {
    ListTable(s);
    DashJoins();
    var names, r := s.List(), s.ToString();
    match (s.implicit, s.linkage, s.unlabeled)
    case (false, false, false) =>
      assert names == [];
    case (true, false, false) =>
      assert names == ["implicit"];
    case (false, true, false) =>
      assert names == ["linkage"];
    case (false, false, true) =>
      assert names == ["unlabeled"];
    case (true, true, false) =>
      assert names == ["implicit", "linkage"];
    case (true, false, true) =>
      assert names == ["implicit", "unlabeled"];
    case (false, true, true) =>
      assert names == ["linkage", "unlabeled"];
    case (true, true, true) =>
      assert names == ["implicit", "linkage", "unlabeled"];
  }

  /** The rendering of `suffix()` for each of the eight settings. */
  lemma SuffixTable(s: Settings)
    ensures s.Suffix() ==
      match (s.implicit, s.linkage, s.unlabeled)
      case (false, false, false) => ""
      case (true, false, false) => "_implicit"
      case (false, true, false) => "_linkage"
      case (false, false, true) => "_unlabeled"
      case (true, true, false) => "_implicit_linkage"
      case (true, false, true) => "_implicit_unlabeled"
      case (false, true, true) => "_linkage_unlabeled"
      case (true, true, true) => "_implicit_linkage_unlabeled"
  {
    ListTable(s);
    UnderscoreJoins();
    var names, r := s.List(), s.Suffix();
    match (s.implicit, s.linkage, s.unlabeled)
    case (false, false, false) =>
      assert names == [];
    case (true, false, false) =>
      assert names == ["implicit"];
    case (false, true, false) =>
      assert names == ["linkage"];
    case (false, false, true) =>
      assert names == ["unlabeled"];
    case (true, true, false) =>
      assert names == ["implicit", "linkage"];
    case (true, false, true) =>
      assert names == ["implicit", "unlabeled"];
    case (false, true, true) =>
      assert names == ["linkage", "unlabeled"];
    case (true, true, true) =>
      assert names == ["implicit", "linkage", "unlabeled"];
  }

  /** Joins by `-` of the possible lists of enabled names. */
  lemma DashJoins()
    ensures Join("-", []) == ""
    ensures Join("-", ["implicit"]) == "implicit"
    ensures Join("-", ["linkage"]) == "linkage"
    ensures Join("-", ["unlabeled"]) == "unlabeled"
    ensures Join("-", ["implicit", "linkage"]) == "implicit-linkage"
    ensures Join("-", ["implicit", "unlabeled"]) == "implicit-unlabeled"
    ensures Join("-", ["linkage", "unlabeled"]) == "linkage-unlabeled"
    ensures Join("-", ["implicit", "linkage", "unlabeled"]) == "implicit-linkage-unlabeled"
  {
    JoinSmall("-", "implicit", "linkage", "unlabeled");
    JoinSmall("-", "linkage", "unlabeled", "");
    JoinSmall("-", "unlabeled", "", "");
    JoinSmall("-", "implicit", "unlabeled", "");
  }

  /** `_` followed by the joins by `_` of the possible non-empty lists of enabled names. */
  lemma UnderscoreJoins()
    ensures "_" + Join("_", ["implicit"]) == "_implicit"
    ensures "_" + Join("_", ["linkage"]) == "_linkage"
    ensures "_" + Join("_", ["unlabeled"]) == "_unlabeled"
    ensures "_" + Join("_", ["implicit", "linkage"]) == "_implicit_linkage"
    ensures "_" + Join("_", ["implicit", "unlabeled"]) == "_implicit_unlabeled"
    ensures "_" + Join("_", ["linkage", "unlabeled"]) == "_linkage_unlabeled"
    ensures "_" + Join("_", ["implicit", "linkage", "unlabeled"]) == "_implicit_linkage_unlabeled"
  {
    UnderscoreJoinsOfOne();
    UnderscoreJoinsOfTwo();
    UnderscoreJoinOfThree();
  }

  lemma UnderscoreJoinsOfOne()
    ensures "_" + Join("_", ["implicit"]) == "_implicit"
    ensures "_" + Join("_", ["linkage"]) == "_linkage"
    ensures "_" + Join("_", ["unlabeled"]) == "_unlabeled"
  {
    JoinSmall("_", "implicit", "", "");
    JoinSmall("_", "linkage", "", "");
    JoinSmall("_", "unlabeled", "", "");
  }

  lemma UnderscoreJoinsOfTwo()
    ensures "_" + Join("_", ["implicit", "linkage"]) == "_implicit_linkage"
    ensures "_" + Join("_", ["implicit", "unlabeled"]) == "_implicit_unlabeled"
    ensures "_" + Join("_", ["linkage", "unlabeled"]) == "_linkage_unlabeled"
  {
    JoinSmall("_", "implicit", "linkage", "");
    JoinSmall("_", "implicit", "unlabeled", "");
    JoinSmall("_", "linkage", "unlabeled", "");
  }

  lemma UnderscoreJoinOfThree()
    ensures "_" + Join("_", ["implicit", "linkage", "unlabeled"]) == "_implicit_linkage_unlabeled"
  {
    JoinSmall("_", "implicit", "linkage", "unlabeled");
  }

  /** Distinct settings have distinct names. */
  lemma ToStringInjective(s: Settings, t: Settings)
    requires s.ToString() == t.ToString()
    ensures s == t
  {
    ToStringTable(s);
    ToStringTable(t);
  }

  /** Distinct settings have distinct file-name suffixes. */
  lemma SuffixInjective(s: Settings, t: Settings)
    requires s.Suffix() == t.Suffix()
    ensures s == t
  {
    SuffixTable(s);
    SuffixTable(t);
  }

  // ---------------------------------------------------------- Oracle replay

  /**
   * What the replay uses of the parser library, for passages `P`, parser
   * states `S`, actions `A` and labels `L`. The oracle's own memory (and the
   * action registry handed to it) is taken to be part of the state `S`.
   */
  datatype Tupa<!P, !S, !A, !L> = Tupa(
    newState: P -> S,           // State(passage), with Oracle(passage) beside it
    candidates: S -> seq<A>,    // oracle.get_actions(state, actions).values()
    transition: (S, A) -> S,    // state.transition(action)
    needLabel: S -> bool,       // state.need_label
    getLabel: (S, A) -> L,      // the label of oracle.get_label(state, action)
    labelNode: (S, L) -> S,     // state.label_node(label)
    finished: S -> bool,        // state.finished
    showAction: A -> string,    // str(action)
    showLabel: L -> string)     // str(label)

  /** One pass of the replay loop: the state before, what was chosen, the state after, the line emitted. */
  datatype Step<S, A, L> = Step(before: S, action: A, nodeLabel: Option<L>, after: S, line: string)

  /**
   * How a replay stopped: after the step that finished the parse, on an
   * empty candidate set (the ValueError of `min`), or because the bound on
   * the number of steps was reached.
   */
  datatype Ending = Finished | NoCandidates | OutOfFuel

  datatype Run<S, A, L> = Run(steps: seq<Step<S, A, L>>, ending: Ending)

  /** One pass of the loop from state `s`; None when the oracle offers nothing. */
  function NextStep<P, S, A, L>(t: Tupa<P, S, A, L>, s: S): (r: Option<Step<S, A, L>>)
    ensures r.None? <==> |t.candidates(s)| == 0
    ensures r.Some? ==> r.value.before == s && r.value.action in t.candidates(s)
  {
    var cands := t.candidates(s);
    if |cands| == 0 then None
    else
      var a := cands[ArgMin(cands, t.showAction)];
      var moved := t.transition(s, a);
      if t.needLabel(moved) then
        var l := t.getLabel(moved, a);
        Some(Step(s, a, Some(l), t.labelNode(moved, l), t.showAction(a) + " " + t.showLabel(l)))
      else
        Some(Step(s, a, None, moved, t.showAction(a)))
  }

  /** The replay from state `s`, taking at most `fuel` steps. */
  function Replay<P, S, A, L>(t: Tupa<P, S, A, L>, s: S, fuel: nat): (r: Run<S, A, L>)
    ensures |r.steps| <= fuel
    ensures r.ending == OutOfFuel ==> |r.steps| == fuel
    decreases fuel
  {
    if fuel == 0 then Run([], OutOfFuel)
    else
      match NextStep(t, s)
      case None => Run([], NoCandidates)
      case Some(step) =>
        if t.finished(step.after) then Run([step], Finished)
        else
          var rest := Replay(t, step.after, fuel - 1);
          Run([step] + rest.steps, rest.ending)
  }

  /** The lines a run emits, one per step. */
  function Lines<S, A, L>(steps: seq<Step<S, A, L>>): (lines: seq<string>)
    ensures |lines| == |steps|
    ensures forall i :: 0 <= i < |steps| ==> lines[i] == steps[i].line
  {
    seq(|steps|, i requires 0 <= i < |steps| => steps[i].line)
  }

  /**
   * `gen_actions(passage)`: replays the oracle from a fresh state and emits
   * one line per transition, stopping after the step that finishes the
   * parse. The generator's `while True` is bounded here by `fuel` steps.
   */
  method GenActions<P, S, A, L>(t: Tupa<P, S, A, L>, passage: P, fuel: nat)
    returns (lines: seq<string>, ending: Ending)
    ensures lines == Lines(Replay(t, t.newState(passage), fuel).steps)
    ensures ending == Replay(t, t.newState(passage), fuel).ending
  {
    var state := t.newState(passage);
    ghost var whole := Replay(t, state, fuel);
    ghost var done: seq<Step<S, A, L>> := [];
    var remaining := fuel;
    lines := [];
    while remaining > 0
      invariant whole.steps == done + Replay(t, state, remaining).steps
      invariant whole.ending == Replay(t, state, remaining).ending
      invariant lines == Lines(done)
    {
      var cands := t.candidates(state);
      if |cands| == 0 {
        ending := NoCandidates;
        return;
      }
      var action := cands[ArgMin(cands, t.showAction)];
      ghost var before := state;
      state := t.transition(state, action);
      var s := t.showAction(action);
      ghost var nodeLabel: Option<L> := None;
      if t.needLabel(state) {
        var l := t.getLabel(state, action);
        state := t.labelNode(state, l);
        s := s + " " + t.showLabel(l);
        nodeLabel := Some(l);
      }
      ghost var step := Step(before, action, nodeLabel, state, s);
      assert NextStep(t, before) == Some(step);
      ReplayAdvances(t, before, remaining, step, done, whole);
      LinesAppend(done, step);
      done := done + [step];
      lines := lines + [s];
      if t.finished(state) {
        ending := Finished;
        return;
      }
      remaining := remaining - 1;
    }
    ending := OutOfFuel;
  }

  /** The loop's bookkeeping for one pass: the replay still ahead is the replay from the new state. */
  lemma ReplayAdvances<P, S, A, L>(t: Tupa<P, S, A, L>, s: S, fuel: nat, step: Step<S, A, L>,
                                   done: seq<Step<S, A, L>>, whole: Run<S, A, L>)
    requires fuel > 0 && NextStep(t, s) == Some(step)
    requires whole.steps == done + Replay(t, s, fuel).steps && whole.ending == Replay(t, s, fuel).ending
    ensures t.finished(step.after) ==> whole == Run(done + [step], Finished)
    ensures !t.finished(step.after) ==>
      && whole.steps == done + [step] + Replay(t, step.after, fuel - 1).steps
      && whole.ending == Replay(t, step.after, fuel - 1).ending
  {
    ReplayUnfolds(t, s, fuel);
  }

  lemma LinesAppend<S, A, L>(steps: seq<Step<S, A, L>>, step: Step<S, A, L>)
    ensures Lines(steps + [step]) == Lines(steps) + [step.line]
  {
  }

  /** What every step of a replay does: the choice, the label, the line. */
  ghost predicate StepFollowsOracle<P, S, A, L>(t: Tupa<P, S, A, L>, step: Step<S, A, L>)
  {
    var cands := t.candidates(step.before);
    var moved := t.transition(step.before, step.action);
    // the chosen action is the first candidate whose text no other candidate's text is below
    && (exists k :: 0 <= k < |cands| && cands[k] == step.action
                    && forall j :: 0 <= j < k ==> Less(t.showAction(step.action), t.showAction(cands[j])))
    && (forall j :: 0 <= j < |cands| ==> !Less(t.showAction(cands[j]), t.showAction(step.action)))
    // a label is asked for exactly when the state needs one after the transition
    && (step.nodeLabel.Some? <==> t.needLabel(moved))
    && step.after == (if step.nodeLabel.Some? then t.labelNode(moved, step.nodeLabel.value) else moved)
    && (step.nodeLabel.Some? ==> step.nodeLabel.value == t.getLabel(moved, step.action))
    // the line is the action's text, followed by the label's text when there is one
    && step.line == t.showAction(step.action)
                    + (if step.nodeLabel.Some? then " " + t.showLabel(step.nodeLabel.value) else "")
  }

  /** The state the replay reaches after the first `k` steps of `run`. */
  function StateAfter<S, A, L>(s: S, steps: seq<Step<S, A, L>>, k: nat): S
    requires k <= |steps|
  {
    if k == 0 then s else steps[k - 1].after
  }

  /** Each pass of the loop starts from the given state and follows the oracle. */
  lemma NextStepFollowsOracle<P, S, A, L>(t: Tupa<P, S, A, L>, s: S)
    ensures NextStep(t, s).None? <==> t.candidates(s) == []
    ensures NextStep(t, s).Some? ==> NextStep(t, s).value.before == s && StepFollowsOracle(t, NextStep(t, s).value)
  {
    var cands := t.candidates(s);
    if |cands| > 0 {
      ArgMinIsFirstMinimum(cands, t.showAction);
      var k := ArgMin(cands, t.showAction);
      assert cands[k] == NextStep(t, s).value.action;
    }
  }

  /** A replay that takes a step and goes on is that step followed by the replay from its end. */
  lemma ReplayUnfolds<P, S, A, L>(t: Tupa<P, S, A, L>, s: S, fuel: nat)
    requires fuel > 0 && NextStep(t, s).Some?
    ensures var step := NextStep(t, s).value;
      Replay(t, s, fuel) ==
        if t.finished(step.after) then Run([step], Finished)
        else Run([step] + Replay(t, step.after, fuel - 1).steps, Replay(t, step.after, fuel - 1).ending)
  {
  }

  /**
   * The steps of a replay chain from its start state, and an empty
   * candidate set at the state reached is what stops it with NoCandidates.
   */
  lemma {:induction false} ReplayChains<P, S, A, L>(t: Tupa<P, S, A, L>, s: S, fuel: nat)
    ensures var run := Replay(t, s, fuel);
      && (forall i :: 0 <= i < |run.steps| ==> run.steps[i].before == StateAfter(s, run.steps, i))
      && (run.ending == NoCandidates ==> t.candidates(StateAfter(s, run.steps, |run.steps|)) == [])
    decreases fuel
  {
    if fuel > 0 && NextStep(t, s).Some? {
      var step := NextStep(t, s).value;
      NextStepFollowsOracle(t, s);
      ReplayUnfolds(t, s, fuel);
      if !t.finished(step.after) {
        ReplayChains(t, step.after, fuel - 1);
        var rest, run := Replay(t, step.after, fuel - 1), Replay(t, s, fuel);
        forall i | 0 < i < |run.steps|
          ensures run.steps[i] == rest.steps[i - 1]
        {
        }
      }
    }
  }

  /**
   * No step of a replay but the last leaves the parse finished, and the
   * last one does exactly when the replay ends with Finished.
   */
  lemma {:induction false} ReplayStopsAtFinish<P, S, A, L>(t: Tupa<P, S, A, L>, s: S, fuel: nat)
    ensures var run := Replay(t, s, fuel);
      && (forall i :: 0 <= i < |run.steps| - 1 ==> !t.finished(run.steps[i].after))
      && (run.ending == Finished <==> run.steps != [] && t.finished(run.steps[|run.steps| - 1].after))
    decreases fuel
  {
    if fuel > 0 && NextStep(t, s).Some? {
      var step := NextStep(t, s).value;
      ReplayUnfolds(t, s, fuel);
      if !t.finished(step.after) {
        ReplayStopsAtFinish(t, step.after, fuel - 1);
        var rest, run := Replay(t, step.after, fuel - 1), Replay(t, s, fuel);
        forall i | 0 < i < |run.steps|
          ensures run.steps[i] == rest.steps[i - 1]
        {
        }
      }
    }
  }

  /** Every step of every replay follows the oracle (StepFollowsOracle). */
  lemma {:induction false} ReplayFollowsOracle<P, S, A, L>(t: Tupa<P, S, A, L>, s: S, fuel: nat)
    ensures forall i :: 0 <= i < |Replay(t, s, fuel).steps| ==> StepFollowsOracle(t, Replay(t, s, fuel).steps[i])
    decreases fuel
  {
    if fuel > 0 && NextStep(t, s).Some? {
      var step := NextStep(t, s).value;
      NextStepFollowsOracle(t, s);
      ReplayUnfolds(t, s, fuel);
      if !t.finished(step.after) {
        ReplayFollowsOracle(t, step.after, fuel - 1);
        var rest, run := Replay(t, step.after, fuel - 1), Replay(t, s, fuel);
        forall i | 0 <= i < |run.steps|
          ensures StepFollowsOracle(t, run.steps[i])
        {
          if i > 0 {
            assert run.steps[i] == rest.steps[i - 1];
          }
        }
      }
    }
  }

  /** Running out of the bound is the only way the bound shows: more fuel changes nothing else. */
  lemma {:induction false} ReplayFuelIrrelevant<P, S, A, L>(t: Tupa<P, S, A, L>, s: S, fuel: nat, more: nat)
    requires Replay(t, s, fuel).ending != OutOfFuel
    requires fuel <= more
    ensures Replay(t, s, more) == Replay(t, s, fuel)
    decreases fuel
  {
    if NextStep(t, s).Some? && !t.finished(NextStep(t, s).value.after) {
      ReplayFuelIrrelevant(t, NextStep(t, s).value.after, fuel - 1, more - 1);
    }
  }
}
