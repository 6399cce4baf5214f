/** CloudFormationBuildWrapper: creates the configured stacks one after the
    other before the build, hands their outputs to the build, and deletes
    them again afterwards, or at once when one of them fails. */
module BuildWrapper {
  import opened Wrappers
  import JavaMaps
  import Regions
  import Lifecycle
  import ParsedParameters
  import Beans
  import opened Builds

  /** A stack the wrapper recorded: the object it built and the outputs
      create() left on it, unprefixed; getOutputs() prefixes them with the
      stack name expanded at the time of the call. */
  datatype Recorded = Recorded(cf: Lifecycle.CloudFormation, outputs: seq<JavaMaps.Entry>)

  /** newCloudFormation: a URL recipe is passed on as it is, any other is
      the name of a workspace file whose text becomes the template (reading
      it may throw). The parameters are parsed against the current
      environment (which may throw too) and the object is built with the
      bean's timeout, region and auto-delete flag, prefix selection off. */
  function NewCloudFormation(bean: Beans.StackBean, build: Build, env: map<string, string>): (r: Result<Lifecycle.CloudFormation>)
  {
    var isUrl := Lifecycle.IsRecipeUrl(bean.recipe);
    var recipe := if isUrl then Ok(bean.recipe) else build.workspace(bean.recipe);
    if recipe.Err? then Err(recipe.error)
    else
      var expand := ExpandIn(build, env);
      match ParsedParameters.GetParsedParameters(bean.parameters, expand)
      case Err(e) => Err(e)
      case Ok(parsed) =>
        Ok(Lifecycle.New(bean.stackName, isUrl, recipe.value, Some(build.iterate(parsed)), bean.timeout,
                         bean.region, bean.autoDeleteStack, expand, Some(false), 0))
  }

  /** What newCloudFormation builds: an error from the workspace comes
      first, then one from the parameters; otherwise the object carries the
      bean's name, flags and timeout rule, the default region for a null
      one, the recipe or the file's text, and the parameters parsed against
      `env` in the build's iteration order. */
  lemma NewCloudFormationBuilds(bean: Beans.StackBean, build: Build, env: map<string, string>)
    ensures var r := NewCloudFormation(bean, build, env);
      !Lifecycle.IsRecipeUrl(bean.recipe) && build.workspace(bean.recipe).Err? ==>
        r == Err(build.workspace(bean.recipe).error)
    ensures var r := NewCloudFormation(bean, build, env);
      r.Ok? <==>
        && (Lifecycle.IsRecipeUrl(bean.recipe) || build.workspace(bean.recipe).Ok?)
        && ParsedParameters.GetParsedParameters(bean.parameters, ExpandIn(build, env)).Ok?
    ensures var r := NewCloudFormation(bean, build, env);
      r.Ok? ==>
        && r.value.isRecipeUrl == Lifecycle.IsRecipeUrl(bean.recipe)
        && r.value.recipe == (if r.value.isRecipeUrl then bean.recipe else build.workspace(bean.recipe).value)
    ensures var r := NewCloudFormation(bean, build, env);
      r.Ok? ==>
        && r.value.stackName == bean.stackName && r.value.autoDeleteStack == bean.autoDeleteStack
        && r.value.timeout == Lifecycle.EffectiveTimeout(bean.timeout)
        && r.value.region == Regions.OrDefault(bean.region)
        && r.value.isPrefixSelected == Some(false) && r.value.sleep == 0
        && r.value.stack.None? && r.value.outputs.None?
    ensures var r := NewCloudFormation(bean, build, env);
      r.Ok? ==>
        && r.value.parameters == Lifecycle.StackParameters(
             Some(build.iterate(ParsedParameters.GetParsedParameters(bean.parameters, ExpandIn(build, env)).value)))
        && forall s :: r.value.expand(s) == build.expand(env, s)
    ensures var r := NewCloudFormation(bean, build, env);
      IteratesMaps(build) && r.Ok? ==>
        CarriesParameters(r.value.parameters,
                          ParsedParameters.GetParsedParameters(bean.parameters, ExpandIn(build, env)).value)
  {
    if IteratesMaps(build) && NewCloudFormation(bean, build, env).Ok? {
      NewCloudFormationCarries(bean, build, env);
    }
  }

  /** The parameters half of NewCloudFormationBuilds. */
  lemma NewCloudFormationCarries(bean: Beans.StackBean, build: Build, env: map<string, string>)
    requires IteratesMaps(build) && NewCloudFormation(bean, build, env).Ok?
    ensures CarriesParameters(NewCloudFormation(bean, build, env).value.parameters,
                              ParsedParameters.GetParsedParameters(bean.parameters, ExpandIn(build, env)).value)
  {
    var parsed := ParsedParameters.GetParsedParameters(bean.parameters, ExpandIn(build, env)).value;
    EnumeratedParameters(build.iterate(parsed), parsed);
  }

  // ------------------------------------------------------------ outputs

  /** getOutputs() of the recorded stacks, one after the other. */
  function Outputs(rs: seq<Recorded>): seq<JavaMaps.Entry>
  {
    if |rs| == 0 then [] else Outputs(rs[..|rs| - 1]) + GetOutputs(rs[|rs| - 1])
  }

  /** getOutputs() of one recorded stack, against the object's own
      expansion. */
  function GetOutputs(r: Recorded): seq<JavaMaps.Entry>
  {
    PrefixedOutputs(r.cf, r.outputs)
  }

  /** An environment after the outputs of the recorded stacks were put into
      it in turn. */
  function EnvAfter(env: map<string, string>, rs: seq<Recorded>): map<string, string>
  {
    JavaMaps.PutAll(env, Outputs(rs))
  }

  /** makeBuildVariables: putAll of getOutputs() of every recorded stack,
      in recording order, so a later stack's output wins over an earlier
      one with the same key, and both win over the variables already
      there. The wrapper calls it on Kept, the objects as they stand once
      setUp returned. */
  function MakeBuildVariables(rs: seq<Recorded>, variables: map<string, string>): (r: map<string, string>)
    ensures r.Keys == variables.Keys + JavaMaps.KeysOf(Outputs(rs))
    ensures forall k :: k in r ==>
      r[k] == (if JavaMaps.HasKey(Outputs(rs), k) then JavaMaps.LastValue(Outputs(rs), k) else variables[k])
    ensures r == EnvAfter(variables, rs)
    decreases |rs|
  {
    if |rs| == 0 then variables
    else
      var init := rs[..|rs| - 1];
      var r := JavaMaps.PutAll(MakeBuildVariables(init, variables), GetOutputs(rs[|rs| - 1]));
      JavaMaps.PutAllAppend(variables, Outputs(init), GetOutputs(rs[|rs| - 1]));
      r
  }

  // ------------------------------------------------------------ setUp

  /** The variables of setUp's loop: its two flags, the environment, the
      stacks recorded so far and the number of create() calls made. The
      loop is stated over any type of environment `E`. */
  datatype LoopState<E> = LoopState(success: bool, failCascade: bool, env: E,
                                    recorded: seq<Recorded>, creates: nat)

  /** How the loop ended: it ran out of stacks, it broke off after a stack
      failed, or an exception escaped it. */
  datatype LoopEnd = Finished | BrokeOff | Escaped(error: JavaException)

  datatype LoopRun<E> = LoopRun(end: LoopEnd, state: LoopState<E>)

  /** An environment after `put` of getOutputs() of each recorded stack in
      turn. */
  function EnvFold<E>(put: (E, seq<JavaMaps.Entry>) -> E, env0: E, rs: seq<Recorded>): E
    decreases |rs|
  {
    if |rs| == 0 then env0 else put(EnvFold(put, env0, rs[..|rs| - 1]), GetOutputs(rs[|rs| - 1]))
  }

  /** Putting the outputs in one after the other with putAll gives the
      environment of all outputs put in at once. */
  lemma {:induction false} EnvFoldPutAll(env0: map<string, string>, rs: seq<Recorded>)
    ensures EnvFold(JavaMaps.PutAll, env0, rs) == EnvAfter(env0, rs)
    decreases |rs|
  {
    if |rs| > 0 {
      var init := rs[..|rs| - 1];
      EnvFoldPutAll(env0, init);
      JavaMaps.PutAllAppend(env0, Outputs(init), GetOutputs(rs[|rs| - 1]));
    }
  }

  /** The same for every prefix of the recorded stacks. */
  lemma EnvFoldPutAllPrefixes(env0: map<string, string>, rs: seq<Recorded>)
    ensures forall j :: 0 <= j <= |rs| ==> EnvFold(JavaMaps.PutAll, env0, rs[..j]) == EnvAfter(env0, rs[..j])
  {
    forall j | 0 <= j <= |rs| ensures EnvFold(JavaMaps.PutAll, env0, rs[..j]) == EnvAfter(env0, rs[..j]) {
      EnvFoldPutAll(env0, rs[..j]);
    }
  }

  /** The loop of setUp from stack `i` on. `make` builds the object for a
      bean in an environment (newCloudFormation), `put` puts a created
      stack's outputs into the environment (putAll), and `answers(i)` is
      what create() does for stack `i`. The loop enters each round with
      `success` true, because every failure breaks off at once; the skip
      branch for a cascading failure therefore never runs. */
  function SetUpLoop<E(==)>(stacks: seq<Beans.StackBean>, env0: E, put: (E, seq<JavaMaps.Entry>) -> E,
                            make: (Beans.StackBean, E) -> Result<Lifecycle.CloudFormation>,
                            answers: nat -> CreateResult, i: nat, st: LoopState<E>): (r: LoopRun<E>)
    requires i <= |stacks|
    requires st.success && !st.failCascade && |st.recorded| == i && st.creates == i
    requires st.env == EnvFold(put, env0, st.recorded)
    ensures i <= |r.state.recorded| <= |stacks| && r.state.recorded[..i] == st.recorded
    ensures forall j :: i <= j < |r.state.recorded| ==>
      answers(j).Created? && r.state.recorded[j].outputs == answers(j).outputs
    ensures r.state.env == EnvFold(put, env0, r.state.recorded)
    ensures r.end.Finished? <==> |r.state.recorded| == |stacks|
    ensures r.end.Finished? ==> r.state.success && r.state.creates == |stacks|
    ensures r.end.BrokeOff? <==> !r.state.success
    ensures r.end.BrokeOff? ==>
      && r.state.creates == |r.state.recorded| + 1
      && (answers(|r.state.recorded|) == NotCreated || answers(|r.state.recorded|) == CreateThrew(TimeoutException))
      && (r.state.failCascade <==> answers(|r.state.recorded|) == NotCreated && stacks[|r.state.recorded|].failCascade)
    ensures r.end.Escaped? ==>
      || (r.state.creates == |r.state.recorded|
          && make(stacks[|r.state.recorded|], r.state.env) == Err(r.end.error))
      || (r.state.creates == |r.state.recorded| + 1
          && answers(|r.state.recorded|) == CreateThrew(r.end.error) && r.end.error != TimeoutException)
    ensures r.state.creates == |r.state.recorded| + 1 ==>
      make(stacks[|r.state.recorded|], r.state.env).Ok? && !answers(|r.state.recorded|).Created?
    decreases |stacks| - i
  {
    if i == |stacks| then LoopRun(Finished, st)
    else if !st.success && st.failCascade then
      assert false;
      LoopRun(Finished, st)
    else
      match make(stacks[i], st.env)
      case Err(e) => LoopRun(Escaped(e), st)
      case Ok(cf) =>
        match answers(i)
        case Created(outs) =>
          var recorded := st.recorded + [Recorded(cf, outs)];
          assert recorded[..i] == st.recorded;
          var r := SetUpLoop(stacks, env0, put, make, answers, i + 1,
                             st.(env := put(st.env, PrefixedOutputs(cf, outs)), recorded := recorded, creates := i + 1));
          assert r.state.recorded[..i] == r.state.recorded[..i + 1][..i];
          assert r.state.recorded[i] == r.state.recorded[..i + 1][i];
          r
        case NotCreated =>
          var cascade := if stacks[i].failCascade then true else st.failCascade;
          LoopRun(BrokeOff, st.(success := false, failCascade := cascade, creates := i + 1))
        case CreateThrew(e) =>
          if e == TimeoutException then LoopRun(BrokeOff, st.(success := false, creates := i + 1))
          else LoopRun(Escaped(e), st.(creates := i + 1))
  }

  /** Each stack the loop records is the object built for its bean, in the
      environment the stacks before it left. */
  lemma {:induction false} SetUpLoopBuilds<E>(stacks: seq<Beans.StackBean>, env0: E, put: (E, seq<JavaMaps.Entry>) -> E,
                                                  make: (Beans.StackBean, E) -> Result<Lifecycle.CloudFormation>,
                                                  answers: nat -> CreateResult, i: nat, st: LoopState<E>)
    requires i <= |stacks|
    requires st.success && !st.failCascade && |st.recorded| == i && st.creates == i
    requires st.env == EnvFold(put, env0, st.recorded)
    ensures var r := SetUpLoop(stacks, env0, put, make, answers, i, st);
      forall j :: i <= j < |r.state.recorded| ==>
        make(stacks[j], EnvFold(put, env0, r.state.recorded[..j])) == Ok(r.state.recorded[j].cf)
    decreases |stacks| - i
  {
    var r := SetUpLoop(stacks, env0, put, make, answers, i, st);
    if i < |stacks| && make(stacks[i], st.env).Ok? && answers(i).Created? {
      var cf := make(stacks[i], st.env).value;
      var outs := answers(i).outputs;
      var recorded := st.recorded + [Recorded(cf, outs)];
      assert recorded[..i] == st.recorded;
      var next := st.(env := put(st.env, PrefixedOutputs(cf, outs)), recorded := recorded, creates := i + 1);
      assert r == SetUpLoop(stacks, env0, put, make, answers, i + 1, next);
      SetUpLoopBuilds(stacks, env0, put, make, answers, i + 1, next);
      assert r.state.recorded[..i] == st.recorded && r.state.recorded[i].cf == cf by {
        assert r.state.recorded[..i + 1] == recorded;
        assert r.state.recorded[..i] == r.state.recorded[..i + 1][..i];
        assert r.state.recorded[i] == r.state.recorded[..i + 1][i];
      }
      forall j | i <= j < |r.state.recorded|
        ensures make(stacks[j], EnvFold(put, env0, r.state.recorded[..j])) == Ok(r.state.recorded[j].cf)
      {
        if j == i {
          assert EnvFold(put, env0, r.state.recorded[..j]) == st.env;
        }
      }
    }
  }

  /** What setUp returned: an Environment (whose tearDown deletes the
      stacks later), null, or the exception that escaped. */
  datatype SetUpResult = EnvironmentReturned | NullReturned | SetUpThrew(error: JavaException)

  /** setUp's result, the stacks recorded, the environment afterwards, the
      create() calls made and the tear-down it ran at once, if any. */
  datatype SetUpRun = SetUpRun(result: SetUpResult, recorded: seq<Recorded>, env: map<string, string>,
                               creates: nat, tornDown: Option<TearDownRun>)

  /** setUp: stacks are created in list order; each created stack is
      recorded and its outputs go into the environment the next one is
      built with. The first stack whose create() returns false or times
      out stops the loop: the stacks recorded so far are torn down at once
      and setUp returns null. Any other exception escapes, with nothing torn
      down. When every stack was created, tear-down is left to the returned
      Environment. */
  function SetUp(stacks: seq<Beans.StackBean>, build: Build, answers: nat -> CreateResult,
                 deletes: nat -> DeleteResult): (run: SetUpRun)
    ensures |run.recorded| <= run.creates <= |run.recorded| + 1 && |run.recorded| <= |stacks|
    ensures forall j :: 0 <= j < |run.recorded| ==>
      && answers(j).Created? && run.recorded[j].outputs == answers(j).outputs
      && NewCloudFormation(stacks[j], build, EnvAfter(StepEnv(build), run.recorded[..j])) == Ok(run.recorded[j].cf)
    ensures run.creates == |run.recorded| + 1 ==> !answers(|run.recorded|).Created?
    ensures run.env == EnvAfter(StepEnv(build), run.recorded)
    ensures run.result == EnvironmentReturned <==> |run.recorded| == |stacks|
    ensures run.result == EnvironmentReturned ==> run.creates == |stacks| && run.tornDown.None?
    ensures run.tornDown.Some? <==>
      run.creates == |run.recorded| + 1
      && (answers(|run.recorded|) == NotCreated || answers(|run.recorded|) == CreateThrew(TimeoutException))
    ensures run.tornDown.Some? ==> run.tornDown.value == DoTearDown(run.recorded, deletes)
    ensures run.result == NullReturned <==> run.tornDown.Some? && run.tornDown.value.result.Ok?
  {
    var make := (bean, env) => NewCloudFormation(bean, build, env);
    var start := LoopState(true, false, StepEnv(build), [], 0);
    var loop := SetUpLoop(stacks, StepEnv(build), JavaMaps.PutAll, make, answers, 0, start);
    SetUpLoopBuilds(stacks, StepEnv(build), JavaMaps.PutAll, make, answers, 0, start);
    EnvFoldPutAllPrefixes(StepEnv(build), loop.state.recorded);
    assert loop.state.recorded[..|loop.state.recorded|] == loop.state.recorded;
    var st := loop.state;
    match loop.end
    case Escaped(e) => SetUpRun(SetUpThrew(e), st.recorded, st.env, st.creates, None)
    case Finished => SetUpRun(EnvironmentReturned, st.recorded, st.env, st.creates, None)
    case BrokeOff =>
      var t := DoTearDown(st.recorded, deletes);
      var result := if t.result.Err? then SetUpThrew(t.result.error) else NullReturned;
      SetUpRun(result, st.recorded, st.env, st.creates, Some(t))
  }

  // ------------------------------------------------------------ doTearDown

  /** doTearDown's result (or the exception a delete() let escape) and the
      positions, in the recorded list, of the stacks whose delete() it
      called, in call order. */
  datatype TearDownRun = TearDownRun(result: Result<bool>, deleted: seq<nat>)

  /** The positions below `j` of the stacks marked for auto-delete, from
      the last recorded to the first: the reference order of tear-down. */
  function AutoDeleted(rs: seq<Recorded>, j: nat): seq<nat>
    requires j <= |rs|
    decreases j
  {
    if j == 0 then []
    else if rs[j - 1].cf.autoDeleteStack then [j - 1] + AutoDeleted(rs, j - 1)
    else AutoDeleted(rs, j - 1)
  }

  /** AutoDeleted lists exactly the stacks below `j` marked for
      auto-delete, each once, the last recorded first. */
  lemma {:induction false} AutoDeletedSelects(rs: seq<Recorded>, j: nat)
    requires j <= |rs|
    ensures forall a :: 0 <= a < |AutoDeleted(rs, j)| ==>
      AutoDeleted(rs, j)[a] < j && rs[AutoDeleted(rs, j)[a]].cf.autoDeleteStack
    ensures forall a, b :: 0 <= a < b < |AutoDeleted(rs, j)| ==> AutoDeleted(rs, j)[a] > AutoDeleted(rs, j)[b]
    ensures forall p :: 0 <= p < j && rs[p].cf.autoDeleteStack ==> p in AutoDeleted(rs, j)
    decreases j
  {
    if j > 0 {
      AutoDeletedSelects(rs, j - 1);
      var rest := AutoDeleted(rs, j - 1);
      if rs[j - 1].cf.autoDeleteStack {
        var ps := [j - 1] + rest;
        assert AutoDeleted(rs, j) == ps;
        assert forall a :: 1 <= a < |ps| ==> ps[a] == rest[a - 1];
        assert forall a, b :: 0 <= a < b < |ps| ==> ps[a] > ps[b] by {
          forall a, b | 0 <= a < b < |ps| ensures ps[a] > ps[b] {
            assert ps[b] == rest[b - 1];
          }
        }
      } else {
        assert AutoDeleted(rs, j) == rest;
      }
    }
  }

  /** The reference tear-down: delete() on the given stacks in order until
      one returns false or throws. */
  function DeleteInOrder(ps: seq<nat>, deletes: nat -> DeleteResult): (t: TearDownRun)
    ensures |t.deleted| <= |ps| && t.deleted == ps[..|t.deleted|]
    ensures forall a :: 0 <= a < |t.deleted| - 1 ==> deletes(t.deleted[a]) == DeleteReturned(true)
    ensures t.result == Ok(true) <==>
      t.deleted == ps && forall a :: 0 <= a < |ps| ==> deletes(ps[a]) == DeleteReturned(true)
    ensures t.result == Ok(false) ==> |t.deleted| > 0 && deletes(t.deleted[|t.deleted| - 1]) == DeleteReturned(false)
    ensures t.result.Err? ==> |t.deleted| > 0 && deletes(t.deleted[|t.deleted| - 1]) == DeleteThrew(t.result.error)
    decreases |ps|
  {
    if |ps| == 0 then TearDownRun(Ok(true), [])
    else
      match deletes(ps[0])
      case DeleteThrew(e) => TearDownRun(Err(e), [ps[0]])
      case DeleteReturned(ok) =>
        if !ok then TearDownRun(Ok(false), [ps[0]])
        else
          var rest := DeleteInOrder(ps[1..], deletes);
          var t := TearDownRun(rest.result, [ps[0]] + rest.deleted);
          assert forall a :: 1 <= a < |t.deleted| ==> t.deleted[a] == rest.deleted[a - 1];
          assert forall a :: 1 <= a < |ps| ==> ps[a] == ps[1..][a - 1];
          assert t.deleted == ps <==> rest.deleted == ps[1..];
          t
  }

  /** The tear-down loop over the stacks below `j`, last first, with the
      running result `result`. `result = result && cf.delete()` calls
      delete() only while the result is still true; stacks not marked for
      auto-delete are passed over. */
  function TearDownLoop(rs: seq<Recorded>, deletes: nat -> DeleteResult, j: nat, result: bool): (t: TearDownRun)
    requires j <= |rs|
    ensures !result ==> t == TearDownRun(Ok(false), [])
    ensures result ==> t == DeleteInOrder(AutoDeleted(rs, j), deletes)
    decreases j
  {
    if j == 0 then TearDownRun(Ok(result), [])
    else if !rs[j - 1].cf.autoDeleteStack then TearDownLoop(rs, deletes, j - 1, result)
    else if !result then TearDownLoop(rs, deletes, j - 1, false)
    else
      var ps := AutoDeleted(rs, j);
      assert ps == [j - 1] + AutoDeleted(rs, j - 1);
      assert ps[0] == j - 1 && ps[1..] == AutoDeleted(rs, j - 1);
      match deletes(j - 1)
      case DeleteThrew(e) => TearDownRun(Err(e), [j - 1])
      case DeleteReturned(ok) =>
        var rest := TearDownLoop(rs, deletes, j - 1, ok);
        TearDownRun(rest.result, [j - 1] + rest.deleted)
  }

  /** doTearDown: the recorded stacks in reverse creation order; delete()
      is called on those marked for auto-delete until one returns false. */
  function DoTearDown(rs: seq<Recorded>, deletes: nat -> DeleteResult): (t: TearDownRun)
    ensures t == DeleteInOrder(AutoDeleted(rs, |rs|), deletes)
  {
    TearDownLoop(rs, deletes, |rs|, true)
  }

  // ------------------------------------------------------------ properties

  /** The loop of the wrapper's test: the first stack is created and
      recorded, the second is not, and the loop breaks off there. */
  lemma SecondStackBreaksOff(stacks: seq<Beans.StackBean>, build: Build, env0: map<string, string>,
                             answers: nat -> CreateResult)
    requires |stacks| == 2
    requires NewCloudFormation(stacks[0], build, env0).Ok?
    requires NewCloudFormation(stacks[1], build, env0).Ok?
    requires answers(0) == Created([]) && answers(1) == NotCreated
    ensures var r := SetUpLoop(stacks, env0, JavaMaps.PutAll, (bean, env) => NewCloudFormation(bean, build, env),
                               answers, 0, LoopState(true, false, env0, [], 0));
      && r.end == BrokeOff && r.state.creates == 2
      && r.state.recorded == [Recorded(NewCloudFormation(stacks[0], build, env0).value, [])]
  {
    var make := (bean, env) => NewCloudFormation(bean, build, env);
    var start := LoopState(true, false, env0, [], 0);
    var first := NewCloudFormation(stacks[0], build, env0).value;
    var rs := [Recorded(first, [])];
    assert PrefixedOutputs(first, []) == [];
    assert JavaMaps.PutAll(env0, []) == env0;
    var next := LoopState(true, false, env0, rs, 1);
    var stop := LoopRun(BrokeOff, next.(success := false, failCascade := stacks[1].failCascade, creates := 2));
    assert SetUpLoop(stacks, env0, JavaMaps.PutAll, make, answers, 1, next) == stop by {
      assert rs[..0] == [];
      assert make(stacks[1], env0).Ok?;
    }
    assert SetUpLoop(stacks, env0, JavaMaps.PutAll, make, answers, 0, start) == stop by {
      assert make(stacks[0], env0) == Ok(first);
      assert [] + rs == rs;
    }
  }

  /** The stack a failed create() leaves out is never deleted, and no stack
      after it is built: with a first stack created and a second one
      failing, both create() calls happen, the first stack is deleted once
      and setUp returns null. */
  lemma SecondStackFailsFirstIsDeleted(stacks: seq<Beans.StackBean>, build: Build,
                                       answers: nat -> CreateResult, deletes: nat -> DeleteResult)
    requires |stacks| == 2
    requires NewCloudFormation(stacks[0], build, StepEnv(build)).Ok?
    requires NewCloudFormation(stacks[1], build, StepEnv(build)).Ok?
    requires stacks[0].autoDeleteStack
    requires answers(0) == Created([]) && answers(1) == NotCreated
    requires deletes(0) == DeleteReturned(true)
    ensures var run := SetUp(stacks, build, answers, deletes);
      run.creates == 2 && |run.recorded| == 1 && run.result == NullReturned
      && run.tornDown == Some(TearDownRun(Ok(true), [0]))
  {
    SecondStackBreaksOff(stacks, build, StepEnv(build), answers);
    NewCloudFormationBuilds(stacks[0], build, StepEnv(build));
    var rs := [Recorded(NewCloudFormation(stacks[0], build, StepEnv(build)).value, [])];
    assert DoTearDown(rs, deletes) == TearDownRun(Ok(true), [0]) by {
      assert AutoDeleted(rs, 1) == [0];
    }
  }

  /** The object doTearDown calls delete() on for the recorded stack `j`.
      setUp hands every CloudFormation the one EnvVars object it keeps
      putting outputs into, so once setUp returned the names are expanded
      against the environment all recorded stacks left, not the one
      create() saw. */
  function AtTearDown(run: SetUpRun, build: Build, j: nat): Lifecycle.CloudFormation
    requires j < |run.recorded|
  {
    run.recorded[j].cf.(expand := ExpandIn(build, run.env))
  }

  /** The wrapper's list of created stacks as makeBuildVariables and
      doTearDown find it after setUp returned: the recorded objects, each
      now expanding in setUp's final environment. */
  function Kept(run: SetUpRun, build: Build): (rs: seq<Recorded>)
    ensures |rs| == |run.recorded|
    ensures forall j :: 0 <= j < |rs| ==> rs[j].cf == AtTearDown(run, build, j) && rs[j].outputs == run.recorded[j].outputs
  {
    seq(|run.recorded|, j requires 0 <= j < |run.recorded| => Recorded(AtTearDown(run, build, j), run.recorded[j].outputs))
  }

  /** Every recorded stack name expands in setUp's final environment as it
      did when the stack was created. */
  predicate SameNames(run: SetUpRun, build: Build)
  {
    forall j :: 0 <= j < |run.recorded| ==>
      Lifecycle.ExpandedName(AtTearDown(run, build, j)) == Lifecycle.ExpandedName(run.recorded[j].cf)
  }

  /** Two lists of stacks with the same outputs and the same expanded
      names give the same getOutputs() entries. */
  lemma {:induction false} OutputsAgree(a: seq<Recorded>, b: seq<Recorded>)
    requires |a| == |b|
    requires forall j :: 0 <= j < |a| ==>
      a[j].outputs == b[j].outputs && Lifecycle.ExpandedName(a[j].cf) == Lifecycle.ExpandedName(b[j].cf)
    ensures Outputs(a) == Outputs(b)
    decreases |a|
  {
    if |a| > 0 {
      OutputsAgree(a[..|a| - 1], b[..|b| - 1]);
      assert GetOutputs(a[|a| - 1]) == GetOutputs(b[|b| - 1]);
    }
  }

  /** Each output of a recorded stack appears among the outputs of the
      whole list under its key prefixed with the stack's expanded name. */
  lemma {:induction false} OutputsKeyAt(rs: seq<Recorded>, j: nat, i: nat)
    requires j < |rs| && i < |rs[j].outputs|
    ensures Lifecycle.PrefixedKey(Lifecycle.ExpandedName(rs[j].cf), rs[j].outputs[i].0) in JavaMaps.KeysOf(Outputs(rs))
    decreases |rs|
  {
    var init := rs[..|rs| - 1];
    var k := Lifecycle.PrefixedKey(Lifecycle.ExpandedName(rs[j].cf), rs[j].outputs[i].0);
    assert Outputs(rs) == Outputs(init) + GetOutputs(rs[|rs| - 1]);
    if j == |rs| - 1 {
      assert Outputs(rs)[|Outputs(init)| + i] == GetOutputs(rs[j])[i];
      assert Outputs(rs)[|Outputs(init)| + i].0 == k;
    } else {
      assert init[j] == rs[j];
      OutputsKeyAt(init, j, i);
      var p :| 0 <= p < |Outputs(init)| && Outputs(init)[p].0 == k;
      assert Outputs(rs)[p] == Outputs(init)[p];
    }
  }

  /** makeBuildVariables calls getOutputs() again after setUp returned, so
      each output key is prefixed with the stack name expanded in setUp's
      final environment, while setUp put it into its environment under the
      name expanded when the stack was created. */
  lemma BuildVariablesUseFinalNames(stacks: seq<Beans.StackBean>, build: Build, answers: nat -> CreateResult,
                                    deletes: nat -> DeleteResult, variables: map<string, string>, j: nat, k: string)
    ensures var run := SetUp(stacks, build, answers, deletes);
      j < |run.recorded| && JavaMaps.HasKey(run.recorded[j].outputs, k) ==>
        Lifecycle.PrefixedKey(build.expand(EnvAfter(StepEnv(build), run.recorded[..j]), stacks[j].stackName), k) in run.env
    ensures var run := SetUp(stacks, build, answers, deletes);
      j < |run.recorded| && JavaMaps.HasKey(run.recorded[j].outputs, k) ==>
        Lifecycle.PrefixedKey(build.expand(run.env, stacks[j].stackName), k)
          in MakeBuildVariables(Kept(run, build), variables)
  {
    var run := SetUp(stacks, build, answers, deletes);
    if j < |run.recorded| && JavaMaps.HasKey(run.recorded[j].outputs, k) {
      var kept := Kept(run, build);
      TearDownExpandsInFinalEnv(stacks, build, answers, deletes, j);
      var i :| 0 <= i < |run.recorded[j].outputs| && run.recorded[j].outputs[i].0 == k;
      OutputsKeyAt(run.recorded, j, i);
      assert kept[j].outputs == run.recorded[j].outputs && kept[j].cf == AtTearDown(run, build, j);
      OutputsKeyAt(kept, j, i);
    }
  }

  /** Build variables made from stacks whose names expand as those of
      `rs` did give every output key of `rs` the value an environment
      `env0` holds once the outputs of `rs` were put into it. */
  lemma OutputsAgreeOnKeys(kept: seq<Recorded>, rs: seq<Recorded>, env0: map<string, string>,
                           variables: map<string, string>)
    requires |kept| == |rs|
    requires forall j :: 0 <= j < |rs| ==>
      kept[j].outputs == rs[j].outputs && Lifecycle.ExpandedName(kept[j].cf) == Lifecycle.ExpandedName(rs[j].cf)
    ensures MakeBuildVariables(kept, env0) == EnvAfter(env0, rs)
    ensures forall k :: JavaMaps.HasKey(Outputs(rs), k) ==>
      && k in MakeBuildVariables(kept, variables) && k in EnvAfter(env0, rs)
      && MakeBuildVariables(kept, variables)[k] == EnvAfter(env0, rs)[k]
  {
    OutputsAgree(kept, rs);
    var outs := Outputs(rs);
    forall k | JavaMaps.HasKey(outs, k) ensures k in JavaMaps.KeysOf(outs) {
      var i :| 0 <= i < |outs| && outs[i].0 == k;
    }
  }

  /** OutputsAgreeOnKeys for the stacks a run recorded and the same
      stacks after it, when every name expands as it did. */
  lemma KeptAgrees(run: SetUpRun, build: Build, env0: map<string, string>, variables: map<string, string>)
    requires SameNames(run, build)
    ensures MakeBuildVariables(Kept(run, build), env0) == EnvAfter(env0, run.recorded)
    ensures forall k :: JavaMaps.HasKey(Outputs(run.recorded), k) ==>
      && k in MakeBuildVariables(Kept(run, build), variables) && k in EnvAfter(env0, run.recorded)
      && MakeBuildVariables(Kept(run, build), variables)[k] == EnvAfter(env0, run.recorded)[k]
  {
    OutputsAgreeOnKeys(Kept(run, build), run.recorded, env0, variables);
  }

  /** When every stack name expands in setUp's final environment as it did
      at create time, the variables the build sees and the environment
      setUp ends with get the same outputs, in the same order: on every
      output key they agree, whatever variables the build had, and from
      setUp's own starting environment they are equal. */
  lemma BuildVariablesMatchSetUp(stacks: seq<Beans.StackBean>, build: Build, answers: nat -> CreateResult,
                                 deletes: nat -> DeleteResult, variables: map<string, string>)
    ensures var run := SetUp(stacks, build, answers, deletes);
      SameNames(run, build) ==> MakeBuildVariables(Kept(run, build), StepEnv(build)) == run.env
    ensures var run := SetUp(stacks, build, answers, deletes);
      SameNames(run, build) ==>
        forall k :: JavaMaps.HasKey(Outputs(run.recorded), k) ==>
          && k in MakeBuildVariables(Kept(run, build), variables) && k in run.env
          && MakeBuildVariables(Kept(run, build), variables)[k] == run.env[k]
  {
    var run := SetUp(stacks, build, answers, deletes);
    if SameNames(run, build) {
      KeptAgrees(run, build, StepEnv(build), variables);
    }
  }

  /** create() looks the stack up under its name expanded in the
      environment the stacks before it left; delete() at tear-down expands
      the same name in the environment every recorded stack left. */
  lemma TearDownExpandsInFinalEnv(stacks: seq<Beans.StackBean>, build: Build, answers: nat -> CreateResult,
                                  deletes: nat -> DeleteResult, j: nat)
    ensures var run := SetUp(stacks, build, answers, deletes);
      j < |run.recorded| ==>
        Lifecycle.ExpandedName(run.recorded[j].cf)
          == build.expand(EnvAfter(StepEnv(build), run.recorded[..j]), stacks[j].stackName)
    ensures var run := SetUp(stacks, build, answers, deletes);
      j < |run.recorded| ==>
        Lifecycle.ExpandedName(AtTearDown(run, build, j))
          == build.expand(EnvAfter(StepEnv(build), run.recorded), stacks[j].stackName)
  {
    var run := SetUp(stacks, build, answers, deletes);
    if j < |run.recorded| {
      NewCloudFormationBuilds(stacks[j], build, EnvAfter(StepEnv(build), run.recorded[..j]));
    }
  }
}
