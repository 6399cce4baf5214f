/** What a Jenkins build hands the plugin's build steps, and the answers
    CloudFormation.create() and delete() give them. The orchestrators treat
    create() and delete() as opaque calls whose answers are inputs; the
    stack lifecycle itself is modelled in Lifecycle. */
module Builds {
  import opened Wrappers
  import JavaMaps
  import Lifecycle
  import ParameterUtils

  /** The build: its environment (getEnvironment), its build variables
      (getBuildVariables), EnvVars.overrideAll laying a map over an
      environment, EnvVars.expand against an environment, the workspace
      files (readToString, or the IOException it throws) and the iteration
      order of a HashMap of strings, which Java leaves unspecified. */
  datatype Build = Build(env: map<string, string>,
                         variables: map<string, string>,
                         overrideAll: (map<string, string>, map<string, string>) -> map<string, string>,
                         expand: (map<string, string>, string) -> string,
                         workspace: string -> Result<string>,
                         iterate: map<string, string> -> seq<JavaMaps.Entry>)

  /** The environment the wrapper, the build step and the post-build
      notifier start from: getEnvironment with the build variables laid
      over it by overrideAll. The deleting notifier uses getEnvironment
      alone. */
  function StepEnv(build: Build): map<string, string>
  {
    build.overrideAll(build.env, build.variables)
  }

  /** EnvVars.expand on the environment `env`. */
  function ExpandIn(build: Build, env: map<string, string>): (f: string -> string)
    ensures forall s :: f(s) == build.expand(env, s)
  {
    s => build.expand(env, s)
  }

  /** `es` visits every entry of `m` exactly once: what an iteration of a
      HashMap does, whatever its order. */
  predicate Enumerates(es: seq<JavaMaps.Entry>, m: map<string, string>)
  {
    && JavaMaps.DistinctKeys(es)
    && (forall i :: 0 <= i < |es| ==> es[i].0 in m && m[es[i].0] == es[i].1)
    && (forall k :: k in m ==> JavaMaps.HasKey(es, k))
  }

  /** Putting the entries of an enumeration into an empty map rebuilds the
      map. */
  lemma EnumerationRebuilds(es: seq<JavaMaps.Entry>, m: map<string, string>)
    requires Enumerates(es, m)
    ensures JavaMaps.PutAll(map[], es) == m
  {
    var r := JavaMaps.PutAll(map[], es);
    assert JavaMaps.KeysOf(es) == m.Keys by {
      forall k | k in m ensures k in JavaMaps.KeysOf(es) {
        var i :| 0 <= i < |es| && es[i].0 == k;
      }
    }
    forall k | k in r ensures r[k] == m[k] {
      var i :| 0 <= i < |es| && es[i].0 == k;
      JavaMaps.LastValueOfDistinct(es, i);
    }
  }

  /** An enumeration has as many entries as the map. */
  lemma {:induction false} EnumerationSize(es: seq<JavaMaps.Entry>, m: map<string, string>)
    requires Enumerates(es, m)
    ensures |es| == |m|
  {
    assert JavaMaps.KeysOf(es) == m.Keys by {
      forall k | k in m ensures k in JavaMaps.KeysOf(es) {
        var i :| 0 <= i < |es| && es[i].0 == k;
      }
    }
    DistinctKeysCount(es);
  }

  /** Distinct keys: one key per entry. */
  lemma {:induction false} DistinctKeysCount(es: seq<JavaMaps.Entry>)
    requires JavaMaps.DistinctKeys(es)
    ensures |JavaMaps.KeysOf(es)| == |es|
    decreases |es|
  {
    if |es| > 0 {
      var init := es[..|es| - 1];
      var last := es[|es| - 1].0;
      assert JavaMaps.DistinctKeys(init) by {
        forall i, j | 0 <= i < j < |init| ensures init[i].0 != init[j].0 {
          assert init[i] == es[i] && init[j] == es[j];
        }
      }
      DistinctKeysCount(init);
      JavaMaps.KeysOfSnoc(es);
      assert last !in JavaMaps.KeysOf(init) by {
        forall i | 0 <= i < |init| ensures init[i].0 != last {
          assert init[i] == es[i];
        }
      }
    }
  }

  /** The build iterates every HashMap as an enumeration of it. */
  ghost predicate IteratesMaps(build: Build)
  {
    forall m :: Enumerates(build.iterate(m), m)
  }

  /** The stack parameters made from the map `m`: null for an empty map;
      otherwise one parameter per entry, no key twice, and putting them
      back into a map gives `m`. */
  predicate CarriesParameters(ps: Option<seq<ParameterUtils.Parameter>>, m: map<string, string>)
  {
    && (ps.None? <==> |m| == 0)
    && (ps.Some? ==>
          && |ps.value| == |m|
          && ParameterUtils.UniqueKeys(ps.value)
          && JavaMaps.PutAll(map[], ParameterUtils.AsEntries(ps.value)) == m)
  }

  /** CloudFormation.parameters over an enumeration of a map carries the
      map: nothing is lost, duplicated or changed on the way. */
  lemma EnumeratedParameters(es: seq<JavaMaps.Entry>, m: map<string, string>)
    requires Enumerates(es, m)
    ensures CarriesParameters(Lifecycle.StackParameters(Some(es)), m)
  {
    EnumerationSize(es, m);
    EnumerationRebuilds(es, m);
    ParameterUtils.ConvertRoundTrip(es);
  }

  /** What one call to CloudFormation.create() did: returned true, leaving
      the stack's outputs on the object (listed in the order a loop over
      that map visits them); returned false; or threw. */
  datatype CreateResult = Created(outputs: seq<JavaMaps.Entry>) | NotCreated | CreateThrew(error: JavaException)

  /** getOutputs() on `cf` once create() left the outputs `outs` on it:
      each key prefixed with the stack name as `cf` expands it at the time
      of the call, listed in the order of `outs`. */
  function PrefixedOutputs(cf: Lifecycle.CloudFormation, outs: seq<JavaMaps.Entry>): (r: seq<JavaMaps.Entry>)
    ensures |r| == |outs|
  {
    seq(|outs|, i requires 0 <= i < |outs| => (Lifecycle.PrefixedKey(Lifecycle.ExpandedName(cf), outs[i].0), outs[i].1))
  }

  /** Listing a map's outputs and prefixing them gives, put into a map,
      exactly what Lifecycle.GetOutputs returns for the object holding that
      map, with no key twice. */
  lemma PrefixedOutputsMatchGetOutputs(cf: Lifecycle.CloudFormation, outs: seq<JavaMaps.Entry>, m: map<string, string>)
    requires Enumerates(outs, m)
    ensures JavaMaps.DistinctKeys(PrefixedOutputs(cf, outs))
    ensures JavaMaps.PutAll(map[], PrefixedOutputs(cf, outs)) == Lifecycle.GetOutputs(cf.(outputs := Some(m))).value
  {
    var held := cf.(outputs := Some(m));
    var name := Lifecycle.ExpandedName(held);
    var p := PrefixedOutputs(cf, outs);
    var g := Lifecycle.GetOutputs(held).value;
    forall i, j | 0 <= i < j < |p| ensures p[i].0 != p[j].0 {
      if p[i].0 == p[j].0 {
        Lifecycle.PrefixedKeyInjective(name, outs[i].0, outs[j].0);
      }
    }
    forall i | 0 <= i < |p| ensures p[i].0 in g && g[p[i].0] == p[i].1 {
      assert p[i] == (Lifecycle.PrefixedKey(name, outs[i].0), outs[i].1);
      assert outs[i].0 in m;
    }
    forall k | k in g ensures JavaMaps.HasKey(p, k) {
      var k0 :| k0 in m && k == Lifecycle.PrefixedKey(name, k0);
      var i :| 0 <= i < |outs| && outs[i].0 == k0;
      assert p[i].0 == k;
    }
    assert Enumerates(p, g);
    EnumerationRebuilds(p, g);
  }

  /** What one call to CloudFormation.delete() did. */
  datatype DeleteResult = DeleteReturned(ok: bool) | DeleteThrew(error: JavaException)

  // ------------------------------------------------------------ create each

  /** What getOutputs() gives for the stacks `lo` to `hi - 1` whose
      create() returned true, one stack after the other; `get` is
      getOutputs() on a built object holding the given outputs. */
  function CreatedOutputs<T>(built: seq<Result<T>>, get: (T, seq<JavaMaps.Entry>) -> seq<JavaMaps.Entry>,
                             answers: nat -> CreateResult, lo: nat, hi: nat): seq<JavaMaps.Entry>
    requires lo <= hi <= |built|
    decreases hi - lo
  {
    if lo == hi then [] else CreatedAt(built, get, answers, lo) + CreatedOutputs(built, get, answers, lo + 1, hi)
  }

  /** What getOutputs() gives for stack `j` if its create() returned true. */
  function CreatedAt<T>(built: seq<Result<T>>, get: (T, seq<JavaMaps.Entry>) -> seq<JavaMaps.Entry>,
                        answers: nat -> CreateResult, j: nat): seq<JavaMaps.Entry>
    requires j < |built|
  {
    if answers(j).Created? && built[j].Ok? then get(built[j].value, answers(j).outputs) else []
  }

  /** Stack `j` neither fails to be built nor throws from create(). */
  predicate Fine<T>(built: seq<Result<T>>, answers: nat -> CreateResult, j: nat)
    requires j < |built|
  {
    built[j].Ok? && !answers(j).CreateThrew?
  }

  /** The result of a loop that creates every stack, the create() calls it
      made and the outputs of the stacks created. */
  datatype EachRun = EachRun(result: Result<bool>, creates: nat, outputs: seq<JavaMaps.Entry>)

  /** The loop of the build step and of the post-build notifier from stack
      `i` on: `built[j]` is the object built for stack `j` (or what building
      it threw), `answers(j)` what its create() did and `get` is
      getOutputs() on a created object. A stack that is not
      created sets the result to false and the loop goes on with the next
      one; any exception, a timeout included, escapes. */
  function CreateEach<T>(built: seq<Result<T>>, get: (T, seq<JavaMaps.Entry>) -> seq<JavaMaps.Entry>,
                         answers: nat -> CreateResult, i: nat, ok: bool, outputs: seq<JavaMaps.Entry>): (r: EachRun)
    requires i <= |built|
    ensures i <= r.creates <= |built|
    ensures r.result.Ok? <==> forall j :: i <= j < |built| ==> Fine(built, answers, j)
    ensures r.result.Ok? ==> r.creates == |built|
    ensures r.result.Ok? ==> (r.result.value <==> ok && forall j :: i <= j < |built| ==> answers(j).Created?)
    ensures r.result.Err? ==>
      || (&& r.creates < |built| && built[r.creates] == Err(r.result.error)
          && forall j :: i <= j < r.creates ==> Fine(built, answers, j))
      || (&& i < r.creates && built[r.creates - 1].Ok? && answers(r.creates - 1) == CreateThrew(r.result.error)
          && forall j :: i <= j < r.creates - 1 ==> Fine(built, answers, j))
    decreases |built| - i
  {
    if i == |built| then
      EachRun(Ok(ok), i, outputs)
    else if built[i].Err? then
      assert !Fine(built, answers, i);
      EachRun(Err(built[i].error), i, outputs)
    else
      match answers(i)
      case CreateThrew(e) =>
        assert !Fine(built, answers, i);
        EachRun(Err(e), i + 1, outputs)
      case NotCreated => CreateEach(built, get, answers, i + 1, false, outputs)
      case Created(outs) => CreateEach(built, get, answers, i + 1, ok, outputs + get(built[i].value, outs))
  }

  /** The loop gathers getOutputs() of the stacks it created, in order,
      after the outputs it started with. */
  lemma {:induction false} CreateEachOutputs<T>(built: seq<Result<T>>, get: (T, seq<JavaMaps.Entry>) -> seq<JavaMaps.Entry>,
                                               answers: nat -> CreateResult, i: nat, ok: bool, outputs: seq<JavaMaps.Entry>)
    requires i <= |built|
    ensures var r := CreateEach(built, get, answers, i, ok, outputs);
      r.outputs == outputs + CreatedOutputs(built, get, answers, i, r.creates)
    decreases |built| - i
  {
    var r := CreateEach(built, get, answers, i, ok, outputs);
    if i == |built| || built[i].Err? {
      assert CreatedOutputs(built, get, answers, i, i) == [];
    } else {
      var got := CreatedAt(built, get, answers, i);
      match answers(i)
      case CreateThrew(e) =>
        assert CreatedOutputs(built, get, answers, i, i + 1) == [] + [];
      case NotCreated =>
        CreateEachOutputs(built, get, answers, i + 1, false, outputs);
        assert CreatedOutputs(built, get, answers, i, r.creates) == [] + CreatedOutputs(built, get, answers, i + 1, r.creates);
      case Created(outs) =>
        CreateEachOutputs(built, get, answers, i + 1, ok, outputs + got);
        assert CreatedOutputs(built, get, answers, i, r.creates) == got + CreatedOutputs(built, get, answers, i + 1, r.creates);
        assert outputs + got + CreatedOutputs(built, get, answers, i + 1, r.creates)
            == outputs + (got + CreatedOutputs(built, get, answers, i + 1, r.creates));
    }
  }

  /** The first stack that cannot be built ends the loop with what building
      it threw; the stacks after it are never created. */
  lemma BuildFailureStops<T>(built: seq<Result<T>>, get: (T, seq<JavaMaps.Entry>) -> seq<JavaMaps.Entry>,
                             answers: nat -> CreateResult, i: nat, ok: bool,
                             outputs: seq<JavaMaps.Entry>, k: nat)
    requires i <= k < |built| && built[k].Err?
    requires forall j :: i <= j < k ==> Fine(built, answers, j)
    ensures CreateEach(built, get, answers, i, ok, outputs).result == Err(built[k].error)
    ensures CreateEach(built, get, answers, i, ok, outputs).creates == k
  {
    var r := CreateEach(built, get, answers, i, ok, outputs);
    assert !Fine(built, answers, k);
    assert i <= r.creates < k ==> Fine(built, answers, r.creates);
    assert i < r.creates <= k ==> Fine(built, answers, r.creates - 1);
  }
}
