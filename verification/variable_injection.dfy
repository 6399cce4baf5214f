/** VariableInjectionAction: the build action through which the build step
    hands stack outputs to the build's environment. */
module VariableInjection {
  import opened Wrappers
  import JavaMaps

  /** One action: a variable and its value, either of which may be null. */
  datatype VariableInjectionAction = VariableInjectionAction(key: Option<string>, value: Option<string>)

  /** buildEnvVars: puts the variable when the environment, the key and the
      value are all non-null, and does nothing otherwise. */
  function BuildEnvVars(action: VariableInjectionAction, envVars: Option<map<string, string>>): (r: Option<map<string, string>>)
    ensures r.None? <==> envVars.None?
    ensures r.Some? && action.key.Some? && action.value.Some? ==>
      action.key.value in r.value && r.value[action.key.value] == action.value.value
    ensures r.Some? && (action.key.None? || action.value.None?) ==> r == envVars
    ensures r.Some? ==> forall k :: action.key != Some(k) ==>
      (k in r.value <==> k in envVars.value) && (k in r.value ==> r.value[k] == envVars.value[k])
    ensures r.Some? ==> r.value.Keys == envVars.value.Keys + (if action.key.Some? && action.value.Some? then {action.key.value} else {})
  {
    match envVars
    case None => None
    case Some(env) =>
      if action.key.Some? && action.value.Some? then Some(env[action.key.value := action.value.value])
      else envVars
  }

  /** Jenkins runs every action of the build on the environment in turn. */
  function ApplyActions(actions: seq<VariableInjectionAction>, envVars: Option<map<string, string>>): (r: Option<map<string, string>>)
    ensures r.None? <==> envVars.None?
    decreases |actions|
  {
    if |actions| == 0 then envVars
    else ApplyActions(actions[1..], BuildEnvVars(actions[0], envVars))
  }

  /** The action for each entry of a map, as the build step adds them. */
  function ActionsFor(entries: seq<JavaMaps.Entry>): (actions: seq<VariableInjectionAction>)
    ensures |actions| == |entries|
    ensures forall i :: 0 <= i < |entries| ==> actions[i] == VariableInjectionAction(Some(entries[i].0), Some(entries[i].1))
  {
    seq(|entries|, i requires 0 <= i < |entries| => VariableInjectionAction(Some(entries[i].0), Some(entries[i].1)))
  }

  /** The actions made from entries do what putAll of those entries does:
      a later action for the same variable wins. */
  lemma {:induction false} ApplyActionsPutsAll(entries: seq<JavaMaps.Entry>, env: map<string, string>)
    ensures ApplyActions(ActionsFor(entries), Some(env)) == Some(JavaMaps.PutAll(env, entries))
    decreases |entries|
  {
    if |entries| > 0 {
      var head := entries[0];
      var rest := entries[1..];
      assert ActionsFor(entries)[1..] == ActionsFor(rest);
      ApplyActionsPutsAll(rest, env[head.0 := head.1]);
      JavaMaps.PutAllAppend(env, [head], rest);
      assert [head] + rest == entries;
      assert JavaMaps.PutAll(env, [head]) == env[head.0 := head.1] by {
        var m := JavaMaps.PutAll(env, [head]);
        assert JavaMaps.KeysOf([head]) == {head.0};
        assert JavaMaps.HasKey([head], head.0);
      }
    }
  }

  /** Applying actions one list after another is applying the joined list. */
  lemma {:induction false} ApplyActionsAppend(a: seq<VariableInjectionAction>, b: seq<VariableInjectionAction>,
                                              envVars: Option<map<string, string>>)
    ensures ApplyActions(a + b, envVars) == ApplyActions(b, ApplyActions(a, envVars))
    decreases |a|
  {
    if |a| > 0 {
      assert (a + b)[1..] == a[1..] + b;
      ApplyActionsAppend(a[1..], b, BuildEnvVars(a[0], envVars));
    } else {
      assert a + b == b;
    }
  }

  /** Actions with a null key or value change nothing, so a null-free list
      of actions is all that matters. */
  lemma {:induction false} NullActionsIgnored(actions: seq<VariableInjectionAction>, envVars: Option<map<string, string>>)
    requires forall i :: 0 <= i < |actions| ==> actions[i].key.None? || actions[i].value.None?
    ensures ApplyActions(actions, envVars) == envVars
    decreases |actions|
  {
    if |actions| > 0 {
      NullActionsIgnored(actions[1..], envVars);
    }
  }
}
