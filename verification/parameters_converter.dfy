/** ParametersConverter: the loop that turns a map of parameter values into
    a parameter list, written out as the imperative loop it is. */
module ParametersConverter {
  import opened Wrappers
  import JavaMaps
  import ParameterUtils

  /** ParametersConverter.convert: null stays null; otherwise one parameter
      per key, in the map's iteration order, with the value the map holds
      for that key. It computes exactly what ParameterUtils.convert does. */
  method Convert(parameters: Option<seq<JavaMaps.Entry>>) returns (r: Option<seq<ParameterUtils.Parameter>>)
    ensures r.None? <==> parameters.None?
    ensures r.Some? ==> |r.value| == |parameters.value|
    ensures r.Some? ==> forall i :: 0 <= i < |r.value| ==>
      r.value[i].key == parameters.value[i].0
      && JavaMaps.HasKey(parameters.value, r.value[i].key)
      && r.value[i].value == JavaMaps.LastValue(parameters.value, r.value[i].key)
    ensures r == ParameterUtils.Convert(parameters)
  {
    if parameters.None? {
      return None;
    }
    var es := parameters.value;
    var result: seq<ParameterUtils.Parameter> := [];
    var n := 0;
    while n < |es|
      invariant 0 <= n <= |es|
      invariant |result| == n
      invariant forall i :: 0 <= i < n ==>
        JavaMaps.HasKey(es, es[i].0)
        && result[i] == ParameterUtils.Parameter(es[i].0, JavaMaps.LastValue(es, es[i].0))
    {
      assert JavaMaps.HasKey(es, es[n].0) by { assert es[n].0 == es[n].0; }
      result := result + [ParameterUtils.Parameter(es[n].0, JavaMaps.LastValue(es, es[n].0))];
      n := n + 1;
    }
    assert result == ParameterUtils.Convert(parameters).value;
    r := Some(result);
  }
}
