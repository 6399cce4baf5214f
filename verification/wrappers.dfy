/** Option, Java exceptions and the outcome of a Java call that returns a
    boolean or throws. Shared by every other module of the model. */
module Wrappers {

  /** A Java reference that may be null. */
  datatype Option<+T> = None | Some(value: T)

  /** The exceptions that the modelled code lets escape or catches. */
  datatype JavaException =
    | TimeoutException          // the plugin's own, thrown by the creation poll
    | NullPointerException      // a dereference of null
    | IndexOutOfBounds          // ArrayIndexOutOfBoundsException from token[i]
    | IOException               // reading a workspace file failed
    | AmazonServiceException    // a non-throttling rejection from the remote API
    | IllegalArgumentException  // Thread.sleep with a negative duration

  /** A value, or the exception that was thrown instead of returning it. */
  datatype Result<+T> = Ok(value: T) | Err(error: JavaException)

  /** The outcome of a Java method returning boolean.
      `Unscripted` is not a Java behaviour: it says that the scripted remote
      or clock ran out of answers before the method finished. */
  datatype Outcome = Returned(ok: bool) | Throws(error: JavaException) | Unscripted

  /** Runs a loop body over each element in turn: the results of every
      round, or the exception of the first round that throws. */
  function Collect<T>(rs: seq<Result<T>>): (r: Result<seq<T>>)
    ensures r.Ok? <==> forall i :: 0 <= i < |rs| ==> rs[i].Ok?
    ensures r.Err? ==> exists i :: 0 <= i < |rs| && rs[i] == Err(r.error) && forall j :: 0 <= j < i ==> rs[j].Ok?
    ensures r.Ok? ==> |r.value| == |rs| && forall i :: 0 <= i < |rs| ==> r.value[i] == rs[i].value
    decreases |rs|
  {
    if |rs| == 0 then Ok([])
    else if rs[0].Err? then Err(rs[0].error)
    else
      var rest := Collect(rs[1..]);
      assert forall i :: 1 <= i < |rs| ==> rs[i] == rs[1..][i - 1];
      if rest.Err? then Err(rest.error) else Ok([rs[0].value] + rest.value)
  }
}
