/** The variable-binding store (`dictOfVars`) and how one response of the
    calculation service updates it. */
module Bindings {
  import opened Wrappers

  /** One record of the service's answer. */
  datatype Response = Response(expr: string, result: string, assign: bool)

  /** The position of the last record that assigns, if any record does. */
  function LastAssigning(resp: seq<Response>): (r: Option<nat>)
    ensures r.Some? ==> r.value < |resp| && resp[r.value].assign
    ensures r.Some? ==> forall j :: r.value < j < |resp| ==> !resp[j].assign
    ensures r.None? <==> forall j :: 0 <= j < |resp| ==> !resp[j].assign
  {
    if |resp| == 0 then None
    else if resp[|resp| - 1].assign then Some(|resp| - 1)
    else LastAssigning(resp[..|resp| - 1])
  }

  /** The store after one response. Every `setDictOfVars` call of the handler
      spreads the same captured `snapshot`, so the last call wins and only the
      last assigning record reaches the store. */
  function SnapshotMerge(snapshot: map<string, string>, resp: seq<Response>): (m: map<string, string>)
  {
    match LastAssigning(resp)
    case None => snapshot
    case Some(j) => snapshot[resp[j].expr := resp[j].result]
  }

  /** The handler's `forEach` over the response: a record with `assign` set
      replaces the pending store by the snapshot extended with its binding;
      any other record leaves the pending store alone. */
  method MergeResponse(snapshot: map<string, string>, resp: seq<Response>)
    returns (vars: map<string, string>)
    ensures vars == SnapshotMerge(snapshot, resp)
  {
    vars := snapshot;
    for i := 0 to |resp|
      invariant vars == SnapshotMerge(snapshot, resp[..i])
    {
      assert resp[..i + 1][..i] == resp[..i];
      if resp[i].assign {
        vars := snapshot[resp[i].expr := resp[i].result];
      }
    }
    assert resp[..|resp|] == resp;
  }

  /** A response in which no record assigns leaves the store as it was. */
  lemma NoAssignmentKeepsStore(snapshot: map<string, string>, resp: seq<Response>)
    requires forall j :: 0 <= j < |resp| ==> !resp[j].assign
    ensures SnapshotMerge(snapshot, resp) == snapshot
  {
  }

  /** The last assigning record binds its expression to its result, replacing
      any earlier value; every other key keeps its value. */
  lemma LastAssignmentWins(snapshot: map<string, string>, resp: seq<Response>, j: nat)
    requires j < |resp| && resp[j].assign
    requires forall k :: j < k < |resp| ==> !resp[k].assign
    ensures resp[j].expr in SnapshotMerge(snapshot, resp)
    ensures SnapshotMerge(snapshot, resp)[resp[j].expr] == resp[j].result
    ensures forall key :: key != resp[j].expr ==>
      (key in SnapshotMerge(snapshot, resp) <==> key in snapshot)
    ensures forall key :: key != resp[j].expr && key in snapshot ==>
      SnapshotMerge(snapshot, resp)[key] == snapshot[key]
  {
    assert LastAssigning(resp) == Some(j);
  }

  /** A record with `assign` false at the end of a response does not change what
      the response does to the store. */
  lemma NonAssigningRecordIgnored(snapshot: map<string, string>, resp: seq<Response>, r: Response)
    requires !r.assign
    ensures SnapshotMerge(snapshot, resp + [r]) == SnapshotMerge(snapshot, resp)
  {
    assert (resp + [r])[..|resp + [r]| - 1] == resp;
  }

  /** No binding is ever removed by a response. */
  lemma MergeNeverRemoves(snapshot: map<string, string>, resp: seq<Response>)
    ensures snapshot.Keys <= SnapshotMerge(snapshot, resp).Keys
  {
  }

  /** Two assigning records for different names in one response: only the
      second reaches the store, the first name stays unbound. */
  lemma EarlierAssignmentLost()
    ensures SnapshotMerge(map[], [Response("x", "1", true), Response("y", "2", true)])
      == map["y" := "2"]
  {
    var resp := [Response("x", "1", true), Response("y", "2", true)];
    assert LastAssigning(resp) == Some(1);
  }

  /** A single assigning record `x = 5` binds `x` to `"5"`. */
  lemma SingleAssignmentBinds(snapshot: map<string, string>)
    ensures SnapshotMerge(snapshot, [Response("x", "5", true)]) == snapshot["x" := "5"]
  {
    assert LastAssigning([Response("x", "5", true)]) == Some(0);
  }
}
