/** Transition tables with wildcard rows, and the lookup of the first row that matches. */
module StateTable {
  import opened Common

  datatype Key<+T> = Exactly(value: T) | Wildcard

  /** `None` as next or error state means no state change; `None` as routine means there is none. */
  datatype Row<+S, +E, +R> = Row(
    currentState: Key<S>, event: Key<E>,
    nextState: Option<S>, errState: Option<S>,
    transRtn: Option<R>, errTransRtn: Option<R>,
    secTimerVal: nat)

  /** A wildcard in either column matches everything, whatever the other column says. */
  predicate Matches<S(==), E(==), R>(row: Row<S, E, R>, state: S, event: E) {
    || (row.currentState == Exactly(state) && row.event == Exactly(event))
    || row.currentState.Wildcard?
    || row.event.Wildcard?
  }

  /** Index of the first row for `state` and `event`, `|table|` when there is none. */
  function FirstMatch<S(==), E(==), R>(table: seq<Row<S, E, R>>, state: S, event: E): (i: nat)
    ensures i <= |table|
    ensures forall j :: 0 <= j < i ==> !Matches(table[j], state, event)
    ensures i < |table| ==> Matches(table[i], state, event)
  {
    if table == [] || Matches(table[0], state, event) then 0
    else 1 + FirstMatch(table[1..], state, event)
  }

  lemma FirstMatchIs<S, E, R>(table: seq<Row<S, E, R>>, state: S, event: E, k: nat)
    requires k < |table| && Matches(table[k], state, event)
    requires forall j :: 0 <= j < k ==> !Matches(table[j], state, event)
    ensures FirstMatch(table, state, event) == k
  {
  }

  method GetTransRtn<S(==), E(==), R>(table: seq<Row<S, E, R>>, state: S, event: E)
    returns (found: bool, idx: nat)
    ensures idx == FirstMatch(table, state, event) <= |table| && (found <==> idx < |table|)
    // one wildcard is enough, in either column
    ensures forall j :: 0 <= j < idx ==>
      && table[j].currentState != Wildcard && table[j].event != Wildcard
      && !(table[j].currentState == Exactly(state) && table[j].event == Exactly(event))
    ensures found ==>
      || table[idx].currentState == Wildcard || table[idx].event == Wildcard
      || (table[idx].currentState == Exactly(state) && table[idx].event == Exactly(event))
  {
    found, idx := false, 0;
    while idx < |table|
      invariant idx <= |table| && !found
      invariant forall j :: 0 <= j < idx ==> !Matches(table[j], state, event)
    {
      if Matches(table[idx], state, event) {
        found := true;
        break;
      }
      idx := idx + 1;
    }
  }
}
