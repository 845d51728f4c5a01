/** The records the allocation engine consumes: participants (by id, in the
    event's order) and the active pledges that reference them. */
module Pledges {

  datatype Option<T> = None | Some(value: T)

  /** How a pledge's `value` is read. `Unset` is a value_type that is neither
      "percent" nor "fixed" (the column is nullable). */
  datatype ValueType = Percent | Fixed | Unset

  /** One active pledge. `value` is the two-decimal column scaled by 100:
      cents for `Fixed`, hundredths of a percent for `Percent`. */
  datatype Pledge = Pledge(pid: int, valueType: ValueType, value: int)

  /** The only failure of the engine: a pledge names a participant id that
      is not among the event's participants (a `KeyError` in the source). */
  datatype Error = UnknownParticipant(pid: int)

  datatype Result<T> = Ok(value: T) | Err(error: Error)

  /** Participant ids are database primary keys, hence pairwise distinct. */
  predicate Distinct(parts: seq<int>)
  {
    forall i, j :: 0 <= i < j < |parts| ==> parts[i] != parts[j]
  }

  /** The position of `pid` among the participants: the dictionary lookup
      `targets[pid]`, which fails for an unknown id. */
  function IndexOf(parts: seq<int>, pid: int): (r: Option<nat>)
    ensures r.None? <==> pid !in parts
    ensures r.Some? ==> r.value < |parts| && parts[r.value] == pid && pid !in parts[..r.value]
  {
    if parts == [] then None
    else if parts[0] == pid then Some(0)
    else match IndexOf(parts[1..], pid)
      case None => None
      case Some(i) =>
        assert parts[..i + 1] == [parts[0]] + parts[1..][..i];
        Some(i + 1)
  }

  /** The result dictionary `{pid: amount for pid, amount in targets.items()}`,
      built from the amounts held in participant order. */
  function ToMap(parts: seq<int>, amounts: seq<int>): (m: map<int, int>)
    requires |parts| == |amounts| && Distinct(parts)
    ensures m.Keys == set p | p in parts
    ensures forall i :: 0 <= i < |parts| ==> m[parts[i]] == amounts[i]
  {
    map i | 0 <= i < |parts| :: parts[i] := amounts[i]
  }
}
