/**
 Lookups and roster updates against the trainings collection: the
 first-match semantics of a lookup or single-document update by training
 name, and the set-semantics append used when participants are assigned.
 */
module Roster {
  import opened Records

  /** The position of the document that a lookup (or a single-document update)
      by training name selects: the first one in collection order carrying that
      name, or None when no document carries it. */
  function FindTraining(ts: seq<Training>, name: string): (r: Option<nat>)
    ensures r.Some? ==> r.value < |ts| && ts[r.value].name == name
    ensures r.Some? ==> forall j :: 0 <= j < r.value ==> ts[j].name != name
    ensures r.None? <==> forall j :: 0 <= j < |ts| ==> ts[j].name != name
  {
    if ts == [] then None
    else if ts[0].name == name then Some(0)
    else match FindTraining(ts[1..], name)
      case None => None
      case Some(i) => Some(i + 1)
  }

  /** A lookup selects the first matching position and no other. */
  lemma FindIs(ts: seq<Training>, name: string, k: nat)
    requires k < |ts| && ts[k].name == name
    requires forall j :: 0 <= j < k ==> ts[j].name != name
    ensures FindTraining(ts, name) == Some(k)
  {
  }

  /** Appending a document leaves every earlier lookup where it was; it is
      found only by a name no earlier document carries. */
  lemma FindAfterAppend(ts: seq<Training>, t: Training, name: string)
    ensures FindTraining(ts + [t], name) ==
      if FindTraining(ts, name).Some? then FindTraining(ts, name)
      else if t.name == name then Some(|ts|)
      else None
  {
    var ts' := ts + [t];
    assert forall j :: 0 <= j < |ts| ==> ts'[j] == ts[j];
    match FindTraining(ts, name)
    case Some(k) =>
      FindIs(ts', name, k);
    case None =>
      if t.name == name {
        FindIs(ts', name, |ts|);
      }
  }

  /** Replacing the document at position i by one with the same name changes
      no lookup. */
  lemma FindAfterSameNameUpdate(ts: seq<Training>, i: nat, t: Training, name: string)
    requires i < |ts| && t.name == ts[i].name
    ensures FindTraining(ts[i := t], name) == FindTraining(ts, name)
  {
    var ts' := ts[i := t];
    assert forall j :: 0 <= j < |ts| ==> ts'[j].name == ts[j].name;
    match FindTraining(ts, name)
    case Some(k) =>
      FindIs(ts', name, k);
    case None =>
  }

  /** The roster after adding each of `chosen` that is not yet on it, in order:
      the effect of an array-add-to-set update with several values. */
  function AddToSet(roster: seq<string>, chosen: seq<string>): (r: seq<string>)
    ensures |roster| <= |r| && r[..|roster|] == roster
    ensures Elements(r) == Elements(roster) + Elements(chosen)
    ensures forall k :: |roster| <= k < |r| ==> r[k] !in r[..k]
    ensures NoDuplicates(roster) ==> NoDuplicates(r)
    decreases |chosen|
  {
    if chosen == [] then roster
    else
      var next := if chosen[0] in roster then roster else roster + [chosen[0]];
      assert Elements(chosen) == {chosen[0]} + Elements(chosen[1..]);
      assert next[..|roster|] == roster;
      AddToSet(next, chosen[1..])
  }

  /** Adding participants who are all on the roster already changes nothing. */
  lemma {:induction false} AddToSetPresent(roster: seq<string>, chosen: seq<string>)
    requires Elements(chosen) <= Elements(roster)
    ensures AddToSet(roster, chosen) == roster
    decreases |chosen|
  {
    if chosen != [] {
      assert chosen[0] in Elements(chosen);
      assert Elements(chosen[1..]) <= Elements(chosen);
      AddToSetPresent(roster, chosen[1..]);
    }
  }

  /** Assigning the same selection twice gives the roster of assigning it once. */
  lemma AddToSetIdempotent(roster: seq<string>, chosen: seq<string>)
    ensures AddToSet(AddToSet(roster, chosen), chosen) == AddToSet(roster, chosen)
  {
    AddToSetPresent(AddToSet(roster, chosen), chosen);
  }
}
