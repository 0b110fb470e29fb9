/** The measurement registry as values: the list `mMeasurements` is a
    sequence of possibly-null entries, and an entry's id is its position. */
module Measurements {
  import opened Base

  /** The parts of a measurement the Model reads: its name and its unit. */
  datatype Measurement = Measurement(name: string, unit: string)

  /** The registry list; `None` stands for a NULL pointer stored in it. */
  type Entries = seq<Option<Measurement>>

  /** Strictly ascending sequence of integers. */
  predicate StrictlyAscending(ids: seq<int>)
  {
    forall k, j :: 0 <= k < j < |ids| ==> ids[k] < ids[j]
  }

  /** The ids of the non-null entries of `s`, in list order: the reference
      definition that the id listing of the Model is proved against. */
  function Ids(s: Entries): (ids: seq<int>)
    ensures StrictlyAscending(ids)
    ensures forall k :: 0 <= k < |ids| ==> 0 <= ids[k] < |s|
    ensures forall i :: i in ids <==> 0 <= i < |s| && s[i].Some?
    ensures |ids| <= |s|
  {
    if s == [] then []
    else
      var front := Ids(s[..|s| - 1]);
      if s[|s| - 1].Some? then front + [|s| - 1] else front
  }

  /** Appending an entry lists its index last exactly when it is non-null,
      and keeps every id listed before. */
  lemma IdsAppend(s: Entries, m: Option<Measurement>)
    ensures Ids(s + [m]) == Ids(s) + (if m.Some? then [|s|] else [])
  {
    assert (s + [m])[..|s|] == s;
  }

  /** The registry only grows, so ids never disappear or move: the listing
      of a registry is a prefix of the listing of any extension of it. */
  lemma {:induction false} IdsPrefix(s: Entries, t: Entries)
    ensures |Ids(s)| <= |Ids(s + t)|
    ensures Ids(s + t)[..|Ids(s)|] == Ids(s)
    decreases |t|
  {
    if t == [] {
      assert s + t == s;
    } else {
      var init := t[..|t| - 1];
      IdsPrefix(s, init);
      assert s + t == (s + init) + [t[|t| - 1]];
      IdsAppend(s + init, t[|t| - 1]);
    }
  }

  /** The index announced for a newly added non-null entry is listed, and it
      is the last id listed. */
  lemma AddedIdIsLast(s: Entries, m: Measurement)
    ensures |s| in Ids(s + [Some(m)])
    ensures Ids(s + [Some(m)])[|Ids(s + [Some(m)])| - 1] == |s|
  {
    IdsAppend(s, Some(m));
  }
}
