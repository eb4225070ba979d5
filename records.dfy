/**
 * A parking record and the operations on logical queue contents that the
 * queue's specification is written in.
 */
module Records {
  import opened Wrappers

  /** Time of entry. The clock is not modelled; the value is carried unchanged. */
  type Timestamp = int

  /** The mapping `{'id': car_id, 'entry': now}` stored in an occupied slot. */
  datatype Record = Record(id: string, entry: Timestamp)

  /** `s` without its element at position `k`, every other element kept in order. */
  function DeleteAt<T>(s: seq<T>, k: nat): (r: seq<T>)
    requires k < |s|
    ensures |r| == |s| - 1
    ensures forall i :: 0 <= i < k ==> r[i] == s[i]
    ensures forall i :: k <= i < |r| ==> r[i] == s[i + 1]
  {
    s[..k] + s[k + 1..]
  }

  /** Deleting at `k` removes exactly one occurrence of `s[k]` and nothing else. */
  lemma {:induction false} DeleteAtRemovesOne<T>(s: seq<T>, k: nat)
    requires k < |s|
    ensures multiset(DeleteAt(s, k)) + multiset{s[k]} == multiset(s)
  {
    assert s == s[..k] + [s[k]] + s[k + 1..];
  }

  /** Earliest logical position whose record carries `id`, if any. */
  function FirstMatch(s: seq<Record>, id: string): (r: Option<nat>)
    ensures r.Some? ==> r.value < |s| && s[r.value].id == id
    ensures r.Some? ==> forall k :: 0 <= k < r.value ==> s[k].id != id
    ensures r.None? <==> forall k :: 0 <= k < |s| ==> s[k].id != id
  {
    if s == [] then None
    else if s[0].id == id then Some(0)
    else match FirstMatch(s[1..], id)
      case None => None
      case Some(k) => Some(k + 1)
  }

  /** The earliest position carrying `id` is the one `FirstMatch` finds. */
  lemma FirstMatchIs(s: seq<Record>, id: string, i: nat)
    requires i < |s| && s[i].id == id
    requires forall k :: 0 <= k < i ==> s[k].id != id
    ensures FirstMatch(s, id) == Some(i)
  {
    var r := FirstMatch(s, id);
    assert r.Some?;
    assert !(r.value < i) && !(i < r.value);
  }
}
