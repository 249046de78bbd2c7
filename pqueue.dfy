/** The `std::priority_queue<std::pair<int, Node*>, ..., std::greater<>>`
    of `dijkstra`, as a sequence of (distance, node handle) entries.  `top`
    is the least entry in the pair order: smaller distance first, then the
    smaller handle, which stands for the pointer order the source uses to
    break ties. */
module MinQueue {

  type Entry = (int, nat)

  predicate EntryLe(a: Entry, b: Entry)
  {
    a.0 < b.0 || (a.0 == b.0 && a.1 <= b.1)
  }

  /** Position of the entry `top()` returns: no entry is smaller. */
  function ArgMin(q: seq<Entry>): (k: nat)
    requires |q| > 0
    ensures k < |q|
    ensures forall j :: 0 <= j < |q| ==> EntryLe(q[k], q[j])
  {
    if |q| == 1 then 0
    else
      var k' := ArgMin(q[..|q| - 1]);
      if EntryLe(q[k'], q[|q| - 1]) then k' else |q| - 1
  }

  /** The queue after `pop()` of the entry at `k`. */
  function RemoveAt(q: seq<Entry>, k: nat): (r: seq<Entry>)
    requires k < |q|
    ensures |r| == |q| - 1
    ensures forall j :: 0 <= j < k ==> r[j] == q[j]
    ensures forall j :: k < j < |q| ==> r[j - 1] == q[j]
  {
    q[..k] + q[k + 1..]
  }

  /** Popping one entry keeps every other entry. */
  lemma RemoveAtKeeps(q: seq<Entry>, k: nat, x: Entry)
    requires k < |q| && x in q && x != q[k]
    ensures x in RemoveAt(q, k)
  {
    var j :| 0 <= j < |q| && q[j] == x;
    if j < k {
      assert RemoveAt(q, k)[j] == x;
    } else {
      assert RemoveAt(q, k)[j - 1] == x;
    }
  }

  /** Popping adds no entry. */
  lemma RemoveAtOnlyRemoves(q: seq<Entry>, k: nat, i: nat)
    requires k < |q| && i < |q| - 1
    ensures RemoveAt(q, k)[i] in q
  {
    if i < k {
      assert RemoveAt(q, k)[i] == q[i];
    } else {
      assert RemoveAt(q, k)[i] == q[i + 1];
    }
  }
}
