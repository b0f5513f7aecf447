/**
 * A PHP array of strings as the join command uses one: an ordered list of
 * key/value entries. A row read by fgetcsv is a list (keys 0, 1, …); writing
 * to a key beyond its end adds that key at the END, and `$row[] = $v` then
 * appends under the next free key, one past the largest key used.
 * fputcsv writes the values in entry order, whatever their keys.
 */
module PhpArray {
  import opened Wrappers

  datatype Entry = Entry(key: nat, value: string)

  type PArray = seq<Entry>

  /** The array fgetcsv returns: the cells under keys 0, 1, … */
  function FromList(xs: seq<string>): (a: PArray)
    ensures |a| == |xs|
    ensures forall i :: 0 <= i < |a| ==> a[i] == Entry(i, xs[i])
  {
    seq(|xs|, i requires 0 <= i < |xs| => Entry(i, xs[i]))
  }

  /** The values in entry order: what fputcsv writes. */
  function Values(a: PArray): (vs: seq<string>)
    ensures |vs| == |a|
    ensures forall i :: 0 <= i < |a| ==> vs[i] == a[i].value
  {
    seq(|a|, i requires 0 <= i < |a| => a[i].value)
  }

  /** Position of the entry with key `k`, if any. */
  function Find(a: PArray, k: nat): (r: Option<nat>)
    ensures r.Some? ==> r.value < |a| && a[r.value].key == k
    ensures r.Some? ==> forall j :: 0 <= j < r.value ==> a[j].key != k
    ensures r.None? ==> forall j :: 0 <= j < |a| ==> a[j].key != k
  {
    if |a| == 0 then None
    else if a[0].key == k then Some(0)
    else match Find(a[1..], k)
      case Some(p) => Some(p + 1)
      case None => None
  }

  /** `$a[$k]`: the value stored under `k`, or null. */
  function Get(a: PArray, k: nat): Option<string> {
    match Find(a, k)
    case Some(p) => Some(a[p].value)
    case None => None
  }

  /** `$a[$k] = $v`: replaces the value in place, or adds the key at the end. */
  function Set(a: PArray, k: nat, v: string): (r: PArray)
    ensures Get(r, k) == Some(v)
    ensures forall j :: j != k ==> Get(r, j) == Get(a, j)
    ensures Find(a, k).Some? ==> r == a[Find(a, k).value := Entry(k, v)]
    ensures Find(a, k).None? ==> r == a + [Entry(k, v)]
  {
    SetKeepsOtherKeys(a, k, v);
    match Find(a, k)
    case Some(p) =>
      var r := a[p := Entry(k, v)];
      FindSameKeys(a, r, k);
      r
    case None =>
      FindAppend(a, Entry(k, v), k);
      a + [Entry(k, v)]
  }

  /** Replacing the entry of `k`, or appending one for it, leaves every other key's value alone. */
  lemma SetKeepsOtherKeys(a: PArray, k: nat, v: string)
    ensures Find(a, k).Some? ==> forall j :: j != k ==> Get(a[Find(a, k).value := Entry(k, v)], j) == Get(a, j)
    ensures Find(a, k).None? ==> forall j :: j != k ==> Get(a + [Entry(k, v)], j) == Get(a, j)
  {
    if Find(a, k).Some? {
      var r := a[Find(a, k).value := Entry(k, v)];
      forall j | j != k ensures Get(r, j) == Get(a, j) {
        FindSameKeys(a, r, j);
      }
    } else {
      forall j | j != k ensures Get(a + [Entry(k, v)], j) == Get(a, j) {
        FindAppend(a, Entry(k, v), j);
      }
    }
  }

  /** One past the largest key used, 0 for an empty array. */
  function NextKey(a: PArray): (n: nat)
    ensures forall i :: 0 <= i < |a| ==> a[i].key < n
    ensures |a| == 0 ==> n == 0
    ensures |a| > 0 ==> exists i :: 0 <= i < |a| && a[i].key + 1 == n
  {
    if |a| == 0 then 0
    else
      var init := a[..|a| - 1];
      var m := NextKey(init);
      var last := a[|a| - 1].key + 1;
      assert forall i :: 0 <= i < |init| ==> init[i] == a[i];
      if m < last then last else m
  }

  /** `$a[] = $v`. */
  function Push(a: PArray, v: string): (r: PArray)
    ensures |r| == |a| + 1 && r[..|a|] == a && r[|a|] == Entry(NextKey(a), v)
  {
    var r := a + [Entry(NextKey(a), v)];
    assert r[..|a|] == a;
    r
  }

  /** Lookup after appending one entry: earlier entries win, then the new one. */
  lemma {:induction false} FindAppend(a: PArray, e: Entry, k: nat)
    ensures Find(a + [e], k) == if Find(a, k).Some? then Find(a, k) else if e.key == k then Some(|a|) else None
  {
    if |a| > 0 {
      assert (a + [e])[1..] == a[1..] + [e];
      FindAppend(a[1..], e, k);
    }
  }

  /** Lookup depends on the keys only. */
  lemma {:induction false} FindSameKeys(a: PArray, b: PArray, k: nat)
    requires |a| == |b| && forall i :: 0 <= i < |a| ==> a[i].key == b[i].key
    ensures Find(a, k) == Find(b, k)
  {
    if |a| > 0 {
      FindSameKeys(a[1..], b[1..], k);
    }
  }

  /** The next free key of a list is its length. */
  lemma {:induction false} NextKeyOfList(xs: seq<string>)
    ensures NextKey(FromList(xs)) == |xs|
  {
    if |xs| > 0 {
      var a := FromList(xs);
      assert a[..|a| - 1] == FromList(xs[..|xs| - 1]);
      NextKeyOfList(xs[..|xs| - 1]);
    }
  }

  /** In a list the key `k` sits at position `k`. */
  lemma {:induction false} FindOfList(xs: seq<string>, k: nat)
    ensures Find(FromList(xs), k) == if k < |xs| then Some(k) else None
  {
    var a := FromList(xs);
    if k < |xs| {
      assert a[k].key == k;
      match Find(a, k)
      case Some(p) =>
        assert a[p].key == p;
      case None =>
        assert false;
    }
  }

  lemma GetOfList(xs: seq<string>, k: nat)
    ensures Get(FromList(xs), k) == if k < |xs| then Some(xs[k]) else None
  {
    FindOfList(xs, k);
  }

  /** Appending to a list keeps it a list. */
  lemma PushOfList(xs: seq<string>, v: string)
    ensures Push(FromList(xs), v) == FromList(xs + [v])
  {
    NextKeyOfList(xs);
  }

  /** Writing an existing key of a list replaces that cell. */
  lemma SetOfList(xs: seq<string>, k: nat, v: string)
    requires k < |xs|
    ensures Set(FromList(xs), k, v) == FromList(xs[k := v])
  {
    FindOfList(xs, k);
  }

  /** Writing a key beyond a list adds it at the end, and the next free key follows it. */
  lemma SetBeyondList(xs: seq<string>, k: nat, v: string)
    requires k >= |xs|
    ensures Set(FromList(xs), k, v) == FromList(xs) + [Entry(k, v)]
    ensures NextKey(FromList(xs) + [Entry(k, v)]) == k + 1
  {
    FindOfList(xs, k);
    NextKeyAfterGap(xs, k, v);
  }

  lemma NextKeyAfterGap(xs: seq<string>, k: nat, v: string)
    requires k >= |xs|
    ensures NextKey(FromList(xs) + [Entry(k, v)]) == k + 1
  {
    var a := FromList(xs) + [Entry(k, v)];
    assert a[..|a| - 1] == FromList(xs);
    NextKeyOfList(xs);
  }

  /** The values of a list are the list. */
  lemma ValuesOfList(xs: seq<string>)
    ensures Values(FromList(xs)) == xs
  {
  }

  lemma ValuesAppend(a: PArray, e: Entry)
    ensures Values(a + [e]) == Values(a) + [e.value]
  {
  }

  lemma ValuesAppendTwo(a: PArray, e: Entry, f: Entry)
    ensures Values(a + [e] + [f]) == Values(a) + [e.value, f.value]
  {
    ValuesAppend(a, e);
    ValuesAppend(a + [e], f);
  }
}
