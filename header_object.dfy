/** A JavaScript object used as a header dictionary (`config.headers`,
    `requestHeaders`). Its own enumerable string keys are kept in insertion
    order, which is the order `for…in` visits them: assigning to a present
    key changes its value where it stands, assigning to a new key appends it,
    and `delete` removes the key. */
module Headers {
  import opened Wrappers

  datatype Entry = Entry(name: string, value: string)

  function Keys(es: seq<Entry>): (ks: seq<string>)
    ensures |ks| == |es|
    ensures forall i :: 0 <= i < |es| ==> ks[i] == es[i].name
  {
    seq(|es|, i requires 0 <= i < |es| => es[i].name)
  }

  /** An object never holds the same key twice. */
  ghost predicate DistinctKeys(es: seq<Entry>) {
    forall i, j :: 0 <= i < j < |es| ==> es[i].name != es[j].name
  }

  ghost predicate Distinct(ks: seq<string>) {
    forall i, j :: 0 <= i < j < |ks| ==> ks[i] != ks[j]
  }

  /** `obj[k]`, with None for a missing key. */
  function Lookup(es: seq<Entry>, k: string): (r: Option<string>)
    ensures r.None? <==> k !in Keys(es)
  {
    if es == [] then None
    else if es[0].name == k then Some(es[0].value)
    else
      assert Keys(es) == [es[0].name] + Keys(es[1..]);
      Lookup(es[1..], k)
  }

  /** `obj[k] = v`. */
  function Put(es: seq<Entry>, k: string, v: string): (r: seq<Entry>)
    ensures Lookup(r, k) == Some(v)
    ensures forall j :: j != k ==> Lookup(r, j) == Lookup(es, j)
  {
    if es == [] then [Entry(k, v)]
    else if es[0].name == k then [Entry(k, v)] + es[1..]
    else [es[0]] + Put(es[1..], k, v)
  }

  /** The entries whose key satisfies `keep`, in order. */
  function FilterKeys(es: seq<Entry>, keep: string -> bool): (r: seq<Entry>)
    ensures |r| <= |es|
    ensures forall j :: Lookup(r, j) == if keep(j) then Lookup(es, j) else None
  {
    if es == [] then []
    else if keep(es[0].name) then [es[0]] + FilterKeys(es[1..], keep)
    else FilterKeys(es[1..], keep)
  }

  /** `delete obj[k]`. */
  function Remove(es: seq<Entry>, k: string): (r: seq<Entry>)
    ensures Lookup(r, k) == None
    ensures forall j :: j != k ==> Lookup(r, j) == Lookup(es, j)
  {
    FilterKeys(es, j => j != k)
  }

  lemma {:induction false} PutKeepsDistinct(es: seq<Entry>, k: string, v: string)
    requires DistinctKeys(es)
    ensures DistinctKeys(Put(es, k, v))
  {
    if es != [] && es[0].name != k {
      PutKeepsDistinct(es[1..], k, v);
      var r := Put(es[1..], k, v);
      forall j | 0 <= j < |r| ensures r[j].name != es[0].name {
        assert r[j].name in Keys(r);
        assert Lookup(es[1..], es[0].name).None?;
      }
    }
  }

  lemma {:induction false} FilterKeepsDistinct(es: seq<Entry>, keep: string -> bool)
    requires DistinctKeys(es)
    ensures DistinctKeys(FilterKeys(es, keep))
  {
    if es != [] {
      FilterKeepsDistinct(es[1..], keep);
      var r := FilterKeys(es[1..], keep);
      forall j | 0 <= j < |r| ensures r[j].name != es[0].name {
        assert r[j].name in Keys(r);
        assert Lookup(es[1..], es[0].name).None?;
      }
    }
  }

  lemma RemoveKeepsDistinct(es: seq<Entry>, k: string)
    requires DistinctKeys(es)
    ensures DistinctKeys(Remove(es, k))
  {
    FilterKeepsDistinct(es, j => j != k);
  }

  /** A header dictionary that the code changes in place. */
  class HeaderObject {
    var entries: seq<Entry>

    ghost predicate Valid()
      reads this
    {
      DistinctKeys(entries)
    }

    constructor (es: seq<Entry>)
      requires DistinctKeys(es)
      ensures Valid() && entries == es
    {
      entries := es;
    }

    method Get(k: string) returns (v: Option<string>)
      ensures v == Lookup(entries, k)
    {
      v := Lookup(entries, k);
    }

    method Set(k: string, v: string)
      modifies this
      ensures entries == Put(old(entries), k, v)
      ensures old(Valid()) ==> Valid()
    {
      if Valid() {
        PutKeepsDistinct(entries, k, v);
      }
      entries := Put(entries, k, v);
    }

    method Delete(k: string)
      modifies this
      ensures entries == Remove(old(entries), k)
      ensures old(Valid()) ==> Valid()
    {
      if Valid() {
        RemoveKeepsDistinct(entries, k);
      }
      entries := Remove(entries, k);
    }
  }
}
