/** `normalizeHeaderName(headers, normalizedName)`: every key of `headers`
    that spells `normalizedName` in another letter case has its value moved
    to `normalizedName` and is deleted, in one in-place walk over the keys. */
module NormalizeHeaderName {
  import opened Wrappers
  import opened Strings
  import opened Headers

  /** A key the walk renames: a different spelling of `name`, ignoring case. */
  predicate IsVariant(k: string, name: string) {
    k != name && EqualsIgnoreCase(k, name)
  }

  // ---------------------------------------------------------------------
  // The walk as the code performs it

  /** One visit of the walk. A key deleted earlier in the walk is skipped, as
      `for…in` skips it; a variant's value is stored under `name` and the
      variant is deleted. */
  function Visit(acc: seq<Entry>, k: string, name: string): seq<Entry> {
    match Lookup(acc, k)
    case None => acc
    case Some(v) => if IsVariant(k, name) then Remove(Put(acc, name, v), k) else acc
  }

  function NormalizeKeys(acc: seq<Entry>, ks: seq<string>, name: string): seq<Entry>
    decreases |ks|
  {
    if ks == [] then acc else NormalizeKeys(Visit(acc, ks[0], name), ks[1..], name)
  }

  /** The object after the walk over the keys it had when the walk started. */
  function Normalize(es: seq<Entry>, name: string): seq<Entry> {
    NormalizeKeys(es, Keys(es), name)
  }

  method NormalizeHeaderName(headers: HeaderObject, normalizedName: string)
    requires headers.Valid()
    modifies headers
    ensures headers.Valid()
    ensures headers.entries == Normalize(old(headers.entries), normalizedName)
  {
    var names := Keys(headers.entries);
    var i := 0;
    while i < |names|
      invariant 0 <= i <= |names|
      invariant headers.Valid()
      invariant NormalizeKeys(headers.entries, names[i..], normalizedName)
             == Normalize(old(headers.entries), normalizedName)
    {
      assert names[i..] == [names[i]] + names[i + 1..];
      VisitKey(headers, names[i], normalizedName);
      i := i + 1;
    }
  }

  /** The loop body for one key. */
  method VisitKey(headers: HeaderObject, name: string, normalizedName: string)
    requires headers.Valid()
    modifies headers
    ensures headers.Valid()
    ensures headers.entries == Visit(old(headers.entries), name, normalizedName)
  {
    var value := headers.Get(name);
    if value.Some? && name != normalizedName && EqualsIgnoreCase(name, normalizedName) {
      headers.Set(normalizedName, value.value);
      headers.Delete(name);
    }
  }

  // ---------------------------------------------------------------------
  // An independent description of the result

  /** The position of the last variant of `name` in `ks`, or -1. */
  function LastVariantIndex(ks: seq<string>, name: string): (i: int)
    ensures -1 <= i < |ks|
    ensures 0 <= i ==> IsVariant(ks[i], name)
    ensures forall j :: i < j < |ks| ==> !IsVariant(ks[j], name)
  {
    if ks == [] then -1
    else if IsVariant(ks[|ks| - 1], name) then |ks| - 1
    else LastVariantIndex(ks[..|ks| - 1], name)
  }

  /** The keys kept by the description: all but the variants of `name`. */
  function NotVariant(name: string): string -> bool {
    j => !IsVariant(j, name)
  }

  /** The keys kept after a walk over `ks`: all but the variants it visited. */
  function NotVisitedVariant(ks: seq<string>, name: string): string -> bool {
    j => !(IsVariant(j, name) && j in ks)
  }

  /** Without variants the object is as it was; otherwise the value of the
      last variant (in key order) is stored under `name`, and every variant
      is gone. */
  function Normalized(es: seq<Entry>, name: string): seq<Entry> {
    var i := LastVariantIndex(Keys(es), name);
    if i < 0 then es else FilterKeys(Put(es, name, es[i].value), NotVariant(name))
  }

  // ---------------------------------------------------------------------
  // Facts about ordered entries used below

  lemma {:induction false} FilterCongruent(es: seq<Entry>, p: string -> bool, q: string -> bool)
    requires forall j :: j in Keys(es) ==> p(j) == q(j)
    ensures FilterKeys(es, p) == FilterKeys(es, q)
  {
    if es != [] {
      assert es[0].name in Keys(es);
      assert forall j :: j in Keys(es[1..]) ==> j in Keys(es);
      FilterCongruent(es[1..], p, q);
    }
  }

  lemma {:induction false} FilterFilter(es: seq<Entry>, p: string -> bool, q: string -> bool, r: string -> bool)
    requires forall j :: r(j) == (p(j) && q(j))
    ensures FilterKeys(FilterKeys(es, p), q) == FilterKeys(es, r)
  {
    if es != [] {
      FilterFilter(es[1..], p, q, r);
    }
  }

  lemma {:induction false} RemoveThenFilter(es: seq<Entry>, k: string, q: string -> bool, r: string -> bool)
    requires forall j :: r(j) == (j != k && q(j))
    ensures FilterKeys(Remove(es, k), q) == FilterKeys(es, r)
  {
    if es != [] {
      RemoveThenFilter(es[1..], k, q, r);
      if es[0].name == k {
        assert Remove(es, k) == Remove(es[1..], k);
      } else {
        assert Remove(es, k) == [es[0]] + Remove(es[1..], k);
      }
    }
  }

  lemma {:induction false} RemoveAsFilter(es: seq<Entry>, k: string, r: string -> bool)
    requires forall j :: r(j) == (j != k)
    ensures Remove(es, k) == FilterKeys(es, r)
  {
    if es != [] {
      RemoveAsFilter(es[1..], k, r);
      if es[0].name == k {
        assert Remove(es, k) == Remove(es[1..], k);
      } else {
        assert Remove(es, k) == [es[0]] + Remove(es[1..], k);
      }
    }
  }

  lemma {:induction false} PutPut(es: seq<Entry>, n: string, v: string, w: string)
    ensures Put(Put(es, n, v), n, w) == Put(es, n, w)
  {
    if es != [] && es[0].name != n {
      PutPut(es[1..], n, v, w);
    }
  }

  lemma {:induction false} PutRemoveCommute(es: seq<Entry>, k: string, n: string, w: string)
    requires k != n
    ensures Put(Remove(es, k), n, w) == Remove(Put(es, n, w), k)
  {
    if es != [] {
      PutRemoveCommute(es[1..], k, n, w);
      if es[0].name == k {
        assert Remove(es, k) == Remove(es[1..], k);
      } else if es[0].name == n {
        assert Remove(es, k) == [es[0]] + Remove(es[1..], k);
        assert Put(es, n, w) == [Entry(n, w)] + es[1..];
        assert Remove([Entry(n, w)] + es[1..], k) == [Entry(n, w)] + Remove(es[1..], k);
      } else {
        assert Remove(es, k) == [es[0]] + Remove(es[1..], k);
        assert Put(es, n, w) == [es[0]] + Put(es[1..], n, w);
        assert Remove([es[0]] + Put(es[1..], n, w), k) == [es[0]] + Remove(Put(es[1..], n, w), k);
      }
    }
  }

  lemma {:induction false} FilterPutDropped(es: seq<Entry>, n: string, w: string, p: string -> bool)
    requires !p(n)
    ensures FilterKeys(Put(es, n, w), p) == FilterKeys(es, p)
  {
    if es != [] && es[0].name != n {
      FilterPutDropped(es[1..], n, w, p);
    }
  }

  lemma KeysOfPut(es: seq<Entry>, n: string, w: string)
    ensures forall j :: j in Keys(Put(es, n, w)) ==> j == n || j in Keys(es)
  {
    forall j | j in Keys(Put(es, n, w)) ensures j == n || j in Keys(es) {
      assert Lookup(Put(es, n, w), j).Some?;
    }
  }

  lemma DistinctKeysOfEntries(es: seq<Entry>)
    requires DistinctKeys(es)
    ensures Distinct(Keys(es))
  {
  }

  // ---------------------------------------------------------------------
  // The walk equals the description

  /** How the last variant of `[k] + rest` relates to that of `rest`. */
  lemma LastVariantIndexCons(ks: seq<string>, name: string)
    requires ks != []
    ensures var i, i' := LastVariantIndex(ks, name), LastVariantIndex(ks[1..], name);
            if i' >= 0 then i == i' + 1 else i == (if IsVariant(ks[0], name) then 0 else -1)
  {
    var rest := ks[1..];
    var i, i' := LastVariantIndex(ks, name), LastVariantIndex(rest, name);
    forall j | 0 < j < |ks| ensures ks[j] == rest[j - 1] { }
    if i' >= 0 {
      assert IsVariant(ks[i' + 1], name);
    }
  }

  /** The expected result of a walk over `ks` starting from `acc`, when
      every variant in `ks` is a key of `acc`. */
  function WalkResult(acc: seq<Entry>, ks: seq<string>, name: string): seq<Entry> {
    var i := LastVariantIndex(ks, name);
    if i < 0 then acc
    else FilterKeys(Put(acc, name, Lookup(acc, ks[i]).GetOr("")), NotVisitedVariant(ks, name))
  }

  /** The walk over a list of distinct keys, whose variants are all present
      when the walk starts, removes exactly the variants it visits and leaves
      under `name` the value of the last one visited. */
  lemma {:induction false} NormalizeKeysClosed(acc: seq<Entry>, ks: seq<string>, name: string)
    requires DistinctKeys(acc) && Distinct(ks)
    requires forall i :: 0 <= i < |ks| && IsVariant(ks[i], name) ==> ks[i] in Keys(acc)
    ensures NormalizeKeys(acc, ks, name) == WalkResult(acc, ks, name)
    decreases |ks|, 1
  {
    if ks != [] {
      if IsVariant(ks[0], name) {
        ClosedStepVariant(acc, ks, name);
      } else {
        ClosedStepSkip(acc, ks, name);
      }
    }
  }

  lemma {:induction false} ClosedStepSkip(acc: seq<Entry>, ks: seq<string>, name: string)
    requires ks != [] && !IsVariant(ks[0], name)
    requires DistinctKeys(acc) && Distinct(ks)
    requires forall i :: 0 <= i < |ks| && IsVariant(ks[i], name) ==> ks[i] in Keys(acc)
    ensures NormalizeKeys(acc, ks, name) == WalkResult(acc, ks, name)
    decreases |ks|, 0
  {
    assert Visit(acc, ks[0], name) == acc;
    assert NormalizeKeys(acc, ks, name) == NormalizeKeys(acc, ks[1..], name);
    TailKeepsRequires(acc, ks, name);
    NormalizeKeysClosed(acc, ks[1..], name);
    SkipWalkResult(acc, ks, name);
  }

  /** The walk's preconditions carry over to the keys after the first. */
  lemma TailKeepsRequires(acc: seq<Entry>, ks: seq<string>, name: string)
    requires ks != [] && Distinct(ks)
    requires forall i :: 0 <= i < |ks| && IsVariant(ks[i], name) ==> ks[i] in Keys(acc)
    ensures Distinct(ks[1..])
    ensures forall i :: 0 <= i < |ks[1..]| && IsVariant(ks[1..][i], name) ==> ks[1..][i] in Keys(acc)
  {
    forall i | 0 <= i < |ks[1..]|
      ensures ks[1..][i] == ks[i + 1]
    {
    }
  }

  /** A first key that is not a variant does not change the expected result. */
  lemma SkipWalkResult(acc: seq<Entry>, ks: seq<string>, name: string)
    requires ks != [] && !IsVariant(ks[0], name)
    ensures WalkResult(acc, ks, name) == WalkResult(acc, ks[1..], name)
  {
    var rest := ks[1..];
    LastVariantIndexCons(ks, name);
    var i := LastVariantIndex(ks, name);
    if i >= 0 {
      var i' := LastVariantIndex(rest, name);
      assert i' == i - 1 && ks[i] == rest[i'];
      var put := Put(acc, name, Lookup(acc, ks[i]).GetOr(""));
      assert WalkResult(acc, ks, name) == FilterKeys(put, NotVisitedVariant(ks, name));
      assert WalkResult(acc, rest, name) == FilterKeys(put, NotVisitedVariant(rest, name));
      SkipSameFilter(ks, name);
      FilterCongruent(put, NotVisitedVariant(rest, name), NotVisitedVariant(ks, name));
    } else {
      assert LastVariantIndex(rest, name) < 0;
    }
  }

  lemma SkipSameFilter(ks: seq<string>, name: string)
    requires ks != [] && !IsVariant(ks[0], name)
    ensures forall j :: NotVisitedVariant(ks[1..], name)(j) == NotVisitedVariant(ks, name)(j)
  {
    assert ks == [ks[0]] + ks[1..];
  }


  lemma {:induction false} ClosedStepVariant(acc: seq<Entry>, ks: seq<string>, name: string)
    requires ks != [] && IsVariant(ks[0], name)
    requires DistinctKeys(acc) && Distinct(ks)
    requires forall i :: 0 <= i < |ks| && IsVariant(ks[i], name) ==> ks[i] in Keys(acc)
    ensures NormalizeKeys(acc, ks, name) == WalkResult(acc, ks, name)
    decreases |ks|, 0
  {
    var k, rest := ks[0], ks[1..];
    assert k in Keys(acc);
    var v := Lookup(acc, k).value;
    var acc' := Remove(Put(acc, name, v), k);
    assert NormalizeKeys(acc, ks, name) == NormalizeKeys(acc', rest, name) by {
      assert Visit(acc, k, name) == acc';
    }
    VisitVariantKeepsRest(acc, ks, name, v);
    NormalizeKeysClosed(acc', rest, name);
    VariantWalkResult(acc, ks, name, v);
  }

  /** After a variant first key, the expected result of the rest, from the
      object that visit left, is the expected result of the whole walk. */
  lemma VariantWalkResult(acc: seq<Entry>, ks: seq<string>, name: string, v: string)
    requires ks != [] && IsVariant(ks[0], name) && Lookup(acc, ks[0]) == Some(v)
    requires forall j :: j in ks[1..] && IsVariant(j, name) ==> Lookup(Remove(Put(acc, name, v), ks[0]), j) == Lookup(acc, j)
    ensures WalkResult(Remove(Put(acc, name, v), ks[0]), ks[1..], name) == WalkResult(acc, ks, name)
  {
    LastVariantIndexCons(ks, name);
    if LastVariantIndex(ks[1..], name) < 0 {
      OnlyVariantWalkResult(acc, ks, name, v);
    } else {
      LaterVariantWalkResult(acc, ks, name, v);
    }
  }

  /** `ks[0]` is the only variant: its value stays under `name`. */
  lemma OnlyVariantWalkResult(acc: seq<Entry>, ks: seq<string>, name: string, v: string)
    requires ks != [] && IsVariant(ks[0], name) && Lookup(acc, ks[0]) == Some(v)
    requires LastVariantIndex(ks[1..], name) < 0
    ensures WalkResult(Remove(Put(acc, name, v), ks[0]), ks[1..], name) == WalkResult(acc, ks, name)
  {
    var k := ks[0];
    LastVariantIndexCons(ks, name);
    assert LastVariantIndex(ks, name) == 0;
    assert WalkResult(acc, ks, name) == FilterKeys(Put(acc, name, v), NotVisitedVariant(ks, name));
    OnlyVisitedVariant(ks, name);
    RemoveAsFilter(Put(acc, name, v), k, NotVisitedVariant(ks, name));
  }

  /** A later variant exists: its value overwrites the first one's. */
  lemma LaterVariantWalkResult(acc: seq<Entry>, ks: seq<string>, name: string, v: string)
    requires ks != [] && IsVariant(ks[0], name)
    requires forall j :: j in ks[1..] && IsVariant(j, name) ==> Lookup(Remove(Put(acc, name, v), ks[0]), j) == Lookup(acc, j)
    requires LastVariantIndex(ks[1..], name) >= 0
    ensures WalkResult(Remove(Put(acc, name, v), ks[0]), ks[1..], name) == WalkResult(acc, ks, name)
  {
    var i' := LastVariantIndex(ks[1..], name);
    LaterVariantIndex(ks, name);
    assert IsVariant(ks[1..][i'], name);
    LaterVariantStep(acc, ks[0], ks[1..], name, v, i');
  }

  /** The same step with the first key and the rest named apart. */
  lemma LaterVariantStep(acc: seq<Entry>, k: string, rest: seq<string>, name: string, v: string, i': int)
    requires IsVariant(k, name) && 0 <= i' == LastVariantIndex(rest, name)
    requires LastVariantIndex([k] + rest, name) == i' + 1 && ([k] + rest)[i' + 1] == rest[i']
    requires Lookup(Remove(Put(acc, name, v), k), rest[i']) == Lookup(acc, rest[i'])
    ensures WalkResult(Remove(Put(acc, name, v), k), rest, name) == WalkResult(acc, [k] + rest, name)
  {
    var w := Lookup(acc, rest[i']).GetOr("");
    WalkResultAt(Remove(Put(acc, name, v), k), rest, name, i', w);
    WalkResultAt(acc, [k] + rest, name, i' + 1, w);
    VariantStepRewrite(acc, k, name, v, w, rest);
  }

  /** The last variant of `ks` is one past the last variant of `ks[1..]`. */
  lemma LaterVariantIndex(ks: seq<string>, name: string)
    requires ks != [] && LastVariantIndex(ks[1..], name) >= 0
    ensures var i' := LastVariantIndex(ks[1..], name);
            LastVariantIndex(ks, name) == i' + 1 && ks[i' + 1] == ks[1..][i']
            && ks[1..][i'] in ks[1..] && ks == [ks[0]] + ks[1..]
  {
    LastVariantIndexCons(ks, name);
  }

  /** `WalkResult` when its last variant is at `i` and holds `w`. */
  lemma WalkResultAt(acc: seq<Entry>, ks: seq<string>, name: string, i: int, w: string)
    requires 0 <= i == LastVariantIndex(ks, name) && Lookup(acc, ks[i]).GetOr("") == w
    ensures WalkResult(acc, ks, name) == FilterKeys(Put(acc, name, w), NotVisitedVariant(ks, name))
  {
  }

  /** After the first visit removed the variant `ks[0]`, the walk over the
      rest still meets its preconditions. */
  lemma VisitVariantKeepsRest(acc: seq<Entry>, ks: seq<string>, name: string, v: string)
    requires ks != [] && IsVariant(ks[0], name)
    requires DistinctKeys(acc) && Distinct(ks)
    requires forall i :: 0 <= i < |ks| && IsVariant(ks[i], name) ==> ks[i] in Keys(acc)
    ensures var acc' := Remove(Put(acc, name, v), ks[0]);
            DistinctKeys(acc') && Distinct(ks[1..])
            && (forall i :: 0 <= i < |ks[1..]| && IsVariant(ks[1..][i], name) ==> ks[1..][i] in Keys(acc'))
            && (forall j :: j in ks[1..] && IsVariant(j, name) ==> Lookup(acc', j) == Lookup(acc, j))
  {
    var k, rest := ks[0], ks[1..];
    var acc' := Remove(Put(acc, name, v), k);
    PutKeepsDistinct(acc, name, v);
    RemoveKeepsDistinct(Put(acc, name, v), k);
    forall j | 0 <= j < |rest| && IsVariant(rest[j], name) ensures rest[j] in Keys(acc') {
      assert rest[j] == ks[j + 1];
      assert Lookup(acc', rest[j]) == Lookup(acc, rest[j]);
    }
    forall j | j in rest && IsVariant(j, name) ensures Lookup(acc', j) == Lookup(acc, j) {
      var x :| 0 <= x < |rest| && rest[x] == j;
      assert rest[x] == ks[x + 1];
    }
  }

  /** When `ks[0]` is the only variant in `ks`, the walk keeps every key but it. */
  lemma OnlyVisitedVariant(ks: seq<string>, name: string)
    requires ks != [] && IsVariant(ks[0], name)
    requires LastVariantIndex(ks[1..], name) < 0
    ensures forall j :: NotVisitedVariant(ks, name)(j) == (j != ks[0])
  {
    var rest := ks[1..];
    forall x | 1 <= x < |ks| ensures !IsVariant(ks[x], name) {
      assert ks[x] == rest[x - 1];
    }
  }

  lemma VariantStepRewrite(acc: seq<Entry>, k: string, name: string, v: string, w: string, rest: seq<string>)
    requires k != name && IsVariant(k, name)
    ensures FilterKeys(Put(Remove(Put(acc, name, v), k), name, w), NotVisitedVariant(rest, name))
         == FilterKeys(Put(acc, name, w), NotVisitedVariant([k] + rest, name))
  {
    var P', P := NotVisitedVariant(rest, name), NotVisitedVariant([k] + rest, name);
    PutRemoveCommute(Put(acc, name, v), k, name, w);
    PutPut(acc, name, v, w);
    forall j ensures P(j) == (j != k && P'(j)) {
      assert j in [k] + rest <==> j == k || j in rest;
    }
    RemoveThenFilter(Put(acc, name, w), k, P', P);
  }

  /** The in-place walk yields the described result. */
  lemma NormalizeIsNormalized(es: seq<Entry>, name: string)
    requires DistinctKeys(es)
    ensures Normalize(es, name) == Normalized(es, name)
  {
    var ks := Keys(es);
    DistinctKeysOfEntries(es);
    NormalizeKeysClosed(es, ks, name);
    var i := LastVariantIndex(ks, name);
    if 0 <= i {
      assert Lookup(es, ks[i]) == Some(es[i].value) by { LookupAt(es, i); }
      KeysOfPut(es, name, es[i].value);
      FilterCongruent(Put(es, name, es[i].value), NotVisitedVariant(ks, name), NotVariant(name));
    }
  }

  lemma {:induction false} LookupAt(es: seq<Entry>, i: int)
    requires DistinctKeys(es) && 0 <= i < |es|
    ensures Lookup(es, es[i].name) == Some(es[i].value)
  {
    if i > 0 {
      LookupAt(es[1..], i - 1);
    }
  }

  // ---------------------------------------------------------------------
  // What the walk promises

  /** Afterwards no key other than `name` equals it ignoring case. */
  lemma NormalizeDeletesVariants(es: seq<Entry>, name: string, k: string)
    requires DistinctKeys(es)
    requires IsVariant(k, name)
    ensures Lookup(Normalize(es, name), k) == None
  {
    NormalizeIsNormalized(es, name);
  }

  /** With several variants, the value of the one visited last ends up under
      `name`. */
  lemma NormalizeLastVariantWins(es: seq<Entry>, name: string, i: int)
    requires DistinctKeys(es)
    requires 0 <= i < |es| && IsVariant(es[i].name, name)
    requires forall j :: i < j < |es| ==> !IsVariant(es[j].name, name)
    ensures Lookup(Normalize(es, name), name) == Some(es[i].value)
  {
    NormalizeIsNormalized(es, name);
    var ks := Keys(es);
    assert LastVariantIndex(ks, name) == i by {
      var l := LastVariantIndex(ks, name);
      assert l >= i;
    }
  }

  /** Keys that do not equal `name` ignoring case keep their values and their
      relative order. */
  lemma NormalizeKeepsOthers(es: seq<Entry>, name: string)
    requires DistinctKeys(es)
    ensures var other := j => !EqualsIgnoreCase(j, name);
            FilterKeys(Normalize(es, name), other) == FilterKeys(es, other)
  {
    NormalizeIsNormalized(es, name);
    var i := LastVariantIndex(Keys(es), name);
    if 0 <= i {
      var other := j => !EqualsIgnoreCase(j, name);
      var put := Put(es, name, es[i].value);
      FilterFilter(put, NotVariant(name), other, other);
      FilterPutDropped(es, name, es[i].value, other);
    }
  }

  /** Without a variant the headers are unchanged. */
  lemma NormalizeWithoutVariant(es: seq<Entry>, name: string)
    requires DistinctKeys(es)
    requires forall j :: 0 <= j < |es| ==> !IsVariant(es[j].name, name)
    ensures Normalize(es, name) == es
  {
    NormalizeIsNormalized(es, name);
  }

  /** Running the walk twice gives the same result as running it once. */
  lemma NormalizeIdempotent(es: seq<Entry>, name: string)
    requires DistinctKeys(es)
    ensures Normalize(Normalize(es, name), name) == Normalize(es, name)
  {
    NormalizeIsNormalized(es, name);
    var r := Normalize(es, name);
    var i := LastVariantIndex(Keys(es), name);
    if 0 <= i {
      PutKeepsDistinct(es, name, es[i].value);
      FilterKeepsDistinct(Put(es, name, es[i].value), NotVariant(name));
    }
    forall j | 0 <= j < |r| ensures !IsVariant(r[j].name, name) {
      assert r[j].name in Keys(r);
      if IsVariant(r[j].name, name) {
        NormalizeDeletesVariants(es, name, r[j].name);
      }
    }
    NormalizeWithoutVariant(r, name);
  }
}
