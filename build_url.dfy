/** `buildURL(url, params, paramsSerializer)`: serialises the parameters into
    a query text and appends it to the URL after "?" or "&", dropping any
    fragment first (sections 3.4 and 3.5 of RFC 3986: the query comes before
    the fragment). */
module BuildUrl {
  import opened Wrappers
  import opened Strings
  import opened UriEncoding

  /** A parameter value, already turned into text: `null`/`undefined`, a
      single value, or an array of values. */
  datatype ParamValue = Nullish | Scalar(text: string) | List(items: seq<string>)

  /** `params`: a plain object whose own keys are visited in order, or a
      `URLSearchParams` whose `toString()` is `text`. */
  datatype Params =
    | Fields(fields: seq<(string, ParamValue)>)
    | SearchParams(text: string)

  /** One `key=value` part, both sides encoded. */
  function Pair(key: string, value: string): (r: string)
    ensures '&' !in r && '#' !in r
  {
    EncodeIsQuerySafe(key);
    EncodeIsQuerySafe(value);
    Encode(key) + "=" + Encode(value)
  }

  /** A part splits at its one "=" into the encoded key and value. */
  lemma PairSplits(key: string, value: string)
    ensures Split(Pair(key, value), '=') == [Encode(key), Encode(value)]
  {
    EncodeIsQuerySafe(key);
    EncodeIsQuerySafe(value);
    SplitJoin([Encode(key), Encode(value)], '=');
    assert Join([Encode(key), Encode(value)], "=") == Encode(key) + "=" + Encode(value) by {
      assert [Encode(key), Encode(value)][1..] == [Encode(value)];
    }
  }

  /** The parts one parameter contributes: none for `null`/`undefined`, one
      `key[]=v` per element of an array, one `key=v` otherwise. */
  function FieldParts(key: string, v: ParamValue): (r: seq<string>)
    ensures v.Nullish? ==> r == []
    ensures v.Scalar? ==> r == [Pair(key, v.text)]
    ensures v.List? ==> (|r| == |v.items|
                         && forall i :: 0 <= i < |r| ==> r[i] == Pair(key + "[]", v.items[i]))
  {
    match v
    case Nullish => []
    case Scalar(text) => [Pair(key, text)]
    case List(items) => seq(|items|, i requires 0 <= i < |items| => Pair(key + "[]", items[i]))
  }

  /** The parts of every field, in the order the fields are visited. */
  function Parts(fields: seq<(string, ParamValue)>): (r: seq<string>)
    ensures forall i :: 0 <= i < |r| ==> '&' !in r[i]
  {
    if fields == [] then [] else FieldParts(fields[0].0, fields[0].1) + Parts(fields[1..])
  }

  /** The query text: the custom serializer's result when one is given,
      `toString()` of a `URLSearchParams`, else the parts joined by "&". */
  function Serialize(params: Params, serializer: Option<Params -> string>): string {
    if serializer.Some? then serializer.value(params)
    else match params
      case SearchParams(text) => text
      case Fields(fields) => Join(Parts(fields), "&")
  }

  /** Appending a non-empty query: cut the URL at its first "#", then add
      "?" (no "?" left) or "&" (one is there) and the query. */
  function AppendQuery(url: string, query: string): (r: string)
    ensures query == "" ==> r == url
    ensures query != "" ==>
      |r| > |query| && r[|r| - |query|..] == query
      && var base := r[..|r| - |query| - 1];
         '#' !in base && |base| <= |url| && url[..|base|] == base
         && (|base| < |url| ==> url[|base|] == '#')
         && r[|base|] == (if '?' in base then '&' else '?')
  {
    if query == "" then url
    else
      var h := IndexOf(url, '#');
      var base := if h == -1 then url else url[..h];
      var r := base + (if IndexOf(base, '?') == -1 then "?" else "&") + query;
      assert r[..|r| - |query| - 1] == base;
      r
  }

  function BuildUrlSpec(url: string, params: Option<Params>, serializer: Option<Params -> string>): string {
    if params.None? then url else AppendQuery(url, Serialize(params.value, serializer))
  }

  // ---------------------------------------------------------------------
  // `buildURL` itself, loop by loop

  method BuildUrl(url: string, params: Option<Params>, serializer: Option<Params -> string>)
    returns (r: string)
    ensures r == BuildUrlSpec(url, params, serializer)
    ensures params.None? ==> r == url
    ensures params.Some? && serializer.Some? ==> r == AppendQuery(url, serializer.value(params.value))
  {
    if params.None? {
      return url;
    }
    var serialized: string;
    if serializer.Some? {
      serialized := serializer.value(params.value);
    } else if params.value.SearchParams? {
      serialized := params.value.text;
    } else {
      serialized := SerializeFields(params.value.fields);
    }
    var u := url;
    if serialized != "" {
      var hashmarkIndex := IndexOf(u, '#');
      if hashmarkIndex != -1 {
        u := u[..hashmarkIndex];
      }
      u := u + (if IndexOf(u, '?') == -1 then "?" else "&") + serialized;
    }
    return u;
  }

  /** The built-in serialisation: the nested loops that push the parts, and
      the join. */
  method SerializeFields(fields: seq<(string, ParamValue)>) returns (serialized: string)
    ensures serialized == Join(Parts(fields), "&")
  {
    var parts: seq<string> := [];
    var i := 0;
    while i < |fields|
      invariant 0 <= i <= |fields|
      invariant parts == Parts(fields[..i])
    {
      PartsSnoc(fields, i);
      parts := PushFieldParts(parts, fields[i].0, fields[i].1);
      i := i + 1;
    }
    assert fields[..i] == fields;
    serialized := Join(parts, "&");
  }

  /** The body of the outer loop: skip `null`/`undefined`, add "[]" to the
      key of an array, and push one part per value. */
  method PushFieldParts(parts: seq<string>, key: string, val: ParamValue) returns (parts': seq<string>)
    ensures parts' == parts + FieldParts(key, val)
  {
    parts' := parts;
    if val.Nullish? {
      return;
    }
    var k := key;
    var values: seq<string>;
    if val.List? {
      k := k + "[]";
      values := val.items;
    } else {
      values := [val.text];
    }
    var j := 0;
    while j < |values|
      invariant 0 <= j <= |values|
      invariant parts' == parts + FieldParts(key, val)[..j]
    {
      FieldPartsPrefix(key, val, k, values, j);
      parts' := parts' + [Pair(k, values[j])];
      j := j + 1;
    }
    assert |FieldParts(key, val)| == |values|;
    assert FieldParts(key, val)[..j] == FieldParts(key, val);
  }

  /** One more value of the inner loop is one more part. */
  lemma FieldPartsPrefix(key: string, val: ParamValue, k: string, values: seq<string>, j: int)
    requires val.List? ==> k == key + "[]" && values == val.items
    requires val.Scalar? ==> k == key && values == [val.text]
    requires !val.Nullish? && 0 <= j < |values|
    ensures FieldParts(key, val)[..j + 1] == FieldParts(key, val)[..j] + [Pair(k, values[j])]
  {
    var ps := FieldParts(key, val);
    assert ps[j] == Pair(k, values[j]);
    assert ps[..j + 1] == ps[..j] + [ps[j]];
  }

  // ---------------------------------------------------------------------
  // What the serialisation promises

  lemma {:induction false} PartsAppend(a: seq<(string, ParamValue)>, b: seq<(string, ParamValue)>)
    ensures Parts(a + b) == Parts(a) + Parts(b)
  {
    if a == [] {
      assert a + b == b;
    } else {
      assert (a + b)[1..] == a[1..] + b;
      PartsAppend(a[1..], b);
    }
  }

  /** One more field visited is that field's parts more. */
  lemma PartsSnoc(fields: seq<(string, ParamValue)>, i: int)
    requires 0 <= i < |fields|
    ensures Parts(fields[..i + 1]) == Parts(fields[..i]) + FieldParts(fields[i].0, fields[i].1)
  {
    var x := fields[i];
    assert fields[..i + 1] == fields[..i] + [x];
    PartsAppend(fields[..i], [x]);
    assert Parts([x]) == FieldParts(x.0, x.1) by {
      assert [x][1..] == [];
    }
  }

  /** The fields that are not `null`/`undefined`. */
  function Present(fields: seq<(string, ParamValue)>): (r: seq<(string, ParamValue)>)
    ensures forall i :: 0 <= i < |r| ==> !r[i].1.Nullish?
  {
    if fields == [] then []
    else if fields[0].1.Nullish? then Present(fields[1..])
    else [fields[0]] + Present(fields[1..])
  }

  /** Fields whose value is `null` or `undefined` contribute no part. */
  lemma {:induction false} NullishSkipped(fields: seq<(string, ParamValue)>)
    ensures Parts(fields) == Parts(Present(fields))
  {
    if fields != [] {
      NullishSkipped(fields[1..]);
      if !fields[0].1.Nullish? {
        var p := Present(fields);
        assert p[1..] == Present(fields[1..]);
      }
    }
  }

  /** Splitting the built-in query text at "&" gives back the parts in
      visiting order, and each part splits at "=" into the encoded key and
      the encoded value. */
  lemma QueryDecomposes(fields: seq<(string, ParamValue)>)
    requires Parts(fields) != []
    ensures Split(Serialize(Fields(fields), None), '&') == Parts(fields)
  {
    SplitJoin(Parts(fields), '&');
  }

  /** With the built-in serialisation, every part of an array field names
      the key with "[]" and one element, in element order. */
  lemma ArrayFieldParts(key: string, items: seq<string>, i: int)
    requires 0 <= i < |items|
    ensures Split(FieldParts(key, List(items))[i], '=') == [Encode(key + "[]"), Encode(items[i])]
  {
    PairSplits(key + "[]", items[i]);
  }

  /** An empty query text leaves the URL as it is, fragment included. */
  lemma EmptyQueryKeepsUrl(url: string, params: Params, serializer: Option<Params -> string>)
    requires Serialize(params, serializer) == ""
    ensures BuildUrlSpec(url, Some(params), serializer) == url
  {
  }

  /** A fragment is removed and the query goes after "?" when the URL has
      no query yet. */
  lemma FragmentDropped(path: string, fragment: string, query: string)
    requires '#' !in path && '?' !in path && query != ""
    ensures AppendQuery(path + "#" + fragment, query) == path + "?" + query
  {
    var url := path + "#" + fragment;
    assert IndexOf(url, '#') == |path| by {
      assert url[|path|] == '#';
      assert url[..|path|] == path;
    }
    assert url[..|path|] == path;
  }

  /** A URL that already has a query gets the new parts after "&". */
  lemma ExistingQueryExtended(url: string, query: string)
    requires '#' !in url && '?' in url && query != ""
    ensures AppendQuery(url, query) == url + "&" + query
  {
  }

  // ---------------------------------------------------------------------
  // What `encode` promises, seen from here

  /** `encode` works character by character. */
  lemma {:induction false} EncodeConcat(a: string, b: string)
    ensures Encode(a + b) == Encode(a) + Encode(b)
  {
    EncodeMeaning(a + b);
    EncodeMeaning(a);
    EncodeMeaning(b);
    EncodeQueryConcat(a, b);
  }

  lemma {:induction false} EncodeQueryConcat(a: string, b: string)
    ensures EncodeQuery(a + b) == EncodeQuery(a) + EncodeQuery(b)
  {
    if a == [] {
      assert a + b == b;
    } else {
      assert (a + b)[1..] == a[1..] + b;
      EncodeQueryConcat(a[1..], b);
    }
  }

  /** Text made only of characters `encodeURIComponent` leaves alone is
      not changed. */
  lemma {:induction false} EncodeKeepsUnescaped(s: string)
    requires forall i :: 0 <= i < |s| ==> IsUnescaped(s[i])
    ensures Encode(s) == s
  {
    EncodeMeaning(s);
    EncodeQueryKeeps(s);
  }

  lemma {:induction false} EncodeQueryKeeps(s: string)
    requires forall i :: 0 <= i < |s| ==> IsUnescaped(s[i])
    ensures EncodeQuery(s) == s
  {
    if s != [] {
      EncodeQueryKeeps(s[1..]);
      assert [s[0]] + s[1..] == s;
    }
  }

  lemma EncodeSpace()
    ensures Encode(" ") == "+"
  {
    EncodeMeaning(" ");
    assert EncodeQuery(" ") == QueryChar(' ') + EncodeQuery([]);
  }

  /** A space is written "+", not "%20". */
  lemma SpaceBecomesPlus(a: string, b: string)
    requires forall i :: 0 <= i < |a| ==> IsUnescaped(a[i])
    requires forall i :: 0 <= i < |b| ==> IsUnescaped(b[i])
    ensures Encode(a + " " + b) == a + "+" + b
  {
    EncodeConcat(a + " ", b);
    EncodeConcat(a, " ");
    EncodeKeepsUnescaped(a);
    EncodeKeepsUnescaped(b);
    EncodeSpace();
  }
}
