/** `parseHeaders(headers)`: turns the raw response-header text into a
    dictionary. Lines are split at "\n"; a line's name is the trimmed,
    lower-cased text before its first ":" and its value the trimmed text
    after it. Repeated fields are combined with ", " as section 3.2.2 of
    RFC 7230 allows, except that "set-cookie" keeps a list and the fields
    Node.js treats as single-valued keep their first non-empty value. */
module ParseHeaders {
  import opened Wrappers
  import opened Strings

  /** A parsed field: text, or the list kept for "set-cookie". */
  datatype HeaderValue = Text(text: string) | Cookies(list: seq<string>)

  /** JavaScript truthiness of a stored value: an array is always truthy, a
      string when it is not empty. */
  predicate Truthy(v: HeaderValue) {
    v.Cookies? || v.text != ""
  }

  /** Fields whose later duplicates are dropped. */
  const IgnoreDuplicateOf: seq<string> := [
    "age", "authorization", "content-length", "content-type", "etag",
    "expires", "from", "host", "if-modified-since", "if-unmodified-since",
    "last-modified", "location", "max-forwards", "proxy-authorization",
    "referer", "retry-after", "user-agent"
  ]

  /** `trim(line.substr(0, i)).toLowerCase()` with `i = line.indexOf(':')`;
      `substr(0, -1)` is empty, so a line without ":" has the empty name. */
  function LineKey(line: string): (k: string)
    ensures IsLowerCase(k)
    ensures ':' !in line ==> k == ""
  {
    var i := IndexOf(line, ':');
    if i < 0 then "" else ToLower(Trim(line[..i]))
  }

  /** `trim(line.substr(i + 1))`: with no ":" this is the whole line. */
  function LineValue(line: string): string {
    var i := IndexOf(line, ':');
    Trim(line[i + 1..])
  }

  /** One round of the loop body, for a line named `key` with value `val`:
      an empty name is skipped, a single-valued field that already holds a
      non-empty value is left alone, "set-cookie" appends to its list, and
      any other field appends ", " and the value to a non-empty one. */
  function Store(parsed: map<string, HeaderValue>, key: string, val: string): (r: map<string, HeaderValue>)
    ensures forall k :: k in r ==> k in parsed || (k == key && key != "")
  {
    if key == "" then parsed
    else if key in parsed && Truthy(parsed[key]) && key in IgnoreDuplicateOf then parsed
    else if key == "set-cookie" then
      parsed[key := Cookies((if key in parsed && parsed[key].Cookies? then parsed[key].list else []) + [val])]
    else
      parsed[key := Text(if key in parsed && parsed[key].Text? && Truthy(parsed[key]) then parsed[key].text + ", " + val else val)]
  }

  /** The name and the value of each line. */
  function LineFields(lines: seq<string>): (fs: seq<(string, string)>)
    ensures |fs| == |lines|
    ensures forall i :: 0 <= i < |lines| ==> fs[i] == (LineKey(lines[i]), LineValue(lines[i]))
    ensures forall i :: 0 <= i < |lines| ==> IsLowerCase(fs[i].0)
  {
    seq(|lines|, i requires 0 <= i < |lines| => (LineKey(lines[i]), LineValue(lines[i])))
  }

  /** The dictionary after the given fields, in order. */
  function Collect(fs: seq<(string, string)>): (r: map<string, HeaderValue>)
    ensures forall k :: k in r ==> k != "" && exists i :: 0 <= i < |fs| && fs[i].0 == k
  {
    if fs == [] then map[]
    else
      var init, last := fs[..|fs| - 1], fs[|fs| - 1];
      var r := Store(Collect(init), last.0, last.1);
      assert forall k :: k in r ==> k == last.0 || exists i :: 0 <= i < |init| && init[i].0 == k;
      r
  }

  function ParseHeadersSpec(headers: Option<string>): (r: map<string, HeaderValue>)
    ensures forall k :: k in r ==> k != "" && IsLowerCase(k)
  {
    if headers.None? || headers.value == "" then map[] else Collect(LineFields(Split(headers.value, '\n')))
  }

  // ---------------------------------------------------------------------
  // `parseHeaders` itself, line by line

  method ParseHeaders(headers: Option<string>) returns (parsed: map<string, HeaderValue>)
    ensures parsed == ParseHeadersSpec(headers)
    ensures headers.None? || headers == Some("") ==> parsed == map[]
  {
    parsed := map[];
    if headers.None? || headers.value == "" {
      return;
    }
    var lines := Split(headers.value, '\n');
    ghost var fs := LineFields(lines);
    var n := 0;
    while n < |lines|
      invariant 0 <= n <= |lines|
      invariant parsed == Collect(fs[..n])
    {
      ghost var before := parsed;
      parsed := Parser(parsed, lines[n]);
      CollectSnoc(fs, n, before, parsed, LineKey(lines[n]), LineValue(lines[n]));
      n := n + 1;
    }
    assert fs[..n] == fs;
  }

  lemma CollectSnoc(fs: seq<(string, string)>, n: int, before: map<string, HeaderValue>,
                    after: map<string, HeaderValue>, key: string, val: string)
    requires 0 <= n < |fs| && before == Collect(fs[..n]) && fs[n] == (key, val)
    requires after == Store(before, key, val)
    ensures after == Collect(fs[..n + 1])
  {
    assert fs[..n + 1][..n] == fs[..n];
  }

  /** The `parser(line)` callback, applied to the dictionary built so far. */
  method Parser(parsed: map<string, HeaderValue>, line: string) returns (parsed': map<string, HeaderValue>)
    ensures parsed' == Store(parsed, LineKey(line), LineValue(line))
  {
    var key := LineKey(line);
    var val := LineValue(line);
    parsed' := Record(parsed, key, val);
  }

  /** The part of `parser(line)` after the name and value are known. */
  method Record(parsed: map<string, HeaderValue>, key: string, val: string) returns (parsed': map<string, HeaderValue>)
    ensures parsed' == Store(parsed, key, val)
  {
    parsed' := parsed;
    if key != "" {
      if key in parsed' && Truthy(parsed'[key]) && key in IgnoreDuplicateOf {
        return;
      }
      if key == "set-cookie" {
        var earlier := if key in parsed' && parsed'[key].Cookies? then parsed'[key].list else [];
        parsed' := parsed'[key := Cookies(earlier + [val])];
      } else {
        var joined := if key in parsed' && parsed'[key].Text? && Truthy(parsed'[key]) then parsed'[key].text + ", " + val else val;
        parsed' := parsed'[key := Text(joined)];
      }
    }
  }

  // ---------------------------------------------------------------------
  // What the dictionary holds, field by field

  /** The values of the fields named `k`, in order. */
  function ValuesOf(fs: seq<(string, string)>, k: string): (vs: seq<string>)
    ensures |vs| <= |fs|
  {
    if fs == [] then []
    else ValuesOf(fs[..|fs| - 1], k) + (if fs[|fs| - 1].0 == k then [fs[|fs| - 1].1] else [])
  }

  /** The first non-empty value, or "" when there is none. */
  function FirstNonEmpty(vs: seq<string>): (r: string)
    ensures r == "" <==> forall i :: 0 <= i < |vs| ==> vs[i] == ""
    ensures r != "" ==> r in vs
  {
    if vs == [] then "" else if vs[0] != "" then vs[0] else FirstNonEmpty(vs[1..])
  }

  /** The values from the first non-empty one on. */
  function DropLeadingEmpty(vs: seq<string>): (r: seq<string>)
    ensures r == [] || r[0] != ""
  {
    if vs == [] || vs[0] != "" then vs else DropLeadingEmpty(vs[1..])
  }

  /** The stored value of a field seen on at least one line: the list for
      "set-cookie", the first non-empty value for a single-value field, and
      the values joined with ", " otherwise. */
  function Combined(k: string, vs: seq<string>): HeaderValue {
    if k == "set-cookie" then Cookies(vs)
    else if k in IgnoreDuplicateOf then Text(FirstNonEmpty(vs))
    else Text(Join(DropLeadingEmpty(vs), ", "))
  }

  lemma {:induction false} DropLeadingSnoc(vs: seq<string>, v: string)
    ensures DropLeadingEmpty(vs) != [] ==> DropLeadingEmpty(vs + [v]) == DropLeadingEmpty(vs) + [v]
    ensures DropLeadingEmpty(vs) == [] ==> DropLeadingEmpty(vs + [v]) == if v == "" then [] else [v]
  {
    if vs == [] {
      assert DropLeadingEmpty([v]) == if v != "" then [v] else DropLeadingEmpty([]);
    } else if vs[0] == "" {
      assert (vs + [v])[1..] == vs[1..] + [v];
      DropLeadingSnoc(vs[1..], v);
    }
  }

  lemma JoinDropTruthy(vs: seq<string>)
    ensures Join(DropLeadingEmpty(vs), ", ") == "" <==> DropLeadingEmpty(vs) == []
  {
    var d := DropLeadingEmpty(vs);
    if |d| >= 2 {
      assert Join(d, ", ") == d[0] + ", " + Join(d[1..], ", ");
    }
  }

  /** Adding one more value for field `k` changes the stored value as
      `Combined` says. */
  lemma CombinedSnoc(parsed: map<string, HeaderValue>, k: string, vs: seq<string>, v: string)
    requires k != ""
    requires k in parsed <==> vs != []
    requires vs != [] ==> parsed[k] == Combined(k, vs)
    ensures k in Store(parsed, k, v) && Store(parsed, k, v)[k] == Combined(k, vs + [v])
  {
    if k == "set-cookie" {
      CookieSnoc(parsed, vs, v);
    } else if k in IgnoreDuplicateOf {
      FirstNonEmptySnoc(vs, v);
    } else {
      JoinedSnoc(parsed, k, vs, v);
    }
  }

  lemma CookieSnoc(parsed: map<string, HeaderValue>, vs: seq<string>, v: string)
    requires "set-cookie" in parsed <==> vs != []
    requires vs != [] ==> parsed["set-cookie"] == Cookies(vs)
    ensures "set-cookie" in Store(parsed, "set-cookie", v)
    ensures Store(parsed, "set-cookie", v)["set-cookie"] == Cookies(vs + [v])
  {
    assert "set-cookie" !in IgnoreDuplicateOf;
  }

  lemma JoinedSnoc(parsed: map<string, HeaderValue>, k: string, vs: seq<string>, v: string)
    requires k != "" && k != "set-cookie" && k !in IgnoreDuplicateOf
    requires k in parsed <==> vs != []
    requires vs != [] ==> parsed[k] == Text(Join(DropLeadingEmpty(vs), ", "))
    ensures k in Store(parsed, k, v)
    ensures Store(parsed, k, v)[k] == Text(Join(DropLeadingEmpty(vs + [v]), ", "))
  {
    DropLeadingSnoc(vs, v);
    JoinDropTruthy(vs);
    if DropLeadingEmpty(vs) != [] {
      JoinSnoc(DropLeadingEmpty(vs), v, ", ");
    }
  }

  /** A line named differently leaves field `k` as it was. */
  lemma StoreOtherKey(parsed: map<string, HeaderValue>, key: string, val: string, k: string)
    requires key != k
    ensures k in Store(parsed, key, val) <==> k in parsed
    ensures k in parsed ==> Store(parsed, key, val)[k] == parsed[k]
  {
  }

  /** A later value never displaces a non-empty first one. */
  lemma {:induction false} FirstNonEmptySnoc(vs: seq<string>, v: string)
    ensures FirstNonEmpty(vs) != "" ==> FirstNonEmpty(vs + [v]) == FirstNonEmpty(vs)
    ensures FirstNonEmpty(vs) == "" ==> FirstNonEmpty(vs + [v]) == v
  {
    if vs != [] {
      assert (vs + [v])[1..] == vs[1..] + [v];
      FirstNonEmptySnoc(vs[1..], v);
    } else {
      assert FirstNonEmpty([v]) == if v != "" then v else FirstNonEmpty([]);
    }
  }

  /** The whole promise for one field name `k`: it is present exactly when
      some line carries it; "set-cookie" holds every value in line order; a
      single-valued field holds its first non-empty value; any other field
      holds its values joined by ", ", leading empty values left out. */
  lemma {:induction false} CollectMeaning(fs: seq<(string, string)>, k: string)
    requires k != ""
    ensures k in Collect(fs) <==> ValuesOf(fs, k) != []
    ensures ValuesOf(fs, k) != [] ==> Collect(fs)[k] == Combined(k, ValuesOf(fs, k))
  {
    if fs != [] {
      var init, last := fs[..|fs| - 1], fs[|fs| - 1];
      CollectMeaning(init, k);
      if last.0 == k {
        assert ValuesOf(fs, k) == ValuesOf(init, k) + [last.1];
        CombinedSnoc(Collect(init), k, ValuesOf(init, k), last.1);
      } else {
        assert ValuesOf(fs, k) == ValuesOf(init, k) + [];
        assert ValuesOf(init, k) + [] == ValuesOf(init, k);
        StoreOtherKey(Collect(init), last.0, last.1, k);
      }
    }
  }
}
