/** `combineURLs(baseURL, relativeURL)`: joins the two with exactly one "/"
    at the seam, or returns `baseURL` when `relativeURL` is empty or absent. */
module CombineUrls {
  import opened Wrappers

  function Slashes(n: nat): (r: string)
    ensures |r| == n && forall i :: 0 <= i < n ==> r[i] == '/'
  {
    seq(n, _ => '/')
  }

  /** `s.replace(/\/+$/, '')`: the text without its trailing run of "/". */
  function TrimTrailingSlashes(s: string): (r: string)
    ensures |r| <= |s| && s == r + Slashes(|s| - |r|)
    ensures r == [] || r[|r| - 1] != '/'
  {
    if s != [] && s[|s| - 1] == '/' then
      var r := TrimTrailingSlashes(s[..|s| - 1]);
      assert s == s[..|s| - 1] + ['/'];
      assert Slashes(|s| - |r|) == Slashes(|s| - 1 - |r|) + ['/'];
      r
    else
      assert Slashes(0) == [];
      s
  }

  /** `s.replace(/^\/+/, '')`: the text without its leading run of "/". */
  function TrimLeadingSlashes(s: string): (r: string)
    ensures |r| <= |s| && s == Slashes(|s| - |r|) + r
    ensures r == [] || r[0] != '/'
  {
    if s != [] && s[0] == '/' then
      var r := TrimLeadingSlashes(s[1..]);
      assert s == ['/'] + s[1..];
      assert Slashes(|s| - |r|) == ['/'] + Slashes(|s| - 1 - |r|);
      r
    else
      assert Slashes(0) == [];
      s
  }

  /** `relativeURL` is falsy: absent or the empty string. */
  predicate IsBlank(relativeURL: Option<string>) {
    relativeURL.None? || relativeURL.value == ""
  }

  function CombineUrls(baseURL: string, relativeURL: Option<string>): string {
    if IsBlank(relativeURL) then baseURL
    else TrimTrailingSlashes(baseURL) + "/" + TrimLeadingSlashes(relativeURL.value)
  }

  // ---------------------------------------------------------------------
  // What the join promises

  /** An empty or absent relative URL returns the base URL unchanged. */
  lemma CombineBlank(baseURL: string, relativeURL: Option<string>)
    requires IsBlank(relativeURL)
    ensures CombineUrls(baseURL, relativeURL) == baseURL
  {
  }

  /** The trimmed text is the unique prefix that leaves only "/" behind and
      does not itself end in "/". */
  lemma {:induction false} TrailingUnique(p: string, n: nat)
    requires p == [] || p[|p| - 1] != '/'
    ensures TrimTrailingSlashes(p + Slashes(n)) == p
  {
    if n > 0 {
      var s := p + Slashes(n);
      assert s[..|s| - 1] == p + Slashes(n - 1);
      TrailingUnique(p, n - 1);
    } else {
      assert p + Slashes(0) == p;
    }
  }

  lemma {:induction false} LeadingUnique(p: string, n: nat)
    requires p == [] || p[0] != '/'
    ensures TrimLeadingSlashes(Slashes(n) + p) == p
  {
    if n > 0 {
      var s := Slashes(n) + p;
      assert s[1..] == Slashes(n - 1) + p;
      LeadingUnique(p, n - 1);
    } else {
      assert Slashes(0) + p == p;
    }
  }

  /** Whatever run of "/" ends the base and starts the relative part, the
      result is the rest of the base, one "/", and the rest of the relative
      part: slashes elsewhere in either part are kept. */
  lemma CombineSeam(b: string, m: nat, rel: string, n: nat)
    requires b == [] || b[|b| - 1] != '/'
    requires rel == [] || rel[0] != '/'
    requires n + |rel| > 0
    ensures CombineUrls(b + Slashes(m), Some(Slashes(n) + rel)) == b + "/" + rel
  {
    TrailingUnique(b, m);
    LeadingUnique(rel, n);
  }

  /** The seam holds exactly one "/": none just before it and none just after. */
  lemma CombineOneSlash(baseURL: string, relativeURL: string)
    requires relativeURL != ""
    ensures var r := CombineUrls(baseURL, Some(relativeURL));
            var k := |TrimTrailingSlashes(baseURL)|;
            k < |r| && r[k] == '/'
            && (k == 0 || r[k - 1] != '/')
            && (k + 1 == |r| || r[k + 1] != '/')
  {
  }

  /** The first join the documentation of `combineURLs` gives as an example: a slash on
      both sides of the seam. */
  lemma CombineExampleSlashes()
    ensures CombineUrls("http://example.com/", Some("/api/data")) == "http://example.com/api/data"
  {
    var s, t := "http://example.com/", "/api/data";
    assert !IsBlank(Some(t)) by {
      assert t[0] == '/';
    }
    assert CombineUrls(s, Some(t)) == TrimTrailingSlashes(s) + "/" + TrimLeadingSlashes(t);
    TrailingExample();
    LeadingExample();
    ExampleJoin();
  }

  lemma ExampleJoin()
    ensures "http://example.com" + "/" + "api/data" == "http://example.com/api/data"
  {
  }

  lemma TrailingExample()
    ensures TrimTrailingSlashes("http://example.com/") == "http://example.com"
  {
    var s := "http://example.com/";
    assert s[..|s| - 1] == "http://example.com";
  }

  lemma LeadingExample()
    ensures TrimLeadingSlashes("/api/data") == "api/data"
  {
    var t := "/api/data";
    assert t[1..] == "api/data";
  }

  /** The second: no slash on either side. */
  lemma CombineExampleBare()
    ensures CombineUrls("http://example.com", Some("api/data")) == "http://example.com/api/data"
  {
    var base, rel := "http://example.com", "api/data";
    assert Slashes(0) == "";
    assert base + Slashes(0) == base;
    assert Slashes(0) + rel == rel;
    CombineSeam(base, 0, rel, 0);
    assert base + "/" + rel == "http://example.com/api/data";
  }
}
