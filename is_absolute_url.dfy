/** `isAbsoluteURL(url)`: the test `/^([a-z][a-z\d\+\-\.]*:)?\/\//i`, written
    as a scanner over the front of the text. A URL is absolute when it starts
    with "//" (protocol-relative) or with a scheme (a letter, then letters,
    digits, "+", "-" or "."), a ":" and "//", as section 3.1 of RFC 3986
    spells a scheme. */
module AbsoluteUrl {
  import opened Strings

  predicate IsSchemeChar(c: char) {
    IsAsciiLetter(c) || IsDigit(c) || c == '+' || c == '-' || c == '.'
  }

  /** After the first letter of a scheme: more scheme characters, then "://". */
  predicate SchemeRest(s: string) {
    if s == [] then false
    else if s[0] == ':' then StartsWith(s[1..], "//")
    else IsSchemeChar(s[0]) && SchemeRest(s[1..])
  }

  predicate IsAbsoluteUrl(url: string) {
    StartsWith(url, "//") || (url != [] && IsAsciiLetter(url[0]) && SchemeRest(url[1..]))
  }

  // ---------------------------------------------------------------------
  // The pattern read position by position

  /** `url` has a scheme occupying positions 0 .. n-1, followed by "://". */
  ghost predicate SchemeEndsAt(url: string, n: int) {
    1 <= n && n + 3 <= |url| && IsAsciiLetter(url[0])
    && (forall i :: 1 <= i < n ==> IsSchemeChar(url[i]))
    && url[n] == ':' && url[n + 1] == '/' && url[n + 2] == '/'
  }

  ghost predicate MatchesPattern(url: string) {
    StartsWith(url, "//") || exists n :: SchemeEndsAt(url, n)
  }

  /** `SchemeRest(s)` holds exactly when `s` is scheme characters up to
      some position m, then "://". */
  ghost predicate RestEndsAt(s: string, m: int) {
    0 <= m && m + 3 <= |s|
    && (forall i :: 0 <= i < m ==> IsSchemeChar(s[i]))
    && s[m] == ':' && s[m + 1] == '/' && s[m + 2] == '/'
  }

  lemma {:induction false} SchemeRestMeaning(s: string)
    ensures SchemeRest(s) <==> exists m :: RestEndsAt(s, m)
  {
    if s == [] {
    } else if s[0] == ':' {
      if SchemeRest(s) {
        assert RestEndsAt(s, 0);
      }
      forall m | RestEndsAt(s, m) ensures SchemeRest(s) {
        assert m == 0;
        assert s[1..][..2] == [s[1], s[2]];
      }
    } else {
      SchemeRestMeaning(s[1..]);
      if SchemeRest(s) {
        var m :| RestEndsAt(s[1..], m);
        assert RestEndsAt(s, m + 1);
      }
      forall m | RestEndsAt(s, m) ensures SchemeRest(s) {
        assert m != 0;
        assert RestEndsAt(s[1..], m - 1);
      }
    }
  }

  /** The scanner accepts exactly what the pattern matches. */
  lemma IsAbsoluteUrlMeaning(url: string)
    ensures IsAbsoluteUrl(url) <==> MatchesPattern(url)
  {
    if url != [] {
      SchemeRestMeaning(url[1..]);
      if url != [] && IsAsciiLetter(url[0]) && SchemeRest(url[1..]) {
        var m :| RestEndsAt(url[1..], m);
        assert SchemeEndsAt(url, m + 1);
      }
      forall n | SchemeEndsAt(url, n) ensures SchemeRest(url[1..]) {
        assert RestEndsAt(url[1..], n - 1);
      }
    }
  }

  // ---------------------------------------------------------------------
  // What the test promises

  /** A protocol-relative URL is absolute. */
  lemma ProtocolRelative(rest: string)
    ensures IsAbsoluteUrl("//" + rest)
  {
    assert ("//" + rest)[..2] == "//";
  }

  /** A letter, scheme characters, and "://" make an absolute URL. */
  lemma {:induction false} SchemeUrl(first: char, scheme: string, rest: string)
    requires IsAsciiLetter(first)
    requires forall i :: 0 <= i < |scheme| ==> IsSchemeChar(scheme[i])
    ensures IsAbsoluteUrl([first] + scheme + "://" + rest)
  {
    var url := [first] + scheme + "://" + rest;
    assert SchemeEndsAt(url, |scheme| + 1);
    IsAbsoluteUrlMeaning(url);
  }

  /** Appending anything to an absolute URL keeps it absolute: only the
      front of the text is examined. */
  lemma {:induction false} SchemeRestExtend(s: string, t: string)
    requires SchemeRest(s)
    ensures SchemeRest(s + t)
  {
    assert (s + t)[0] == s[0];
    if s[0] == ':' {
      assert (s + t)[1..][..2] == s[1..][..2];
    } else {
      assert (s + t)[1..] == s[1..] + t;
      SchemeRestExtend(s[1..], t);
    }
  }

  lemma AbsoluteExtend(url: string, t: string)
    requires IsAbsoluteUrl(url)
    ensures IsAbsoluteUrl(url + t)
  {
    if StartsWith(url, "//") {
      assert (url + t)[..2] == url[..2];
    } else {
      assert (url + t)[1..] == url[1..] + t;
      SchemeRestExtend(url[1..], t);
    }
  }

  /** Letter case is ignored. */
  lemma {:induction false} SchemeRestLower(s: string)
    ensures SchemeRest(ToLower(s)) == SchemeRest(s)
  {
    if s != [] {
      assert ToLower(s)[1..] == ToLower(s[1..]);
      SchemeRestLower(s[1..]);
      LowerSlashes(s[1..]);
    }
  }

  lemma LowerSlashes(t: string)
    ensures StartsWith(ToLower(t), "//") == StartsWith(t, "//")
  {
    if |t| >= 2 {
      assert ToLower(t)[..2] == [LowerChar(t[0]), LowerChar(t[1])];
      assert t[..2] == [t[0], t[1]];
    }
  }

  lemma IgnoresCase(url: string)
    ensures IsAbsoluteUrl(ToLower(url)) == IsAbsoluteUrl(url)
  {
    if url != [] {
      assert ToLower(url)[1..] == ToLower(url[1..]);
      SchemeRestLower(url[1..]);
    }
    LowerSlashes(url);
  }

  /** A scheme must start with a letter. */
  lemma SchemeStartsWithLetter()
    ensures !IsAbsoluteUrl("1http://x")
  {
    assert "1http://x"[..2][0] == '1';
  }

  /** "scheme:" without "//" after it is not absolute. */
  lemma SchemeWithoutSlashes()
    ensures !IsAbsoluteUrl("mailto:x")
  {
    assert "mailto:x"[..2][0] == 'm';
    assert "mailto:x"[1..] == "ailto:x";
    assert "ailto:x"[1..] == "ilto:x";
    assert "ilto:x"[1..] == "lto:x";
    assert "lto:x"[1..] == "to:x";
    assert "to:x"[1..] == "o:x";
    assert "o:x"[1..] == ":x";
  }

  /** A single leading "/" is a path, not an absolute URL. */
  lemma SingleSlash()
    ensures !IsAbsoluteUrl("/x")
  {
    assert "/x"[..2][1] == 'x';
  }

  /** An upper-case scheme is accepted. */
  lemma UpperCaseScheme()
    ensures IsAbsoluteUrl("HTTP://x")
  {
    assert "HTTP://x"[1..] == "TTP://x";
    assert "TTP://x"[1..] == "TP://x";
    assert "TP://x"[1..] == "P://x";
    assert "P://x"[1..] == "://x";
    assert "://x"[1..][..2] == "//";
  }
}
