/** The two string transforms the scraper applies to URLs: prefixing a scheme
    onto the seed URL, and the normalisation of each sitemap line. */
module Urls {
  import opened Text

  /** A URL, as the scraper handles it: a plain string. */
  type Url = string

  /** The seed URL as typed, with `http://` put in front unless it already
      starts (case-sensitively) with `http://` or `https://`. */
  function EnsureScheme(u: string): (r: string)
    ensures StartsWith(r, "http://") || StartsWith(r, "https://")
    ensures StartsWith(u, "http://") || StartsWith(u, "https://") ==> r == u
    ensures !(StartsWith(u, "http://") || StartsWith(u, "https://")) ==> r == "http://" + u
  {
    if StartsWith(u, "http://") || StartsWith(u, "https://") then u else "http://" + u
  }

  /** Prefixing is idempotent: a prefixed seed is left alone. */
  lemma EnsureSchemeIdempotent(u: string)
    ensures EnsureScheme(EnsureScheme(u)) == EnsureScheme(u)
  {
    if !(StartsWith(u, "http://") || StartsWith(u, "https://")) {
      assert ("http://" + u)[..7] == "http://";
    }
  }

  /** `u.strip().lower().rstrip('/').split('?')[0]`. The scheme is kept. */
  function Normalize(u: string): (r: string)
    ensures '?' !in r
    ensures NoUpper(r)
  {
    var l := Lower(Strip(u));
    RStripCharShape(l, '/');
    BeforeFirstPrefix(RStripChar(l, '/'), '?');
    BeforeFirst(RStripChar(l, '/'), '?')
  }

  /** The normalised form is a prefix of the lowered, stripped text with its
      trailing slashes dropped. */
  lemma NormalizeShape(u: string)
    ensures Normalize(u) == RStripChar(Lower(Strip(u)), '/')[..|Normalize(u)|]
  {
    BeforeFirstPrefix(RStripChar(Lower(Strip(u)), '/'), '?');
  }

  /** Every step of `Normalize(u)` keeps a slice of its input. */
  lemma NormalizeSteps(u: string)
    ensures LStrip(u) == u[|u| - |LStrip(u)|..]
    ensures forall i :: 0 <= i < |u| - |LStrip(u)| ==> IsSpace(u[i])
    ensures Strip(u) == LStrip(u)[..|Strip(u)|]
    ensures forall i :: |Strip(u)| <= i < |LStrip(u)| ==> IsSpace(LStrip(u)[i])
    ensures RStripChar(Lower(Strip(u)), '/') == Lower(Strip(u))[..|RStripChar(Lower(Strip(u)), '/')|]
    ensures forall i :: |RStripChar(Lower(Strip(u)), '/')| <= i < |Strip(u)| ==> Lower(Strip(u))[i] == '/'
    ensures Normalize(u) == RStripChar(Lower(Strip(u)), '/')[..|Normalize(u)|]
  {
    LStripShape(u);
    RStripShape(LStrip(u));
    RStripCharShape(Lower(Strip(u)), '/');
    NormalizeShape(u);
  }

  /** The strings normalisation leaves as they are. */
  predicate Canonical(n: string) {
    && '?' !in n
    && NoUpper(n)
    && (n == [] || (!IsSpace(n[0]) && !IsSpace(n[|n| - 1]) && n[|n| - 1] != '/'))
  }

  /** A string normalisation leaves alone is canonical. */
  lemma FixedIsCanonical(n: string)
    requires Normalize(n) == n
    ensures Canonical(n)
  {
    var s := Strip(n);
    var l := Lower(s);
    var r := RStripChar(l, '/');
    assert |n| <= |r| <= |l| == |s| <= |LStrip(n)| <= |n|;
    BeforeFirstPrefix(r, '?');
    assert n == r;
    RStripCharShape(l, '/');
    assert r == l;
    if n != [] {
      assert n[0] == LowerChar(s[0]);
      assert n[|n| - 1] == LowerChar(s[|s| - 1]);
    }
  }

  /** Normalisation fixes a string exactly when it is canonical. A normalised
      URL may still end in '/' or in whitespace (the text before a '?', or
      before a run of trailing slashes), so normalising twice can shorten it. */
  lemma NormalizeFixpoint(n: string)
    ensures Normalize(n) == n <==> Canonical(n)
  {
    if Normalize(n) == n {
      FixedIsCanonical(n);
    }
    if Canonical(n) {
      CanonicalSteps(n);
    }
  }

  /** A '?'-free URL with no whitespace inside it normalises to a canonical
      string, so normalising it a second time changes nothing. */
  lemma NormalizeIdempotent(u: string)
    requires '?' !in u
    requires NoSpace(Strip(u))
    ensures Normalize(Normalize(u)) == Normalize(u)
  {
    var s := Strip(u);
    var l := Lower(s);
    var r := RStripChar(l, '/');
    NormalizeSteps(u);
    assert s == u[|u| - |LStrip(u)|..][..|s|];
    assert '?' !in s by {
      forall i | 0 <= i < |s| ensures s[i] != '?' {
        assert s[i] == u[|u| - |LStrip(u)| + i];
      }
    }
    assert '?' !in r by {
      forall i | 0 <= i < |r| ensures r[i] != '?' {
        assert r[i] == l[i] == LowerChar(s[i]);
      }
    }
    var n := Normalize(u);
    assert n == r;
    assert n != [] ==> !IsSpace(n[0]) && !IsSpace(n[|n| - 1]) by {
      if n != [] {
        assert n[0] == LowerChar(s[0]);
        assert n[|n| - 1] == LowerChar(s[|n| - 1]);
      }
    }
    NormalizeFixpoint(n);
  }

  /** Normalisation is not idempotent on URLs with a query: "a/?x" becomes
      "a/", which normalises again to "a". */
  lemma QueryBreaksIdempotence()
    ensures Normalize("a/?x") == "a/"
    ensures Normalize(Normalize("a/?x")) == "a"
  {
    assert LStrip("a/?x") == "a/?x";
    assert RStrip("a/?x") == "a/?x";
    assert Lower("a/?x") == "a/?x";
    assert RStripChar("a/?x", '/') == "a/?x";
    assert "a/?x"[1..] == "/?x" && "/?x"[1..] == "?x";
    assert BeforeFirst("?x", '?') == "";
    assert BeforeFirst("a/?x", '?') == "a/";
    assert LStrip("a/") == "a/";
    assert RStrip("a/") == "a/";
    assert Lower("a/") == "a/";
    assert "a/"[..1] == "a";
    assert RStripChar("a/", '/') == "a";
    assert BeforeFirst("a", '?') == "a";
  }

  /** Nor on URLs with a blank before a trailing slash: "a /" becomes "a ",
      which normalises again to "a". */
  lemma BlankBreaksIdempotence()
    ensures Normalize("a /") == "a "
    ensures Normalize(Normalize("a /")) == "a"
  {
    assert LStrip("a /") == "a /";
    assert RStrip("a /") == "a /";
    assert Lower("a /") == "a /";
    assert "a /"[..2] == "a ";
    assert RStripChar("a /", '/') == "a ";
    assert BeforeFirst("a ", '?') == "a ";
    assert LStrip("a ") == "a ";
    assert "a "[..1] == "a";
    assert RStrip("a ") == "a";
    assert Lower("a") == "a";
  }

  lemma {:induction false} LowerLStrip(s: string)
    ensures Lower(LStrip(s)) == LStrip(Lower(s))
    decreases |s|
  {
    if |s| > 0 && IsSpace(s[0]) {
      assert Lower(s)[1..] == Lower(s[1..]);
      LowerLStrip(s[1..]);
    }
  }

  lemma {:induction false} LowerRStrip(s: string)
    ensures Lower(RStrip(s)) == RStrip(Lower(s))
    decreases |s|
  {
    if |s| > 0 && IsSpace(s[|s| - 1]) {
      assert Lower(s)[..|s| - 1] == Lower(s[..|s| - 1]);
      LowerRStrip(s[..|s| - 1]);
    }
  }

  /** Lowering and stripping commute, so normalisation only sees a URL through
      its lower-case form: URLs that differ only in letter case collapse. */
  lemma NormalizeIgnoresCase(u: string, v: string)
    requires Lower(u) == Lower(v)
    ensures Normalize(u) == Normalize(v)
  {
    LowerLStrip(u);
    LowerRStrip(LStrip(u));
    LowerLStrip(v);
    LowerRStrip(LStrip(v));
  }

  lemma {:induction false} LStripConcat(s: string, w: string)
    requires w != [] && !IsSpace(w[0])
    ensures LStrip(s + w) == LStrip(s) + w
    decreases |s|
  {
    if |s| > 0 && IsSpace(s[0]) {
      assert (s + w)[1..] == s[1..] + w;
      LStripConcat(s[1..], w);
    } else if |s| == 0 {
      assert s + w == w;
    }
  }

  lemma {:induction false} RStripConcat(p: string, w: string)
    requires w != [] && !IsSpace(w[0])
    ensures RStrip(p + w) == p + RStrip(w)
    decreases |w|
  {
    if IsSpace(w[|w| - 1]) {
      assert (p + w)[..|p + w| - 1] == p + w[..|w| - 1];
      RStripConcat(p, w[..|w| - 1]);
    }
  }

  lemma {:induction false} RStripCharConcat(p: string, w: string, c: char)
    requires w != [] && w[0] != c
    ensures RStripChar(p + w, c) == p + RStripChar(w, c)
    decreases |w|
  {
    if w[|w| - 1] == c {
      assert (p + w)[..|p + w| - 1] == p + w[..|w| - 1];
      RStripCharConcat(p, w[..|w| - 1], c);
    }
  }

  lemma {:induction false} BeforeFirstConcat(p: string, w: string, c: char)
    requires c !in p && w != [] && w[0] == c
    ensures BeforeFirst(p + w, c) == p
    decreases |p|
  {
    if p == [] {
      assert p + w == w;
    } else {
      assert (p + w)[1..] == p[1..] + w;
      BeforeFirstConcat(p[1..], w, c);
    }
  }

  lemma LowerConcat(a: string, b: string)
    ensures Lower(a + b) == Lower(a) + Lower(b)
  {
  }

  /** Each step of normalisation leaves a canonical string alone. */
  lemma CanonicalSteps(c: string)
    requires Canonical(c)
    ensures LStrip(c) == c && RStrip(c) == c
    ensures Lower(c) == c
    ensures RStripChar(c, '/') == c
    ensures BeforeFirst(c, '?') == c
  {
    LStripShape(c);
    RStripShape(c);
    RStripCharShape(c, '/');
    BeforeFirstPrefix(c, '?');
  }

  /** A canonical URL with a query string appended normalises back to itself. */
  lemma NormalizeDropsQuery(c: string, q: string)
    requires Canonical(c)
    ensures Normalize(c + "?" + q) == c
  {
    CanonicalSteps(c);
    var w := "?" + q;
    assert c + "?" + q == c + w;
    LStripConcat(c, w);
    var w1 := RStrip(w);
    RStripShape(w);
    RStripConcat(c, w);
    assert Strip(c + w) == c + w1;
    assert w1 != [] && w1[0] == '?';
    var w2 := Lower(w1);
    LowerConcat(c, w1);
    assert Lower(c + w1) == c + w2;
    assert w2[0] == '?';
    var w3 := RStripChar(w2, '/');
    RStripCharShape(w2, '/');
    RStripCharConcat(c, w2, '/');
    assert RStripChar(c + w2, '/') == c + w3;
    assert w3 != [] && w3[0] == '?';
    BeforeFirstConcat(c, w3, '?');
  }

  /** A run of slashes, such as `rstrip('/')` removes. */
  predicate Slashes(t: string) {
    forall i :: 0 <= i < |t| ==> t[i] == '/'
  }

  /** `rstrip('/')` removes a run of slashes appended to a string that does
      not end in one. */
  lemma {:induction false} RStripSlashes(c: string, t: string)
    requires c == [] || c[|c| - 1] != '/'
    requires Slashes(t)
    ensures RStripChar(c + t, '/') == c
    decreases |t|
  {
    if t == [] {
      assert c + t == c;
    } else {
      assert (c + t)[..|c + t| - 1] == c + t[..|t| - 1];
      RStripSlashes(c, t[..|t| - 1]);
    }
  }

  /** A canonical URL with any run of trailing slashes appended normalises
      back to itself. */
  lemma NormalizeDropsTrailingSlash(c: string, t: string)
    requires Canonical(c)
    requires t != [] && Slashes(t)
    ensures Normalize(c + t) == c
  {
    CanonicalSteps(c);
    LStripConcat(c, t);
    assert RStrip(c + t) == c + t;
    assert Strip(c + t) == c + t;
    LowerConcat(c, t);
    assert Lower(t) == t;
    assert Lower(c + t) == c + t;
    RStripSlashes(c, t);
  }

  /** URLs that differ from a canonical one only in letter case and in a
      run of trailing slashes all normalise to it, so they share one sitemap
      entry; the scheme stays in that entry. */
  lemma NormalizeCollapses(c: string, t: string, u: string)
    requires Canonical(c) && Slashes(t)
    requires Lower(u) == c + t
    ensures Normalize(u) == c
  {
    CanonicalSteps(c);
    if t == [] {
      assert c + t == c;
      NormalizeFixpoint(c);
      NormalizeIgnoresCase(u, c);
    } else {
      NormalizeDropsTrailingSlash(c, t);
      LowerConcat(c, t);
      assert Lower(t) == t;
      NormalizeIgnoresCase(u, c + t);
    }
  }

  /** A log line is the URL followed by a line break; the break does not
      reach the normalised form. */
  lemma NormalizeLine(u: string)
    ensures Normalize(u + "\n") == Normalize(u)
  {
    StripNewline(u);
  }

  /** A lower-case, '?'-free prefix followed by a character that is not
      whitespace, '/' or '?' survives normalisation. */
  lemma NormalizeKeepsPrefix(u: string, p: string)
    requires p != [] && !IsSpace(p[0]) && NoUpper(p) && '?' !in p
    requires StartsWith(u, p) && |u| > |p|
    requires u[|p|] != '/' && u[|p|] != '?' && !IsSpace(u[|p|])
    ensures StartsWith(Normalize(u), p)
  {
    var k := |p|;
    NormalizeSteps(u);
    assert u[0] == p[0];
    assert LStrip(u) == u;
    var s := Strip(u);
    assert s == RStrip(u);
    assert |s| > k;
    assert s[..k] == p;
    var l := Lower(s);
    assert l[..k] == p by {
      forall j | 0 <= j < k ensures l[j] == p[j] {
        assert s[j] == p[j];
      }
    }
    assert l[k] == LowerChar(u[k]);
    var r := RStripChar(l, '/');
    assert |r| > k;
    assert r[..k] == p;
    var n := Normalize(u);
    assert forall j :: 0 <= j < k ==> r[j] != '?';
    assert r[k] == l[k];
    assert |n| > k;
    assert n[..k] == r[..k];
  }

  /** Normalisation keeps the scheme: sitemap entries still begin with
      `http://` or `https://`. */
  lemma NormalizeKeepsScheme(u: string, scheme: string)
    requires scheme == "http://" || scheme == "https://"
    requires StartsWith(u, scheme) && |u| > |scheme|
    requires u[|scheme|] != '/' && u[|scheme|] != '?' && !IsSpace(u[|scheme|])
    ensures StartsWith(Normalize(u), scheme)
  {
    assert NoUpper(scheme) && '?' !in scheme;
    NormalizeKeepsPrefix(u, scheme);
  }
}
