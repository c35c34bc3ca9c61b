/** `clean_url`: the five fixed steps that turn one token into a URL. */
module Clean {
  import opened Text

  /** Steps 1-3: remove zero-width characters, strip surrounding whitespace,
      then strip trailing slashes. The cleaned URL is a suffix of this. */
  function Trimmed(url: string): (t: string)
    ensures |t| <= |url|
    ensures NoneOf(t, IsZeroWidth)
    ensures t == [] || !IsSpace(t[0])
    ensures t == [] || t[|t| - 1] != '/'
  {
    TrimmedEnds(url);
    TrimEnd(Strip(RemoveAll(url, IsZeroWidth), IsSpace), IsSlash)
  }

  /** What steps 1-3 ensure, stated of their composition. */
  lemma {:induction false} TrimmedEnds(url: string)
    ensures var t := TrimEnd(Strip(RemoveAll(url, IsZeroWidth), IsSpace), IsSlash);
      && |t| <= |url| && NoneOf(t, IsZeroWidth)
      && (t == [] || !IsSpace(t[0])) && (t == [] || t[|t| - 1] != '/')
  {
    var z := RemoveAll(url, IsZeroWidth);
    SlashTrimEnds(z, Strip(z, IsSpace));
  }

  /** Cutting trailing slashes off whitespace-stripped text keeps its
      first character and leaves no `/` at the end. */
  lemma {:induction false} SlashTrimEnds(z: string, w: string)
    requires NoneOf(z, IsZeroWidth)
    requires |w| <= |z| && (w == [] || !IsSpace(w[0])) && forall c | c in w :: c in z
    ensures var t := TrimEnd(w, IsSlash);
      && |t| <= |z| && NoneOf(t, IsZeroWidth)
      && (t == [] || !IsSpace(t[0])) && (t == [] || t[|t| - 1] != '/')
  {
    var t := TrimEnd(w, IsSlash);
    TrimEndFront(w, IsSlash);
    SliceChars(w, 0, |t|);
    NoneOfSubset(t, z, IsZeroWidth);
  }

  /** Steps 1-3 cut only whitespace from the front and only whitespace or
      `/` from the back of what is left once zero-width characters are
      gone. */
  lemma {:induction false} TrimmedCuts(url: string)
    ensures exists i: nat :: CutAt(RemoveAll(url, IsZeroWidth), Trimmed(url), i)
  {
    var z := RemoveAll(url, IsZeroWidth);
    var w := Strip(z, IsSpace);
    StripTrims(z, IsSpace);
    assert Trimmed(url) == TrimEnd(w, IsSlash);
    TrimmedCut(z, w, TrimEnd(w, IsSlash));
  }

  /** `t` is the slice of `z` from `i`, everything cut from the front is
      whitespace, and everything cut from the back is whitespace or `/`. */
  predicate CutAt(z: string, t: string, i: nat) {
    && i + |t| <= |z|
    && t == z[i..i + |t|]
    && (forall k | 0 <= k < i :: IsSpace(z[k]))
    && (forall k | i + |t| <= k < |z| :: IsSpace(z[k]) || z[k] == '/')
  }

  /** Stripping whitespace and then trailing slashes cuts whitespace from
      the front and whitespace or slashes from the back. */
  lemma {:induction false} TrimmedCut(z: string, w: string, t: string)
    requires Trims(z, w, IsSpace)
    requires w == [] || !IsSpace(w[0])
    requires |t| <= |w| && t == w[..|t|] && forall k | |t| <= k < |w| :: IsSlash(w[k])
    ensures exists i: nat :: CutAt(z, t, i)
  {
    var i: nat :| TrimsAt(z, w, IsSpace, i);
    assert t == z[i..i + |t|];
    assert forall k | i + |t| <= k < i + |w| :: z[k] == w[k - i];
    assert CutAt(z, t, i);
  }

  /** Steps 4-5: drop one leading `https://`, then one leading `http://`,
      each matched ignoring ASCII case. */
  function DropSchemes(s: string): (r: string)
    ensures SuffixOf(s, r)
  {
    DropPrefixIgnoringCase(DropPrefixIgnoringCase(s, "https://"), "http://")
  }

  /** All five steps. */
  function CleanUrl(url: string): (r: string)
    ensures |r| <= |url|
    ensures SuffixOf(Trimmed(url), r)
    ensures NoneOf(r, IsZeroWidth)
    ensures r == [] || r[|r| - 1] != '/'
  {
    DropSchemesKeepsEnds(Trimmed(url));
    DropSchemes(Trimmed(url))
  }

  /** Steps 4-5 only cut a prefix, so what steps 1-3 ensured of every
      character and of the last one still holds. */
  lemma {:induction false} DropSchemesKeepsEnds(t: string)
    requires NoneOf(t, IsZeroWidth) && (t == [] || t[|t| - 1] != '/')
    ensures var r := DropSchemes(t);
      && SuffixOf(t, r)
      && NoneOf(r, IsZeroWidth) && (r == [] || r[|r| - 1] != '/')
  {
    var r := DropSchemes(t);
    SuffixNoneOf(t, r, IsZeroWidth);
    assert r == [] || r[|r| - 1] == t[|t| - 1];
  }

  /** Cleaning only deletes: once the zero-width characters are gone, the
      cleaned URL is one contiguous piece of what is left, so no character
      is inserted, reordered or changed in case. */
  lemma {:induction false} CleanUrlKeepsChars(url: string)
    ensures exists i: nat :: SliceAt(RemoveAll(url, IsZeroWidth), CleanUrl(url), i)
    ensures forall c | c in CleanUrl(url) :: c in url
  {
    var j := CleanUrlSlice(url);
    CleanUrlChars(url);
  }

  /** Every character of the cleaned URL comes from the input. */
  lemma {:induction false} CleanUrlChars(url: string)
    ensures forall c | c in CleanUrl(url) :: c in url
  {
    var z := RemoveAll(url, IsZeroWidth);
    var r := CleanUrl(url);
    var j := CleanUrlSlice(url);
    SliceChars(z, j, j + |r|);
    CharsWithin(r, z, url);
  }

  /** Where the cleaned URL starts in the input without its zero-width
      characters. */
  lemma {:induction false} CleanUrlSlice(url: string) returns (j: nat)
    ensures SliceAt(RemoveAll(url, IsZeroWidth), CleanUrl(url), j)
  {
    var i := TrimmedSlice(url);
    j := SuffixOfSlice(RemoveAll(url, IsZeroWidth), Trimmed(url), CleanUrl(url), i);
  }

  /** Where steps 1-3 leave their result in the input without its
      zero-width characters. */
  lemma {:induction false} TrimmedSlice(url: string) returns (i: nat)
    ensures SliceAt(RemoveAll(url, IsZeroWidth), Trimmed(url), i)
  {
    TrimmedCuts(url);
    i :| CutAt(RemoveAll(url, IsZeroWidth), Trimmed(url), i);
  }

  /** A suffix of a slice is a slice of the whole. */
  lemma {:induction false} SuffixOfSlice(z: string, t: string, r: string, i: nat) returns (j: nat)
    requires SliceAt(z, t, i)
    requires SuffixOf(t, r)
    ensures SliceAt(z, r, j)
  {
    SuffixSlice(t, r);
    SliceOfSlice(z, t, r, i, |t| - |r|);
    j := i + (|t| - |r|);
  }

  /** The two prefixes exclude each other: the fifth character is `s`
      or `S` in one and `:` in the other. */
  lemma {:induction false} SchemesExclusive(t: string)
    requires HasPrefixIgnoringCase(t, "https://")
    ensures !HasPrefixIgnoringCase(t, "http://")
  {
    assert MatchesIgnoringCase(t[4], 's');
  }

  /** A string matching a scheme prefix letter for letter is plain ASCII. */
  lemma {:induction false} SchemeChars(scheme: string, lower: string)
    requires lower == "https://" || lower == "http://"
    requires |scheme| == |lower| && HasPrefixIgnoringCase(scheme, lower)
    ensures NoneOf(scheme, IsZeroWidth) && !IsSpace(scheme[0])
  {
    assert forall k | 0 <= k < |lower| :: lower[k] < 'z';
    assert forall k | 0 <= k < |scheme| :: scheme[k] <= 'z';
    assert MatchesIgnoringCase(scheme[0], 'h');
  }

  /** What steps 4-5 remove: nothing, one `http://` (7 characters), one
      `https://` (8), or an `https://` followed by an `http://` (15). */
  lemma {:induction false} CleanUrlDropsSchemes(url: string)
    ensures var t := Trimmed(url); var n := |t| - |CleanUrl(url)|;
      && (n == 0 <==> !HasPrefixIgnoringCase(t, "https://") && !HasPrefixIgnoringCase(t, "http://"))
      && (n == 7 <==> !HasPrefixIgnoringCase(t, "https://") && HasPrefixIgnoringCase(t, "http://"))
      && (n == 8 <==> HasPrefixIgnoringCase(t, "https://") && !HasPrefixIgnoringCase(t[8..], "http://"))
      && (n == 15 <==> HasPrefixIgnoringCase(t, "https://") && HasPrefixIgnoringCase(t[8..], "http://"))
  {
    var t := Trimmed(url);
    var m := DropPrefixIgnoringCase(t, "https://");
    var r := DropPrefixIgnoringCase(m, "http://");
    assert CleanUrl(url) == r;
    if HasPrefixIgnoringCase(t, "https://") {
      SchemesExclusive(t);
      assert m == t[8..];
    } else {
      assert m == t;
    }
  }

  /** A string that is already clean comes back unchanged. */
  lemma {:induction false} CleanUrlIdentity(url: string)
    requires NoneOf(url, IsZeroWidth)
    requires url == [] || (!IsSpace(url[0]) && !IsSpace(url[|url| - 1]))
    requires url == [] || url[|url| - 1] != '/'
    requires !HasPrefixIgnoringCase(url, "https://") && !HasPrefixIgnoringCase(url, "http://")
    ensures CleanUrl(url) == url
  {
    assert Trimmed(url) == url by {
      assert RemoveAll(url, IsZeroWidth) == url;
      StripKeeps(url, IsSpace);
      assert Strip(url, IsSpace) == url;
      assert TrimEnd(url, IsSlash) == url;
    }
  }

  /** A host that ends in a character steps 2-3 keep. */
  predicate CleanEnd(host: string) {
    && |host| > 0
    && NoneOf(host, IsZeroWidth)
    && !IsSpace(host[|host| - 1])
    && host[|host| - 1] != '/'
  }

  /** Steps 1-3 leave `scheme + host` when the scheme starts with a
      non-space, nothing is zero-width and only slashes follow the host. */
  lemma {:induction false} TrimmedOf(scheme: string, host: string, slashes: string, u: string)
    requires |scheme| > 0 && !IsSpace(scheme[0]) && NoneOf(scheme, IsZeroWidth)
    requires CleanEnd(host)
    requires forall k | 0 <= k < |slashes| :: slashes[k] == '/'
    requires u == scheme + host + slashes
    ensures Trimmed(u) == scheme + host
  {
    var t := scheme + host;
    assert u == t + slashes;
    AlreadyStripped(scheme, host, slashes, t, u);
    assert TrimEnd(u, IsSlash) == t by {
      assert t[|t| - 1] == host[|host| - 1];
      assert TrimEnd(t, IsSlash) == t;
      TrimEndAppend(t, slashes, IsSlash);
    }
  }

  /** Steps 1-2 leave `scheme + host + slashes` as it is. */
  lemma {:induction false} AlreadyStripped(scheme: string, host: string, slashes: string, t: string, u: string)
    requires |scheme| > 0 && !IsSpace(scheme[0]) && NoneOf(scheme, IsZeroWidth)
    requires CleanEnd(host)
    requires forall k | 0 <= k < |slashes| :: slashes[k] == '/'
    requires t == scheme + host && u == t + slashes
    ensures Strip(RemoveAll(u, IsZeroWidth), IsSpace) == u
  {
    NoneOfAppend(scheme, host, IsZeroWidth);
    assert NoneOf(slashes, IsZeroWidth);
    NoneOfAppend(t, slashes, IsZeroWidth);
    assert u[0] == scheme[0];
    assert u[|u| - 1] == host[|host| - 1] || u[|u| - 1] == '/';
    StripKeeps(u, IsSpace);
  }

  /** Case-insensitive scheme removal: `HtTpS://a.b/` becomes `a.b` and
      `HTTP://foo.bar//` becomes `foo.bar`. Whitespace right after the
      prefix is not stripped again, so `https:// x` becomes ` x`. */
  lemma {:induction false} CleanUrlRemovesScheme(scheme: string, host: string, slashes: string)
    requires
      || (|scheme| == 8 && HasPrefixIgnoringCase(scheme, "https://") && !HasPrefixIgnoringCase(host, "http://"))
      || (|scheme| == 7 && HasPrefixIgnoringCase(scheme, "http://"))
    requires CleanEnd(host)
    requires forall k | 0 <= k < |slashes| :: slashes[k] == '/'
    ensures CleanUrl(scheme + host + slashes) == host
  {
    SchemeChars(scheme, if |scheme| == 8 then "https://" else "http://");
    TrimmedOf(scheme, host, slashes, scheme + host + slashes);
    DropSchemesOne(scheme, host);
  }

  /** `CleanUrlRemovesScheme` with nothing after the host, for a URL
      given whole. */
  lemma {:induction false} CleanUrlRemovesSchemeAt(scheme: string, host: string, url: string)
    requires
      || (|scheme| == 8 && HasPrefixIgnoringCase(scheme, "https://") && !HasPrefixIgnoringCase(host, "http://"))
      || (|scheme| == 7 && HasPrefixIgnoringCase(scheme, "http://"))
    requires CleanEnd(host)
    requires url == scheme + host
    ensures CleanUrl(url) == host
  {
    SchemeChars(scheme, if |scheme| == 8 then "https://" else "http://");
    assert url == scheme + host + [];
    TrimmedOf(scheme, host, [], url);
    DropSchemesOne(scheme, host);
  }

  /** Steps 4-5 on one scheme followed by text that does not start with
      the other. */
  lemma {:induction false} DropSchemesOne(scheme: string, rest: string)
    requires
      || (|scheme| == 8 && HasPrefixIgnoringCase(scheme, "https://") && !HasPrefixIgnoringCase(rest, "http://"))
      || (|scheme| == 7 && HasPrefixIgnoringCase(scheme, "http://"))
    ensures DropSchemes(scheme + rest) == rest
  {
    var t := scheme + rest;
    assert t[|scheme|..] == rest;
    if |scheme| == 8 {
      PrefixAppend(scheme, rest, "https://");
      assert DropPrefixIgnoringCase(t, "https://") == rest;
    } else {
      PrefixAppend(scheme, rest, "http://");
      if HasPrefixIgnoringCase(t, "https://") {
        SchemesExclusive(t);
      }
      assert DropPrefixIgnoringCase(t, "https://") == t;
    }
  }

  /** Steps 4-5 on an `https://` followed by an `http://`. */
  lemma {:induction false} DropSchemesBoth(secure: string, plain: string, rest: string)
    requires |secure| == 8 && HasPrefixIgnoringCase(secure, "https://")
    requires |plain| == 7 && HasPrefixIgnoringCase(plain, "http://")
    ensures DropSchemes(secure + plain + rest) == rest
  {
    var tail := plain + rest;
    var t := secure + tail;
    assert secure + plain + rest == t;
    PrefixAppend(secure, tail, "https://");
    assert t[8..] == tail;
    PrefixAppend(plain, rest, "http://");
    assert tail[7..] == rest;
  }

  /** An `https://` followed by an `http://` both go. */
  lemma {:induction false} CleanUrlRemovesBothSchemes(secure: string, plain: string, host: string)
    requires |secure| == 8 && HasPrefixIgnoringCase(secure, "https://")
    requires |plain| == 7 && HasPrefixIgnoringCase(plain, "http://")
    requires CleanEnd(host)
    ensures CleanUrl(secure + plain + host) == host
  {
    var both := secure + plain;
    var url := both + host;
    SchemeChars(secure, "https://");
    SchemeChars(plain, "http://");
    NoneOfAppend(secure, plain, IsZeroWidth);
    assert both[0] == secure[0];
    assert url == both + host + [];
    TrimmedOf(both, host, [], url);
    DropSchemesBoth(secure, plain, host);
  }

  /** Cleaning is not idempotent: of two leading `https://`, one pass
      removes only the first. */
  lemma {:induction false} CleanUrlNotIdempotent(secure: string, host: string)
    requires |secure| == 8 && HasPrefixIgnoringCase(secure, "https://")
    requires CleanEnd(host) && !HasPrefixIgnoringCase(host, "http://")
    ensures CleanUrl(secure + secure + host) == secure + host
    ensures CleanUrl(CleanUrl(secure + secure + host)) == host
    ensures CleanUrl(CleanUrl(secure + secure + host)) != CleanUrl(secure + secure + host)
  {
    var once := secure + host;
    var twice := secure + secure + host;
    OnceCleanEnd(secure, host);
    assert twice == secure + once;
    CleanUrlRemovesSchemeAt(secure, once, twice);
    CleanUrlRemovesSchemeAt(secure, host, once);
  }

  /** `https://` followed by a clean host is itself a clean host that does
      not start with `http://`. */
  lemma {:induction false} OnceCleanEnd(secure: string, host: string)
    requires |secure| == 8 && HasPrefixIgnoringCase(secure, "https://")
    requires CleanEnd(host)
    ensures CleanEnd(secure + host) && !HasPrefixIgnoringCase(secure + host, "http://")
  {
    var once := secure + host;
    PrefixAppend(secure, host, "https://");
    SchemesExclusive(once);
    SchemeChars(secure, "https://");
    NoneOfAppend(secure, host, IsZeroWidth);
    assert once[|once| - 1] == host[|host| - 1];
  }

  /** A zero-width character anywhere is as if it were not there:
      `foo\u200Bbar` cleans like `foobar`. */
  lemma {:induction false} CleanUrlIgnoresZeroWidth(before: string, z: char, after: string)
    requires IsZeroWidth(z)
    ensures CleanUrl(before + [z] + after) == CleanUrl(before + after)
  {
    RemoveAllAppend(before + [z], after, IsZeroWidth);
    RemoveAllAppend(before, [z], IsZeroWidth);
    RemoveAllAppend(before, after, IsZeroWidth);
    assert RemoveAll([z], IsZeroWidth) == [];
    assert RemoveAll(before + [z], IsZeroWidth) == RemoveAll(before, IsZeroWidth);
    assert RemoveAll(before + [z] + after, IsZeroWidth) == RemoveAll(before + after, IsZeroWidth);
    assert Trimmed(before + [z] + after) == Trimmed(before + after);
  }
}
