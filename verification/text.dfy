/** Character classes and the string primitives of Python's `str` that the
    scraper relies on: `strip`, `rstrip`, `re.sub`, `split` and `join`. */
module Text {

  /** Python's `str.isspace()`: the characters that `str.strip()` removes
      when called without an argument, and that `\s` matches in a `str`
      regular expression. */
  predicate IsSpace(c: char) {
    || '\t' <= c <= '\r'                   // tab, line feed, vertical tab, form feed, carriage return
    || '\U{1C}' <= c <= '\U{1F}'           // file, group, record and unit separators
    || c == ' ' || c == '\U{85}' || c == '\U{A0}' || c == '\U{1680}'
    || '\U{2000}' <= c <= '\U{200A}'
    || c == '\U{2028}' || c == '\U{2029}' || c == '\U{202F}' || c == '\U{205F}' || c == '\U{3000}'
  }

  /** The class `[\u200B-\u200D\uFEFF]`: zero-width space, non-joiner,
      joiner, and the byte-order mark. */
  predicate IsZeroWidth(c: char) {
    '\U{200B}' <= c <= '\U{200D}' || c == '\U{FEFF}'
  }

  /** The argument `" \t\v\n\r\f."` of the scraper's `strip` calls. */
  predicate IsEdgePunct(c: char) {
    c == ' ' || '\t' <= c <= '\r' || c == '.'
  }

  /** The argument `"/"` of `rstrip`. */
  predicate IsSlash(c: char) {
    c == '/'
  }

  /** No character of `s` belongs to the class `p`. */
  predicate NoneOf(s: string, p: char -> bool) {
    forall k | 0 <= k < |s| :: !p(s[k])
  }

  /** A suffix keeps every property its string has of all characters. */
  lemma {:induction false} SuffixNoneOf(s: string, r: string, p: char -> bool)
    requires NoneOf(s, p)
    requires |r| <= |s| && r == s[|s| - |r|..]
    ensures NoneOf(r, p)
  {
    forall k | 0 <= k < |r|
      ensures !p(r[k])
    {
      assert r[k] == s[|s| - |r| + k];
    }
  }

  /** Characters drawn from `x`, itself drawn from `w`, are drawn from `w`. */
  lemma {:induction false} CharsWithin(y: string, x: string, w: string)
    requires forall c | c in y :: c in x
    requires forall c | c in x :: c in w
    ensures forall c | c in y :: c in w
  {
  }

  /** A string made only of characters of a string without a class has
      no character of that class either. */
  lemma {:induction false} NoneOfSubset(y: string, x: string, p: char -> bool)
    requires NoneOf(x, p)
    requires forall c | c in y :: c in x
    ensures NoneOf(y, p)
  {
    forall j | 0 <= j < |y|
      ensures !p(y[j])
    {
      assert y[j] in x;
    }
  }

  /** A slice has no character its string lacks. */
  lemma {:induction false} SliceChars(s: string, i: nat, j: nat)
    requires i <= j <= |s|
    ensures forall c | c in s[i..j] :: c in s
  {
    forall c | c in s[i..j]
      ensures c in s
    {
      var k :| 0 <= k < j - i && s[i..j][k] == c;
      assert s[i + k] == c;
    }
  }

  /** Concatenation keeps a property both parts have of all characters. */
  lemma {:induction false} NoneOfAppend(a: string, b: string, p: char -> bool)
    requires NoneOf(a, p) && NoneOf(b, p)
    ensures NoneOf(a + b, p)
  {
    forall k | 0 <= k < |a + b|
      ensures !p((a + b)[k])
    {
      if k < |a| {
        assert (a + b)[k] == a[k];
      } else {
        assert (a + b)[k] == b[k - |a|];
      }
    }
  }

  /** `re.sub("[class]", "", s)`: delete every character of the class. */
  function RemoveAll(s: string, p: char -> bool): (r: string)
    ensures |r| <= |s|
    ensures NoneOf(r, p)
    ensures forall c | c in r :: c in s
    ensures NoneOf(s, p) ==> r == s
  {
    if |s| == 0 then []
    else if p(s[0]) then RemoveAll(s[1..], p)
    else [s[0]] + RemoveAll(s[1..], p)
  }

  /** Deleting a class distributes over concatenation. */
  lemma {:induction false} RemoveAllAppend(a: string, b: string, p: char -> bool)
    ensures RemoveAll(a + b, p) == RemoveAll(a, p) + RemoveAll(b, p)
    decreases |a|
  {
    if |a| > 0 {
      assert (a + b)[1..] == a[1..] + b;
      RemoveAllAppend(a[1..], b, p);
    } else {
      assert a + b == b;
    }
  }

  /** `lstrip`: drop the longest prefix made of class characters. */
  function TrimStart(s: string, p: char -> bool): (r: string)
    ensures |r| <= |s| && r == s[|s| - |r|..]
    ensures r == [] || !p(r[0])
    ensures forall k | 0 <= k < |s| - |r| :: p(s[k])
  {
    if |s| > 0 && p(s[0]) then TrimStart(s[1..], p) else s
  }

  /** `rstrip`: drop the longest suffix made of class characters. */
  function TrimEnd(s: string, p: char -> bool): (r: string)
    ensures |r| <= |s| && r == s[..|r|]
    ensures r == [] || !p(r[|r| - 1])
    ensures forall k | |r| <= k < |s| :: p(s[k])
  {
    if |s| > 0 && p(s[|s| - 1]) then TrimEnd(s[..|s| - 1], p) else s
  }

  /** Trailing class characters appended to a string are all stripped again. */
  lemma {:induction false} TrimEndAppend(s: string, tail: string, p: char -> bool)
    requires forall k | 0 <= k < |tail| :: p(tail[k])
    ensures TrimEnd(s + tail, p) == TrimEnd(s, p)
    decreases |tail|
  {
    if |tail| > 0 {
      var u := s + tail;
      assert u[..|u| - 1] == s + tail[..|tail| - 1];
      TrimEndAppend(s, tail[..|tail| - 1], p);
    } else {
      assert s + tail == s;
    }
  }

  /** `r` is a suffix of `s`. */
  predicate SuffixOf(s: string, r: string) {
    |r| <= |s| && r == s[|s| - |r|..]
  }

  /** `r` is the slice of `s` that starts at `i`. */
  predicate SliceAt(s: string, r: string, i: nat) {
    i + |r| <= |s| && r == s[i..i + |r|]
  }

  /** A suffix is the slice that ends where its string ends. */
  lemma {:induction false} SuffixSlice(s: string, r: string)
    requires |r| <= |s| && r == s[|s| - |r|..]
    ensures SliceAt(s, r, |s| - |r|)
  {
  }

  /** A slice of a slice is a slice. */
  lemma {:induction false} SliceOfSlice(s: string, t: string, r: string, i: nat, m: nat)
    requires SliceAt(s, t, i) && SliceAt(t, r, m)
    ensures SliceAt(s, r, i + m)
  {
    assert forall k | 0 <= k < |r| :: r[k] == t[m + k] == s[i + m + k];
  }

  /** Cutting the back of a string keeps its first character. */
  lemma {:induction false} TrimEndFront(s: string, p: char -> bool)
    ensures TrimEnd(s, p) == [] || TrimEnd(s, p)[0] == s[0]
  {
  }

  /** `r` is the slice of `s` from `i`, and the characters cut from the
      front and the back all belong to the class. */
  predicate TrimsAt(s: string, r: string, p: char -> bool, i: nat) {
    && i + |r| <= |s|
    && r == s[i..i + |r|]
    && (forall k | 0 <= k < i :: p(s[k]))
    && (forall k | i + |r| <= k < |s| :: p(s[k]))
  }

  /** `r` is what is left of `s` after cutting a class-only front and a
      class-only back. */
  ghost predicate Trims(s: string, r: string, p: char -> bool) {
    exists i: nat :: TrimsAt(s, r, p, i)
  }

  /** `strip`: both of the above. */
  function Strip(s: string, p: char -> bool): (r: string)
    ensures |r| <= |s|
    ensures r == [] || (!p(r[0]) && !p(r[|r| - 1]))
    ensures forall c | c in r :: c in s
    ensures (s == [] || (!p(s[0]) && !p(s[|s| - 1]))) ==> r == s
  {
    var t := TrimEnd(s, p);
    StripEnds(t, p);
    SliceChars(s, 0, |t|);
    SliceChars(t, |t| - |TrimStart(t, p)|, |t|);
    StripKeeps(s, p);
    TrimStart(t, p)
  }

  /** What `strip` removes: a front and a back made only of class
      characters, so the result is one contiguous slice of the input. */
  lemma {:induction false} StripTrims(s: string, p: char -> bool)
    ensures Trims(s, Strip(s, p), p)
  {
    var t := TrimEnd(s, p);
    StripSlice(s, t, TrimStart(t, p), p);
  }

  /** Cutting a class-only back and then a class-only front leaves a slice
      of the whole string with class-only ends. */
  lemma {:induction false} StripSlice(s: string, t: string, r: string, p: char -> bool)
    requires |t| <= |s| && t == s[..|t|] && forall k | |t| <= k < |s| :: p(s[k])
    requires |r| <= |t| && r == t[|t| - |r|..] && forall k | 0 <= k < |t| - |r| :: p(t[k])
    ensures Trims(s, r, p)
  {
    var i := |t| - |r|;
    assert r == s[i..i + |r|];
    assert forall k | 0 <= k < i :: s[k] == t[k];
    assert TrimsAt(s, r, p, i);
  }

  /** A character outside the class is never cut: it lies in the slice. */
  lemma {:induction false} TrimsAtCovers(s: string, r: string, p: char -> bool, i: nat, x: nat)
    requires TrimsAt(s, r, p, i)
    requires x < |s| && !p(s[x])
    ensures i <= x < i + |r|
  {
  }

  /** Two slices with class-only cuts that neither start nor end with a
      class character are the same slice. */
  lemma {:induction false} TrimsAtUnique(s: string, r: string, q: string, p: char -> bool, i: nat, j: nat)
    requires TrimsAt(s, r, p, i) && (r == [] || (!p(r[0]) && !p(r[|r| - 1])))
    requires TrimsAt(s, q, p, j) && (q == [] || (!p(q[0]) && !p(q[|q| - 1])))
    ensures r == q
  {
    if r != [] {
      assert r[0] == s[i] && r[|r| - 1] == s[i + |r| - 1];
      TrimsAtCovers(s, q, p, j, i);
      assert q[0] == s[j] && q[|q| - 1] == s[j + |q| - 1];
      TrimsAtCovers(s, q, p, j, i + |r| - 1);
      TrimsAtCovers(s, r, p, i, j);
      TrimsAtCovers(s, r, p, i, j + |q| - 1);
      assert i == j && |r| == |q|;
    }
  }

  /** The stripped string is the only slice with class-only cuts that
      neither starts nor ends with a class character: `strip` removes
      exactly the leading and the trailing run of the class. */
  lemma {:induction false} StripUnique(s: string, r: string, p: char -> bool, i: nat)
    requires TrimsAt(s, r, p, i)
    requires r == [] || (!p(r[0]) && !p(r[|r| - 1]))
    ensures r == Strip(s, p)
  {
    var q := Strip(s, p);
    StripTrims(s, p);
    var j: nat :| TrimsAt(s, q, p, j);
    TrimsAtUnique(s, r, q, p, i, j);
  }

  /** Trimming the front of a string whose last character is kept keeps
      that last character. */
  lemma {:induction false} StripEnds(t: string, p: char -> bool)
    requires t == [] || !p(t[|t| - 1])
    ensures var r := TrimStart(t, p); r == [] || (!p(r[0]) && !p(r[|r| - 1]))
  {
    var r := TrimStart(t, p);
    if r != [] {
      assert r[|r| - 1] == t[|t| - 1];
    }
  }

  /** A string with no class character at either end is its own strip. */
  lemma {:induction false} StripKeeps(s: string, p: char -> bool)
    ensures (s == [] || (!p(s[0]) && !p(s[|s| - 1]))) ==> TrimStart(TrimEnd(s, p), p) == s
  {
    if s != [] && !p(s[0]) && !p(s[|s| - 1]) {
      assert TrimEnd(s, p) == s;
    }
  }

  /** `c` matches the lower-case pattern character `lower` the way a class
      such as `[Hh]` does: itself, or its ASCII upper-case form. */
  predicate MatchesIgnoringCase(c: char, lower: char) {
    c == lower || ('a' <= lower <= 'z' && c as int == lower as int - 32)
  }

  /** `s` starts with `lower`, matched letter by letter ignoring ASCII case. */
  predicate HasPrefixIgnoringCase(s: string, lower: string) {
    |lower| <= |s| && forall k | 0 <= k < |lower| :: MatchesIgnoringCase(s[k], lower[k])
  }

  /** A prefix match survives appending more text. */
  lemma {:induction false} PrefixAppend(a: string, b: string, lower: string)
    requires HasPrefixIgnoringCase(a, lower)
    ensures HasPrefixIgnoringCase(a + b, lower)
  {
    assert forall k | 0 <= k < |lower| :: (a + b)[k] == a[k];
  }

  /** `re.sub("^[Xx][Yy]...", "", s)`: the pattern is anchored at the start,
      so at most one occurrence is removed. */
  function DropPrefixIgnoringCase(s: string, lower: string): (r: string)
    ensures |r| <= |s| && r == s[|s| - |r|..]
    ensures |r| == |s| || |r| == |s| - |lower|
    ensures |r| < |s| <==> |lower| > 0 && HasPrefixIgnoringCase(s, lower)
  {
    if HasPrefixIgnoringCase(s, lower) then s[|lower|..] else s
  }

  /** `re.sub(r"\s+", " ", s)`: every maximal run of whitespace becomes one
      space. */
  function Collapse(s: string): (r: string)
    ensures SingleSpaced(r)
    ensures |r| > 0 <==> |s| > 0
    ensures |r| > 0 ==> (r[0] == ' ' <==> IsSpace(s[0]))
    ensures forall c | c in r && c != ' ' :: c in s
    decreases |s|
  {
    if |s| == 0 then []
    else if IsSpace(s[0]) then
      var rest := TrimStart(s, IsSpace);
      var tail := Collapse(rest);
      SliceChars(s, |s| - |rest|, |s|);
      SpaceThen(tail);
      " " + tail
    else
      var tail := Collapse(s[1..]);
      SliceChars(s, 1, |s|);
      CharThen(s[0], tail);
      [s[0]] + tail
  }

  /** The only whitespace is the space, and no two spaces are adjacent:
      the shape of every result of `Collapse`. */
  predicate SingleSpaced(s: string) {
    && (forall k | 0 <= k < |s| :: IsSpace(s[k]) ==> s[k] == ' ')
    && (forall k | 0 <= k < |s| - 1 :: !(s[k] == ' ' && s[k + 1] == ' '))
  }

  /** One space before a single-spaced string that does not start with one. */
  lemma {:induction false} SpaceThen(s: string)
    requires SingleSpaced(s) && (s == [] || s[0] != ' ')
    ensures SingleSpaced(" " + s)
  {
    var r := " " + s;
    assert forall k | 1 <= k < |r| :: r[k] == s[k - 1];
  }

  /** A non-space character before a single-spaced string. */
  lemma {:induction false} CharThen(c: char, s: string)
    requires !IsSpace(c) && SingleSpaced(s)
    ensures SingleSpaced([c] + s)
  {
    var r := [c] + s;
    assert forall k | 1 <= k < |r| :: r[k] == s[k - 1];
  }

  /** A suffix of a single-spaced string is single-spaced. */
  lemma {:induction false} SingleSpacedTail(s: string)
    requires |s| > 0 && SingleSpaced(s)
    ensures SingleSpaced(s[1..])
  {
    assert forall k | 0 <= k < |s| - 1 :: s[1..][k] == s[k + 1];
  }

  /** Deleting a class ignores a leading run of that class. */
  lemma {:induction false} RemoveAllTrimStart(s: string, p: char -> bool)
    ensures RemoveAll(TrimStart(s, p), p) == RemoveAll(s, p)
    decreases |s|
  {
    if |s| > 0 && p(s[0]) {
      RemoveAllTrimStart(s[1..], p);
    }
  }

  /** Collapsing keeps every non-whitespace character, in order. */
  lemma {:induction false} CollapseKeepsText(s: string)
    ensures RemoveAll(Collapse(s), IsSpace) == RemoveAll(s, IsSpace)
    decreases |s|
  {
    if |s| > 0 {
      if IsSpace(s[0]) {
        var rest := TrimStart(s, IsSpace);
        CollapseKeepsText(rest);
        RemoveAllAppend(" ", Collapse(rest), IsSpace);
        RemoveAllTrimStart(s, IsSpace);
      } else {
        CollapseKeepsText(s[1..]);
        RemoveAllAppend([s[0]], Collapse(s[1..]), IsSpace);
        assert ([s[0]] + Collapse(s[1..]))[1..] == Collapse(s[1..]);
      }
    }
  }

  /** A single-spaced string is left alone by collapsing; in particular
      collapsing twice is collapsing once. */
  lemma {:induction false} CollapseSingleSpaced(s: string)
    requires SingleSpaced(s)
    ensures Collapse(s) == s
    decreases |s|
  {
    if |s| > 0 {
      SingleSpacedTail(s);
      CollapseSingleSpaced(s[1..]);
      if IsSpace(s[0]) {
        assert |s| == 1 || !IsSpace(s[1]);
        assert TrimStart(s, IsSpace) == s[1..];
      }
      assert s == [s[0]] + s[1..];
    }
  }

  /** A run of class characters in front of a string that does not start
      with one is exactly what `lstrip` removes. */
  lemma {:induction false} TrimStartRun(g: string, b: string, p: char -> bool)
    requires forall k | 0 <= k < |g| :: p(g[k])
    requires b == [] || !p(b[0])
    ensures TrimStart(g + b, p) == b
    decreases |g|
  {
    if |g| > 0 {
      assert (g + b)[1..] == g[1..] + b;
      TrimStartRun(g[1..], b, p);
    } else {
      assert g + b == b;
    }
  }

  /** `lstrip` stops inside `a` when `a` holds a character outside the
      class, so text after `a` is kept whole. */
  lemma {:induction false} TrimStartAppend(a: string, c: string, s: string, p: char -> bool)
    requires TrimStart(a, p) != []
    requires s == a + c
    ensures TrimStart(s, p) == TrimStart(a, p) + c
    decreases |a|
  {
    if p(a[0]) {
      assert s[1..] == a[1..] + c;
      TrimStartAppend(a[1..], c, s[1..], p);
    }
  }

  /** Whitespace runs collapse in place: a run `g` between text that ends
      and text that starts with a non-whitespace character becomes exactly
      one space, and the two sides collapse on their own. So `a\t\tb`
      collapses to `a b`. */
  lemma {:induction false} CollapseRun(a: string, g: string, b: string, s: string)
    requires a == [] || !IsSpace(a[|a| - 1])
    requires |g| > 0 && forall k | 0 <= k < |g| :: IsSpace(g[k])
    requires b == [] || !IsSpace(b[0])
    requires s == a + g + b
    ensures Collapse(s) == Collapse(a) + " " + Collapse(b)
    decreases |a|, 1
  {
    if |a| == 0 {
      assert s == g + b;
      CollapseRunFront(g, b, s);
    } else if IsSpace(a[0]) {
      CollapseRunAfterSpace(a, g, b, s);
    } else {
      CollapseRunAfterChar(a, g, b, s);
    }
  }

  /** `CollapseRun` with nothing before the run. */
  lemma {:induction false} CollapseRunFront(g: string, b: string, s: string)
    requires |g| > 0 && forall k | 0 <= k < |g| :: IsSpace(g[k])
    requires b == [] || !IsSpace(b[0])
    requires s == g + b
    ensures Collapse(s) == " " + Collapse(b)
  {
    assert s[0] == g[0];
    TrimStartRun(g, b, IsSpace);
    CollapseSpaceFirst(s);
  }

  /** `CollapseRun` when `a` starts with whitespace. */
  lemma {:induction false} CollapseRunAfterSpace(a: string, g: string, b: string, s: string)
    requires |a| > 0 && IsSpace(a[0]) && !IsSpace(a[|a| - 1])
    requires |g| > 0 && forall k | 0 <= k < |g| :: IsSpace(g[k])
    requires b == [] || !IsSpace(b[0])
    requires s == a + g + b
    ensures Collapse(s) == Collapse(a) + " " + Collapse(b)
    decreases |a|, 0
  {
    var a' := TrimStart(a, IsSpace);
    var s' := TrimStart(s, IsSpace);
    RunAfterSpaceParts(a, g, b, s);
    CollapseRun(a', g, b, s');
    CollapseSpaceFirst(s);
    CollapseSpaceFirst(a);
    Regroup(" ", Collapse(s), Collapse(a), Collapse(a'), Collapse(b));
  }

  /** `CollapseRun` when `a` starts with a non-whitespace character. */
  lemma {:induction false} CollapseRunAfterChar(a: string, g: string, b: string, s: string)
    requires |a| > 0 && !IsSpace(a[0]) && !IsSpace(a[|a| - 1])
    requires |g| > 0 && forall k | 0 <= k < |g| :: IsSpace(g[k])
    requires b == [] || !IsSpace(b[0])
    requires s == a + g + b
    ensures Collapse(s) == Collapse(a) + " " + Collapse(b)
    decreases |a|, 0
  {
    var s' := s[1..];
    RunAfterCharParts(a, g, b, s);
    CollapseRun(a[1..], g, b, s');
    CollapseCharFirst(s);
    CollapseCharFirst(a);
    Regroup([a[0]], Collapse(s), Collapse(a), Collapse(a[1..]), Collapse(b));
  }

  /** Where `CollapseRun` recurses when `a` starts with whitespace: the
      leading run goes and the rest of `a` still ends in a non-space. */
  lemma {:induction false} RunAfterSpaceParts(a: string, g: string, b: string, s: string)
    requires |a| > 0 && IsSpace(a[0]) && !IsSpace(a[|a| - 1])
    requires s == a + g + b
    ensures var a' := TrimStart(a, IsSpace);
      && |a'| < |a| && a' != [] && !IsSpace(a'[|a'| - 1])
      && TrimStart(s, IsSpace) == a' + g + b
  {
    var a' := TrimStart(a, IsSpace);
    assert a'[|a'| - 1] == a[|a| - 1];
    assert s == a + (g + b);
    TrimStartAppend(a, g + b, s, IsSpace);
  }

  /** Where `CollapseRun` recurses when `a` starts with a non-space. */
  lemma {:induction false} RunAfterCharParts(a: string, g: string, b: string, s: string)
    requires |a| > 0 && !IsSpace(a[|a| - 1])
    requires s == a + g + b
    ensures s[0] == a[0] && s[1..] == a[1..] + g + b
    ensures a[1..] == [] || !IsSpace(a[1..][|a[1..]| - 1])
  {
    assert s[1..] == a[1..] + g + b;
  }

  /** Moving the shared first part out of a three-part concatenation. */
  lemma {:induction false} Regroup(h: string, whole: string, left: string, rest: string, right: string)
    requires whole == h + (rest + " " + right)
    requires left == h + rest
    ensures whole == left + " " + right
  {
  }

  /** A leading whitespace run becomes one space. */
  lemma {:induction false} CollapseSpaceFirst(s: string)
    requires |s| > 0 && IsSpace(s[0])
    ensures Collapse(s) == " " + Collapse(TrimStart(s, IsSpace))
  {
  }

  /** A leading non-whitespace character is kept. */
  lemma {:induction false} CollapseCharFirst(s: string)
    requires |s| > 0 && !IsSpace(s[0])
    ensures Collapse(s) == [s[0]] + Collapse(s[1..])
  {
  }

  /** A string without whitespace is left alone by collapsing. */
  lemma {:induction false} CollapseWord(w: string)
    requires NoneOf(w, IsSpace)
    ensures Collapse(w) == w
  {
    CollapseSingleSpaced(w);
  }

  /** Collapsing is idempotent. */
  lemma {:induction false} CollapseIdempotent(s: string)
    ensures Collapse(Collapse(s)) == Collapse(s)
  {
    CollapseSingleSpaced(Collapse(s));
  }

  /** Words without whitespace joined by single spaces are single-spaced. */
  lemma {:induction false} JoinSingleSpaced(words: seq<string>)
    requires forall k | 0 <= k < |words| :: |words[k]| > 0 && NoneOf(words[k], IsSpace)
    ensures SingleSpaced(Join(words, ' '))
    decreases |words|
  {
    if |words| == 1 {
      assert Join(words, ' ') == words[0];
    } else if |words| > 1 {
      var w := words[0];
      var rest := Join(words[1..], ' ');
      JoinSingleSpaced(words[1..]);
      JoinFirst(words[1..], ' ');
      var s := Join(words, ' ');
      assert s == w + [' '] + rest;
      forall k | 0 <= k < |s|
        ensures IsSpace(s[k]) ==> s[k] == ' '
        ensures k < |s| - 1 ==> !(s[k] == ' ' && s[k + 1] == ' ')
      {
        if k < |w| {
          assert s[k] == w[k];
          if k + 1 < |w| {
            assert s[k + 1] == w[k + 1];
          }
        } else if k > |w| {
          assert s[k] == rest[k - |w| - 1];
          if k + 1 < |s| {
            assert s[k + 1] == rest[k - |w|];
          }
        } else {
          assert s[k + 1] == rest[0];
        }
      }
    }
  }

  /** A join of non-empty words starts with the first word's first character. */
  lemma {:induction false} JoinFirst(words: seq<string>, sep: char)
    requires |words| > 0 && |words[0]| > 0
    ensures |Join(words, sep)| > 0 && Join(words, sep)[0] == words[0][0]
  {
  }

  /** A join of non-empty words ends with the last word's last character. */
  lemma {:induction false} JoinLast(words: seq<string>, sep: char)
    requires |words| > 0 && |words[|words| - 1]| > 0
    ensures var s := Join(words, sep); |s| > 0 && s[|s| - 1] == words[|words| - 1][|words[|words| - 1]| - 1]
    decreases |words|
  {
    if |words| > 1 {
      JoinLast(words[1..], sep);
    }
  }

  /** Position of the first `c` in `s`, or `|s|` when there is none. */
  function IndexOf(s: string, c: char): (i: nat)
    ensures i <= |s|
    ensures i < |s| ==> s[i] == c
    ensures forall k | 0 <= k < i :: s[k] != c
  {
    if |s| == 0 then 0
    else if s[0] == c then 0
    else 1 + IndexOf(s[1..], c)
  }

  /** `sep.join(xs)` for a one-character separator. */
  function Join(xs: seq<string>, sep: char): string
  {
    if |xs| == 0 then []
    else if |xs| == 1 then xs[0]
    else xs[0] + [sep] + Join(xs[1..], sep)
  }

  /** `s.split(sep)` for a one-character separator: the pieces between
      separators, empty pieces included, so there is always at least one. */
  function Split(s: string, sep: char): (r: seq<string>)
    ensures |r| >= 1
    ensures forall k | 0 <= k < |r| :: sep !in r[k]
    ensures Join(r, sep) == s
    decreases |s|
  {
    var i := IndexOf(s, sep);
    if i == |s| then
      [s]
    else
      var rest := Split(s[i + 1..], sep);
      assert s == s[..i] + [sep] + s[i + 1..];
      [s[..i]] + rest
  }

  /** Splitting a joined list gives the list back when no element contains
      the separator. */
  lemma {:induction false} SplitJoin(xs: seq<string>, sep: char)
    requires |xs| >= 1
    requires forall k | 0 <= k < |xs| :: sep !in xs[k]
    ensures Split(Join(xs, sep), sep) == xs
    decreases |xs|
  {
    if |xs| > 1 {
      var s := Join(xs, sep);
      assert s == xs[0] + [sep] + Join(xs[1..], sep);
      assert s[..|xs[0]|] == xs[0];
      assert IndexOf(s, sep) == |xs[0]| by {
        IndexOfAt(s, sep, |xs[0]|);
      }
      assert s[|xs[0]| + 1..] == Join(xs[1..], sep);
      SplitJoin(xs[1..], sep);
    }
  }

  /** The first separator of `s` is at `i` when `s[..i]` has none and `s[i]` is one. */
  lemma {:induction false} IndexOfAt(s: string, c: char, i: nat)
    requires i < |s| && s[i] == c && c !in s[..i]
    ensures IndexOf(s, c) == i
  {
    assert forall k | 0 <= k < i :: s[..i][k] == s[k];
  }

  /** Every character of an element is in the joined string. */
  lemma {:induction false} JoinContains(xs: seq<string>, sep: char, k: nat, c: char)
    requires k < |xs| && c in xs[k]
    ensures c in Join(xs, sep)
    decreases |xs|
  {
    if |xs| > 1 {
      assert Join(xs, sep) == xs[0] + [sep] + Join(xs[1..], sep);
      if k > 0 {
        JoinContains(xs[1..], sep, k - 1, c);
      }
    }
  }

  /** Every character of a joined string is the separator or a character
      of some element. */
  lemma {:induction false} JoinChars(xs: seq<string>, sep: char, c: char)
    requires c in Join(xs, sep)
    ensures c == sep || exists k | 0 <= k < |xs| :: c in xs[k]
    decreases |xs|
  {
    if |xs| == 1 {
      assert c in xs[0];
    } else if |xs| > 1 {
      assert Join(xs, sep) == xs[0] + [sep] + Join(xs[1..], sep);
      if c != sep && c !in xs[0] {
        JoinChars(xs[1..], sep, c);
        var k :| 0 <= k < |xs| - 1 && c in xs[1..][k];
        assert c in xs[k + 1];
      }
    }
  }
}
