/** The record-to-token part of `extract_urls`: every `url` of the
    response's `data` list is split into tokens, each token is cleaned, and
    the non-trivial results are collected into a set. */
module Extract {
  import opened Wrappers
  import opened Text
  import opened Clean

  /** The `url` entry of one item: absent, a string, or some other JSON
      value (on which `.strip` raises). */
  datatype UrlField = Missing | Str(value: string) | NotStr

  datatype Item = Item(url: UrlField)

  /** The outcome of the HTTP request and JSON decoding, which are not
      modelled: either they failed, or they produced an object whose
      `data` entry may be absent. */
  datatype Response = Failed | Body(data: Option<seq<Item>>)

  /** One `url` value: strip edge punctuation, collapse whitespace runs to
      one space, split on the space. */
  function Pieces(url: string): (r: seq<string>)
    ensures |r| >= 1
    ensures forall k | 0 <= k < |r| :: NoneOf(r[k], IsSpace)
    ensures RemoveAll(Join(r, ' '), IsSpace) == RemoveAll(Strip(url, IsEdgePunct), IsSpace)
  {
    var line := Collapse(Strip(url, IsEdgePunct));
    CollapseKeepsText(Strip(url, IsEdgePunct));
    SplitSpaced(line);
    Split(line, ' ')
  }

  /** Splitting a single-spaced line on the space leaves no whitespace in
      any piece. */
  lemma {:induction false} SplitSpaced(line: string)
    requires SingleSpaced(line)
    ensures forall k | 0 <= k < |Split(line, ' ')| :: NoneOf(Split(line, ' ')[k], IsSpace)
  {
    var ps := Split(line, ' ');
    forall k, j | 0 <= k < |ps| && 0 <= j < |ps[k]|
      ensures !IsSpace(ps[k][j])
    {
      JoinContains(ps, ' ', k, ps[k][j]);
      var m :| 0 <= m < |line| && line[m] == ps[k][j];
    }
  }

  /** One piece: strip edge punctuation again, then clean. */
  function Candidate(piece: string): (y: string)
    ensures forall c | c in y :: c in piece
    ensures NoneOf(y, IsZeroWidth)
    ensures y == [] || y[|y| - 1] != '/'
  {
    CandidateChars(piece);
    CleanUrl(Strip(piece, IsEdgePunct))
  }

  /** Stripping and cleaning only ever delete characters. */
  lemma {:induction false} CandidateChars(piece: string)
    ensures forall c | c in CleanUrl(Strip(piece, IsEdgePunct)) :: c in piece
  {
    var s := Strip(piece, IsEdgePunct);
    CleanUrlChars(s);
    CharsWithin(CleanUrl(s), s, piece);
  }

  /** The filter `y and y != "www"`: an exact, case-sensitive comparison. */
  predicate Kept(y: string) {
    y != "" && y != "www"
  }

  /** `y` is what some piece of `url` cleans to, and it passes the filter. */
  ghost predicate Produces(url: string, y: string) {
    Kept(y) && exists p | p in Pieces(url) :: y == Candidate(p)
  }

  /** `y` is produced by the `url` of some item of `items`. */
  ghost predicate Listed(items: seq<Item>, y: string) {
    exists i | 0 <= i < |items| :: items[i].url.Str? && Produces(items[i].url.value, y)
  }

  /** The set comprehension of `extract_urls` over one list of tokens, for
      any per-token map `clean`: the images that pass the filter. */
  function KeptImages(tokens: seq<string>, clean: string -> string): (r: set<string>)
    ensures forall y :: y in r <==> Kept(y) && exists p | p in tokens :: y == clean(p)
  {
    if |tokens| == 0 then {}
    else
      var y := clean(tokens[0]);
      var rest := KeptImages(tokens[1..], clean);
      assert forall p | p in tokens[1..] :: p in tokens;
      assert forall p | p in tokens && p != tokens[0] :: p in tokens[1..];
      (if Kept(y) then {y} else {}) + rest
  }

  /** The same comprehension chained over the items with a string `url`,
      for any splitting `split` of a `url` into tokens. */
  function ChainedImages(items: seq<Item>, split: string -> seq<string>, clean: string -> string): (r: set<string>)
    ensures forall y :: y in r <==>
      exists i | 0 <= i < |items| :: items[i].url.Str? && y in KeptImages(split(items[i].url.value), clean)
  {
    if |items| == 0 then {}
    else
      var here := if items[0].url.Str? then KeptImages(split(items[0].url.value), clean) else {};
      var rest := ChainedImages(items[1..], split, clean);
      assert forall i | 0 <= i < |items[1..]| :: items[1..][i] == items[i + 1];
      here + rest
  }

  /** Concatenating item lists unites their image sets. */
  lemma {:induction false} ChainedImagesAppend(a: seq<Item>, b: seq<Item>, split: string -> seq<string>, clean: string -> string)
    ensures ChainedImages(a + b, split, clean) == ChainedImages(a, split, clean) + ChainedImages(b, split, clean)
    decreases |a|
  {
    if |a| == 0 {
      assert a + b == b;
    } else {
      assert (a + b)[0] == a[0];
      assert (a + b)[1..] == a[1..] + b;
      ChainedImagesAppend(a[1..], b, split, clean);
    }
  }

  /** The chained tokens of all items that have a string `url`. */
  function ItemUrls(items: seq<Item>): (r: set<string>)
    ensures "" !in r && "www" !in r
  {
    ChainedImages(items, Pieces, Candidate)
  }

  /** The token set holds exactly what some item's `url` produces. */
  lemma {:induction false} ItemUrlsListed(items: seq<Item>)
    ensures forall y :: y in ItemUrls(items) <==> Listed(items, y)
  {
  }

  /** Some item has a `url` that is not a string. */
  predicate HasNonString(items: seq<Item>) {
    exists i | 0 <= i < |items| :: items[i].url.NotStr?
  }

  /** `extract_urls` after the response is decoded: a failed request, or a
      `url` that is not a string, yields the empty set; an absent `data`
      entry counts as an empty list. */
  function ExtractUrls(response: Response): (r: set<string>)
    ensures "" !in r && "www" !in r
    ensures response.Failed? ==> r == {}
    ensures response.Body? && HasNonString(response.data.GetOr([])) ==> r == {}
  {
    match response
    case Failed => {}
    case Body(data) =>
      var items := data.GetOr([]);
      if HasNonString(items) then {} else ItemUrls(items)
  }

  /** Every element of the token set is the cleaned form of a piece of some
      item's `url`, and every such cleaned piece other than `""` and `www`
      is an element, provided the request succeeded and every `url` present
      is a string. */
  lemma {:induction false} ExtractUrlsListed(response: Response, y: string)
    ensures y in ExtractUrls(response) <==>
      response.Body? && !HasNonString(response.data.GetOr([])) && Listed(response.data.GetOr([]), y)
  {
    if response.Body? {
      ItemUrlsListed(response.data.GetOr([]));
    }
  }

  /** An item without a `url` key adds no image, for any token maps. */
  lemma {:induction false} ChainedImagesSkipMissing(before: seq<Item>, after: seq<Item>, split: string -> seq<string>, clean: string -> string)
    ensures ChainedImages(before + [Item(Missing)] + after, split, clean)
         == ChainedImages(before + after, split, clean)
  {
    var missing := [Item(Missing)];
    assert ChainedImages(missing, split, clean) == {} by {
      assert missing[1..] == [];
    }
    ChainedImagesAppend(before + missing, after, split, clean);
    ChainedImagesAppend(before, missing, split, clean);
    ChainedImagesAppend(before, after, split, clean);
  }

  /** An item without a `url` key cannot make `.strip` raise. */
  lemma {:induction false} HasNonStringSkipMissing(before: seq<Item>, after: seq<Item>)
    ensures HasNonString(before + [Item(Missing)] + after) <==> HasNonString(before + after)
  {
    var with := before + [Item(Missing)] + after;
    if HasNonString(with) {
      var i :| 0 <= i < |with| && with[i].url.NotStr?;
      if i < |before| {
        assert (before + after)[i] == with[i];
      } else {
        assert (before + after)[i - 1] == with[i];
      }
    }
    if HasNonString(before + after) {
      var i :| 0 <= i < |before + after| && (before + after)[i].url.NotStr?;
      if i < |before| {
        assert with[i] == (before + after)[i];
      } else {
        assert with[i + 1] == (before + after)[i];
      }
    }
  }

  /** An item without a `url` key contributes nothing, wherever it stands. */
  lemma {:induction false} MissingUrlContributesNothing(before: seq<Item>, after: seq<Item>)
    ensures ExtractUrls(Body(Some(before + [Item(Missing)] + after)))
         == ExtractUrls(Body(Some(before + after)))
  {
    ChainedImagesSkipMissing(before, after, Pieces, Candidate);
    HasNonStringSkipMissing(before, after);
  }

  /** Clean words joined by single spaces split back into those words. */
  lemma {:induction false} PiecesOfWords(words: seq<string>)
    requires |words| >= 1
    requires forall k | 0 <= k < |words| :: |words[k]| > 0 && NoneOf(words[k], IsSpace)
    requires !IsEdgePunct(words[0][0])
    requires !IsEdgePunct(words[|words| - 1][|words[|words| - 1]| - 1])
    ensures Pieces(Join(words, ' ')) == words
  {
    var s := Join(words, ' ');
    JoinFirst(words, ' ');
    JoinLast(words, ' ');
    assert Strip(s, IsEdgePunct) == s;
    JoinSingleSpaced(words);
    CollapseSingleSpaced(s);
    assert forall k | 0 <= k < |words| :: ' ' !in words[k] by {
      forall k | 0 <= k < |words|
        ensures ' ' !in words[k]
      {
        assert NoneOf(words[k], IsSpace);
      }
    }
    SplitJoin(words, ' ');
  }

  /** Two words separated by any whitespace run, tabs and newlines
      included, split into exactly those two words. */
  lemma {:induction false} PiecesOfRun(w1: string, g: string, w2: string, url: string)
    requires |w1| > 0 && NoneOf(w1, IsSpace) && !IsEdgePunct(w1[0])
    requires |w2| > 0 && NoneOf(w2, IsSpace) && !IsEdgePunct(w2[|w2| - 1])
    requires |g| > 0 && forall k | 0 <= k < |g| :: IsSpace(g[k])
    requires url == w1 + g + w2
    ensures Pieces(url) == [w1, w2]
  {
    assert url[0] == w1[0] && url[|url| - 1] == w2[|w2| - 1];
    assert Strip(url, IsEdgePunct) == url;
    CollapseRun(w1, g, w2, url);
    CollapseWord(w1);
    CollapseWord(w2);
    SplitTwo(w1, w2, w1 + " " + w2);
  }

  /** Two whitespace-free words joined by a space split back apart. */
  lemma {:induction false} SplitTwo(w1: string, w2: string, line: string)
    requires NoneOf(w1, IsSpace) && NoneOf(w2, IsSpace)
    requires line == w1 + " " + w2
    ensures Split(line, ' ') == [w1, w2]
  {
    assert ' ' !in w1 && ' ' !in w2 by {
      assert IsSpace(' ');
    }
    assert Join([w1, w2], ' ') == line by {
      assert [w1, w2][1..] == [w2];
    }
    SplitJoin([w1, w2], ' ');
  }

  /** One item with a string `url` yields the kept images of its tokens. */
  lemma {:induction false} ChainedImagesOne(url: string, token: string, split: string -> seq<string>, clean: string -> string)
    requires split(url) == [token]
    ensures ChainedImages([Item(Str(url))], split, clean) == if Kept(clean(token)) then {clean(token)} else {}
  {
    assert ChainedImages([Item(Str(url))], split, clean) == KeptImages([token], clean);
  }

  /** A token that cleaning leaves alone is its own candidate. */
  lemma {:induction false} CandidateOfCleanToken(token: string)
    requires |token| > 0 && NoneOf(token, IsSpace) && NoneOf(token, IsZeroWidth)
    requires !IsEdgePunct(token[0]) && !IsEdgePunct(token[|token| - 1]) && token[|token| - 1] != '/'
    requires !HasPrefixIgnoringCase(token, "https://") && !HasPrefixIgnoringCase(token, "http://")
    ensures Pieces(token) == [token]
    ensures Candidate(token) == token
  {
    PiecesOfWords([token]);
    assert Join([token], ' ') == token;
    assert Strip(token, IsEdgePunct) == token;
    CleanUrlIdentity(token);
  }

  /** A single item whose `url` is one token that is its own candidate. */
  lemma {:induction false} ItemUrlsSelfCandidate(token: string)
    requires Pieces(token) == [token] && Candidate(token) == token
    ensures ItemUrls([Item(Str(token))]) == if Kept(token) then {token} else {}
  {
    ChainedImagesOne(token, token, Pieces, Candidate);
  }

  /** A single item with a string `url` is all the response holds. */
  lemma {:induction false} ExtractOneItem(url: string)
    ensures ExtractUrls(Body(Some([Item(Str(url))]))) == ItemUrls([Item(Str(url))])
  {
    var items := [Item(Str(url))];
    assert Some(items).GetOr([]) == items;
    assert !HasNonString(items) by {
      assert forall i | 0 <= i < |items| :: items[i] == Item(Str(url));
    }
  }

  /** A `url` holding one token that cleaning leaves alone yields that token,
      unless it is exactly `www`: the filter is case-sensitive, so `WWW`
      is kept. */
  lemma {:induction false} SingleTokenItem(token: string)
    requires |token| > 0 && NoneOf(token, IsSpace) && NoneOf(token, IsZeroWidth)
    requires !IsEdgePunct(token[0]) && !IsEdgePunct(token[|token| - 1]) && token[|token| - 1] != '/'
    requires !HasPrefixIgnoringCase(token, "https://") && !HasPrefixIgnoringCase(token, "http://")
    ensures ExtractUrls(Body(Some([Item(Str(token))]))) == if token == "www" then {} else {token}
  {
    CandidateOfCleanToken(token);
    ItemUrlsSelfCandidate(token);
    ExtractOneItem(token);
  }

  /** Text drawn from one of several whitespace-free pieces has no
      whitespace. */
  lemma {:induction false} NoSpaceFrom(ps: seq<string>, p: string, y: string)
    requires forall k | 0 <= k < |ps| :: NoneOf(ps[k], IsSpace)
    requires p in ps
    requires forall c | c in y :: c in p
    ensures NoneOf(y, IsSpace)
  {
    var k :| 0 <= k < |ps| && ps[k] == p;
    NoneOfSubset(y, p, IsSpace);
  }

  /** What a `url` produces has no whitespace. */
  lemma {:induction false} ProducedHasNoSpace(url: string, y: string)
    ensures Produces(url, y) ==> NoneOf(y, IsSpace)
  {
    if Produces(url, y) {
      var p :| p in Pieces(url) && y == Candidate(p);
      NoSpaceFrom(Pieces(url), p, y);
    }
  }

  /** No element of the token set contains whitespace. */
  lemma {:induction false} ExtractedHaveNoSpace(response: Response)
    ensures forall y | y in ExtractUrls(response) :: NoneOf(y, IsSpace)
  {
    forall y | y in ExtractUrls(response)
      ensures NoneOf(y, IsSpace)
    {
      ExtractUrlsListed(response, y);
      var items := response.data.GetOr([]);
      var i :| 0 <= i < |items| && items[i].url.Str? && Produces(items[i].url.value, y);
      ProducedHasNoSpace(items[i].url.value, y);
    }
  }
}
