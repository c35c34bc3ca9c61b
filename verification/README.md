# Blocklist scraper: a Dafny model of its cleaning, classification and output rules

`scraper.py` fetches a fraud-reporting blacklist, turns each listed entry
into cleaned URL tokens, routes every token by what a public-suffix
extractor reports for it (an IPv4 address, a URL with a fully qualified
domain name, or nothing), and writes three sorted, newline-joined
blocklists: `urls.txt`, `ips.txt` and `urls-pihole.txt`.

This project models the pure part of that program and proves what it
promises:

- `clean_url`, the five-step string cleaner (module `Clean`, built on the
  string operations of module `Text`);
- the record-to-token-set part of `extract_urls` (module `Extract`);
- the classification loop of the entry point (module `Classify`). It uses
  a strict dotted-quad reading of IPv4 addresses (module `IPv4`);
- the writer's empty check and its sort-then-join rules (modules `Order`
  and `Writer`);
- the three stages end to end (module `Scraper`).

Strings are `seq<char>`. Python's `str.isspace` class is written out
character by character, and it serves both `str.strip()` and the regular
expression class `\s`. String order is Python's: code point by code point,
with a proper prefix first.

The code removes an `https://` prefix and then, from what remains, an
`http://` prefix. So `https://http://x` becomes `x`, and `https://https://x`
becomes `https://x`. A reading of this step as "only one prefix is ever
removed" does not match the code. The model follows the code: see
`Clean.CleanUrlDropsSchemes`, `Clean.CleanUrlRemovesBothSchemes` and
`Clean.CleanUrlNotIdempotent`.

## Model

| member | source | states |
|---|---|---|
| Text.RemoveAll | scraper.py:38 | the result holds no character of the class, holds only characters of the input, and equals the input when the input has none |
| Text.Strip | scraper.py:39 | neither end of the result is a class character; the result uses only input characters; a string already without such ends is unchanged |
| Text.StripTrims | scraper.py:39 | the stripped string is a contiguous slice of the input, and everything cut from its front and its back belongs to the class |
| Text.StripUnique | scraper.py:39 | any slice with class-only cuts whose ends are outside the class is the stripped string, so together with `StripTrims` the result is exactly the input between its first and last non-class characters |
| Text.TrimEnd | scraper.py:40 | the result is a prefix of the input; its last character is outside the class; every character removed was in the class |
| Text.TrimEndAppend | scraper.py:40 | trailing slashes appended to a string are all removed again |
| Text.DropPrefixIgnoringCase | scraper.py:41-42 | the result is a suffix of the input; it is shorter exactly when the input starts with the pattern ignoring ASCII case, and then by the pattern's length |
| Clean.Trimmed | scraper.py:38-40 | after steps 1-3 there is no zero-width character, no leading whitespace and no trailing `/` |
| Clean.TrimmedCuts | scraper.py:38-40 | once zero-width characters are removed, steps 2-3 keep one contiguous slice, cutting only whitespace from the front and only whitespace or `/` from the back |
| Clean.DropSchemes | scraper.py:41-42 | steps 4-5 keep a suffix of their input; which suffix is fixed by `CleanUrlDropsSchemes` |
| Clean.CleanUrl | scraper.py:27-44 | the cleaned URL is a suffix of the trimmed string, so never longer than the input; it has no zero-width character and does not end in `/` |
| Clean.CleanUrlKeepsChars | scraper.py:38-44 | the cleaned URL is one contiguous slice of the input with its zero-width characters removed, so cleaning inserts, reorders and recases nothing; every character of it occurs in the input |
| Clean.SchemesExclusive | scraper.py:41-42 | no string starts with both an `https://` and an `http://`, ignoring case |
| Clean.CleanUrlDropsSchemes | scraper.py:41-42 | exactly 0, 7, 8 or 15 characters go in steps 4-5, and each count holds exactly when the matching prefixes are present |
| Clean.CleanUrlIdentity | scraper.py:38-44 | a string with no zero-width character, no surrounding whitespace, no trailing `/` and no scheme prefix is returned unchanged |
| Clean.CleanUrlRemovesScheme | scraper.py:40-42 | a scheme of any case, then a host, then trailing slashes cleans to the host |
| Clean.CleanUrlRemovesBothSchemes | scraper.py:41-42 | `https://` followed by `http://` are both removed |
| Clean.CleanUrlNotIdempotent | scraper.py:41-42 | of two leading `https://`, one pass removes only the first, so cleaning twice differs from cleaning once |
| Clean.CleanUrlIgnoresZeroWidth | scraper.py:38 | inserting a zero-width character anywhere does not change the cleaned URL |
| Text.Collapse | scraper.py:64 | the result is single-spaced (its only whitespace is `' '` and no two are adjacent); it is empty iff the input is; it starts with a space iff the input starts with whitespace; its other characters come from the input |
| Text.CollapseRun | scraper.py:64 | a whitespace run between text ending and text starting with a non-whitespace character becomes exactly one space in its place, and the two sides collapse on their own |
| Text.CollapseWord | scraper.py:64 | text without whitespace is left alone |
| Text.CollapseKeepsText | scraper.py:64 | collapsing keeps every non-whitespace character in order |
| Text.CollapseIdempotent | scraper.py:64 | collapsing twice is collapsing once |
| Text.Split | scraper.py:67 | there is at least one piece; no piece contains the separator; joining the pieces gives the input back |
| Text.SplitJoin | scraper.py:67 | splitting a join of separator-free pieces gives the pieces back |
| Text.Join | scraper.py:104 | `sep.join`; its meaning is given by `SplitJoin`, `Split`, `JoinContains` and `JoinChars`: the join splits back into its elements, and its characters are the elements' characters and the separator |
| Extract.Pieces | scraper.py:63-67 | a `url` gives at least one piece; no piece holds whitespace; the pieces together hold exactly the non-whitespace characters of the stripped `url`, in order |
| Extract.Candidate | scraper.py:68 | the candidate of a piece holds only characters of the piece, no zero-width character, and does not end in `/` |
| Extract.Kept | scraper.py:68 | the filter `y and y != "www"`; `SingleTokenItem` shows it is exact and case-sensitive |
| Extract.KeptImages | scraper.py:65-69 | `y` is in the set iff it is the cleaned form of some token and is neither `""` nor `www` |
| Extract.ChainedImages | scraper.py:67-68 | `y` is in the set iff it is a kept cleaned token of some item whose `url` is a string |
| Extract.ChainedImagesAppend | scraper.py:67 | chaining over two item lists gives the union of their token sets |
| Extract.ItemUrls | scraper.py:63-69 | the token set never holds `""` or `www` |
| Extract.ItemUrlsListed | scraper.py:63-68 | `y` is in the token set iff some item's `url`, stripped, collapsed and split, has a piece that cleans to `y` and `y` is kept |
| Extract.ExtractUrls | scraper.py:62-69 | `""` and `www` are never in the result; a failed request or a non-string `url` gives the empty set |
| Extract.ExtractUrlsListed | scraper.py:62-69 | `y` is extracted iff the request succeeded, every present `url` is a string, and `y` comes from some item |
| Extract.MissingUrlContributesNothing | scraper.py:63 | an item without a `url` key changes nothing, wherever it stands |
| Extract.PiecesOfWords | scraper.py:63-67 | a `url` made of words separated by single spaces splits back into those words |
| Extract.PiecesOfRun | scraper.py:63-67 | two words separated by any whitespace run, tabs and newlines included, give exactly those two pieces |
| Extract.SingleTokenItem | scraper.py:68 | a one-token `url` that cleaning leaves alone yields that token, unless it is exactly `www`; the filter is case-sensitive, so `WWW` is kept |
| Extract.ExtractedHaveNoSpace | scraper.py:64-68 | no extracted URL contains whitespace |
| IPv4.Parse | scraper.py:89 | an accepted address is below 2^32 |
| IPv4.ParseFormat | scraper.py:89 | every 32-bit value prints as a dotted quad that reads back as that value |
| IPv4.FormatParse | scraper.py:89 | every accepted dotted quad is the canonical text of its value |
| IPv4.ParseInjective | scraper.py:115 | two distinct addresses never share a value, so ordering by value is a strict order |
| IPv4.AddressChars | scraper.py:89 | an address holds only digits and dots |
| Order.LexLessStrictTotal | scraper.py:104 | Python string comparison is a strict total order |
| Order.AddressLessStrictTotal | scraper.py:115 | comparison by `IPv4Address` value is a strict total order on addresses |
| Order.Sort | scraper.py:104 | the output is strictly increasing and lists exactly the elements of the set |
| Order.IncreasingUnique | scraper.py:104 | two strictly increasing listings of the same set are equal, so the sorted output is unique |
| Classify.RouteOf | scraper.py:86-96 | a URL goes to `ips` iff its `domain` is non-empty, its `fqdn` empty and the `domain` an address, and then with that `domain`; to `non_ips` iff its `fqdn` is non-empty, and then with that `fqdn`; `Scraper.DiscardedIff` and `ClassifyUrls` lift this to the whole loop |
| Classify.Add | scraper.py:86-96 | one iteration adds the URL to `non_ips` iff its `fqdn` is non-empty; any new element of `ips` is an address; it touches `ips` or `non_ips`/`fqdns` but never both |
| Classify.Step | scraper.py:83-96 | visiting a new URL extends the loop's collections by exactly that URL's route |
| Classify.RouteAll | scraper.py:83-96 | after the loop, `ips`, `non_ips` and `fqdns` are exactly the routes' images over all URLs |
| Classify.FqdnsBound | scraper.py:94-96 | there are never more FQDNs than URLs in `non_ips` |
| Classify.Characterise | scraper.py:86-96 | the route images, stated element by element |
| Classify.ClassifyUrls | scraper.py:83-96 | an address is in `ips` iff some URL has it as `domain` with an empty `fqdn` and it passes the address check; a URL is in `non_ips` iff its `fqdn` is non-empty; `fqdns` is exactly the `fqdn`s of `non_ips`, never holds `""`, and is no larger than `non_ips` |
| Scraper.DiscardedIff | scraper.py:86-96 | a URL is discarded iff it has an empty `fqdn` and does not give an address |
| Writer.Write | scraper.py:98-123 | nothing is written iff `non_ips` and `ips` are both empty; otherwise the three files are named `urls.txt`, `ips.txt` and `urls-pihole.txt`, list exactly their sets, and are strictly increasing by code point, by address value and by code point respectively |
| Writer.File.Contents | scraper.py:104 | the text written to a file, `"\n".join` of its lines; `ReadBack`, `NoTrailingNewline` and `EmptyFile` state what it holds |
| Writer.LinesDetermined | scraper.py:104 | a file's lines are fully determined by its set |
| Writer.ReadBack | scraper.py:104 | splitting a file's text on newlines gives its lines back when no line holds a newline |
| Writer.NoTrailingNewline | scraper.py:104 | the file text ends with the last line's last character, never with a newline |
| Writer.EmptyFile | scraper.py:123 | the file text is empty iff there are no lines or one empty line |
| Scraper.UrlLines | scraper.py:104 | lines drawn from the extracted URLs hold no whitespace and split back out of the file |
| Scraper.AddressLines | scraper.py:115 | address lines split back out of `ips.txt` |
| Scraper.Process | scraper.py:82-123 | for a set of cleaned URLs: nothing is written iff every URL is discarded; otherwise `urls.txt` lists exactly the URLs with a non-empty `fqdn`, `ips.txt` exactly the addresses they give and `urls-pihole.txt` exactly their non-empty `fqdn`s; the files carry those names and are strictly increasing by code point, by address value and by code point; `urls.txt` and `ips.txt` split back into their lines |
| Scraper.Run | scraper.py:62-123 | the same, stated for the decoded response: the URLs are those `extract_urls` yields, and no line of `urls.txt` holds whitespace |

## Left out

- The HTTP request, `raise_for_status`, JSON decoding and the catch-all exception handler (scraper.py:53-59, 72-74). The decoded response is a parameter. A failed request is the `Failed` case, which yields the empty set.
- Only three kinds of `data` entry are modelled: records with a string `url`, records without one, and records whose `url` is not a string (`.strip` raises, so everything is lost). A `data` value that is not a list, items that are not maps, and a body that is not a map are not modelled.
- `tldextract.extract` and its public-suffix list (scraper.py:84-85) are foreign code with external data. They are the parameter `extract: string -> Parts`.
- Classify.ClassifyUrls: `socket.inet_pton(AF_INET, …)` (scraper.py:89) is a platform call. It is modelled by the strict dotted-quad reader `IPv4.Parse`: exactly four decimal octets of one to three digits, no leading zero, each below 256. That reader is also the sort key standing in for `ipaddress.IPv4Address`. The model therefore assumes the platform rejects what `IPv4Address` rejects.
- Classify.ClassifyUrls: the crash path of `inet_pton` is not modelled. A `domain` holding a NUL character makes `inet_pton` raise `ValueError` and a lone surrogate makes it raise `UnicodeEncodeError`. Neither is a `socket.error`, so neither is caught at scraper.py:91: the script stops before any file is written. The model routes such a `domain` to nothing, like any other non-address, and goes on. A lone surrogate cannot be written as a Dafny `char` at all.
- Classify.RouteOf: the same crash path; a NUL-holding `domain` with an empty `fqdn` is treated as a non-address.
- Scraper.Process: promises its outcome only for inputs that avoid that crash path; with a NUL-holding `domain` and an empty `fqdn` the script aborts instead.
- Scraper.Run: promises its outcome only for inputs that avoid that crash path; with a NUL-holding `domain` and an empty `fqdn` the script aborts instead.
- Text.Collapse: the whitespace class is the explicit `str.isspace` set. The model does not follow Unicode database revisions beyond it.
- Logging, the wall-clock timestamps and the file opens and writes (scraper.py:14-24, 99, 101-129) are side effects. A written file is its name and its lines; its text is `File.Contents`.
- `urls-pihole.txt` lines come from the extractor, which is a parameter, so nothing is proved about newlines inside them.
- Iteration order over Python sets is not modelled. Every result is a set, or is sorted before output, so the order does not affect the outcome.
