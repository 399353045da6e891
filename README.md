# chinadns: AdGuard Home upstream generator, modelled in Dafny

`adguardhome.py` builds an AdGuard Home upstream configuration in which
Chinese domains go to China resolvers and every other query goes to trusted
resolvers. Its class `ChinaDnsAdguardHome` does three things:

- it downloads dnsmasq domain lists (`server=/<domain>/<resolver>` lines)
  and collects the domain of every valid line into a set, `records`;
- it refuses to go on when the set holds fewer than 70000 domains;
- it writes the trusted resolvers, then one `[/<domain>/]<china resolvers>`
  line per record, then the text of an optional extra file.

The model is split into these modules:

- `Wrappers` (`wrappers.dfy`): the `Option` type, used for the extra file,
  which may be absent.
- `Strings` (`strings.dfy`): the Python `str` operations the code calls.
  - `strip()`, with CPython's exact whitespace set.
  - `startswith`, and one-character `find` with a start index.
  - `join`.
  - `strip()` and `find` are characterised completely by the lemmas
    `StripCases` (with `StripLeftCases` and `StripRightCases`) and
    `FindCases`. `join` is described, not characterised, by `JoinThenSplit`
    (a one-character separator that no part holds) and `JoinAvoids`.
  - `Split` is not called by the code. It is a line reader, used only to
    state what the generated text looks like when read back line by line.
- `DomainList` (`domainlist.dfy`): the pure per-line extraction.
  - `ParseLine` gives `NotServer`, `Malformed` or `Server(domain)`.
  - `Domains` is the set a document contributes.
  - `AllDomains` is the set a series of documents contributes.
- `Config` (`render.dfy`): the exact text of the output file, as the
  function `Render` of the resolver strings, an enumeration of the records
  and the optional extra text.
- `AdGuardHome` (`adguardhome.dfy`): the class `ChinaDnsAdguardHome`.
  - Its fields are `configUrls`, `chinaDns`, `trustedDns` and the mutable
    `records` set.
  - Its methods `FetchAndProcessOne`, `FetchAndProcess` and `Write` have loops
    that are proved against the functions above.
  - `Valid()` is the invariant that no record holds a `/`.

Downloads are given as a map `web` from URL to the lines of the downloaded
body. A URL that is not in the map stands for a request that raises. The
extra file is `Some(text)` when it exists.

Python iterates a set in an order the model cannot know. `Write` therefore
returns the `order` it used, and proves that this order is an enumeration
of `records`: every record exactly once.

The text read from the extra file is appended after the generated lines,
with no deduplication against them (adguardhome.py:78-81). An empty domain is
not rejected: `server=//x` adds `""` (adguardhome.py:59-60, see
`DomainList.EmptyDomainKept`).

## Model

| member | source | states |
|---|---|---|
| Strings.Strip | adguardhome.py:45 | no contract of its own; specified by `StripCases` |
| Strings.StartsWith | adguardhome.py:47 | a predicate whose definition is `startswith`: `p` is a prefix of `s` |
| Strings.Find | adguardhome.py:50-54 | the answer is -1 or an index of the text at or after `start`; fully specified by `FindCases` |
| Strings.Join | adguardhome.py:35-36 | no contract of its own; specified by `JoinThenSplit` and `JoinAvoids` |
| Strings.StripCases | adguardhome.py:45 | `strip()` returns a slice of the line; everything cut from either end is whitespace; the result neither starts nor ends with whitespace |
| Strings.StripLeftCases | adguardhome.py:45 | the left half of `strip()` keeps a suffix, removes only whitespace, and leaves no leading whitespace |
| Strings.StripRightCases | adguardhome.py:45 | the right half of `strip()` keeps a prefix, removes only whitespace, and leaves no trailing whitespace |
| Strings.StripLeftSkips | adguardhome.py:45 | leading whitespace in front of a non-blank start is exactly what the left strip removes |
| Strings.StripRightKeeps | adguardhome.py:45 | trailing-whitespace removal never reaches back past a non-blank character |
| Strings.FindCases | adguardhome.py:50-54 | `find(c, start)` answers the first index at or after `start` holding `c`, and -1 exactly when there is none |
| Strings.FindIs | adguardhome.py:50-54 | any index matching that description is the answer of `find`, so `find` is uniquely determined |
| Strings.JoinThenSplit | adguardhome.py:36 | for one or more resolvers, none holding a newline, splitting their newline join recovers exactly the resolvers |
| Strings.JoinAvoids | adguardhome.py:35-36 | a character in neither the parts nor the separator is not in their join |
| DomainList.BetweenSlashes | adguardhome.py:50-59 | no contract of its own; specified by `BetweenSlashesCases`, `BetweenSlashesOf` and `BetweenSlashesParts` |
| DomainList.ParseLine | adguardhome.py:45-59 | no contract of its own; specified by `ParseLineCases` and `ServerLineYieldsDomain` |
| DomainList.Domains | adguardhome.py:44-60 | no contract of its own; specified by `UnionOfMembers`, `UnionOfStep`, `SkippedLineAddsNothing` and `DomainsHaveNoSlash` |
| DomainList.AllDomains | adguardhome.py:62-64 | no contract of its own; specified by `UnionOfConcat`, `AllDomainsOfSameDocs` and `AllDomainsHaveNoSlash` |
| DomainList.BetweenSlashesCases | adguardhome.py:50-59 | a token exists exactly when the line holds two `/`; it never holds a `/`; its characters come from the line |
| DomainList.BetweenSlashesOf | adguardhome.py:50-59 | for `pre/domain/post` with no `/` in `pre` or `domain`, the token is exactly `domain` |
| DomainList.BetweenSlashesParts | adguardhome.py:50-59 | a found token sits right after the first `/` of the line and right before the next `/` |
| DomainList.ParseLineCases | adguardhome.py:45-59 | a line is passed over exactly when its stripped text does not start with `server=`; it is malformed exactly when it does but has fewer than two `/`; a routed domain holds no `/` and only characters of the line |
| DomainList.ServerLineYieldsDomain | adguardhome.py:45-60 | leading whitespace, `server=/`, a domain without `/`, then `/` and anything: the line routes exactly that domain |
| DomainList.EmptyDomainKept | adguardhome.py:59-60 | `server=//...` routes the empty domain; nothing rejects it |
| DomainList.TwoServerLines | adguardhome.py:44-60 | two `server=` lines around a line that routes nothing contribute exactly their two domains |
| DomainList.ExampleList | adguardhome.py:44-60 | the concrete list `server=/example.cn/1.2.3.4`, `bad-line`, `server=/foo.com/5.6.7.8` gives `{example.cn, foo.com}` |
| DomainList.ExampleOtherLine | adguardhome.py:45-48 | `bad-line` does not start with `server=` and is passed over |
| DomainList.SkippedLineAddsNothing | adguardhome.py:46-57 | a line that is not a `server=` line, or lacks two `/`, can be removed from a document without changing its domains |
| DomainList.UnionOfMembers | adguardhome.py:44-60 | a domain is gathered exactly when some line (or document) contributes it |
| DomainList.UnionOfConcat | adguardhome.py:62-64 | processing two documents one after the other gives the union of their domains: the set only grows, and duplicates collapse |
| DomainList.UnionOfStep | adguardhome.py:44-60 | processing one more line or document adds exactly what it contributes |
| DomainList.UnionOfSameElements | adguardhome.py:62-64 | only which documents are processed matters, not their order or repetition |
| DomainList.AllDomainsOfSameDocs | adguardhome.py:62-64 | the order of the configured downloads does not change the final set |
| DomainList.DomainsHaveNoSlash | adguardhome.py:59-60 | no domain gathered from a document holds a `/` |
| DomainList.DomainsAvoid | adguardhome.py:44-60 | a character found in no line of a document is in none of its domains |
| DomainList.AllDomainsAvoid | adguardhome.py:62-64 | a character found in no line of any downloaded document is in none of the gathered domains |
| DomainList.AllDomainsHaveNoSlash | adguardhome.py:62-64 | no domain gathered from any number of documents holds a `/` |
| Config.RecordLine | adguardhome.py:76 | no contract of its own; specified by `RecordLineNamesDomain` and `RecordLineAvoids` |
| Config.RecordLines | adguardhome.py:75-76 | no contract of its own; specified by `RecordLinesSnoc`, `RecordLinesSplit` and `EndsWithNewline` |
| Config.Render | adguardhome.py:72-81 | no contract of its own; specified by `RenderShape`, `OutputLines` and `GeneratedLines` |
| Config.RecordLineAvoids | adguardhome.py:76 | a character other than `[`, `/`, `]` that is in neither the domain nor the resolvers is not in the directive |
| Config.RecordLineSeq | adguardhome.py:75-76 | one directive line per element of the enumeration, in the same order |
| Config.RenderShape | adguardhome.py:73-81 | the output starts with the trusted block and a newline; the text read from an existing extra file is its suffix; without one, the output ends with a newline |
| Config.EndsWithNewline | adguardhome.py:76 | the text of a non-empty set of directives ends with a newline |
| Config.RecordLinesSnoc | adguardhome.py:75-76 | writing one more record appends exactly its directive and a newline |
| Config.RecordLinesSplit | adguardhome.py:75-76 | when neither the records nor the China resolvers hold a newline, the directive text read back line by line is one line per record, followed by the empty rest after the last newline |
| Config.OutputLines | adguardhome.py:73-76 | when neither the records nor the China resolvers hold a newline, the output without an extra file read line by line is the trusted lines, then the directives, then nothing |
| Config.GeneratedLines | adguardhome.py:73-76 | when neither the resolvers nor the records hold a newline, the output read line by line is one line per trusted resolver (one empty line when there are none), then exactly one directive per record (the enumeration has as many entries as the set), then nothing |
| Config.RecordLineNamesDomain | adguardhome.py:76 | the directive for a domain that holds no `/` names that domain between its first two `/` |
| Config.EnumerationSize | adguardhome.py:75 | an enumeration of the set has exactly as many entries as the set |
| AdGuardHome.Downloaded | adguardhome.py:63-64 | the bodies downloaded in order: every URL before the first failing one is in `web` and gives its body; the URL right after them fails |
| AdGuardHome.RunOutputLines | adguardhome.py:62-76 | when no line of the bodies actually downloaded and no resolver holds a newline, the output written for the records of a run that started empty reads back as one line per trusted resolver (one empty line when there are none), then exactly one directive per gathered domain, then nothing |
| AdGuardHome.ChinaDnsAdguardHome.constructor | adguardhome.py:30-38 | the URLs are kept, the China resolvers are joined by spaces, the trusted ones by newlines, and the records start empty |
| AdGuardHome.ChinaDnsAdguardHome.FetchAndProcessOne | adguardhome.py:40-60 | a successful download adds exactly the domains of its document to `records`; a failed one raises and leaves `records` unchanged; no record holds `/` |
| AdGuardHome.ChinaDnsAdguardHome.FetchAndProcess | adguardhome.py:62-69 | `records` grows by the domains of every document downloaded before the first failure; the run fails with that URL, otherwise with the record count when fewer than 70000, otherwise passes |
| AdGuardHome.ChinaDnsAdguardHome.Write | adguardhome.py:71-81 | the output is the rendering of `records` in an order that lists every record exactly once, followed by the extra file's text when it exists; from a state where no record holds `/`, each directive line names its own record between its slashes |
| AdGuardHome.ChinaDnsAdguardHome.Run | adguardhome.py:83-85 | output is produced exactly when every download succeeded and the threshold is met; otherwise the error is the first failed URL or the record count; the output is a rendering of the final records |

## Left out

- Network access: `urllib.request.urlopen`, reading the response and UTF-8
  decoding (adguardhome.py:41-43). A download is a lookup in `web`. Any
  exception `urlopen` raises, and a decoding error of the body, becomes
  `FetchError(url)`.
- AdGuardHome.Downloaded: `web` is a map, so the network is assumed to
  answer the same URL the same way within one run; a URL listed twice in
  `configUrls` gives the same body, or the same failure, both times, while
  the program makes two independent requests.
- `splitlines()` (adguardhome.py:44): a downloaded body is given directly as
  its sequence of lines. So the model does not state which characters
  Python treats as line boundaries.
- File I/O: opening and truncating the output file, `Path.exists` and reading
  the extra file (adguardhome.py:72, 78-81). The extra file's text is an
  `Option<string>` parameter, and the output is a returned string.
- Config.RenderShape: the suffix it promises is the text a text-mode
  `read()` of the extra file returns (adguardhome.py:80-81), after newline
  translation and the locale's decoding; it does not promise that the bytes
  on disk reappear unchanged.
- AdGuardHome.ChinaDnsAdguardHome.Write: `extra` stands for that text-mode
  read. The case where the output path and the extra file are the same file
  is not modelled: there the output is truncated (adguardhome.py:72) before
  the extra file is read, so what is appended is whatever part of the
  generated text has already reached the file.
- The `print` diagnostics (adguardhome.py:42, 52, 56).
- Argument parsing and the `__main__` block (adguardhome.py:88-134). The
  constructor takes the three lists directly. The extra-file path is not
  kept, because the file's content is passed to `Write` instead.
- The iteration order of Python's `set` in `write`. `Write` may pick any
  enumeration, and returns the one it used.
- Exceptions other than a failed download and the threshold `ValueError`,
  such as write errors.
- Concurrency: the code has none.
