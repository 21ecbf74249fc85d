# bs4_parser_pep in Dafny

A model of the core of `bs4_parser_pep`, a command-line scraper of the
Python documentation and of the PEP index. The user names a mode. The
scraper fetches pages, walks the parsed HTML and builds a table of rows, or
downloads the documentation archive. The model covers the following:

- **The tag locator and the page fetcher** (`find_tag`, `get_response`,
  `get_soup`).
  - A parsed page is an HTML tree (`Html.Node`).
  - `find`/`find_all` return the matching descendants in document order.
  - The HTTP session is a value (`Utils.Session`). For each URL it says what
    one GET gives: a response, a `RequestException`, or any other exception.
  - The response is a class whose `encoding` field `get_response` overwrites.
- **The four extraction routines.** Each one is a method proved equal to a
  specification function of the session:
  - `whats_new` and `latest_versions` build their tables row by row;
  - `download` finds the A4 PDF archive and saves its bytes under the URL's
    last segment;
  - `pep` counts the statuses shown on every PEP page into an
    insertion-ordered dictionary and appends a `Total`. It logs a mismatch
    whenever a page's status is not one its index letter allows.
  The loop they share (skip an item whose page could not be fetched, stop at
  the first exception) is `Tables.Collect`. Its meaning is proved once, in
  `Tables.CollectMeaning`.
- **The dispatcher** (`MODE_TO_FUNCTION` and `main`).
  - It selects a routine by name.
  - It re-raises any exception from the routine once, as
    `ParserDefinitionException` with a fixed prefix.
  - It hands a result to the output only when the result is not `None`.
- **The expected-status table** `EXPECTED_STATUS`.

Exceptions are values of `Exceptions.Error`. A routine returns
`Result<Option<T>, Error>`:
- `Err(e)` means it raised `e`;
- `Ok(None)` means it returned `None`.

Two details of the code that the model keeps as written:
- `pep_count['Total'] = ...` is an assignment. When some PEP page shows the
  literal status `Total`, that entry's count is replaced in place rather
  than a new entry being appended (`Counting.TotalOverwritesStatus`).
- The status code is the whole first cell without its first character,
  `td.text[1:]`, not a single character (`Pep.StatusCode`).

## Model

| member | source | states |
|---|---|---|
| Constants.ExpectedStatusCodes | src/constants.py:15-24 | The status table has exactly the keys A, D, F, P, R, S, W and the empty code. |
| Constants.ExpectedStatusEntries | src/constants.py:15-24 | What each code allows: '' allows Draft and Active, A allows Active and Accepted, and D, F, P, R, S and W allow one status each. |
| Constants.ExpectedStatusShape | src/constants.py:15-24 | No code allows nothing, and Active is allowed under both A and ''. |
| Strings.Contains | src/main.py:56 | Python's `sub in s`: `sub` starts at some position of `s`. `Strings.ContainsAt` states that an occurrence at a known position makes it true, and `LatestVersions.FirstHolding` uses it for the `'All versions' in ul.text` test. |
| Strings.ContainsAt | src/main.py:56 | An occurrence at a known position makes `sub in s` true. |
| Strings.ReplaceNewlines | src/main.py:42 | `replace('\n', ' ')`: same length, every newline becomes a space and every other character stays, so no newline remains. |
| Strings.Split | src/main.py:92 | `split('/')`: at least one piece, no piece holds the separator, and joining the pieces gives back the input. |
| Strings.SplitFirst | src/main.py:92 | A first piece without the separator is split off as it stands. |
| Strings.SplitWithoutSeparator | src/main.py:92 | A string without the separator splits into itself alone. |
| Html.At | src/main.py:123-125 | The node a path of child indices leads to, or none when an index runs past a node's children; it is how the model names `.parent` and `.next_sibling` (`Html.AtParent`, `Html.NextSibling`). |
| Html.Descendants | src/utils.py:32 | bs4's `.descendants`: every node below the root in document order (preorder), each with its path; `Html.DescendantsAreAt` states that each sits at its path. |
| Html.PassesAttr | src/main.py:26 | One attribute filter: the value equals the wanted string (or, for the `href` filter, satisfies `.+pdf-a4\.zip$`); for `class`, any one of the space-separated class names may pass instead. `Html.ClassNamePasses` states the multi-valued case. |
| Html.EndsWithArchiveSuffix | src/main.py:88 | `re.search(r'.+pdf-a4\.zip$', v)`: `pdf-a4.zip` ends the value, or comes just before a final newline (where `$` also matches), with at least one non-newline character before it. |
| Html.Satisfies | src/utils.py:32 | What `find`/`find_all` accept: a tag of the wanted name whose attributes pass every filter entry, or, for `string=re.compile(r'^Status$')`, a string that is `Status` or `Status` followed by a newline. |
| Html.DescendantsAreAt | src/utils.py:32 | Every descendant `find` scans is listed under a non-empty path that leads to it. |
| Html.FirstFrom | src/utils.py:32 | The first index from `i` on whose node the query accepts; when there is none, no later node is accepted. |
| Html.Find | src/utils.py:32 | `find` returns a node at its own path that the query accepts. |
| Html.Select | src/main.py:27-29 | `find_all` keeps exactly the accepted nodes: each one it returns is accepted, and every accepted node scanned is returned. |
| Html.FindAll | src/main.py:27-29 | `find_all` returns exactly the descendants the query accepts. |
| Html.SelectConcat | src/main.py:27-29 | Selecting from two stretches keeps the nodes of the first, then those of the second. |
| Html.SelectNext | src/main.py:27-29 | Document order: one more scanned descendant is appended when accepted, and otherwise changes nothing. |
| Html.ClassNamePasses | src/main.py:26 | A `class` value listing a name followed by other names passes a filter asking for that name. |
| Html.ClassFilterFinds | src/main.py:26 | An element like `<div class="toctree-wrapper compound">` is accepted by `{'class': 'toctree-wrapper'}`. |
| Html.TextOf | src/main.py:43 | `Tag.text`: every string of the subtree, concatenated in document order. The whats-new rows and the status card are stated in terms of it. |
| Html.FindIsFirstOfFindAll | src/utils.py:32 | `find` finds nothing exactly when `find_all` is empty; otherwise it finds the first node `find_all` lists. |
| Html.Shifted | src/main.py:125 | The path `k` places later under the same parent. |
| Html.NextSibling | src/main.py:125 | `.next_sibling` is the node one place later under the same parent, and it exists exactly when that path leads somewhere. |
| Html.AtParent | src/main.py:124 | `.parent` of a node found below the root is the element whose child it is. |
| Html.AtConcat | src/main.py:123-124 | A path below a found node is a path below the root. |
| Urls.LastSegment | src/main.py:92 | `archive_url.split('/')[-1]`: the last piece of the split; `Urls.LastSegmentIsFinal` states that it has no slash and ends the URL right after its last slash. |
| Urls.JoinEndsWithLast | src/main.py:92 | Joined pieces end with the last piece, right after a separator when there are several pieces. |
| Urls.LastSegmentIsFinal | src/main.py:92 | `url.split('/')[-1]` is the final slash-free stretch of the URL. |
| Urls.FinalSegmentUnique | src/main.py:92 | A URL has only one final slash-free stretch. |
| Urls.FinalSegmentEndsWith | src/main.py:92 | A slash-free ending of a URL also ends its final segment. |
| Urls.LastSegmentKeepsEnding | src/main.py:92 | The last segment has no slash and keeps any slash-free ending of the URL. |
| Urls.LastSegmentOfAppend | src/main.py:91-92 | A prefix that is empty or ends with a slash, or any prefix of a link holding a slash, leaves the last segment unchanged. |
| Urls.FinalSegmentOfAppend | src/main.py:91-92 | Under those conditions a final segment stays final behind the prefix. |
| Urls.HostLength | src/main.py:118 | The host part ends before the first slash. |
| Urls.UrlJoin | src/main.py:91 | `urljoin` for the links these pages hold: an empty link gives the base, an absolute one replaces it, a root-relative one keeps the base's origin, and any other resolves against the base's directory. Its properties are `Urls.JoinBelowDirectory` and `Urls.JoinedLastSegment`. |
| Urls.Directory | src/main.py:35 | The base up to and including its last slash; followed by the last segment it gives back the base. |
| Urls.JoinBelowDirectory | src/main.py:21 | Joining a relative link to a base that ends with a slash appends the link. |
| Urls.JoinedLastSegment | src/main.py:91-92 | However a non-empty link is resolved, the joined URL's last segment is the link's own last segment. |
| Utils.Response.constructor | src/utils.py:20 | A new response holds the body, the parse and the encoding the server sent. |
| Utils.Get | src/utils.py:20 | `session.get`: a fresh response on success; a `RequestException` or another exception otherwise. |
| Utils.GetResponse | src/utils.py:17-27 | `None` exactly when the GET raised `RequestException`; any other exception propagates; a response has its encoding set to the requested one, 'utf-8' by default. |
| Utils.Response.Soup | src/utils.py:14 | `BeautifulSoup(response.text, 'lxml')`: the page parsed under the encoding the response holds now. `Utils.GetSoup` states that, after `get_response` has set utf-8, this is the page parsed under utf-8. |
| Utils.GetSoup | src/utils.py:9-14 | `None` exactly when `get_response` gave `None`; otherwise the page parsed from the body decoded as UTF-8. |
| Utils.SoupOf | src/utils.py:9-14 | The value `get_soup` returns for one reply: the page parsed under utf-8, `None` on `RequestException`, any other failure raised; `Utils.GetSoup` is proved to return it. |
| Utils.TagQuery | src/utils.py:32 | `attrs or {}`: no filter searches with the empty filter; `Utils.FindTagWithoutFilter` states that this matches any attributes. |
| Utils.FindTag | src/utils.py:30-37 | It succeeds exactly when `find_all` with the tag and filter is non-empty, and then returns its first node, which matches. Otherwise it raises naming the tag and the filter; it never returns `None`. |
| Utils.FindTagWithoutFilter | src/utils.py:32 | With `attrs=None` any attributes match: it finds an element exactly when some descendant has the name, the same element as with an empty filter. |
| Tables.Collect | src/main.py:31-45 | The row loop over the items seen so far: the rows of items that raised nothing, an item whose step gives `None` skipped (`continue`), and the first exception stopping it; `Tables.CollectMeaning` states its meaning. |
| Tables.Kept | src/main.py:31-45 | The rows of a list of items none of which raises, in item order, skipped items left out; `Tables.KeptHas` and `Tables.KeptFrom` state both directions. |
| Tables.KeptAppend | src/main.py:32-43 | One more item that raises nothing adds its row, if it has one, at the end. |
| Tables.CollectMeaning | src/main.py:32-43 | The loop finishes exactly when no item raises, and then holds the rows of every fetched item in order. Otherwise it stopped at the first item that raised, with that exception and the rows before it. |
| Tables.CollectNext | src/main.py:32-43 | One more turn of a loop that has not stopped. |
| Tables.CollectStep | src/main.py:32-43 | One turn: an item that raises stops the loop for good, and any other item adds its row, if any. |
| Tables.CollectStops | src/main.py:32-43 | After the loop has stopped, later items change nothing. |
| Tables.KeptAll | src/main.py:32-43 | A property of every row produced holds of every row kept. |
| Tables.KeptFrom | src/main.py:32-43 | Every row the loop keeps is the row of one of the items. |
| Tables.KeptHas | src/main.py:31-45 | Every row an item yields is among the rows kept. |
| Tables.TableRowsFrom | src/main.py:32-45 | Every row after the header of a table built by the loop is the row of one of the items. |
| Tables.KeptEvery | src/main.py:64-74 | When every item yields a row, the loop keeps exactly one row per item, in order. |
| Tables.EveryRowTable | src/main.py:62-76 | The table is then the header followed by one row per item, all as wide as the header. |
| WhatsNew.WhatsNewUrlIsJoined | src/main.py:21 | The index URL is `urljoin(MAIN_DOC_URL, 'whatsnew/')`. |
| WhatsNew.Items | src/main.py:25-29 | The `li.toctree-l1` items of the first `div.toctree-wrapper` of the section `#what-s-new-in-python`, in document order; a missing section or div raises `TagNotFound`. |
| WhatsNew.ItemLink | src/main.py:33-35 | The item's first `a` href joined to the index URL; an item without `a` raises `TypeError` and an `a` without `href` raises `KeyError`. |
| WhatsNew.ItemRow | src/main.py:33-43 | An item whose link resolves gives no row exactly when its page's GET raised `RequestException`. A link that cannot be read and any other GET failure raise. On a fetched page without an h1, or without a dl, it raises `TagNotFound` for that tag. Otherwise the row is the page URL, the text of the page's first h1, and the text of its first dl with every newline made a space, so no newline remains. |
| WhatsNew.WhatsNewOf | src/main.py:19-45 | The routine's whole effect: `None` when the index cannot be fetched, the first exception raised, or the table. `WhatsNew.WhatsNewTable` states what the table holds. |
| WhatsNew.SectionsTable | src/main.py:31-45 | What the loop over the items ends with: the first exception raised, or the header followed by the rows kept. `WhatsNew.SectionsTableMeaning` states its meaning, and `WhatsNew.FetchSections` is proved to return it. |
| WhatsNew.FetchItemRow | src/main.py:33-43 | The loop body computes the row `ItemRow` specifies. |
| WhatsNew.NextItem | src/main.py:32-43 | One turn of the loop either stops the table with the item's exception or appends the item's row, if any, to the rows kept so far. |
| WhatsNew.FetchSections | src/main.py:31-45 | The loop over the index items ends with the table `SectionsTable` specifies. |
| WhatsNew.WhatsNew | src/main.py:19-45 | The routine returns what `WhatsNewOf` specifies. |
| WhatsNew.WhatsNewTable | src/main.py:19-45 | A table means the index was fetched and no item raised. It is the header, then one row per item whose page was fetched, in index order. Every row is the row `ItemRow` gives for one of the items, three wide with no newline in the dl text. |
| WhatsNew.SectionsTableMeaning | src/main.py:31-45 | The same for the loop alone, over any list of items. |
| WhatsNew.RowsShape | src/main.py:31-43 | The header followed by such rows is a rectangular table. |
| WhatsNew.KeptRows | src/main.py:42-43 | Every kept row has three fields and a newline-free dl text. |
| LatestVersions.DigitsEnd | src/main.py:63 | `\d+` is greedy: it stops at the first non-digit. |
| LatestVersions.LineEnd | src/main.py:63 | `.` does not cross a newline. |
| LatestVersions.LastClose | src/main.py:63 | The greedy `.*` gives back to the last `)` of the line. |
| LatestVersions.VersionEnd | src/main.py:63 | `Python \d\.\d+ \(` at a position: "Python ", a version, then " (". |
| LatestVersions.MatchAt | src/main.py:63 | A match at `i` starts at `i`, its version is `\d\.\d+` and its status holds no newline. |
| LatestVersions.MatchAtComplete | src/main.py:63 | Conversely, a position that spells "Python ", a version, " (" and later on the same line a ")" is matched there, with that version and a status reaching at least to that ")". |
| LatestVersions.MatchAtSpells | src/main.py:63 | The match spells "Python ", the version, " (", the status and ")" at its position, with no `)` after it on the line. |
| LatestVersions.SpellOut | src/main.py:63 | The matched text splits into its five pieces. |
| LatestVersions.LineEndFrom | src/main.py:63 | Starting inside a line finds the same line end. |
| LatestVersions.SearchFrom | src/main.py:66 | `re.search` finds the leftmost position where the pattern matches, and finds nothing only when no position matches. |
| LatestVersions.Search | src/main.py:66 | `re.search(pattern, text)`: the leftmost match, or none when no position matches. |
| LatestVersions.SearchFindsPattern | src/main.py:66-68 | Wherever the pattern is spelled out, even inside a longer text, the search finds a match there or earlier, so the row does not take the fallback. |
| LatestVersions.VersionTextMatches | src/main.py:63-68 | A text "Python v.vv (status)" on one line yields exactly that version and that status. |
| LatestVersions.VersionTextExample | src/main.py:63-68 | "Python 3.10 (Deferred)" yields version 3.10 and status Deferred. |
| LatestVersions.NoMatchWithoutPrefix | src/main.py:66-70 | A text never saying "Python " takes the fallback row. |
| LatestVersions.VersionRow | src/main.py:65-74 | A row is the href, then the version and status when the text matches, else the whole text and ''. A link without href raises. |
| LatestVersions.FirstHolding | src/main.py:55-58 | The first list whose text contains "All versions", or none when no list does. |
| LatestVersions.SidebarLists | src/main.py:53-54 | Every `ul` of the first `div.sphinxsidebarwrapper`, in document order; a missing sidebar raises `TagNotFound`. |
| LatestVersions.VersionLinks | src/main.py:55-60 | The `a` tags of the first list whose text contains `All versions` (`LatestVersions.FirstHolding`), or `NothingFound` when no list does. |
| LatestVersions.LatestVersionsOf | src/main.py:48-76 | The routine's whole effect: `None` when the page cannot be fetched, the first exception raised, or the table. `LatestVersions.LatestVersionsTable` and `LatestVersions.NoVersionListRaises` state what it holds. |
| LatestVersions.LatestVersions | src/main.py:48-76 | The routine, including its for/else search for the list, returns what `LatestVersionsOf` specifies. |
| LatestVersions.LinksTable | src/main.py:62-76 | What the loop over the chosen list's links ends with: the first `KeyError`, or the header and one row per link. `LatestVersions.TableOfLinks` states its meaning. |
| LatestVersions.VersionRows | src/main.py:62-76 | The loop over the links ends with the table `LinksTable` specifies. |
| LatestVersions.LatestVersionsTable | src/main.py:48-76 | A table means the page has a list mentioning "All versions". It is the header, then exactly one row per link of the first such list, in order, each that link's row. |
| LatestVersions.TableOfLinks | src/main.py:62-76 | The same for the loop alone. |
| LatestVersions.NoVersionListRaises | src/main.py:55-60 | With no sidebar list mentioning "All versions" the routine raises `ParserFindTagException('Ничего не нашлось')`. |
| Download.DownloadsUrlIsJoined | src/main.py:81 | The downloads URL is `urljoin(MAIN_DOC_URL, 'download.html')`. |
| Download.ArchiveLink | src/main.py:85-90 | The link found matches `.+pdf-a4\.zip$`. |
| Download.DownloadOf | src/main.py:79-98 | What the routine saves: nothing when the downloads page cannot be fetched, the first exception raised, or the archive. `Download.DownloadedArchive` states what the archive holds. |
| Download.Download | src/main.py:79-98 | The routine saves what `DownloadOf` specifies; a failure to fetch the archive itself is not caught. |
| Download.ArchiveNameOfLink | src/main.py:88-92 | The last segment of a link matching the archive pattern has no slash and ends with `pdf-a4.zip`. |
| Download.DownloadedArchive | src/main.py:79-98 | A saved archive holds exactly the bytes served for the joined archive URL. Its name is the last segment of the link on the page, with no slash, ending with `pdf-a4.zip`. |
| Counting.Keys | src/main.py:138 | The keys of the dictionary, one per entry, in order. |
| Counting.Sum | src/main.py:137 | `sum(pep_count.values())`: the sum of the counts, in any key order. |
| Counting.Occurrences | src/main.py:126-128 | How many of the statuses equal a given one: the number the tally must hold for it (`Counting.TallyMeaning`). |
| Counting.FirstSeen | src/main.py:138 | The order of a dict's keys: each distinct status once, in order of first occurrence (`Counting.FirstSeenMeaning`). |
| Counting.Lookup | src/main.py:126-129 | Reading a status's count, 0 when absent (`Counting.GetAbsent`). |
| Counting.Put | src/main.py:127-128 | `d[k] = v` on the insertion-ordered dictionary; `Counting.PutMeaning` states its meaning. |
| Counting.PutMeaning | src/main.py:127-128 | `d[k] = v`: `k` reads `v` and every other key is unchanged. The keys stay in place, a new key is appended, and the sum changes by `v` minus the old value. |
| Counting.PutValues | src/main.py:127-128 | The value part of that statement. |
| Counting.PutKeys | src/main.py:127-128 | The key-order part of that statement. |
| Counting.PutTwice | src/main.py:127-128 | A second assignment to a key overrides the first. |
| Counting.GetAtDistinct | src/main.py:138 | With distinct keys every entry holds what its key reads. |
| Counting.FirstSeenMeaning | src/main.py:138 | The first-seen order lists every status exactly once. |
| Counting.GetAbsent | src/main.py:110 | A status not yet counted reads 0. |
| Counting.IncrementNew | src/main.py:126-128 | Setting a new status to 0, then adding one, is adding one to what it reads. |
| Counting.Increment | src/main.py:126-128 | `if s not in d: d[s] = 0; d[s] += 1` adds one to the status's count. |
| Counting.TallyAppend | src/main.py:126-128 | Counting one more status is that increment. |
| Counting.Tally | src/main.py:113-128 | The dictionary after counting a list of statuses one by one; `Counting.TallyMeaning` states what it holds. |
| Counting.Totalled | src/main.py:137 | After `pep_count['Total'] = sum(...)` "Total" reads the sum of the counts and every other status reads what it did. |
| Counting.TallyMeaning | src/main.py:113-128 | The tally holds each distinct status once, in first-seen order, with the number of times it occurs; the counts add up to the number of statuses. |
| Counting.TallyKeys | src/main.py:113-128 | The key-order part of that statement. |
| Counting.KeysAfterPut | src/main.py:126-128 | Counting a status keeps the keys in first-seen order. |
| Counting.TallyCounts | src/main.py:113-128 | The count part of that statement. |
| Counting.TotalComesLast | src/main.py:137-138 | When no status is "Total", the final assignment appends ("Total", number of pages counted) last. |
| Counting.TotalOverwritesStatus | src/main.py:137 | When a status is "Total", its entry keeps its place and its count becomes the total. |
| Counting.PutAppends | src/main.py:127 | Assigning a new key appends it. |
| Pep.StatusCode | src/main.py:115 | `td.text[1:]`: the cell without its first character, '' for an empty cell. |
| Pep.RowLink | src/main.py:116-118 | `urljoin(PEP_DOC_URL, a['href'])` of the row's first `a`: a missing `a` raises `TagNotFound('a')` and a missing `href` raises `KeyError('href')`. |
| Pep.IndexRows | src/main.py:107-109 | The `tr` rows under the first `tbody` of the section `#numerical-index`, in document order; a missing section or `tbody` raises `TagNotFound`. |
| Pep.StatusLabel | src/main.py:123-124 | The path of the parent of the first `Status` string, in document order, inside the page's first dl (the dl `find_tag` returns); that parent is an element holding the string. With no dl it raises `TagNotFound`; with no such string, `AttributeError` on `None.parent`. |
| Pep.LabelAt | src/main.py:124 | That parent is an element holding the `Status` string. |
| Pep.StatusCard | src/main.py:125 | The text of the node two siblings after the label. A missing first sibling raises on `next_sibling`, a missing second one on `text`. |
| Pep.PepRow | src/main.py:114-131 | A missing `td` raises `TagNotFound('td')`; then `RowLink`'s error propagates; with both present the row is skipped exactly when its own link's GET raised `RequestException`, a crashed GET or a status-card error propagates, an unknown code raises `KeyError(code)`, and otherwise the observation holds that link, the code from the `td` text, the card and the code's expected statuses (a disallowed card is kept). |
| Pep.RowSkipped | src/main.py:114-121 | A row that raises nothing has a link, and is skipped exactly when that link's GET raised `RequestException`; otherwise it observes that link. |
| Pep.PepKeptRows | src/main.py:113-128 | When no row raises, the loop drops exactly the rows whose page raised `RequestException`; every other row's observation is counted, and everything counted comes from a served page. |
| Pep.Mismatches | src/main.py:129-136 | Nothing is logged exactly when every status is allowed by its code; every log entry reports a page whose status its code does not allow. |
| Pep.CountRows | src/main.py:138 | `result.extend(pep_count.items())`: one (status, count) row per entry, in order. |
| Pep.FetchPepRow | src/main.py:114-125 | The loop body computes the observation `PepRow` specifies. |
| Pep.CountedNext | src/main.py:126-128 | Counting one more page is the dictionary increment. |
| Pep.LoggedNext | src/main.py:129-136 | One more page logs one mismatch exactly when its status is not allowed. |
| Pep.Record | src/main.py:126-136 | The in-place update of the dictionary and of the log keeps both equal to what the pages seen so far give. |
| Pep.PepOf | src/main.py:102-140 | The routine's whole effect: `None` when the index cannot be fetched, the first exception raised, or the count table. `Pep.PepTable` states what it holds. |
| Pep.PepLogOf | src/main.py:113-136 | The mismatches logged for the pages read before the routine returns or raises. |
| Pep.IndexTable | src/main.py:113-140 | What the loop over the index rows ends with: the first exception raised, or the count table of the pages read. `Pep.IndexTableStops` and `Pep.IndexTableFinishes` state both cases, and `Pep.CountStatuses` is proved to return it. |
| Pep.Pep | src/main.py:102-140 | The routine returns what `PepOf` specifies and logs what `PepLogOf` specifies. |
| Pep.NextRow | src/main.py:113-125 | One turn of the loop either stops the routine with the row's exception, the log holding the mismatches seen so far, or adds the row's page to the pages seen. |
| Pep.Finish | src/main.py:137-140 | The total and the rows built from the full tally are the table `IndexTable` specifies. |
| Pep.CountStatuses | src/main.py:110-140 | The loop and the final total give `IndexTable`, and the log holds the mismatches of the pages read before any exception. |
| Pep.IndexTableStops | src/main.py:113-129 | A row that raises ends the routine with that exception. |
| Pep.IndexTableFinishes | src/main.py:113-140 | A loop that raised nothing yields the totalled tally of the pages read. |
| Pep.PepTable | src/main.py:102-140 | A table means the index was fetched and no row raised. It is the count table of the statuses of the fetched pages, in index order. |
| Pep.CountTable | src/main.py:112-138 | The table `pep` returns for the statuses read: the header, then `pep_count.items()` after the total is assigned. `Pep.CountTableMeaning` states its meaning. |
| Pep.CountTableMeaning | src/main.py:110-138 | The header, then (status, count) rows; each count is the number of pages showing that status. Unless a page showed "Total", the rows are labelled with the distinct statuses in first-seen order, and then a last row ("Total", number of pages read). |
| Pep.CountTableShape | src/main.py:112-138 | The table is two wide: a status and a count. |
| Pep.CountRowsShape | src/main.py:112-138 | The header over the items of any dictionary is a two-column table of a status text and a count. |
| Pep.CountTableCounts | src/main.py:126-138 | Each status other than "Total" is counted exactly. |
| Pep.CountTableTotal | src/main.py:137-138 | With no status "Total", row k+1 is labelled with the k-th distinct status in first-seen order, and the Total row comes last. |
| Pep.CountTableAppendsTotal | src/main.py:137-138 | With no status "Total", the table is the header, the tally's rows, and the row `("Total", number of pages)` last. |
| Pep.TotalRowLast | src/main.py:138 | `result.extend(...)` of a tally with "Total" appended gives one row per entry, labelled by its key in dict order, then the total row. |
| Pep.TotalledEntry | src/main.py:137-138 | Totalling leaves every other entry's count as tallied. |
| Pep.CountTableExample | src/main.py:110-138 | Pages Active, Active, Final give the rows Active 2, Final 1, Total 3. |
| Pep.EmptyCodeMismatch | src/main.py:115-136 | A page with no status letter that shows Rejected raises nothing and is logged as a mismatch. |
| Exceptions.Message | src/main.py:165 | `str(error)` for each exception a routine can raise. |
| Dispatch.FailureMessage | src/main.py:164-167 | The message is the fixed prefix followed by the original error's text. |
| Dispatch.RunOf | src/main.py:143-169 | `MODE_TO_FUNCTION[mode](session)` inside the `try`: an unknown mode is refused, and a raised exception becomes the wrapped failure. `Dispatch.RunMeaning` states its meaning. |
| Dispatch.Routine | src/main.py:163 | `MODE_TO_FUNCTION[parser_mode](session)`: the routine of the mode, with what it returns and, for `download`, what it saves. `Dispatch.RunMeaning` and `Dispatch.OnlyDownloadSaves` state its meaning. |
| Dispatch.Run | src/main.py:151-170 | `main`, from the mode on, returns what `RunOf` specifies. |
| Dispatch.ModeNames | src/main.py:143-148 | `MODE_TO_FUNCTION` (`Dispatch.ModeToFunction`): the four mode names are exactly its keys, each selecting its own routine. |
| Dispatch.RunMeaning | src/main.py:162-169 | A run fails exactly when its routine raises, wrapped once with the routine's message behind the prefix. Otherwise the routine's result reaches the output unchanged, and nothing reaches it when the result is `None`. |
| Dispatch.OnlyDownloadSaves | src/main.py:143-169 | Only `download` writes an archive, and it never hands a table to the output. |

## Left out

- HTTP and its cache (`requests_cache.CachedSession`, `clear_cache`, src/main.py:158-160) are not modelled. The session is a parameter that says, for each URL, what one GET gives.
- The lxml parser is not modelled. A response carries the tree its body parses to under each encoding.
- Html.PassesAttr: `class` is split into names at single spaces only. BeautifulSoup splits at any run of whitespace and compares the filter with the names re-joined by one space.
- Writing the archive to disk and creating the downloads directory (src/main.py:93-98) are left out. `download` returns the file name and the bytes it would write.
- `logging` and `tqdm` calls are left out. The one log the routines promise something about, the PEP status mismatches, is returned as data (`Pep.Mismatch`), not as formatted text.
- `configs.py` is not part of this model: the argument parser, the logging setup and the `--clear-cache` and `--output` options. Only its restriction of the mode to the table's keys is kept (`Dispatch.Outcome.UsageError`).
- `outputs.control_output` is not part of this model. `Dispatch.Run` returns the table it would be given.
- The exception classes module is not part of this model. Exceptions are the variants of `Exceptions.Error`, and `str(error)` is approximated by `Exceptions.Message`.
- Exceptions.Message: a Python string that needs escapes in its `repr` (a quote, a backslash, a control character) is quoted plainly, without the escapes.
- The regular-expression engine is not modelled. The three patterns used are matched by hand: `Python (?P<version>\d\.\d+) \((?P<status>.*)\)` in `LatestVersions`, `.+pdf-a4\.zip$` in `Html.EndsWithArchiveSuffix`, and `^Status$` (a string `Status`, or `Status` before a final newline) in the `ByString` case of `Html.Satisfies`.
- LatestVersions.IsDigit: `\d` is taken as the ASCII digits only; Python also accepts other Unicode decimal digits.
- Urls.UrlJoin: covers only the links these pages hold. These are absolute `http`/`https` URLs, links starting with `/`, and links relative to the base's directory. It leaves out `.` and `..` segments, queries, fragments and scheme-relative `//host` links.
- `pep` increments the tally before looking up the status letter (src/main.py:126-129). The model looks the letter up first. The two agree, because an unknown letter raises and the tally is discarded.
