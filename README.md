# ao3opds in Dafny

This project models the core of ao3opds. ao3opds is a small Python tool and
web app that turns a user's Archive of Our Own (AO3) reading lists into OPDS
(Atom) feeds and downloads the works on them. The model covers five parts:

- **OPDS entry assembly** (`ao3opds/opds.py`), in module `Opds`.
  - A loaded AO3 work becomes a feed entry, built up field by field in a
    `WorkEntry` class.
  - Its tags become labelled atom:category records (section 4.2.2 of
    RFC 4287).
  - Its authors become Person constructs (section 3.2 of RFC 4287).
  - Its download menu and chapter images become atom:link records
    (section 4.2.7 of RFC 4287).
  - A `Feed` class holds one entry per work.
- **Page scraping and file names** (`ao3opds/download.py`), in module
  `Download`. This covers:
  - cleaning the list of titles;
  - fetching a page with a bounded retry on HTTP 429 (section 4 of RFC 6585);
  - the two fixed regular expressions, written as leftmost matchers;
  - the two-step search for a download URL;
  - the file name taken from a URL;
  - file-name matching up to surrounding whitespace and the last extension;
  - the decisions of `download_EPUB`.
- **Marked-for-Later helpers** (`ao3opds/user.py`), in module `User`. This
  covers:
  - the `request` wrapper that retries on 429;
  - loading the works of the list (the works are objects updated in place);
  - downloading the loaded ones;
  - choosing a file name from the download menu or from the sanitised title.
- **The credential table of the web app** (`ao3opds/app/ao3.py`), in module
  `Credentials`. A `Database` class holds the `ao3` and `feed` tables. Its
  methods are `set_credentials` (insert or update), `delete_credentials` (a
  delete that cascades to `feed`) and the `/ao3/manage` view. The query
  `get_credentials` is a function of the table.
- **Shared primitives.**
  - `Text`: Python's `strip`, `lower`, `upper`, `split` and the
    non-empty-piece filter.
  - `Percent`: percent-decoding as in section 2.1 of RFC 3986. The
    model's own encoder, which is not Python's `quote`, is there as the
    decoder's inverse.
  - `Library`: the library calls the core makes, as opaque functions.
  - `Wrappers`: `Option` and `Result`.

`downloader/download.py` and `downloader/user.py` are byte-for-byte copies
of `ao3opds/download.py` and `ao3opds/user.py`, with the same functions at
the same lines. Each row below that cites an `ao3opds/` file therefore also
states the same property of its `downloader/` copy.

The network, AO3's pages and the AO3 library's objects are not modelled as
code. They become parameters:

- a response oracle indexed by attempt;
- a finder from (URL, pattern) to a search result;
- a call oracle `req(n, args)`;
- `Work` records whose fields the model's methods update.

## Model

| member | source | states |
|---|---|---|
| Text.StripEnds | ao3opds/download.py:37 | the result of `strip()` is empty or neither starts nor ends with whitespace |
| Text.StripShape | ao3opds/download.py:37 | `s` is leading whitespace, then `strip(s)`, then trailing whitespace, so `strip` removes only whitespace and only at the ends |
| Text.StripUnique | ao3opds/download.py:125 | whitespace, then a text with no whitespace at either end, then whitespace strips to exactly that text |
| Text.StripPadded | ao3opds/download.py:125 | adding whitespace around a string does not change its `strip()` |
| Text.StripIdempotent | ao3opds/download.py:37 | stripping twice is stripping once |
| Text.LowerChar | ao3opds/opds.py:94 | `lower` never leaves an upper-case ASCII letter, and it keeps letters letters |
| Text.UpperChar | ao3opds/user.py:124 | `upper` never leaves a lower-case ASCII letter, and it keeps letters letters |
| Text.Lower | ao3opds/opds.py:94 | `lower` keeps the length and lower-cases character by character |
| Text.Upper | ao3opds/user.py:124 | `upper` keeps the length and upper-cases character by character |
| Text.LowerUpper | ao3opds/user.py:110 | for the ASCII case mapping of the model: lower-casing after upper-casing is the same as lower-casing (weaker than Python, see "## Left out") |
| Text.Split | ao3opds/download.py:114 | `split(sep)` gives at least one piece, and no piece contains `sep` |
| Text.SplitJoin | ao3opds/download.py:114 | joining the pieces of `split(sep)` with `sep` gives back the path |
| Text.SplitAppendPiece | ao3opds/download.py:114 | after a `/`, a piece without `/` becomes the last piece of the split |
| Text.NonEmpty | ao3opds/download.py:116-117 | the comprehension keeps exactly the non-empty pieces and never grows the list |
| Text.NonEmptyExact | ao3opds/download.py:116-117 | the comprehension keeps every non-empty piece as often as it occurs, drops every empty one, and keeps the pieces in their order |
| Text.NonEmptyLast | ao3opds/download.py:116-117 | the last kept piece is the last non-empty piece of the split, and only empty pieces follow it |
| Percent.Unquote | ao3opds/download.py:119 | `unquote` never lengthens a string |
| Percent.UnquoteQuote | ao3opds/download.py:119 | decoding undoes percent-encoding for every string |
| Percent.QuotePlain | ao3opds/download.py:119 | text made only of unreserved characters is left alone by both encoding and decoding |
| Percent.QuoteAvoids | ao3opds/download.py:114-119 | an encoded name contains no `/`, so it stays one path segment |
| Download.CleanTitles | ao3opds/download.py:33-40 | there are never more titles than lines |
| Download.CleanTitlesStripped | ao3opds/download.py:37-39 | every title is non-empty and already stripped |
| Download.CleanTitlesAppend | ao3opds/download.py:35-39 | cleaning treats each line on its own and keeps file order (it distributes over concatenation) |
| Download.CleanTitlesSnoc | ao3opds/download.py:35-39 | one more line adds its stripped text at the end exactly when that text is not empty |
| Download.CleanTitlesKeepsText | ao3opds/download.py:37-39 | every line that is not blank contributes its stripped text |
| Download.GetTitles | ao3opds/download.py:30-40 | the append loop yields exactly the cleaned title list |
| Download.GetPage | ao3opds/download.py:42-64 | at most `NUM_WAITS`+1 attempts and one sleep per retry; only 429 answers are retried; a page, `None` or an escaping exception follows from the last answer; a 429 gives `None` only after the waits are used up |
| Download.PersistentTooManyRequests | ao3opds/download.py:17-18 | a server that always answers 429 gets 3 requests and 2 sleeps, and the result is `None` |
| Download.OtherHttpErrorGivesUp | ao3opds/download.py:53-61 | any other HTTP error gives `None` after one attempt and no sleep |
| Download.DigitRun | ao3opds/download.py:20 | `[0-9]+` takes the longest run of ASCII digits |
| Download.NonQuoteRun | ao3opds/download.py:21 | `[^"]+` takes everything up to the next `"` |
| Download.MatchAtIff | ao3opds/download.py:20-21 | a pattern matches at `i` with group `g` exactly when `g` has the group's form and the full match text with `g` stands at `i` |
| Download.WorkNumSound | ao3opds/download.py:20 | a `WORKNUM_RE` match at `i` has a digit group, and its text is on the page |
| Download.WorkNumComplete | ao3opds/download.py:20 | every occurrence of `<a href="/works/N">` with `N` digits is a match with group `N` |
| Download.DownloadSound | ao3opds/download.py:21 | a `DOWNLOAD_RE` match has a `/downloads/…` group without quotes, and its text is on the page |
| Download.DownloadComplete | ao3opds/download.py:21 | every occurrence of the EPUB download anchor is a match with its href as the group |
| Download.Search | ao3opds/download.py:68 | `search` finds the leftmost position where the pattern matches, or reports that none does |
| Download.ParsePage | ao3opds/download.py:66-72 | `None` exactly when no position matches; otherwise group 1 of the leftmost match |
| Download.ParsePageGroup | ao3opds/download.py:66-72 | what `parse_page` returns has the group's form (for `WORKNUM_RE`, a non-empty run of ASCII digits) and occurs on the page |
| Download.FindOnPage | ao3opds/download.py:74-80 | a value found is the parse of a fetched page; `None` exactly when no page comes back or nothing on it matches; an exception escapes exactly when the fetch raises |
| Download.GetDownloadUrl | ao3opds/download.py:82-89 | the first page requested is the search for the title in double quotes |
| Download.LookupDownloadUrl | ao3opds/download.py:82-106 | the quoted search is always requested first; a URL found is the download href joined to the work page that was fetched last |
| Download.DownloadUrlSearchOrder | ao3opds/download.py:86-100 | the unquoted search runs exactly when the quoted search finds no work number; a work number from either search leads straight to the work page; an exception or no number from the last search made ends the lookup there |
| Download.DownloadUrlMissing | ao3opds/download.py:90-100 | the result is `None` when neither search finds a work number, or when the work page reached through either search has no EPUB link |
| Download.Segments | ao3opds/download.py:114-117 | the segments kept are non-empty and contain no `/` |
| Download.NoSegmentsIff | ao3opds/download.py:116-117 | `IndexError` is raised exactly when the path is made only of `/` |
| Download.LeadingSlashIgnored | ao3opds/download.py:113-117 | the leading `/` of a path adds no segment |
| Download.GetFilename | ao3opds/download.py:108-120 | `IndexError` exactly when the URL path is made only of `/` |
| Download.GetFilenameLastSegment | ao3opds/download.py:113-119 | otherwise the name is the decoding of the last non-empty path segment |
| Download.GetFilenameOfEncoded | ao3opds/download.py:108-120 | a non-empty name percent-encoded as the last path segment comes back from `get_filename` unchanged |
| Download.RFind | ao3opds/download.py:127 | `rfind` gives the position of the last occurrence, or -1 |
| Download.SplitExtRoot | ao3opds/download.py:127 | `splitext(p)[0]` is a prefix of `p`; what it cuts off starts with `.` and has no further `.` or `/` |
| Download.MatchingFilenames | ao3opds/download.py:122-129 | names equal after `strip()` always match |
| Download.MatchingReflexiveSymmetric | ao3opds/download.py:122-129 | `matching_filenames` is reflexive and symmetric |
| Download.MatchingIgnoresWhitespace | ao3opds/download.py:125 | whitespace around a name does not change whether it matches |
| Download.SplitExtOfExtension | ao3opds/download.py:127 | `splitext` removes exactly the final extension of a name that has a stem |
| Download.MatchingIgnoresExtension | ao3opds/download.py:126-129 | two names that differ only in their final extension match |
| Download.DownloadEpub | ao3opds/download.py:131-179 | the file is written exactly when the fetch gives a page, the URL has a file name, `require_filename` (if given) matches and the file can be written; otherwise nothing is written, and each early return is told apart |
| User.Request | ao3opds/user.py:83-93 | as written: no sleep ever happens, the first call gets the caller's arguments, and the number of calls is bounded only by the recursion depth |
| User.RequestRetries | ao3opds/user.py:87-91 | as written: a call is repeated only after a 429 |
| User.RequestOutcome | ao3opds/user.py:87-93 | as written: `True` exactly when the last call completes; `False` only after an HTTP error, and for a 429 only when the caller's own `_num_sleeps` was used up |
| User.RequestNon429 | ao3opds/user.py:89-92 | an HTTP error other than 429 gives `False` after one call |
| User.RequestArgumentsGrow | ao3opds/user.py:91 | as written: the k-th call gets the caller's arguments followed by k pairs `(300, 1)` |
| User.RequestNeverGivesUp | ao3opds/user.py:90-91 | as written: against persistent 429 answers, `request` never returns `False`; it recurses until the recursion limit raises |
| User.RequestIntended | ao3opds/user.py:83-93 | corrected: one sleep per retry and at most `MAX_SLEEPS`+1 calls |
| User.RequestIntendedSameArguments | ao3opds/user.py:88 | corrected: every call gets the caller's arguments |
| User.RequestIntendedRetries | ao3opds/user.py:89-91 | corrected: a call is repeated only after a 429 |
| User.RequestIntendedOutcome | ao3opds/user.py:87-93 | corrected: `True` exactly when the last call completes; an exception escapes exactly when the last call raised one that is not an HTTP error |
| User.RequestIntendedGivesUp | ao3opds/user.py:13 | corrected: persistent 429 answers give 4 calls, 3 sleeps and `False` |
| User.LoadWork | ao3opds/user.py:95-97 | as written: `True` when the first reload completes and Python allows a call; persistent 429 answers end in `RecursionError` |
| User.DownloadWork | ao3opds/user.py:99-101 | as written: `True` when the first download, given the file name, completes; persistent 429 answers end in `RecursionError` |
| User.GetMarkedForLater | ao3opds/user.py:15-58 | returns the session's list itself, same order and length; with `load` every work reached gets the session, only works not yet loaded are reloaded through the as-written `load_work`, and a work ends loaded exactly when it was loaded or that call returned `True`; an exception escapes exactly when some reload raises, and the loop stops at the first one, leaving later works untouched |
| User.LoadAt | ao3opds/user.py:46-54 | one pass of the loop: the work gets the session; `load_work` runs exactly when the work is not loaded; the work ends loaded exactly when it was or the call returned `True`; the pass raises exactly when that call raised |
| User.DownloadMarkedForLater | ao3opds/user.py:60-81 | every work before the first raising reload gets the session and ends loaded exactly when it was loaded or its reload returned `True`, and later works are untouched; no exception escapes exactly when no reload raises and no loaded work's `get_filename` or `download_work` raises; then the attempts are exactly the loaded works, in list order, each under the file name `get_filename` gives |
| User.DownloadLoaded | ao3opds/user.py:65-81 | no exception escapes exactly when no loaded work's `get_filename` or `download_work` raises, and then every loaded work is attempted in order; otherwise the loop stops at the first work whose pass raises, having attempted exactly the loaded works before it, and that work too when it was its download that raised |
| User.DownloadAt | ao3opds/user.py:66-79 | one iteration: a work that is not loaded adds no attempt; a loaded one adds one attempt under its file name unless `get_filename` raises; the pass raises exactly when `get_filename` or `download_work` does |
| User.LoadedBeforeMembers | ao3opds/user.py:65-70 | the positions attempted are exactly the loaded works before the cursor, in increasing order |
| User.FirstOption | ao3opds/user.py:123-126 | the first menu option whose text is `filetype.upper()`, and no earlier option has that text |
| User.FilenameFromMetadata | ao3opds/user.py:118-127 | `None` exactly when no option carries the upper-cased file type; `IndexError` only when one does and its href has no file name |
| User.GetFilenameFromMetadata | ao3opds/user.py:118-127 | the search loop returns the file name of the first option labelled with the upper-cased file type, and `None` exactly when no option has that label |
| User.ReplaceSpaces | ao3opds/user.py:145 | `replace(' ', '_')` keeps the length, leaves no space and changes nothing else |
| User.KeepFilenameCharsFilters | ao3opds/user.py:146 | the substitution leaves only characters `[-\w.]` matches, in order |
| User.ValidFilename | ao3opds/user.py:143-146 | every character kept is one `[-\w.]` matches |
| User.ValidFilenameChars | ao3opds/user.py:143-146 | a valid file name has no space, only `-`, `.` and word characters, and is an order-preserving subsequence of the stripped name with spaces made `_` |
| User.ValidFilenameKeeps | ao3opds/user.py:143-146 | a name already made only of `[-\w.]` characters is left unchanged |
| User.ValidFilenameIdempotent | ao3opds/user.py:143-146 | sanitising twice is sanitising once |
| User.GetFilename | ao3opds/user.py:103-116 | `get_filename` raises exactly when the metadata lookup raises |
| User.ChooseFilename | ao3opds/user.py:103-116 | the step-by-step `get_filename` gives the file name the model defines |
| User.GetFilenameIgnoresTitle | ao3opds/user.py:107-110 | when the menu offers the file type, the title plays no part |
| User.GetFilenameFallback | ao3opds/user.py:107-110 | without a menu option, the name is the sanitised title, `.`, and the lower-cased file type |
| Opds.UserPerson | ao3opds/opds.py:229-239 | a bare name gives that name and no URI; a user gives the username and the profile URL; the e-mail is always absent |
| Opds.Persons | ao3opds/opds.py:97-99 | the entry has one person per author, in the same order |
| Opds.AuthorPersons | ao3opds/opds.py:97-99 | the append loop builds exactly that list of persons |
| Opds.Labelled | ao3opds/opds.py:129-140 | one category per tag |
| Opds.AddLabelled | ao3opds/opds.py:129-140 | one loop appends one labelled category per tag, after the ones already there |
| Opds.TermsOfLabelled | ao3opds/opds.py:129-140 | the terms carrying a label are the tags of that kind, in order, and no others |
| Opds.TermsOfCategories | ao3opds/opds.py:128-145 | categories, fandoms, characters, relationships, warnings, tags and the rating come in that order |
| Opds.CategoriesByLabel | ao3opds/opds.py:128-145 | each label collects exactly its own list of tags, in order; the label `rating` collects the rating exactly when there is one |
| Opds.CategoriesShape | ao3opds/opds.py:128-145 | every category has the AO3 tag scheme; there are as many categories as tags, plus one for a rating |
| Opds.WorkEntry.ExtractCategories | ao3opds/opds.py:122-145 | the seven loops build exactly those categories |
| Opds.Concat | ao3opds/opds.py:153-156 | a single chapter is the content itself |
| Opds.ConcatAppend | ao3opds/opds.py:153-156 | the content of two runs of chapters is the two contents, one after the other |
| Opds.Urls | ao3opds/opds.py:171-172 | the paragraph numbers are dropped and the URLs kept in order |
| Opds.ImageUrlsComplete | ao3opds/opds.py:168-172 | a URL is collected exactly when some chapter lists it |
| Opds.CollectImageUrls | ao3opds/opds.py:168-172 | the nested loops flatten the map in chapter order |
| Opds.LinksTo | ao3opds/opds.py:174-179 | one link per URL |
| Opds.LinksToTargets | ao3opds/opds.py:174-192 | the links point at the URLs, in order, with the given relation and the guessed MIME type |
| Opds.MakeLinks | ao3opds/opds.py:174-179 | the loop builds exactly those links |
| Opds.LowerAll | ao3opds/opds.py:203 | each file type lower-cased |
| Opds.DownloadUrls | ao3opds/opds.py:195-214 | corrected: never more URLs than download options |
| Opds.DownloadUrlsMembers | ao3opds/opds.py:202-213 | corrected: a URL is produced exactly for each selected option, resolved against the AO3 base URL |
| Opds.DownloadUrlsUnfiltered | ao3opds/opds.py:204-213 | with no file types, one absolute URL per option, in document order |
| Opds.CursorUrls | ao3opds/opds.py:202-210 | as written: never more URLs than options, and none once the iterator is exhausted |
| Opds.DownloadUrlsAsWritten | ao3opds/opds.py:202-210 | as written: never more URLs than options, and none for an empty list of file types |
| Opds.IteratorContains | ao3opds/opds.py:207 | `x in it` on a one-shot iterator is true exactly when `x` is still in it; the iterator is left just past the first match, or exhausted |
| Opds.CursorUrlsWithin | ao3opds/opds.py:202-210 | as written: the one-shot iterator filter keeps a subsequence of what the intended filter keeps |
| Opds.DownloadUrlsAsWrittenWithin | ao3opds/opds.py:202-210 | as written: `_extract_download_urls` never yields a URL that the intended filter would drop |
| Opds.CursorDropsLaterOption | ao3opds/opds.py:202-210 | as written: asking for EPUB from a menu listing AZW3 then EPUB yields nothing; corrected, it yields the EPUB link |
| Opds.WorkEntry.ExtractDownloadUrls | ao3opds/opds.py:195-214 | as written: the loop, with `filetypes` as a one-shot iterator, yields exactly the as-written URL list |
| Opds.WorkEntry.GetAcquisitionLinks | ao3opds/opds.py:182-193 | one acquisition link per URL of the as-written download list, in order |
| Opds.WorkEntry.GetContent | ao3opds/opds.py:147-156 | chapters are loaded only when none are loaded yet, and the content is all chapters joined in order |
| Opds.WorkEntry.GetImages | ao3opds/opds.py:158-180 | loads chapters only when none are loaded, and gives one image link per image URL |
| Opds.WorkEntry.LoadWork | ao3opds/opds.py:86-90 | a work that is not loaded is reloaded once, with its chapters exactly when content or images are wanted; a loaded work is not touched |
| Opds.WorkEntry.CopyMetadata | ao3opds/opds.py:93-106 | the entry's id is the work URL lower-cased; title, dates, language and summary are copied; the publisher is "Archive of Our Own"; the authors and categories are as above |
| Opds.WorkEntry.AttachLinksAndContent | ao3opds/opds.py:108-120 | acquisition links come first, then the content and the image links, each only when asked for; the chapters are fetched when content or images are asked for and none are loaded, and are otherwise left alone |
| Opds.WorkEntry.constructor | ao3opds/opds.py:84-120 | the entry describes the work, with the links and content above; the work ends up loaded, reloaded once only if it was not, and holds its full text afterwards exactly when content or images were asked for and no chapters were loaded |
| Opds.PlaceholderAcquisitionLinks | ao3opds/opds.py:241-244 | the module-level `get_acquisition_links` gives no links |
| Opds.MakeEntries | ao3opds/opds.py:70-72 | exactly one fresh entry per work, in input order; every work ends loaded, a work that was not loaded gets one reload without chapters, and no chapters are fetched, even when a work is listed twice |
| Opds.Feed.constructor | ao3opds/opds.py:52-72 | `links` of `None` becomes the empty list and `updated` of `None` becomes the current time; id, title and authors are kept; there is one entry per work, in order, with the works' state as for `MakeEntries` |
| Credentials.GetCredentials | ao3opds/app/ao3.py:10-35 | 403 when nobody is logged in and 404 when the user has no row; a row returned always belongs to the current user |
| Credentials.GetCredentialsOwnRow | ao3opds/app/ao3.py:25-35 | on a table with one row per user, the ownership check never fires: the user gets their own row or 404 |
| Credentials.Update | ao3opds/app/ao3.py:60-63 | an UPDATE never adds or removes a row |
| Credentials.UpdateRows | ao3opds/app/ao3.py:60-63 | the UPDATE sets username, password and session on the row its `WHERE user_id` value selects, and only there; NULL selects nothing |
| Credentials.UpdateKeyed | ao3opds/app/ao3.py:60-63 | the UPDATE keeps each row with its owner |
| Credentials.UpdateAsWrittenLosesChange | ao3opds/app/ao3.py:60-63 | as written: with the `session=None` that `manage` passes, updating existing credentials leaves the table unchanged |
| Credentials.UpdateAsWrittenOverwritesOther | ao3opds/app/ao3.py:60-63 | as written: on a table keyed by user, a session value equal to another user's id gives that user the new username and password, with the caller's id as session, and leaves the caller's row as it was |
| Credentials.UpdateIntended | ao3opds/app/ao3.py:60-63 | corrected: the UPDATE replaces exactly the current user's row |
| Credentials.DeleteFeeds | ao3opds/app/ao3.py:77 | every row kept was in the table and belongs to another user |
| Credentials.DeleteFeedsExact | ao3opds/app/ao3.py:77 | deleting feeds removes every row of the user and keeps every other row, with its multiplicity and order |
| Credentials.DeletedNotFound | ao3opds/app/ao3.py:66-78 | after deletion, `get_credentials` aborts with 404 |
| Credentials.SetThenGet | ao3opds/app/ao3.py:46-63 | corrected: after the intended upsert, or the INSERT for a user without a row, `get_credentials` returns exactly what was set |
| Credentials.Database.SetCredentials | ao3opds/app/ao3.py:37-64 | as written: 403 and no write without a user; otherwise exactly one row inserted when none exists, or the misbound UPDATE; a lookup error other than 404 is raised again without a write; `feed` is untouched |
| Credentials.Database.SetCredentialsIntended | ao3opds/app/ao3.py:37-64 | corrected: the user's row becomes the given credentials, whether it existed or not, and nothing else changes |
| Credentials.Database.DeleteCredentials | ao3opds/app/ao3.py:66-78 | removes the user's `ao3` row and every one of their `feed` rows, and nothing else |
| Credentials.Database.Manage | ao3opds/app/ao3.py:80-122 | the Delete button deletes and redirects without reading the other fields; "All fields are required" is flashed only when both fields are empty, and then nothing is written; otherwise the as-written `set_credentials` runs with no session: a new user gets a row, an existing row stays unchanged, and "AO3 credentials updated!" is flashed either way; a GET renders the page without a change |

## Left out

- The feed synchronisation and caching engine: every task body in
  `ao3opds/app/tasks.py:22-48` is a stub, and the feed view at
  `ao3opds/app/feed.py:17-35` is unwritten.
- The network and the AO3 library are parameters:
  - `urlopen` is a response oracle;
  - the AO3 session's list is a sequence of `Work` objects;
  - in `User`, `Work.reload` and `download_to_file` are call oracles;
  - in `Opds`, `Work.reload` is a method that always succeeds (see below);
  - BeautifulSoup's `find`/`findAll` on the download menu is a sequence of
    (link text, href) pairs.
- `time.sleep` is counted but not performed; there is no clock.
- `print`, `verbose` output and `warnings.warn` are not modelled: they do not
  change a result.
- File I/O. `get_titles` takes the file's lines. `download_EPUB` takes a flag
  saying whether the file can be written. `os.remove` is not modelled,
  because the `except IOError` branch at `ao3opds/download.py:167-173` can
  never run: in Python 3, `IOError` is `OSError`, which line 162 already
  catches.
- These library calls are opaque functions in `Library.Lib`:
  `mimetypes.guess_type`, `urllib.parse.urljoin`, `quote_plus`,
  `urlparse(...).path`, `str.isalnum` beyond ASCII, and
  `expanduser`/`abspath`/`join`.
- Dates are taken as already converted text: timezone conversion and
  `isoformat` are not modelled, and the feed constructor takes the current
  time as a parameter.
- Jinja rendering (`render` in `ao3opds/opds.py:74-79` and
  `ao3opds/opds.py:216-227`): the templates are not part of this model.
- `Percent.Unquote`: each `%XX` becomes the character with code XX. Python
  instead decodes runs of `%XX` as UTF-8 bytes, so names with non-ASCII
  characters encoded as several bytes are not modelled.
- `Text.Lower`, `Text.Upper`: only ASCII letters change case. Python maps
  the whole of Unicode.
- `Text.LowerUpper`: holds for the ASCII case mapping only. In Python,
  `'ß'.upper().lower()` is `'ss'`, not `'ß'.lower()`.
- `Download.GetPage`, `Download.FindOnPage`, `Download.DownloadEpub`: two
  errors are not modelled. `url.format(**kwargs)` raises on a URL with a
  stray `{` or `}`, and turns `{{`/`}}` into a different URL from the one
  `get_filename` reads; this concerns all three. `page.decode('utf8')`,
  which `find_on_page` asks for, raises on a page that is not UTF-8. The
  model takes the URL as it is and a page body that is already text.
- `Download.LookupDownloadUrl`: stated over any finder, that is, any answer
  to a (URL, pattern) query. `Download.FindOnPage` is that answer for a
  network. The strict and loose search URLs (`SEARCH_URL` formatted with
  `quote_plus` of the title, quoted or not) are built by
  `Download.GetDownloadUrl`.
- `Download.GetDownloadUrl`: its contract states only that the quoted search
  comes first. The rest of the search order is stated by
  `Download.DownloadUrlSearchOrder` over `Download.LookupDownloadUrl`, which
  `GetDownloadUrl` calls unchanged.
- `User.Request`: Python's recursion limit is a `depth` parameter, and
  `RecursionError` is the answer `Raised`. `User.LoadWork`,
  `User.DownloadWork` and the list methods that call them take the same
  parameter.
- `Opds.WorkEntry.LoadWork`: a `reload` that raises is not modelled.
  `Work.Reload` always succeeds, so the contract describes a normal return.
- `Opds.WorkEntry.constructor`, `Opds.MakeEntries`, `Opds.Feed.constructor`:
  a Dafny constructor cannot report failure, so the exception that a failing
  reload would pass through them is not modelled.
- `Credentials.MatchesUserId`: a text value bound to `WHERE user_id = ?`
  matches no row. SQLite would convert numeric text to a number.
- The database schema is not part of this model. The `ao3` table is a map
  keyed by `user_id`; this relies on `set_credentials` inserting only when
  the user has no row. The `id` and `updated` columns are not modelled.
  Transactions and `commit` are not modelled.
- Flask:
  - `g.user` is a parameter;
  - `login_required` (`ao3opds/app/auth.py:102-111`) is the first branch of
    `Manage`;
  - flashed messages are returned as a list;
  - `redirect(url_for(e))` is `Redirect(e)`;
  - a missing form field is `BadRequest`.
- Not modelled: `ao3opds/app/auth.py` (session cookies and password
  hashing); the command-line and wrapper modules (`render.py`,
  `marked_for_later_opds.py`, `ao3opds.py`, `script.py`); the app
  bootstrapping; and the test fixtures.

## Findings

Where a finding applies, the rest of the model follows the code as written,
and the corrected member states what was evidently intended.

| source | as written | input that shows it | evidently intended | confidence | as-written member | corrected member |
|---|---|---|---|---|---|---|
| ao3opds/opds.py:202-210 | `filetypes` becomes a one-shot `map` iterator, and each `not in` test consumes it up to the match or to its end | the download menu lists AZW3 then EPUB, and `filetypes=["EPUB"]`: testing AZW3 uses up the iterator, so EPUB is dropped and no URL is returned | keep every option whose lower-cased text is among the lower-cased file types | not executed | Opds.CursorDropsLaterOption | Opds.DownloadUrlsMembers |
| ao3opds/user.py:91 | the retry passes `_sleep_time` and `_num_sleeps + 1` positionally, so they are appended to the arguments of `req`, and `_num_sleeps` is back at 0 in the callee | `req` always raises HTTP 429: every retry gets two more arguments, `request` never returns `False`, and it recurses until `RecursionError`; no sleep happens | sleep, then retry with the same arguments at most `MAX_SLEEPS` (3) times, then return `False` | not executed | User.RequestNeverGivesUp | User.RequestIntendedGivesUp |
| ao3opds/app/ao3.py:60-63 | the UPDATE binds `(username, password, user_id, session)` to `username`, `password`, `session`, `user_id` | a user with stored credentials submits new ones through `manage` (`session=None`): `WHERE user_id = NULL` selects no row, so the change is lost; with `session=2`, user 2's row gets the new credentials | bind `(username, password, session, user_id)` so that the user's own row is updated | not executed | Credentials.UpdateAsWrittenLosesChange | Credentials.UpdateIntended |
