# votd — a Dafny model of verse resolution

`votd` is a command-line tool that prints a passage of the NET Bible: either
the passage named by its positional words or, when there are none, the
"verse of the day" (VOTD). The VOTD may be kept in a single cache file for six
hours. This project models the decision logic in `src/main.rs` and proves
properties of it:

- **Fragment merge** (`fetch_verse`, after the HTTP exchange). The service's
  fragments become one `Verse`. Its title is `book chapter:start` or
  `book chapter:start-end`, with the numbers parsed as `i32` and printed
  again. Its body is the fragments' texts concatenated in order.
  (`Numerals`, `FetchVerse`)
- **Passage request**. The positional words are joined with single spaces,
  and no words means VOTD. (`Passage`)
- **Cache/fetch plan** (`main`). The explicit passage and the `--no-cache`
  and `--refresh-cache` switches are combined with the state of the cache
  slot into a trace of operations and a resulting verse. The trace records
  the no-cache-directory notice, opening the cache, reading it, the single
  request, and the write-back. (`Resolver`)
- **Title line**. `--only-verse` and `--show-translation` select the label
  printed after the title. (`Display`)

The HTTP exchange is a function parameter `Remote` from the query value to
either the parsed fragment list or a client error. The cache slot is a
value: whether a cache directory exists, the file's age in whole seconds,
and whether its bytes decode to a verse.

Where the source panics, the model returns an explicit error instead:
`Empty` for an empty fragment list (the `assert!` at line 78), and
`MalformedChapter` / `MalformedVerse` for a numeral that does not parse
(the `expect` calls at lines 80-91). The checks run in the source's order:
chapter, first verse, last verse. The numerals of the middle fragments are
never parsed.

## Modelling choices

These points follow from how `src/main.rs` is written:

- Opening the cache file with `create(true)` (lines 133-139) creates a
  missing file empty. Such a file is freshly modified and does not decode,
  so the model represents it as a located slot whose decode fails; there is
  no separate "missing" state.
- `fetch_verse` (lines 92-99) places no condition on the fragment texts, so
  a successful verse may have an empty body.
- Line 123 tests only whether the word list is empty, so a single empty
  positional word is a request for the empty passage, not for the VOTD.
- The VOTD label on the title line (lines 175 and 181) depends on
  `verse_requested.is_none()`, not on the query sent. Asking for `votd`
  explicitly therefore gets no label and no caching.

## Model

| member | source | states |
|---|---|---|
| Numerals.ParseI32 | src/main.rs:80-91 | a numeral is accepted only as an optional sign followed by one or more ASCII digits whose value lies in the 32-bit signed range; unsigned numerals in range parse to their digit value, a `-` numeral whose digit value is at most 2147483648 (such as `-5` or `-05`) parses to the negated digit value, only a leading `-` gives a negative value, and a digit string beyond the range (above 2147483647, or above 2147483648 after `-`) is rejected |
| Numerals.FormatInt | src/main.rs:94-96 | the `{}` form of an integer is non-empty, consists of digits with at most a leading `-`, starts with `-` exactly for negative numbers, and its digits spell the absolute value |
| Numerals.FormatNat | src/main.rs:93-97 | the printed form of a non-negative number is a non-empty digit string without leading zeros whose digit value is the number |
| Numerals.ParseFormat | src/main.rs:80-97 | every 32-bit number printed into a title is canonical and reads back as the same number |
| Numerals.FormatParse | src/main.rs:80-97 | a canonical numeral that parses is re-printed verbatim |
| Numerals.Unpadded | src/main.rs:80-97 | a zero-padded numeral such as `03` parses to the same value and is re-printed without the padding |
| FetchVerse.Fetch | src/main.rs:61-99 | given the client's reply, a client error ends the fetch as that transport failure; a parsed fragment list is merged; a successful fetch means the service answered with at least one fragment |
| FetchVerse.Title | src/main.rs:93-97 | a title starts with the book name and a space; its length is that of the book, the separators and the printed numbers, with the `-end` part present exactly when the two verse numbers differ |
| FetchVerse.Merge | src/main.rs:78-99 | the merge succeeds exactly when there is a fragment and the first chapter, the first verse and the last verse all parse; an empty list gives `Empty`, a bad chapter gives `MalformedChapter`, and a good chapter with a bad first or last verse gives `MalformedVerse`; the body's length is the sum of the fragment text lengths; the title reads back as the first fragment's chapter and verse and the last fragment's verse |
| FetchVerse.TitleDecodes | src/main.rs:93-97 | knowing the book, a title determines its chapter and both ends of its range: reading it back recovers them |
| FetchVerse.SingleVerseTitle | src/main.rs:79-98 | when first and last verse numbers are equal the merge succeeds with title `book chapter:start`, with no range suffix, and the folded texts as body |
| FetchVerse.RangeTitle | src/main.rs:79-98 | otherwise the merge succeeds with title `book chapter:start-end`, with book, chapter and start from the first fragment and end from the last, and the folded texts as body |
| FetchVerse.TitleIgnoresMiddle | src/main.rs:79-97 | two fragment lists that share their first and last fragments agree on success and on the title, whatever lies between |
| FetchVerse.CanonicalTitle | src/main.rs:80-97 | with canonical numerals the title repeats the fields verbatim and shows a range exactly when the two verse fields differ |
| FetchVerse.Texts | src/main.rs:98 | the folded body is exactly as long as the fragment texts together, summed independently from the front |
| FetchVerse.TextsAppend | src/main.rs:98 | the left fold of texts distributes over concatenation of fragment lists |
| FetchVerse.TextsSplit | src/main.rs:98 | every fragment's text appears whole in the body, after the texts of the fragments before it and before those after it |
| FetchVerse.BodyKeepsFragments | src/main.rs:98 | a merged verse's body keeps every fragment's text in order with no separator |
| FetchVerse.SingleFragmentExample | src/main.rs:78-99 | one fragment John/3/16 gives the title `John 3:16` and that fragment's text |
| FetchVerse.TwoFragmentExample | src/main.rs:78-99 | fragments for verses 16 and 17 give `John 3:16-17` and both texts in order |
| FetchVerse.PaddedChapterExample | src/main.rs:80-97 | chapter `03` appears in the title as `3` |
| Passage.Requested | src/main.rs:123-127 | no passage is requested exactly when there are no words; a requested passage is as long as the words plus one space between each pair, and when no word contains a space, splitting it at the spaces gives back the words |
| Passage.Join | src/main.rs:124 | joining non-empty word lists gives a string as long as the words plus one separator per gap, beginning with the first word |
| Passage.SplitJoin | src/main.rs:124 | words without spaces are recovered by splitting the joined passage at every space |
| Passage.JoinExample | src/main.rs:123-124 | the words `John` and `3:16` request `John 3:16` |
| Resolver.Opening | src/main.rs:131-151 | the first operations touch the cache exactly when the cache is opened, and involve no request, read or write |
| Resolver.FetchAndStore | src/main.rs:153-195 | one request for the given query; its answer is the result; the fetched verse is written back only when the write-back applies and the request succeeded; the trace touches the cache exactly when the operations before did or a write happened |
| Resolver.TouchesAppend | src/main.rs:131-195 | a sequence of operations touches the cache exactly when one of its parts does |
| Resolver.Resolve | src/main.rs:123-195 | every run makes at most one request, one read and one write; no request happens exactly when a decoded cached verse is returned without a write; otherwise the result is the request's answer; a write only happens on the VOTD path after a successful `votd` request and stores exactly the returned verse; the cache is touched exactly on the VOTD path with caching enabled and a known directory, and it is read exactly when additionally its age is at most 21600 seconds and no refresh is forced |
| Resolver.UncachedPath | src/main.rs:123-167 | with an explicit passage or `--no-cache` the trace is one request for the passage, or for `votd` when none was given, and the cache is never touched |
| Resolver.FreshCacheHit | src/main.rs:144-159 | on the VOTD path a cache at most 21600 seconds old that decodes, without refresh, is opened, read and returned, with no request and no write |
| Resolver.CacheMiss | src/main.rs:144-195 | on the VOTD path with an opened cache that is stale, forced or undecodable, exactly one `votd` request is made, its answer is returned, and a fetched verse is written back |
| Resolver.NoCacheLocation | src/main.rs:145-195 | without a cache directory the notice is printed and `votd` is fetched, with nothing opened or written although the write-back was requested |
| Resolver.FreshnessBoundary | src/main.rs:55-159 | the age bound is inclusive: 21600 seconds is still fresh, 21601 is not |
| Resolver.StaleCacheExample | src/main.rs:144-194 | a seven-hour-old cache leads to one request and one write of the fetched verse, which is the one returned |
| Resolver.EmptyVotdResponse | src/main.rs:78-194 | an empty answer to the `votd` request fails the run with `Empty` and writes nothing |
| Resolver.ExplicitVotdWord | src/main.rs:64-167 | asking for `votd` explicitly sends the query `votd` and touches no cache, however fresh it is |
| Display.Header | src/main.rs:170-185 | `--only-verse` suppresses the title line; otherwise it is the title followed by ` (Verse of the Day - NET)`, ` (NET)`, ` (Verse of the Day)` or nothing, so that it carries a VOTD label exactly for the VOTD and names the translation exactly when asked to |
| Display.HeaderDistinguishesSettings | src/main.rs:170-185 | for one title, different switch settings never print the same title line |
| Display.Run | src/main.rs:122-195 | a run has the resolution's trace and shows output exactly when resolution succeeds; the body is the resolved text; a title line appears unless `--only-verse`, starts with the title, carries the VOTD label exactly when no passage words were given and names the translation exactly under `--show-translation` |

## Left out

- The HTTP request is not modelled. This covers the client timeout, `error_for_status`, URL building and JSON decoding (lines 61-77). The exchange is the `Remote` parameter, and its client errors are the opaque `Transport` values.
- The mapping of client errors to messages and the exit status (`unwrap_error`, lines 102-118) is not modelled, because it is reporting over opaque error flags. A failed request ends the run with the error before any write.
- MessagePack encoding and decoding are not modelled. Decoding is the slot's `decoded: Option<Verse>`.
- File handling is not modelled: open, rewind, metadata and the clock (lines 132-143). The age is an integer input. The i64 subtraction `now - stamp` is taken without overflow.
- Cache-directory discovery (line 58) is not modelled. It is the slot's `located` flag.
- I/O `unwrap` panics are not modelled. This includes a failed cache write, which panics in the source.
- The non-truncating overwrite at line 194 is not modelled, so bytes of a longer earlier entry can remain after the new one.
- Command-line parsing, the `--timeout` value (passed through to the client) and the async runtime are not modelled.
- Terminal wrapping of the body (lines 186-190) is not modelled, because it depends on the terminal width. `Display.Run` shows the unwrapped text.
- Display.Run: the order of printing relative to the cache write is not represented. The trace records only cache and network operations, and the write comes last in it, as in the source.
