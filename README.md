# ISRO spacecraft-mission scraper, modelled in Dafny

The script `isro_scrape/scrape.py` works in three stages:

1. It fetches the ISRO spacecraft listing page and takes every anchor of class `out`.
2. For each anchor it collapses the anchor text into a title and skips empty or already-seen titles. It resolves the href against `https://www.isro.gov.in` and fetches the detail page. It then builds a record `{"name": title}` and sets `dt[key] = val` for every two-cell table row whose normalised label `key` and collapsed value `val` are both non-empty, tables in page order and rows in table order; a later row with the same key replaces the earlier value (a `Name` row replaces the title). The record is appended only when at least one such row was found, and only then is the title marked as seen.
3. It reverses the records, writes `"id": i + 1` into each one, and dumps them as JSON.

This project models that logic over abstract inputs and proves what it does.

- **Listing page.** Input is `Option<seq<Anchor>>`. `None` means the listing fetch failed.
- **Detail page.** Each anchor comes with an `Option<Page>`. `None` means the request, the status check or the parse raised. Otherwise it holds the matching tables: rows of cell texts.

Modules:

- `Wrappers`: `Option`.
- `Seqs`: keeping the values of a partial function over a sequence, and over a sequence of sequences; reversal.
- `Text`: Python's `str.isspace` set and maximal runs of characters. It also holds `str.strip()`, `str.split()`, `" ".join`, the collapse expression `" ".join(s.split()).strip()`, and `re.sub(r'X+', c, s)`.
- `Keys`: `normalize_key` as its four steps.
- `Links`: detail-page URL resolution.
- `Dicts`: a Python dict value, with keys in insertion order.
- `Scraper`:
  - the nested table and row loops (`ExtractRecord`);
  - the anchor loop as `Scrape` with its body `ScrapeAnchor`;
  - the in-place reversal and the id loop;
  - the reference definitions these methods are proved against: `BuildRecord`, `Walk`, `Reversed` and `Numbered`;
  - the lemmas about those definitions.

Behaviours of the code that its comments and naming do not suggest, all modelled as written:

- **normalize_key deletes underscores.** Its comment (isro_scrape/scrape.py:8) speaks of removing extra underscores, but line 10 deletes every `_`, since `_` is outside `[a-z0-9\s]`. So the function is not idempotent: normalising `"a b"` twice gives `"ab"`.
- **A leading or trailing `_` can survive.** The strip happens before punctuation is deleted, so `"- x"` gives `"_x"` and `"- -"` gives `"_"`, and the caller keeps `"_"` as a key.
- **A "name" row counts.** A label that normalises to `name` replaces the title and sets `found_info`. A record holding only `name` is then appended.
- **The final `.strip()` is a no-op.** `" ".join(s.split())` already has no whitespace at its ends.

## Model

| member | source | states |
|---|---|---|
| Keys.NormalizeKey | isro_scrape/scrape.py:7-12 | normalize_key as its four steps in order; characterised by Keys.NormalizeKeyShape, Keys.NormalizeKeyEmpty, Keys.Step4Unchanged and Keys.RenormalizeDropsUnderscores |
| Keys.Step1 | isro_scrape/scrape.py:9 | `key.lower().strip()`; Keys.Lower and Text.Strip carry its contract |
| Keys.Step2 | isro_scrape/scrape.py:10 | the deletion of every character outside `[a-z0-9\s]` from step 1's output; Keys.KeepKeyChars carries its contract |
| Keys.Step3 | isro_scrape/scrape.py:11 | every whitespace run of step 2's output becomes `_`; characterised by Keys.Step3Shape |
| Keys.Step3Shape | isro_scrape/scrape.py:10-11 | step 3's output uses only a-z, 0-9 and `_`, and has no `__` |
| Keys.Lower | isro_scrape/scrape.py:9 | definition of the ASCII part of `lower()`: the string lowered character by character with Keys.LowerChar (its contract repeats the definition; the properties that rest on it are Keys.NormalizeKeyOfAlnum and Keys.LetterExamples) |
| Keys.NormalizeKeyShape | isro_scrape/scrape.py:9-12 | a normalised key uses only a-z, 0-9 and `_`, and never has two `_` side by side |
| Keys.Step4Unchanged | isro_scrape/scrape.py:11-12 | the `_+` substitution of the last line never changes the output of the whitespace substitution |
| Keys.NormalizeKeyEmpty | isro_scrape/scrape.py:9-11 | the key is empty exactly when the lower-cased, stripped label has no character of `[a-z0-9\s]` |
| Keys.KeepKeyChars | isro_scrape/scrape.py:10 | the deletion keeps only `[a-z0-9\s]` characters; it is empty exactly when the input has none of them; it never lengthens |
| Keys.IsKeyChar | isro_scrape/scrape.py:10 | definition of the class `[a-z0-9\s]`: an ASCII lower-case letter, an ASCII digit or a Text.IsWhitespace character |
| Keys.KeepKeyCharsOne | isro_scrape/scrape.py:10 | a single character is kept exactly when it is in `[a-z0-9\s]` |
| Keys.KeepKeyCharsAppend | isro_scrape/scrape.py:10 | the deletion of a concatenation is the concatenation of the deletions, so every `[a-z0-9\s]` character is kept, in order |
| Keys.RenormalizeDropsUnderscores | isro_scrape/scrape.py:7-12 | normalising a key a second time deletes its underscores and changes nothing else |
| Keys.NotIdempotent | isro_scrape/scrape.py:7-12 | for lower-case letters a and b, `a b` gives `a_b` and normalising again gives `ab` |
| Keys.UnderscoreDeleted | isro_scrape/scrape.py:10 | an underscore between two letters is deleted |
| Keys.LeadingUnderscoreSurvives | isro_scrape/scrape.py:9-11 | a punctuation character, a space and a letter give `_` followed by the letter |
| Keys.LoneUnderscoreKey | isro_scrape/scrape.py:9-11 | two punctuation characters around a space give the non-empty key `_` |
| Keys.LetterExamples | isro_scrape/scrape.py:7-12 | `"a b"` gives `"a_b"`, and `"a_b"` gives `"ab"` |
| Keys.PunctuationExamples | isro_scrape/scrape.py:7-12 | `"- x"` gives `"_x"`, and `"- -"` gives `"_"` |
| Keys.NormalizeKeyOfAlnum | isro_scrape/scrape.py:7-12 | a label of ASCII letters and digits normalises to its lower-case form |
| Keys.LowerChar | isro_scrape/scrape.py:9 | definition of the ASCII part of `lower()` on one character: A-Z to a-z, every other character kept (its contract repeats the definition) |
| Text.RunLength | isro_scrape/scrape.py:9 | the longest prefix whose characters are all in the class: every character before it is in the class, and the next one is not |
| Text.IsWhitespace | isro_scrape/scrape.py:9-11 | definition of the set `str.isspace()` accepts, which `strip()` and `split()` (lines 9, 33 and 61) and the pattern class `\s` (lines 10-11) all use: U+0009-U+000D, U+001C-U+0020, U+0085, U+00A0, U+1680, U+2000-U+200A, U+2028, U+2029, U+202F, U+205F and U+3000, which are the characters of Unicode category Zs or of bidirectional class WS, B or S |
| Text.TrailingRunLength | isro_scrape/scrape.py:9 | the longest suffix whose characters are all in the class: every character after its start is in the class, and the one before is not |
| Text.Trim | isro_scrape/scrape.py:9 | drops the longest prefix and then the longest suffix of class characters: the result is a slice with ends outside the class, empty exactly when every character is in the class |
| Text.Join | isro_scrape/scrape.py:33 | `" ".join(ws)`; characterised by Text.JoinShape and Text.WordsOfJoin |
| Text.Collapse | isro_scrape/scrape.py:33 | `" ".join(s.split()).strip()`; characterised by Text.CollapseShape and Text.CollapseIdempotent |
| Text.Strip | isro_scrape/scrape.py:9 | `strip()` leaves a slice of the input with visible ends; it is empty exactly when the input is all whitespace; everything cut off is whitespace |
| Text.Words | isro_scrape/scrape.py:33 | `split()` gives non-empty words without whitespace; it gives no word exactly when the input is all whitespace |
| Text.WordsOfWord | isro_scrape/scrape.py:33 | a string without whitespace that is not empty splits into itself |
| Text.WordsAfterBlank | isro_scrape/scrape.py:33 | leading whitespace does not change the words |
| Text.WordsAppend | isro_scrape/scrape.py:33 | when b is empty or starts with whitespace, the words of a + b are those of a followed by those of b |
| Text.WordsSplitAt | isro_scrape/scrape.py:33 | the words of a, one whitespace character and b are the words of a followed by those of b; with the empty case and Text.WordsOfWord this fixes the words of every string |
| Text.WordsOfJoin | isro_scrape/scrape.py:33 | splitting words joined by single spaces gives back the same words |
| Text.JoinShape | isro_scrape/scrape.py:33 | joining words with one space gives a string that is empty only for no words, has visible ends, and whose only whitespace is single spaces |
| Text.CollapseShape | isro_scrape/scrape.py:33 | the collapsed text is empty exactly when the input is all whitespace; its ends are visible; its only whitespace is single spaces; the trailing `strip()` changes nothing |
| Text.CollapseIdempotent | isro_scrape/scrape.py:61 | collapsing keeps the words of the input, so collapsing twice is collapsing once |
| Text.ReplaceRuns | isro_scrape/scrape.py:11-12 | a run substitution is empty exactly when its input is; every character of its output is the replacement or a character outside the class |
| Text.ReplaceRunsOfRun | isro_scrape/scrape.py:11-12 | a non-empty run of class characters on its own becomes the single replacement character |
| Text.ReplaceRunsCons | isro_scrape/scrape.py:11-12 | a character outside the class at the front is kept as it is |
| Text.ReplaceRunsAppend | isro_scrape/scrape.py:11-12 | when y is empty or starts outside the class, substituting a + y is substituting a and then y |
| Text.ReplaceRunsSplitAt | isro_scrape/scrape.py:11-12 | a character outside the class is kept, and the two sides around it are substituted on their own; with Text.ReplaceRunsOfRun and the empty case this fixes the result for every string |
| Text.ReplaceRunsNoDoubled | isro_scrape/scrape.py:11 | when the replacement does not occur in the input, the output never has it twice in a row |
| Text.ReplaceRunsUnchanged | isro_scrape/scrape.py:12 | a substitution whose runs all have length one and already equal the replacement changes nothing |
| Links.LStripSlashes | isro_scrape/scrape.py:39 | `lstrip('/')` removes a prefix made only of `/`, and what is left does not start with `/` |
| Links.StartsWith | isro_scrape/scrape.py:38 | definition of `str.startswith`: the prefix is no longer than the string and equals its first characters, compared case-sensitively |
| Links.ResolveLink | isro_scrape/scrape.py:37-41 | the URL of a detail page; characterised by Links.ResolveLinkCases |
| Links.ResolveLinkCases | isro_scrape/scrape.py:37-41 | an href starting with `http` is used unchanged; any other href gives the base, one `/`, and the href with all its leading slashes removed |
| Links.LeadingSlashesIrrelevant | isro_scrape/scrape.py:38-39 | a relative href resolves the same with one more leading slash |
| Dicts.Singleton | isro_scrape/scrape.py:52 | the literal `{"name": title}` is well formed with exactly that one entry |
| Dicts.Put | isro_scrape/scrape.py:63 | `d[k] = v` sets k to v, keeps the key order for an existing key, appends a new key, and keeps the dict well formed |
| Dicts.PutFrame | isro_scrape/scrape.py:63 | `d[k] = v` changes no other key's presence or value and keeps the position of every earlier key |
| Scraper.RowFact | isro_scrape/scrape.py:58-62 | the pair one row gives, if any; characterised by Scraper.RowFactShape |
| Scraper.RowsPairs | isro_scrape/scrape.py:57-64 | the pairs the rows of one table give, in row order; characterised by Scraper.RowsPairsSound, Scraper.RowsPairsComplete and Scraper.PairsInOrder |
| Scraper.Pairs | isro_scrape/scrape.py:55-64 | the pairs of all tables, table by table and row by row; characterised by Scraper.PairsSound, Scraper.PairsComplete, Scraper.PairsInOrder and Scraper.FoundInfoIffFact |
| Scraper.PutAll | isro_scrape/scrape.py:63 | `dt[key] = val` for each pair in order; characterised by Scraper.PutAllLookup |
| Scraper.BuildRecord | isro_scrape/scrape.py:52-64 | the record of a detail page: `{"name": title}` updated by every pair; characterised by Scraper.RecordLookup |
| Scraper.LastValue | isro_scrape/scrape.py:63 | the value of the last pair with a key; characterised by Scraper.LastValueSpec |
| Scraper.ExtractRecord | isro_scrape/scrape.py:52-64 | the nested table and row loops build exactly `BuildRecord(title, tables)`; `found_info` is set exactly when some row gave a pair |
| Scraper.RowStep | isro_scrape/scrape.py:57-64 | a row that gives a pair performs one `dt[key] = val` and sets `found_info`; any other row changes nothing |
| Scraper.RowFactShape | isro_scrape/scrape.py:58-62 | a row gives a pair exactly when it has two cells, its label keeps a `[a-z0-9\s]` character after lower and strip, and its value is not all whitespace; the key and value then have the normal shapes |
| Scraper.RowsPairsSound | isro_scrape/scrape.py:57-64 | every stored pair comes from some row |
| Scraper.RowsPairsComplete | isro_scrape/scrape.py:57-64 | every row that gives a pair has that pair stored |
| Scraper.PairsSound | isro_scrape/scrape.py:55-64 | every pair of a page is the pair of some row of some table |
| Scraper.PairsComplete | isro_scrape/scrape.py:55-64 | the pair of every row of every table that gives one is among the pairs of the page |
| Scraper.PairsInOrder | isro_scrape/scrape.py:55-64 | the pairs come table by table, and within a table row by row: table t adds the pairs of its rows after those of the earlier tables, and row r adds its pair, if any, after those of the earlier rows |
| Scraper.FoundInfoIffFact | isro_scrape/scrape.py:53-64 | no pair is stored exactly when no row of any table gives one |
| Scraper.LastValueSpec | isro_scrape/scrape.py:63 | the value that wins for a key is that of the last pair with that key, and there is none exactly when no pair has that key |
| Scraper.PutAllLookup | isro_scrape/scrape.py:63 | after the assignments every key holds its last pair's value, a key no pair has keeps its earlier state, and the dict stays well formed |
| Scraper.RecordLookup | isro_scrape/scrape.py:52-64 | a record has `name` and the pair keys and nothing else; each key holds its last value; `name` keeps the title unless a row overrides it |
| Scraper.RecordOfOnePair | isro_scrape/scrape.py:52-63 | with one pair the record is `{"name": title}` plus that assignment |
| Scraper.NameRowPair | isro_scrape/scrape.py:59-62 | a row labelled `Name` gives the pair `("name", collapsed value)` |
| Scraper.NameRowReplacesTitle | isro_scrape/scrape.py:52-64 | a `Name` row overwrites the title and still counts as found information, leaving a record with the single key `name` |
| Scraper.NormalizeKeyOfName | isro_scrape/scrape.py:60 | the label `Name` normalises to `name` |
| Scraper.Title | isro_scrape/scrape.py:33 | the title of an anchor is its collapsed text; Text.CollapseShape characterises it |
| Scraper.VisitOf | isro_scrape/scrape.py:33-68 | what one anchor gives: its title, its resolved URL, and the record its page would give |
| Scraper.Start | isro_scrape/scrape.py:29-30 | definition of the loop state before the first anchor: `new_data = []`, `seen_names = set()`, and no request made yet |
| Scraper.Visits | isro_scrape/scrape.py:32-68 | definition of the per-anchor digest the loop runs over: entry j is Scraper.VisitOf of anchor j and its page; Scraper.Scrape's contract is stated through it |
| Scraper.Step | isro_scrape/scrape.py:32-71 | one pass of the loop body on the loop state; characterised by Scraper.RetryAfterFailure, Scraper.DuplicateSkipped and, through Scraper.Walk, by the walk lemmas |
| Scraper.Walk | isro_scrape/scrape.py:29-71 | the loop state after a sequence of anchors; characterised by Scraper.WalkSeen, Scraper.WalkRecords, Scraper.WalkRequests and Scraper.DistinctTitles |
| Scraper.WalkSnoc | isro_scrape/scrape.py:32-71 | the loop state after one more anchor is one more step of the loop body |
| Scraper.WalkSeen | isro_scrape/scrape.py:30-68 | `seen_names` holds exactly the titles of earlier anchors whose fetch gave a record |
| Scraper.WalkRecords | isro_scrape/scrape.py:29-71 | the records are those of the anchors that were fetched and gave a record: one each, in anchor order, and no others |
| Scraper.WalkRequests | isro_scrape/scrape.py:33-46 | the detail URLs requested are those of the anchors with a non-empty title that no earlier success claimed: in anchor order, and no others |
| Scraper.DistinctTitles | isro_scrape/scrape.py:33-68 | no record comes from an empty title, and no two records come from anchors with the same title |
| Scraper.WalkTwo | isro_scrape/scrape.py:32-71 | the loop over two anchors is two steps of the body |
| Scraper.RetryAfterFailure | isro_scrape/scrape.py:66-71 | after a failed fetch, a later anchor with the same title is fetched again and its record is kept |
| Scraper.DuplicateSkipped | isro_scrape/scrape.py:34-35 | once a title has given a record, a later anchor with that title is neither fetched nor recorded |
| Scraper.FetchRecord | isro_scrape/scrape.py:43-71 | a detail page gives a record exactly when it was fetched and some row gave a pair; that record is the one built from its tables |
| Scraper.ScrapeAnchor | isro_scrape/scrape.py:33-71 | one pass of the loop body moves `new_data`, `seen_names` and the request log as one step of the walk |
| Scraper.Numbered | isro_scrape/scrape.py:77-78 | the records with `id` set to position + 1; characterised by Scraper.NumberedAt |
| Scraper.NumberedAt | isro_scrape/scrape.py:77-78 | numbering keeps the length and sets record i's `id` to i + 1 |
| Scraper.ReverseInPlace | isro_scrape/scrape.py:74 | the swaps from both ends produce the reversed list |
| Scraper.AssignIds | isro_scrape/scrape.py:77-78 | the enumerate loop produces the numbered list |
| Scraper.OutputOrder | isro_scrape/scrape.py:74-78 | for any records, output i is appended record N-1-i with `id` set to i + 1, overwriting any extracted `id`, and the length is kept |
| Scraper.OutputFacts | isro_scrape/scrape.py:74-78 | as Scraper.OutputOrder, and records that are well formed stay well formed |
| Scraper.IdsOneToN | isro_scrape/scrape.py:77-78 | records whose `id` is their position + 1 carry exactly the ids 1..N |
| Scraper.OutputIds | isro_scrape/scrape.py:74-78 | for any records, the ids written are exactly 1..N |
| Scraper.ScrapedRecordsWellFormed | isro_scrape/scrape.py:29-78 | every record the loop appends, and every record written after reversal and numbering, is a well-formed dict: distinct keys that are exactly the keys it maps |
| Scraper.Scrape | isro_scrape/scrape.py:14-87 | a failed listing fetch writes nothing and requests only the listing; otherwise the records written are the walk's records, reversed and numbered; the URLs requested are the listing and then the walk's requests |
| Seqs.FilterMapSound | isro_scrape/scrape.py:57-64 | every value kept comes from some element |
| Seqs.FilterMapComplete | isro_scrape/scrape.py:57-64 | every value produced by some element is kept |
| Seqs.FlatFilterMapSound | isro_scrape/scrape.py:55-64 | every value kept from the tables comes from some element of some table |
| Seqs.FlatFilterMapComplete | isro_scrape/scrape.py:55-64 | every value produced by some element of some table is kept |
| Seqs.FlatFilterMapEmpty | isro_scrape/scrape.py:55-64 | nothing is kept from the tables exactly when no element of any table gives a value |
| Seqs.Reversed | isro_scrape/scrape.py:74 | the list in reverse order; characterised by Seqs.ReversedAt |
| Seqs.ReversedAt | isro_scrape/scrape.py:74 | position k of the reversal holds the element k places from the end |

## Left out

- Network access is not modelled: `requests.get`, `raise_for_status` and the 30 s and 20 s timeouts. The listing result and each detail-page result are inputs, `None` standing for any exception. `Scrape` records the URLs it would request instead of sending them.
- HTML parsing is not modelled: BeautifulSoup and `find_all` with the class strings `out` and `pContent table table-striped table-bordered`. The anchors, their `text` and `href`, and the tables as rows of `td` texts are inputs.
- Output is not modelled: `print`, `os.makedirs`, the file write and `json.dump` with `indent=2, ensure_ascii=False`. `Scrape` returns the list that would be dumped; `Dicts.Dict` keeps the key order that `json.dump` would write.
- Keys.LowerChar: lowers only A-Z. Python's `lower()` also maps non-ASCII letters; a few of them (the Kelvin sign, U+0130) lower to ASCII letters and would then survive step 2.
- The `KeyError` raised by `craft["href"]` outside the `try` is not modelled: every anchor is assumed to have an href.
- No aliasing: the records and `new_data` are modelled as values. Each record dict is referenced only from `new_data`, so no aliasing can be observed. `reverse()` and the id loop work on a sequence variable, not on a heap list.
- Scraper.Scrape: each detail-page outcome is supplied per anchor, including for skipped anchors whose page is never requested. `WalkRequests` states which pages are requested.
- Scraper.ScrapeAnchor: the loop body is stated against `VisitOf`, a pure digest of the anchor (title, URL, record) that is defined for every anchor. The method computes those values only on the branches where the script does.
