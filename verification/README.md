# Sunmachine helper scripts — a Dafny model

This project models the two pure cores of the app's offline helper scripts.

- **The translatable-string extractor** (`gtextr.py`) scans source files line by line. It searches each line for an `ngettext('…')` call first; only when that yields no entry does it search for a `gettext('…')` call. It emits at most one catalog entry per line, tagged with the file and the 1-based line number. One shared set of already-extracted message ids keeps every id to a single entry. A fixed metadata header comes before all entries.
- **The zone-map step of the timezone snapshot builder** (`assets/mktzdata.py`) builds a map from a version directory name and the regular files under `tzdb-root/usr/share/zoneinfo/`. `_tzdb` maps to the directory name without `tzdb-`. Every file whose first line starts with the bytes `TZif2` adds its root-relative path, mapped to its last line, decoded as UTF-8, with surrounding whitespace stripped. A file with no lines, or a signed file whose last line is not valid UTF-8, stops the script before anything is written. The map is then written with its keys sorted.

Modules:

- `Wrappers` (`wrappers.dfy`): `Option` and `Result`.
- `CallPattern` (`pattern.dfy`): the two regular expressions `gettext\(['"](.+)['"][,)]` and `ngettext\(['"](.+)['"][,)]`, written as a search over strings. A search takes the leftmost start at which the pattern matches. At that start it takes the longest capture, because `.+` is greedy. `.` does not match a newline, and the two quotes may differ.
- `Extract` (`extract.dfy`): the extraction scan. The files' lines are flattened into *sites* (path, 1-based line number, text). Each site is paired with its two search results (an *offer*). `Scan` folds the per-line decision over the offers, threading the extracted set. `Catalog` is the header followed by the entries. `RunExtractor` mirrors the script's nested loops and is proved to compute `Catalog`.
- `ExtractExamples` (`extract_examples.dfy`): worked examples of the extractor.
- `Utf8` (`utf8.dfy`): strict UTF-8 decoding as `bytes.decode()` does it, with its inverse encoding.
- `KeyOrder` (`keyorder.dfy`): Python's string order and the sorting of the written keys.
- `ZoneMap` (`zonemap.dfy`): Python slicing, `strip` over Python's whitespace, the signature test, the key and value of an entry, the file loop with its error path, the identity rewrite loop and the sorted document.

Two behaviours of the code are easy to miss; the model follows the code as written:

- Because `.+` is greedy, `ngettext('item', 'items')` captures `item', 'items`, not `item`. The capture runs up to the last quote followed by a comma or parenthesis. `GreedyPluralCapture` and `SingularThenPlural` state this.
- A zone file named `_tzdb` directly under the root would overwrite the version entry: plain dict assignment replaces the value. So the `_tzdb` property is stated for listings in which no file has that key.

## Model

| member | source | states |
|---|---|---|
| CallPattern.LastEnd | gtextr.py:5-6 | the greedy capture end: the greatest end up to `hi` where a newline-free non-empty capture is followed by a quote and a comma or parenthesis, or none when no end exists |
| CallPattern.FindFrom | gtextr.py:5-6 | the first match at or after `s` is the leftmost start where the pattern matches, with the greedy end; none when no start from `s` on matches |
| CallPattern.Find | gtextr.py:5-6 | `re.search`: the result is the leftmost match with its longest capture, and it is none exactly when the pattern matches nowhere |
| CallPattern.Search | gtextr.py:25-35 | `group(1)` is present exactly when some start matches; it is then the text of the leftmost match's longest capture, non-empty and without a newline |
| CallPattern.PluralMatchIsSingularMatch | gtextr.py:5-6 | every plural match is a singular match one character later, since `gettext(` is a suffix of `ngettext(` |
| CallPattern.LastEndIs | gtextr.py:5-6 | a capture end with no capture end after it is exactly the greedy end |
| CallPattern.FindFromSkips | gtextr.py:5-6 | the search moves past every start where the prefix and a quote do not occur |
| CallPattern.SearchAt | gtextr.py:5-6 | the search captures from just after the quote at the first opening start to that start's greatest end |
| CallPattern.PluralLineAlsoMatchesSingular | gtextr.py:25-34 | a line with a plural match always has a singular match starting no later than one character into it; when it starts there, both matches end at the same place |
| CallPattern.SameIdInsidePluralCall | gtextr.py:25-34 | when the singular match starts one character into the plural call, both patterns give the same message id |
| CallPattern.GreedyPluralCapture | gtextr.py:5-6 | `ngettext('a', 'b')` captures `a', 'b` with both patterns, not the first argument |
| Extract.Number | gtextr.py:22-24 | the lines of a file numbered from `n + 1`, going up by exactly one per line, each site carrying its file and text |
| Extract.SitesAppend | gtextr.py:20-23 | reading files in sequence reads their lines in sequence |
| Extract.SiteOfLine | gtextr.py:20-24 | line `k` of file `i` sits right after all lines of earlier files and is numbered `k + 1`: numbering restarts at 1 in each file |
| Extract.SiteIndex | gtextr.py:20-24 | every site is some line of some file, with that line's 1-based number |
| Extract.ProcessLine | gtextr.py:25-39 | a plural entry is emitted exactly when the plural capture exists and is new, and carries it as both msgid and msgid_plural; a singular entry carries the singular capture; the extracted set grows by exactly the emitted id; no entry means neither capture is new |
| Extract.Scan | gtextr.py:23-39 | the scan gives exactly one outcome per line, so a line yields at most one entry |
| Extract.ScanInvariants | gtextr.py:26-39 | the extracted set only grows and ends equal to the starting set plus the emitted ids; every emitted id is new, tagged with its line's file and number, and no two entries share an id, across files and kinds |
| Extract.ScanAppend | gtextr.py:20-23 | scanning two runs of lines is scanning the first, then the second from the set the first left, so entries follow input order |
| Extract.FirstOccurrence | gtextr.py:25-39 | no line before an id's entry has a plural capture of that id, and any earlier line whose singular capture is that id emitted a plural entry instead |
| Extract.Coverage | gtextr.py:25-39 | every plural capture ends up extracted, and so does every singular capture on a line that did not emit a plural entry |
| Extract.Catalog | gtextr.py:9-39 | the output starts with the fixed header, even with no files; every later block is an entry, and no two entries share a msgid |
| Extract.CatalogAppend | gtextr.py:20-39 | the catalog of files `a + b` lists the entries of `a`, then those `b` adds given the ids `a` extracted |
| Extract.OutcomeOrigin | gtextr.py:25-39 | the entry a line emits carries that line's plural capture when plural and its singular capture when singular, and the line's file and number |
| Extract.CatalogEntryOrigin | gtextr.py:20-39 | every catalog entry was captured on line `k + 1` of some file, by the plural pattern for a plural entry and by the singular pattern for a singular one |
| Extract.ExtractLine | gtextr.py:25-39 | the body of the line loop computes the per-line step |
| Extract.ExtractFile | gtextr.py:21-39 | the line loop over one file computes the scan of that file's numbered lines, from the shared set |
| Extract.RunExtractor | gtextr.py:7-39 | the script's loops, with one set shared by all files, output exactly the header followed by the catalog entries |
| ExtractExamples.NoPluralWithoutN | gtextr.py:6 | a line without the letter `n` has no plural match |
| ExtractExamples.SingularThenPlural | gtextr.py:20-39 | `gettext('hello')` then `ngettext('item', 'items')` give a singular entry `hello` at line 1 and a plural entry `item', 'items` at line 2 |
| ExtractExamples.DuplicateAcrossFiles | gtextr.py:20-39 | the same message in two files gives one entry, tagged with the first file |
| Utf8.CodePoint | assets/mktzdata.py:18 | the character a well-formed sequence encodes is a Unicode scalar value, in the range its length allows, so no overlong form or surrogate is accepted |
| Utf8.EncodeCharWellFormed | assets/mktzdata.py:18 | the UTF-8 form of any character is one well-formed sequence that decodes back to it |
| Utf8.DecodeEncode | assets/mktzdata.py:18 | decoding the UTF-8 form of any string gives the string back |
| Utf8.EncodeCodePoint | assets/mktzdata.py:18 | a well-formed sequence is the only UTF-8 form of the character it decodes to |
| Utf8.EncodeDecode | assets/mktzdata.py:18 | every byte sequence that decodes is the UTF-8 form of what it decodes to, so decoding is one to one |
| Utf8.DecodeAscii | assets/mktzdata.py:18 | bytes below 128 always decode, one character per byte, each with the byte's code |
| Utf8.Rejected | assets/mktzdata.py:18 | a stray `0xFF`, an overlong `/`, an encoded surrogate and a truncated sequence all fail to decode |
| KeyOrder.LessIrreflexive | assets/mktzdata.py:24 | no key sorts before itself |
| KeyOrder.LessTransitive | assets/mktzdata.py:24 | the key order is transitive |
| KeyOrder.LessTotal | assets/mktzdata.py:24 | any two distinct keys are ordered one way or the other |
| KeyOrder.LeastExists | assets/mktzdata.py:24 | every non-empty set of keys has a least key |
| KeyOrder.SortKeys | assets/mktzdata.py:24 | the keys come out in strictly ascending order, each key of the set exactly once |
| ZoneMap.Take | assets/mktzdata.py:17 | `s[:n]` is the prefix of length `n`, or all of `s` when shorter |
| ZoneMap.Drop | assets/mktzdata.py:18 | `s[n:]` is what follows the first `n` elements, or empty when `s` is shorter |
| ZoneMap.Strip | assets/mktzdata.py:18 | `strip()` leaves a middle part of the text that neither begins nor ends with whitespace, with only whitespace removed on both sides |
| ZoneMap.StripIdempotent | assets/mktzdata.py:18 | stripping twice is stripping once |
| ZoneMap.StripPadded | assets/mktzdata.py:18 | `strip()` removes exactly the surrounding whitespace from text that does not start or end with whitespace |
| ZoneMap.HasSignatureIsPrefix | assets/mktzdata.py:17 | the signature test holds exactly when the first line has at least 5 bytes and they are `TZif2` |
| ZoneMap.FooterRuleIsValue | assets/mktzdata.py:16-18 | when the last line is the UTF-8 form of a rule followed by a newline, it decodes and the entry's value is that rule |
| ZoneMap.ZoneKeyIsRelativePath | assets/mktzdata.py:13-18 | the 29 characters cut from each path are exactly the zoneinfo root, so a key is the root-relative path |
| ZoneMap.ZoneKeysDistinct | assets/mktzdata.py:13-18 | distinct paths under the root have distinct keys |
| ZoneMap.VersionLabelDropsPrefix | assets/mktzdata.py:8-11 | the version label is the directory name after `tzdb-` |
| ZoneMap.CollectFails | assets/mktzdata.py:13-18 | the file loop aborts exactly when some file has no lines or is signed with a last line that is not valid UTF-8, and it aborts with the error of the first such file |
| ZoneMap.CollectKeys | assets/mktzdata.py:13-18 | on success the keys are the starting keys plus those of the signed files; keys no signed file writes keep their value |
| ZoneMap.CollectValues | assets/mktzdata.py:13-18 | when no file aborts the loop, it succeeds, and a signed file that is the last to write its key leaves its stripped last line under that key |
| ZoneMap.UnderRootKeysDistinct | assets/mktzdata.py:13-18 | in a listing of distinct paths under the root, no two files share a key, so no entry overwrites another |
| ZoneMap.ZoneMapContents | assets/mktzdata.py:11-18 | for distinct paths under the zoneinfo root, none keyed `_tzdb`, and with no file that aborts the loop, the map holds `_tzdb` with the version label; its other keys are exactly the signed files' keys, each holding that file's stripped last line; a file without the signature is absent |
| ZoneMap.RewriteEntries | assets/mktzdata.py:20-21 | the rewrite loop leaves every key with the value it had |
| ZoneMap.Snapshot | assets/mktzdata.py:11-24 | the written document fails exactly when some file is empty or a signed file's last line is not valid UTF-8; otherwise it lists every key of the built map once, with its value, in strictly ascending key order |

## Left out

- Downloading, unpacking and building the database (`wget`, `bsdtar`, `make`) and removing the working files afterwards: shell and filesystem plumbing. The version directory name is an input.
- Which `tzdb-20*` directory is chosen when several exist (`glob(...)[0]`): directory listing order is not modelled.
- Globbing, `os.path.isfile` and the order of the listings. The file lists are inputs, in the order given.
- Opening and reading files, and splitting them into lines. Each file arrives as its sequence of lines, newline included.
- The rendering of the catalog (`#:` comments, quoting, blank lines) and the JSON text (tab indentation, `\uXXXX` escapes for non-ASCII characters, trailing newline). Entries, the header's name/value pairs and the sorted key/value list stand for them.
- `MainActivity.kt`: a forwarding layer over the Android Bluetooth API, with no logic of its own.
- Any placeholder rewriting of zone strings: the loop at lines 20-21 of `assets/mktzdata.py` assigns every value to itself.
- Python's `re` engine in general: only the two fixed patterns are modelled.
