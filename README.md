# ODF-Inspector core, modelled in Dafny

ODF-Inspector opens an Open Document Format package: a ZIP archive holding a
`mimetype` entry and XML parts such as `content.xml`, `meta.xml`,
`styles.xml` and `META-INF/manifest.xml`. It checks that the package is an
ODF document and reports on it. This project models the document-model logic
of `ODFInspector` (src/ODFInspector.cpp) and proves properties of it.

The model has five parts:

- **Loading and validating** (`Inspector.Inspector`). This is a class with the
  inspector's fields: the media type, the last error, the loaded flag and the
  four XML buffers. Its methods are `Load`, `ValidateODF` and
  `ExtractCoreFiles`.
  - `ValidateODF` removes *every* whitespace character from the `mimetype`
    entry and keeps the result. It accepts the package only if the result
    starts with `application/vnd.oasis.opendocument`.
  - `ExtractCoreFiles` copies each XML part that exists and always succeeds.
  - `Load` sets the loaded flag only when the package is accepted. On failure
    it sets the error message and leaves the flag and the buffers alone.
  - The invariant `Valid()` says that a loaded inspector holds the media type
    of an accepted package. It is established by the constructor and kept by
    `Load`. Under it, `isValidODF()` is the same as being loaded.
- **MIME classification** (`DocType`). This is the first-match if-chain over
  the keywords `text`, `spreadsheet`, `presentation`, `graphics`, `chart` and
  `formula`. It is proved equal to a table-driven reference.
- **Metadata extraction** (`Metadata`). The `extractTag` search finds the
  first opening tag and then the first closing tag after it. `parseMetadata`
  builds its map from four fields and then erases the empty ones in key
  order. The worked example `<meta:meta><dc:title>Report</dc:title></meta:meta>`
  is proved to yield exactly `{Title: "Report"}`.
- **The XML indenter** (`XmlFormat`). The character loop of `formatXML` is a
  method proved equal to a step function. The loop state is characterised in
  closed form:
  - the counter is the number of level-raising `>` minus the number of `</`;
  - the padding before each `<` is a fixed function of that depth.
  From this the model proves three things:
  - the output keeps every input character once and in order;
  - it only adds line breaks and spaces before `<`;
  - input without `<` is returned unchanged.
- **The archive** (`ZipArchive`). ZipReader is a wrapper over minizip. Here
  it is an ordered list of (name, contents) entries with exact-name lookup.
  The first entry with a name wins, because minizip's `unzLocateFile` scans
  from the start. The module also holds the `Pictures/` and `images/` prefix
  filter used by `listImages`.

Strings are `seq<char>`, one element per byte. `std::string::find` is
`Text.Find`, which returns `None` for `npos`. `isspace` is the "C"-locale set:
space, `\t`, `\n`, `\v`, `\f` and `\r`.

The model follows the code on these points:

- A name that appears twice is looked up as its *first* entry, because
  `unzLocateFile` scans from the start of the archive.
- *Every* whitespace character is removed from the mimetype, although the
  comment at src/ODFInspector.cpp:43 says trailing whitespace.
- A missing `mimetype` entry and a wrong media type both give
  `Invalid ODF file`.
- `load()` may be called again, and it updates the fields in place.

## Model

| member | source | states |
|---|---|---|
| Text.Find | src/ODFInspector.cpp:331-335 | `std::string::find`: the result is an occurrence at or after the start position, with no earlier occurrence; `None` (npos) means there is no occurrence at or after the start |
| Text.FindFirst | src/ODFInspector.cpp:331-335 | If the first occurrence at or after the start is at `p`, then find returns `p` |
| Text.FindAtZeroIsPrefix | src/ODFInspector.cpp:47 | `s.find(p) == 0` holds exactly when `p` is a prefix of `s` |
| Text.ContainsIff | src/ODFInspector.cpp:359 | `find(k) != npos` holds exactly when `k` occurs somewhere in the string |
| Text.Contains | src/ODFInspector.cpp:359-369 | The `find(k) != npos` test of each branch; a keyword can only be contained in a string at least as long as it |
| Text.StripSpaces | src/ODFInspector.cpp:44 | The `remove_if(isspace)` result is no longer than the input, has no whitespace, and has only characters taken from the input |
| Text.IsSpace | src/ODFInspector.cpp:44 | `::isspace` in the "C" locale: exactly the characters with codes 9 to 13 (tab, line feed, vertical tab, form feed, carriage return) and the space |
| Text.StripSpacesAppend | src/ODFInspector.cpp:44 | Removing whitespace distributes over concatenation, so whitespace anywhere in the entry (not only at the end) is dropped and the other characters keep their order |
| Text.StripSpacesNoSpaces | src/ODFInspector.cpp:44 | A string without whitespace is left unchanged |
| Text.StripSpacesAllSpaces | src/ODFInspector.cpp:44 | A string made only of whitespace becomes empty |
| Text.StripSpacesIdempotent | src/ODFInspector.cpp:44 | Removing whitespace twice is the same as removing it once |
| ZipArchive.ListFiles | src/ZipReader.cpp:51-75 | `listFiles`: one name per entry, in directory order |
| ZipArchive.FileExists | src/ZipReader.cpp:113-120 | `fileExists` is true exactly when the name is among the listed names |
| ZipArchive.IndexOf | src/ZipReader.cpp:85 | `unzLocateFile` with exact matching: a found index names an entry with that name, and no earlier entry (no entry at all when nothing is found) has that name |
| ZipArchive.ExtractFile | src/ZipReader.cpp:77-111 | `extractFile` returns the contents of an entry with that name, or "" when there is none |
| ZipArchive.FileSize | src/ZipReader.cpp:122-139 | `getFileSize` is the length of what `extractFile` returns, and 0 for a missing name |
| ZipArchive.ExtractUnique | src/ZipReader.cpp:85-107 | When a name is unique, it exists and extraction returns that entry's contents |
| ZipArchive.ExtractFirstWins | src/ZipReader.cpp:85-107 | When a name is repeated, the first entry in directory order is the one extracted |
| ZipArchive.ImageEntries | src/ODFInspector.cpp:242-251 | The names reported by `listImages` are exactly the listed names that start with `Pictures/` or `images/` |
| ZipArchive.ImageEntriesAppend | src/ODFInspector.cpp:245-251 | The image filter distributes over concatenation, so the reported images keep their directory order |
| ZipArchive.ImagePathIsFindAtZero | src/ODFInspector.cpp:246 | The source's two `find(prefix) == 0` tests are the prefix test used by the filter |
| DocType.DocTypeFromMime | src/ODFInspector.cpp:358-373 | `getDocTypeFromMime`: the result is always one of the six labels or `Unknown ODF Document`; any mimetype containing `text` is a text document, whatever else it contains |
| DocType.DocTypeIsFirstMatch | src/ODFInspector.cpp:358-373 | The if-chain equals the first hit when walking the keyword table in order |
| DocType.DocTypeChoosesFirstKeyword | src/ODFInspector.cpp:358-373 | Label `k` is returned exactly when keyword `k` occurs and no keyword checked before it does |
| DocType.DocTypeUnknownIff | src/ODFInspector.cpp:358-373 | `Unknown ODF Document` is returned exactly when none of the six keywords occurs |
| Metadata.ExtractTag | src/ODFInspector.cpp:327-339 | `extractTag` gives "" when the opening tag is absent. A non-empty value is the text between the first `<tag>` and the first `</tag>` after it |
| Metadata.ExtractTagFound | src/ODFInspector.cpp:331-338 | When both tags are present, the value is exactly the slice between the end of the first opening tag and the first closing tag after it |
| Metadata.ExtractTagUnclosed | src/ODFInspector.cpp:336-337 | An opening tag with no closing tag after it gives "" |
| Metadata.ExtractTagOfElement | src/ODFInspector.cpp:327-339 | An element `<tag>value</tag>` whose text has no `<`, and whose tag does not open earlier, is read back as exactly `value` |
| Metadata.MetadataOf | src/ODFInspector.cpp:341-355 | `parseMetadata`: the keys are a subset of Title, Creator, Date and Generator; every value is non-empty; a key is present exactly when its tag's text is non-empty, and then maps to that text |
| Metadata.TagValues | src/ODFInspector.cpp:341-344 | The map has exactly the four keys Title, Creator, Date and Generator before the empty entries are erased |
| Metadata.MetadataOfIsFilter | src/ODFInspector.cpp:346-355 | Any map holding exactly the non-empty tag values is the metadata map, so the erase loop's result determines `parseMetadata` |
| Metadata.AbsentInText | src/ODFInspector.cpp:331 | A tag cannot be found inside text that has no `<` |
| Metadata.AbsentInOtherTag | src/ODFInspector.cpp:331 | The opening tag of one element cannot be found inside the bracketed name of a different element |
| MetadataExample.MetadataExample | src/ODFInspector.cpp:341-355 | `<meta:meta><dc:title>Report</dc:title></meta:meta>` yields exactly `{Title: "Report"}` |
| MetadataExample.ExampleMetaOthers | src/ODFInspector.cpp:342-344 | In the example document, the creator, date and generator tags are absent, so they read as "" |
| MetadataExample.MetadataOnlyTitle | src/ODFInspector.cpp:347-353 | When only the title's text is non-empty, the erase loop leaves just the Title entry |
| Inspector.AcceptsIff | src/ODFInspector.cpp:35-48 | A package is accepted exactly when it has a `mimetype` entry whose whitespace-free contents start with the ODF prefix; the accepted media type is then at least as long as the prefix, so it is non-empty |
| Inspector.EraseEmpty | src/ODFInspector.cpp:347-353 | The erase loop removes exactly the entries with empty values and leaves the other values unchanged |
| Inspector.Refreshed | src/ODFInspector.cpp:52-66 | A buffer takes the entry's contents when the entry exists, and otherwise keeps its current value |
| Inspector.StoredMimeType | src/ODFInspector.cpp:41-44 | The media type validateODF keeps: no longer than the `mimetype` entry and free of whitespace |
| Inspector.Inspector.constructor | src/ODFInspector.cpp:7-11 | A new inspector is not loaded and has empty fields; it is consistent and not valid |
| Inspector.Inspector.ValidateODF | src/ODFInspector.cpp:35-48 | With no `mimetype` entry it fails and keeps the media type. Otherwise it stores the whitespace-free entry even when that fails, and succeeds exactly when the stored value starts with the ODF prefix. It works on the inspector's own archive and keeps `Valid()` |
| Inspector.Inspector.ExtractCoreFiles | src/ODFInspector.cpp:50-69 | Always succeeds. Each buffer takes its entry's contents when the entry exists, and otherwise keeps its value. It works on the inspector's own archive and keeps `Valid()` |
| Inspector.Inspector.Load | src/ODFInspector.cpp:15-33 | Succeeds exactly for an accepted package. An open failure sets `Failed to open ODF file: ` + reason; a validation failure sets `Invalid ODF file`. Both failures leave the loaded flag and buffers unchanged. Success sets the flag and refreshes the buffers. The `Valid()` invariant is preserved, and success implies `isValidODF()` |
| Inspector.Inspector.ValidMeansLoaded | src/ODFInspector.cpp:268-270 | For a consistent inspector, `isValidODF()` holds exactly when it is loaded, because an accepted media type is never empty |
| Inspector.Inspector.DocumentType | src/ODFInspector.cpp:264-266 | `getDocumentType` always returns one of the seven fixed strings |
| Inspector.Inspector.IsValidODF | src/ODFInspector.cpp:268-270 | `isValidODF()` only holds for a loaded inspector with a non-empty media type. It is false after construction, true after a successful `Load`, and under `Valid()` it is the same as being loaded (`ValidMeansLoaded`) |
| Inspector.Inspector.ParseMetadata | src/ODFInspector.cpp:323-356 | The method (map filled from four tags, then the erase loop) returns exactly `MetadataOf(metaXml)` |
| Inspector.Inspector.ImageFiles | src/ODFInspector.cpp:232-251 | Nothing when not loaded. Otherwise exactly the archive names under `Pictures/` or `images/` |
| Inspector.TextDocumentAccepted | src/ODFInspector.cpp:35-48 | A `mimetype` entry holding the text media type plus a newline is stored without the newline, is accepted, and classifies as `Text Document (.odt)` |
| Inspector.PdfRejected | src/ODFInspector.cpp:47 | A `mimetype` entry `application/pdf` is rejected |
| Inspector.TextMimeTypeHasNoSpaces | src/ODFInspector.cpp:44 | The text-document media type is left unchanged by the whitespace removal |
| Inspector.TextMimeTypeContainsText | src/ODFInspector.cpp:359 | The text-document media type contains `text` |
| XmlFormat.FormatXml | src/ODFInspector.cpp:276-321 | The character loop returns exactly `Formatted(xml)`, the fold of the step function. A negative padding count becomes an error outcome |
| XmlFormat.Formatted | src/ODFInspector.cpp:276-321 | The value `formatXML` returns: on success it is never shorter than the input. `FormattedClosedForm`, `FormattedKeepsCharacters` and `FormattedOnlyAddsLayout` give its full content |
| XmlFormat.Step | src/ODFInspector.cpp:286-317 | One iteration of the loop body, from a non-negative counter: when it does not fail, the counter stays non-negative |
| XmlFormat.Run | src/ODFInspector.cpp:285-318 | After `n` characters without failure, there is one pad per character and the counter is non-negative |
| XmlFormat.RunFailureSticks | src/ODFInspector.cpp:291-297 | Once a negative padding count is reached, no output is produced |
| XmlFormat.RunClosedForm | src/ODFInspector.cpp:281-317 | After `n` characters the loop has not failed exactly when every `</` so far came at a positive depth. Then the counter equals the depth, the flag says the last bracket was `>`, and the padding before each character is `PadAt` |
| XmlFormat.StepClosedForm | src/ODFInspector.cpp:286-317 | One loop iteration keeps the closed form: it decrements before `</`, increments at a level-raising `>`, and pads only before `<` |
| XmlFormat.DepthNeverNegative | src/ODFInspector.cpp:294-297 | While every `</` comes at a positive depth, the depth is never negative |
| XmlFormat.FormattedClosedForm | src/ODFInspector.cpp:276-321 | Formatting succeeds exactly when every `</` in the input comes while the counter is above 0 (`ClosesAtPositiveDepth`). This is narrower than well-formed XML: `<a>text</a>` fails. The output is the input interleaved with the closed-form pads |
| XmlFormat.FormattedKeepsCharacters | src/ODFInspector.cpp:304 | Every input character is emitted exactly once: character `j` is at position `j` plus the earlier padding, positions strictly increase, and the length is the input length plus the padding |
| XmlFormat.WeavePositions | src/ODFInspector.cpp:288-304 | Interleaving places each character after its pad and all earlier text |
| XmlFormat.PadAtShape | src/ODFInspector.cpp:288-298 | Each pad consists only of line breaks and spaces, and a non-empty pad only occurs before `<` |
| XmlFormat.FormattedOnlyAddsLayout | src/ODFInspector.cpp:288-304 | Removing line breaks and spaces from the output gives the same text as removing them from the input |
| XmlFormat.WeaveUnpad | src/ODFInspector.cpp:288-304 | Interleaving pads made only of line breaks and spaces changes nothing once layout is removed |
| XmlFormat.FormatWithoutTags | src/ODFInspector.cpp:285-320 | Input with no `<` is returned unchanged |
| XmlFormat.SelfClosingKeepsDepth | src/ODFInspector.cpp:310-315 | A self-closing tag `<name/>` leaves the depth unchanged |
| XmlFormat.CloseLowersDepth | src/ODFInspector.cpp:294-295 | Each `</` lowers the depth by one |
| XmlFormat.OpenBeforeTextKeepsDepth | src/ODFInspector.cpp:310-313 | An opening tag followed by text does not raise the depth |
| XmlFormat.DepthFlat | src/ODFInspector.cpp:286-317 | Characters other than `<` and `>` leave the depth unchanged |
| XmlFormat.TextElementFails | src/ODFInspector.cpp:294-297 | On `<a>text</a>`, the `</` at position 7 drives the counter to -1, and formatting fails |
| XmlFormat.ClampedAgrees | src/ODFInspector.cpp:276-321 | The repaired indenter produces the same text as the source on every input the source formats |
| XmlFormat.ClampedFormatted | src/ODFInspector.cpp:276-321 | The corrected indenter: it always yields text, never shorter than the input; `ClampedAgrees` and `ClampedOnlyAddsLayout` relate it to the source |
| XmlFormat.ClampedOnlyAddsLayout | src/ODFInspector.cpp:288-304 | The repaired indenter always produces text, and like the source it only adds line breaks and spaces |
| XmlFormat.ClampedRunAgrees | src/ODFInspector.cpp:281-317 | Wherever the source's loop has not failed, the repaired loop is in the same state |
| XmlFormat.ClampedRun | src/ODFInspector.cpp:285-318 | The repaired loop never fails: one pad per character and a counter that is never negative |
| XmlFormat.ClampedPadsAreLayout | src/ODFInspector.cpp:288-298 | Every pad of the repaired loop is made only of line breaks and spaces |

## Findings

| source | as written | input that shows it | evidently intended | confidence | as-written member | corrected member |
|---|---|---|---|---|---|---|
| src/ODFInspector.cpp:294-297 | `indent--` then `formatted.append(indent * 2, ' ')`. When a `</` comes at depth 0, the count is negative, it converts to a huge `size_t`, and `append` throws `std::length_error`. Nothing catches it, so the program terminates | `<a>text</a>`. The `>` of `<a>` is followed by text, so the depth stays 0 at `</a>`. In an ODF `content.xml`, each paragraph with a span followed by more text lowers the depth by one for good, so ordinary documents reach this point | Formatting is a cosmetic pass: it never fails and at worst indents inconsistently. The padding count stays at zero instead of going negative | not executed; high (follows from the loop as written) | XmlFormat.TextElementFails | XmlFormat.ClampedFormatted, XmlFormat.ClampedAgrees |

`XmlFormat.FormatXml` and `XmlFormat.Formatted` model the code as written.
The failure is the error outcome `NegativePadding`.

The corrected indenter is `XmlFormat.ClampedFormatted`. It keeps the counter
at zero and puts a bare line break before such a `</`. Its result is a plain
string, so it cannot fail. It is proved to agree with the source wherever the
source succeeds (`ClampedAgrees`) and to add only layout
(`ClampedOnlyAddsLayout`).

## Left out

- The ZIP reader's own logic: minizip, the central-directory parsing, DEFLATE, file handles and `close()`. The archive is a list of (name, contents) entries. A file that fails to open is represented by `OpenFailed(reason)`, where `reason` stands for ZipReader's error text.
- Reading the file system: opening is fixed per inspector by the constructor's `source`. A second `load()` therefore sees the same outcome as the first. A file that changes between calls is not modelled.
- ZipReader's `isOpen_` guards and its `lastError_` messages.
- ZipReader's read failures inside `extractFile`: a failed info lookup, open or read returns "", and a short read returns the buffer padded with zero bytes. The model always returns the entry's contents.
- The 256-byte name buffer in `listFiles`, which truncates longer names.
- minizip's platform-dependent case-insensitive matching (case-sensitivity flag 0). Lookup is exact equality.
- The unreachable branch at src/ODFInspector.cpp:26-29 ("Failed to extract core ODF files"). `ExtractCoreFiles` is proved always to succeed, so `Load` goes straight on to set the loaded flag.
- All `display*` methods and the printing in `listImages`: console text, column widths, truncation at 2000/1500 characters and the printed sizes. `ZipArchive.FileSize` models the size lookup itself.
- The getters `getMimeType()` and `getLastError()`. They return a field.
- `formatted.reserve(...)` and the write-only `inTag` variable in `formatXML`. Neither has an observable effect.
- XmlFormat.FormatXml: the `int` counter is unbounded. Signed overflow of `indent` or of `indent * 2` (src/ODFInspector.cpp:291 and 297, reached at 2^30 nesting levels) is not modelled.
- Text.IsSpace: only the "C" locale's whitespace set is modelled. `isspace` on a negative `char` value, which is undefined behaviour, is not modelled.
