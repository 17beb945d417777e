# Spelt, modelled in Dafny

Spelt backs up a user's photo albums from VK to local folders. It lists the user's albums,
adds a pseudo-album of photos the user is tagged in, and lets the user tick albums in a
curses checklist. It then reads each chosen album's id back from its checklist label, and
fetches each album's photo listing page by page. Finally it downloads every photo under a
file name built from the photo's id and its sanitised caption.

This project models the parts of that pipeline that are pure logic, as immutable data and
pure functions:

- `picker.dfy` (module `Picker`) is the checklist (`spelt/picker.py`):
  - A picker is a `State`, and one key press is the transition `Step`.
  - `Run` feeds a sequence of keys through `Step`. `GetSelected` is the result the caller
    sees, and `Visible`, `MoreAbove`, `MoreBelow` and `Counter` are what `redraw` shows.
  - `Valid` is the invariant every state between two key presses satisfies. `Init`
    establishes it and `Step` keeps it (`StepKeepsValid`). `Step` itself is defined on
    every state, as the Python loop is.
- `photos.dfy` (module `Photos`) covers the photo side of `spelt/__init__.py`:
  - the caption sanitiser `normpath` and `escape_path`;
  - the ranking of size variants;
  - turning one listing page into photo records;
  - the target file name of `download_photo`.
- `driver.dfy` (module `Driver`) covers the album side of `run_app` and `process_albums`:
  - the catalog with the pseudo-album;
  - the label format `'%-45s %5d [ID:%d]'` and the id parse;
  - the album filter, and the page offsets requested for one album.
- `text.dfy` (module `Text`) gives the Python string built-ins these rely on: `strip`,
  `find`/`rfind`, slices with negative bounds, `%`-padding, `str(int)` and `int(str)`.
  `common.dfy` (module `Common`) holds `Option`, `filter`/`map` over lists and the
  subsequence relation.

Nothing talks to a terminal, the network or a disk. Inputs that come from those places are
parameters:

- the key codes;
- the service's replies (`Listing`, the album list, the tagged-photo count);
- the name-length test, which is the parameter `tooLong`.

Two behaviours of the code are worth spelling out:

- If the album listing fails, `get_albums` returns `None` (spelt/__init__.py:83, 92-94).
  `albums.insert(0, ...)` at line 318 then raises on `None`, so the program stops.
  `Driver.Catalog` returns `None` for this case.
- The sort key of a size variant with an unknown `type` is `None`. The ranking follows
  Python 2, where `None` sorts below every number. The rest of `spelt/__init__.py` is
  Python 2 code (`raw_input`, `unicode`).

## Model

| member | source | states |
|---|---|---|
| Picker.Init | spelt/picker.py:66-73 | every label becomes one unchecked option, in order; the picker starts valid with the cursor and offset at 0 |
| Picker.KeyOf | spelt/picker.py:156-168 | q and Q quit, Space toggles, code 10 accepts, `KEY_UP` (259) and `KEY_DOWN` (258) move, and every other code does nothing but the clamping; each of these holds in both directions |
| Picker.CheckCursorUp | spelt/picker.py:134-139 | only the cursor and offset change; the cursor ends non-negative and moves only when it was negative; the offset drops by at most one, and only when the cursor was negative and the offset positive |
| Picker.CheckCursorDown | spelt/picker.py:140-149 | only the cursor and offset change; the cursor never grows and ends at most `window_height`; the offset grows by at most one; a cursor already inside both the list and the window leaves the state as it is |
| Picker.Settle | spelt/picker.py:172-179 | after both clamps and the recount, the options and the abort flag are unchanged, the cursor is at most `window_height`, `selected` is cursor plus offset, and the counter equals the number of checked options |
| Picker.SettleKeeps | spelt/picker.py:134-149 | clamping keeps a valid state valid, and leaves it unchanged when the list is non-empty (an empty list parks the cursor on -1) |
| Picker.SettleAfterUp | spelt/picker.py:134-139 | after `cursor -= 1`, the cursor stops at row 0 and the view scrolls up by one while it can; the state stays valid |
| Picker.SettleAfterDown | spelt/picker.py:140-149 | after `cursor += 1`, the cursor stops at the last row or the last option; the view scrolls only while options remain below; the state stays valid |
| Picker.FlipKeepsLabels | spelt/picker.py:165-167 | toggling an option leaves every label unchanged |
| Picker.SettleAfterFlip | spelt/picker.py:165-179 | after Space, nothing moves, the state stays valid, and the labels are unchanged |
| Picker.OptionIndex | spelt/picker.py:166-167 | `all_options[selected]` names an option exactly when `-length <= selected < length`, and that option's index is congruent to `selected` modulo the length (a negative index counts from the end) |
| Picker.Step | spelt/picker.py:151-179 | from any state, it crashes exactly on Space when `all_options[selected]` is out of range, or on any key other than q/Q and Enter once aborted (the recount takes `len(False)`); it stops exactly on q/Q (marked aborted) or Enter; a finished picker keeps its options; labels never change |
| Picker.StepKeepsValid | spelt/picker.py:151-179 | from a valid state, Space crashes exactly on an empty list, a running result is valid again, and a finished one is aborted exactly after q/Q |
| Picker.Run | spelt/picker.py:151-179 | over any key sequence the labels never change |
| Picker.RunKeepsValid | spelt/picker.py:151-179 | from a valid state, over any key sequence, a running result stays valid and a finished one is valid or aborted |
| Picker.GetSelected | spelt/picker.py:91-96 | cancelled exactly when aborted; otherwise the labels of the checked options in list order: a subsequence of the labels, containing every checked label and only checked ones, and, with repeated labels too, made of one label per checked option, in order, as many as there are checked options |
| Picker.Visible | spelt/picker.py:111 | with a non-negative offset, at most `window_height + 1` rows are drawn, row `i` is option `offset + i`, and fewer rows are drawn only when the list ends |
| Picker.HighlightIsVisible | spelt/picker.py:110-131 | the arrow's row is among the drawn rows and shows the option Space would toggle |
| Picker.HintsMatchHiddenOptions | spelt/picker.py:121-127 | `MoreAbove` and `MoreBelow`: the upper "..." appears exactly when options lie above the view, the lower one exactly when options lie below it |
| Picker.ScrolledViewportIsFull | spelt/picker.py:111 | once scrolled, the view shows a full `window_height + 1` rows |
| Picker.SelcountCountsChecked | spelt/picker.py:176-179 | the counter equals the number of checked options |
| Picker.CounterReadsBack | spelt/picker.py:130 | `Counter`, the counter in the top border splits at its first `/` into the checked-option count and the option count, both of which parse back |
| Picker.UpMovesBack | spelt/picker.py:159-176 | Up highlights the previous option (never before the first), scrolling when on the top row |
| Picker.DownMovesForward | spelt/picker.py:161-176 | Down highlights the next option (never past the last), scrolling when on the bottom row |
| Picker.ToggleFlipsOne | spelt/picker.py:165-167 | Space negates the flag of the highlighted option only; cursor, offset and labels stay |
| Picker.ToggleTwiceRestores | spelt/picker.py:165-167 | Space twice restores the picker exactly |
| Picker.OnlyOneChecked | spelt/picker.py:95-96 | with exactly one option checked, the selection is that label alone |
| Picker.PickSecond | spelt/picker.py:151-179 | on a fresh picker, Down, Space, Enter finishes and selects exactly the second label |
| Picker.PickSecondOfThree | spelt/picker.py:151-179 | on A, B, C, Down, Space, Enter selects B |
| Picker.CancelIsNotEmptyChoice | spelt/picker.py:91-96 | `q` yields the cancel marker, while Enter with nothing checked yields the empty list |
| Photos.NormPath | spelt/__init__.py:124-126 | with `KeepChar` as the test of line 125, the result is a subsequence of the caption, made only of alphanumerics and `' ._,'`, with no trailing whitespace; it is a prefix of the kept characters in order, and only trailing whitespace of them is lost |
| Photos.NormPathIdempotent | spelt/__init__.py:124-126 | sanitising twice is sanitising once |
| Photos.NormPathKeepsVisible | spelt/__init__.py:124-126 | every kept character that is not whitespace survives, at the index given by the number of kept characters before it |
| Photos.NormPathDropsTwo | spelt/__init__.py:124-126 | two alphanumeric words around a dropped character, followed by another dropped character, become the two words joined |
| Photos.NormPathExample | spelt/__init__.py:124-126 | "Vacation/2019!" becomes "Vacation2019" |
| Photos.EscapePath | spelt/__init__.py:263-266 | same length, no `/`, every `/` replaced by `_` and every other character kept; the empty path is returned as is |
| Photos.EscapePathAppend | spelt/__init__.py:263-266 | escaping distributes over concatenation |
| Photos.EscapePathIdempotent | spelt/__init__.py:263-266 | a path without `/` is unchanged, so escaping is idempotent |
| Photos.SplitExt | spelt/__init__.py:210 | stem plus extension is the path; the extension is empty or a single `.` part with no further `.` or `/`; it is non-empty exactly when the last path component has a `.` after some non-dot character, and leading dots stay in the stem |
| Photos.JpgExtension | spelt/__init__.py:210 | a URL ending in `b.jpg` gives the extension `.jpg` |
| Photos.Rank | spelt/__init__.py:146 | a tag has a rank exactly when it is one of `s m x o p q r y z w`, and the rank is its position in that list |
| Photos.SortKey | spelt/__init__.py:146 | the key is -1 (Python 2's `None`) exactly for a tag outside `s m x o p q r y z w`, and otherwise the tag's position in that list |
| Photos.BestSize | spelt/__init__.py:153-158 | the chosen variant has the largest sort key, and no earlier variant has the same key (the stable descending sort's first element) |
| Photos.BestSizeIsLargestKnown | spelt/__init__.py:146-158 | when any tag is known, the chosen variant has a known tag of the highest rank present |
| Photos.LargestTagWins | spelt/__init__.py:146-158 | if any variant is `w`, a `w` variant is chosen |
| Photos.ToPhoto | spelt/__init__.py:153-161 | the record keeps id and date, takes the URL of a largest variant, and has a title exactly when the caption is non-empty, the title being the sanitised caption |
| Photos.PagePhotos | spelt/__init__.py:147-163 | items without sizes are skipped; the others become records one-for-one, in listing order |
| Photos.AlbumPhotos | spelt/__init__.py:128-165 | a failed request or a reply without `items` gives no photos; otherwise the records of `PagePhotos` |
| Photos.FullBaseName | spelt/__init__.py:205 | the name starts with the id's decimal text; exactly when the title (the sanitised caption) is non-empty, `_` and that title follow it |
| Photos.BaseName | spelt/__init__.py:205-208 | the name is the full name or the bare id, and it is too long only when it is the bare id |
| Photos.TargetFilename | spelt/__init__.py:205-210 | the file name contains no `/` |
| Photos.AfterId | spelt/__init__.py:205-210 | what follows the id is empty or starts with `_` or `.` |
| Photos.FilenameSplitsAtId | spelt/__init__.py:205-210 | the file name is the id followed by the escaped rest |
| Photos.FilenameStartsWithId | spelt/__init__.py:204-210 | the leading number of the file name parses back to the photo id |
| Photos.DistinctIdsDistinctFiles | spelt/__init__.py:204-210 | photos with different ids never get the same file name, whatever their captions |
| Photos.TooLongFallsBackToId | spelt/__init__.py:206-210 | an over-long name becomes the id plus the extension |
| Photos.CaptionedFilename | spelt/__init__.py:205-210 | a photo whose sanitised caption is non-empty and whose name is short enough is saved as id, `_`, sanitised caption, extension, with nothing escaped |
| Photos.ExampleBaseName | spelt/__init__.py:205 | photo 42 captioned "Vacation/2019!" has the base name `42_Vacation2019` |
| Driver.Catalog | spelt/__init__.py:317-318 | with `UserPhotosAlbum` as the reply of `get_user_photos_album`, a failed listing stops the program; otherwise the pseudo-album (id -9999999, the tagged-photo count) comes first, followed by the listed albums in order |
| Text.PadRightShape | spelt/__init__.py:322 | `%-45s`: the text is kept whole and padded with spaces on the right up to the width, never cut |
| Text.PadLeftShape | spelt/__init__.py:322 | `%5d`: the text is kept whole and padded with spaces on the left up to the width, never cut |
| Driver.LabelShape | spelt/__init__.py:322 | a label starts with the album title, ends with the id and `]`, and is at least 12 characters longer than title and id together |
| Driver.FirstTagIsTheId | spelt/__init__.py:322 | when the title has no `[ID:`, the first `[ID:` in the label is the one before the id |
| Driver.LastTagIsTheId | spelt/__init__.py:322 | whatever the title, the last `[ID:` in the label is the one before the id |
| Driver.SliceAfterTag | spelt/__init__.py:332 | the slice from after that tag to before the last character is the id's decimal text |
| Driver.IdAfterTag | spelt/__init__.py:332 | whichever tag a parse locates, the number printed after it is what the parse returns |
| Driver.ParseWithoutTag | spelt/__init__.py:332 | on a label with no `[ID:`, `find` and `rfind` both give -1, so both parses read from index 3 to the last character and agree |
| Driver.ParseAsWrittenRoundTrip | spelt/__init__.py:332 | the program's `find`-based parse reads back the id of every album whose title lacks `[ID:` |
| Driver.ParseAsWrittenFailsOnTaggedTitle | spelt/__init__.py:332 | the `find`-based parse fails (ValueError) on every album whose title contains `[ID:` |
| Driver.TaggedTitleExample | spelt/__init__.py:332 | an album titled `[ID:` cannot be read back by the program |
| Driver.ParseRoundTrip | spelt/__init__.py:331-333 | the `rfind`-based parse reads back every album's id, whatever its title |
| Driver.ParseAll | spelt/__init__.py:330-333 | for a given label parse, all labels parse or the whole selection fails; on success the ids match the labels one-for-one |
| Driver.SelectAlbums | spelt/__init__.py:336 | the selected albums keep catalog order; each has a chosen id, and every album with a chosen id is included; there are as many as catalog albums with a chosen id, repeats included |
| Driver.Choose | spelt/__init__.py:326-336 | for a given label parse (`ChooseAlbumsAsWritten` passes the `find` one, `ChooseAlbums` the corrected `rfind` one): nothing is exported exactly when the picker was cancelled or nothing was checked; the run stops on ValueError exactly when some chosen label does not parse; otherwise the exported albums keep catalog order, each matches some chosen label's id, and every catalog album whose id some chosen label yields is exported |
| Driver.ChoiceIsExported | spelt/__init__.py:320-336 | when the parse reads every ticked album's id back from its label, a non-empty choice is exported and holds exactly the catalog albums sharing an id with a ticked one |
| Driver.ChosenLabelsAreExportedAsWritten | spelt/__init__.py:320-336 | as written, that holds whenever no ticked title contains `[ID:` |
| Driver.TaggedChoiceStops | spelt/__init__.py:320-336 | as written, ticking any album whose title contains `[ID:` stops the run with ValueError, whatever else was ticked |
| Driver.ChosenLabelsAreExported | spelt/__init__.py:320-336 | with the corrected `rfind` parse, ticking the labels of any albums leads to an export of exactly the catalog albums sharing an id with a ticked one |
| Driver.PageOffsets | spelt/__init__.py:240-257 | a negative size asks for no page; otherwise `size / 1000 + 1` pages |
| Driver.AlbumOffsets | spelt/__init__.py:240-257 | the `while offset <= size` loop produces exactly `PageOffsets` |
| Driver.PageOffsetsCover | spelt/__init__.py:246-257 | the offsets start at 0, step by 1000, never pass the size, and the last page reaches past the last photo |
| Driver.EveryPhotoHasOnePage | spelt/__init__.py:246-257 | every photo position lies in exactly one requested page |
| Driver.OrdinaryAlbumSkipsPhotos | spelt/__init__.py:137-141 | as written, `photos.get` sends no `count`; when the service's default reply is below 1000 and the album is larger, the photo right after the first reply is in no reply |
| Driver.EveryPhotoFetched | spelt/__init__.py:131-135 | with `count` 1000, as `photos.getUserPhotos` sends it, every photo of the album is in some reply |
| Driver.ExactMultipleAsksOneExtraPage | spelt/__init__.py:246-257 | a size that is a multiple of 1000 makes the last request start at the size, past every photo |
| Driver.PageOffsetsExamples | spelt/__init__.py:246-257 | albums of 1500 and of 1000 photos are both fetched from offsets 0 and 1000 |
| Driver.AlbumFolder | spelt/__init__.py:241 | an album's folder name has the title's length and no `/` |

## Left out

- Terminal I/O: `curses_start`, `curses_stop`, drawing with `addstr`, borders, and the
  title and footer strings. `Picker.Counter` leaves out the blank drawn on either side of
  the counter. Keys arrive as a sequence, decoded by `Picker.KeyOf`.
- Picker.Run: the real loop blocks waiting for the next key. When the modelled keys run
  out, `Run` returns `Running`.
- The service calls (`connect`, the request in `get_albums`, `get_user_photos_album`, the
  listing requests). Their replies are parameters: the album list, the tagged-photo count
  and `Listing`. Of the choice between `photos.get` and `photos.getUserPhotos`, only the
  reply size is modelled (`Driver.ReplySizeAsWritten`).
- HTTP downloads, the existence check, writing files, `mkdir`, EXIF insertion
  (`generate_exif`) and the process pool. Only the names that `process_albums` and
  `download_photo` compute are modelled.
- Photos.ToPhoto: `datetime.fromtimestamp` is not modelled, so `date` stays the raw
  timestamp.
- Photos.TargetFilename: `sys.getsizeof(basename) > 245` depends on the interpreter's
  object layout. It is the parameter `tooLong`.
- Photos.NormPath: `str.isalnum` is modelled on ASCII letters and digits only. Unicode
  letters and digits are dropped here, but Python keeps them.
- Text.ParseInt: Python 2's `int()` is modelled with ASCII digits, optional surrounding
  whitespace and one sign. Whitespace between the sign and the digits, which Python 2
  accepts, is rejected here, and so are non-ASCII digits. No label slice or counter the
  model parses has either form.
- Photos.EscapePath: `escape_path(None)` is not modelled. Both callers pass strings.
- Photos.PagePhotos: an item whose `sizes` is missing makes `len(None)` raise. Every
  `Item` here carries a list, so this is not modelled.
- Photos.SortKey: Python 3 would raise when an unknown tag's `None` key is compared with
  a number. The model uses the Python 2 order instead (see above).
- Photos.ExampleBaseName: the worked example stops at the base name `42_Vacation2019`.
  `Photos.CaptionedFilename` appends the URL's extension for every captioned photo.
- ParseAll, Choose: the same definitions serve both parses. The program as written is
  `Driver.ChooseAlbumsAsWritten`, which uses the `find` parse. `Driver.ChooseAlbums` uses
  the corrected `rfind` parse (see Findings).
- ChosenLabelsAreExported: it holds for the corrected `rfind` parse only. For the program
  as written, `Driver.ChosenLabelsAreExportedAsWritten` needs titles without `[ID:`, and
  `Driver.TaggedChoiceStops` shows that the run stops otherwise.
- EveryPhotoHasOnePage: it takes every reply to hold up to 1000 photos, as the offset step
  does. Only `photos.getUserPhotos` sends `count` 1000; `photos.get` sends none (see
  Findings).
- PageSize: the reply size of `photos.get` is the service's default, which the repository
  does not state. It is the parameter `defaultCount` of `Driver.ReplySizeAsWritten`.
- Logging, argument parsing, prompting for credentials, and timing.

## Findings

| source | as written | input that shows it | evidently intended | confidence | as-written member | corrected member |
|---|---|---|---|---|---|---|
| spelt/__init__.py:137-141 | the request for an ordinary album sends no `count`, while `process_albums` steps the offset by 1000 | an ordinary album of more photos than the service's default reply size, when that default is below 1000 | send `count` 1000 on both requests, as `photos.getUserPhotos` does, so each reply covers its 1000-photo step | not executed; the default reply size is the service's, not the program's | Driver.OrdinaryAlbumSkipsPhotos | Driver.EveryPhotoFetched |
| spelt/__init__.py:332 | the id is sliced from after the FIRST `[ID:` in the label, so a title containing `[ID:` makes the slice hold title text and the real tag; `int()` raises ValueError and the backup stops | an album titled `[ID:` (`Driver.TaggedTitleExample`) | read from the LAST `[ID:`, which is always the one the label format writes | not executed | Driver.ParseAsWrittenFailsOnTaggedTitle | Driver.ParseRoundTrip |

`Driver.ParseLabelIdAsWritten` is the parse as written, and `Driver.ChooseAlbumsAsWritten`
uses it. `Driver.ParseLabelId` uses `rfind`, and `Driver.ChooseAlbums` uses it.
