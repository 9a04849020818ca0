# hanalyse in Dafny

hanalyse is a tool for annotating binary files. You mark byte ranges of a
file as *tags*: a name, a start and end offset, a data type, a role and a
comment. Tags live in a table model, are saved and loaded as YAML
documents, and are driven from a Qt main window with two hex views. An
older curses viewer prints a classic hex dump and moves a cursor over it.

This project models the core of that engine and proves properties of the
model:

- `wrappers.dfy` (`Wrappers`): `Option`, `Result` and `Outcome`. Python
  exceptions become an `Exception` value carried on the failure path.
- `numerals.dfy` (`Numerals`): Python's `int(s)` and `int(s, 16)` on the
  texts the tag setters receive, and the `"%07x"` / `'{:08x}'` hex
  formatting.
- `bytes.dfy` (`Bytes`): `int.from_bytes` and `int.to_bytes` for a byte
  order given as a parameter, and `uchar_to_uint8` / `uchar_to_int8`.
- `tags.dfy` (`Tags`): the `TagTypes` and `TagRoles` enums with lookup by
  name, and the `Tag` record with its parsing setters and keyword
  constructor. The identifier source is a counter class.
- `tag_document.dfy` (`TagDocument`):
  - the six-field record a tag is written as;
  - the stable sort by start offset that `write_to_file` applies;
  - the document as a sequence of entries;
  - rebuilding tags from a document, and the write/read round trip.
- `tag_model.dfy` (`TagModels`): the `TagModel` class over a
  `seq<Option<Tag>>`, with both orientations. It has counts, `data`,
  `setData`, row and column insertion and removal, clearing, appending,
  reading and writing.
- `controller.dfy` (`Controller`): the logic of the Qt `MainWindow`:
  - the cursor-containment scan and its `programmatic_change` guard;
  - tag creation from the dialog;
  - the absolute-offset jump;
  - the 4-byte find and find-again.
- `curses_viewer.dfy` (`CursesViewer`): the curses viewer's `HexFile`
  dump line, and the key-driven cursor state of its `MainWindow`.

Environment values are parameters:

- `sys.byteorder` is the `ByteOrder` argument `order`.
- `uuid4()` is the counter `Tags.IdSource`. Identifiers are fresh because
  the counter only grows.
- The file the Qt window reads is the `data` argument of
  `Controller.MainWindow`'s constructor.
- Widget selections and cursor positions are arguments or fields.
- A parsed YAML document is a `TagDocument.Document`.
- The curses window size from `getmaxyx()` is given as `rows`/`cols`, and
  the keys `getch()` returns are a sequence.

`insertRows`/`removeRows` called on the label axis touch no tag, so in the
vertical orientation `clear_rows` leaves the tags in place and
`read_from_file` appends to them (`TagModels.TagModel.ReadFromFile`).

## Model

| member | source | states |
|---|---|---|
| Numerals.HexStringDigits | hanalyse/mainwindow.py:301-304 | `%x` of n is lowercase hex digits reading back as n, with no leading zero unless n < 16 |
| Numerals.HexStringLength | hanalyse/mainwindow.py:301-304 | `%x` of n has at most w digits exactly when n < 16^w |
| Numerals.FormatHexDigits | hanalyse/mainwindow.py:301-304 | formatting n with a minimum width gives lowercase hex digits that read back as n, zero-padded to exactly the width unless `%x` of n is longer |
| Numerals.FormatHexWidth | hanalyse/mainwindow.py:301-304 | formatting n with a minimum width w >= 1 gives exactly w digits iff n < 16^w, and more otherwise |
| Numerals.HexRoundTrip | hanalyse/tags.py:77-79 | `"0x"` followed by any zero-padded hex formatting of n has the hex prefix and parses in base 16 back to n |
| Numerals.DecimalNumeralAccepted | hanalyse/tags.py:80-81 | `int()` accepts surrounding whitespace, an optional sign and decimal digits, giving the signed value of the digits |
| Numerals.DecimalAcceptedText | hanalyse/tags.py:80-81 | any text `int()` accepts consists of whitespace, signs and decimal digits only, with at least one digit |
| Numerals.NoDigitsRejected | hanalyse/tags.py:77-81 | a text without any hex digit is rejected by the decimal branch and never takes the hex branch |
| Numerals.BareHexPrefixRejected | hanalyse/tags.py:77-79 | a `0x` prefix followed by no hex digit is rejected by the base-16 conversion |
| Numerals.StripSource | hanalyse/tags.py:80-81 | stripping keeps one contiguous run of the text and removes only whitespace around it |
| Numerals.SignedNumeralText | hanalyse/tags.py:80-81 | an accepted stripped numeral holds only decimal digits and signs, at least one digit among them |
| Bytes.LittleValueBound | hanalyse/utilities.py:7-9 | the unsigned reading of n bytes is below 256^n |
| Bytes.TopBit | hanalyse/utilities.py:12-14 | the most significant byte (per byte order) has its top bit set iff the unsigned reading is at least half of 256^n |
| Bytes.SignedReading | hanalyse/utilities.py:12-14 | the signed reading lies in -256^n/2 .. 256^n/2-1 and is the unsigned reading, minus 256^n exactly when that reading is at least 256^n/2 |
| Bytes.SingleByte | hanalyse/utilities.py:7-14 | for one byte b and either byte order, the unsigned reading is b and the signed one is b below 128 and b-256 otherwise; 0xFF reads as -1 |
| Bytes.TwoByteExamples | hanalyse/utilities.py:9 | for two bytes the order matters: [1, 0] reads 1 little-endian and 256 big-endian |
| Bytes.ToBytesRoundTrip | hanalyse/mainwindow.py:392-395 | `to_bytes(length)` succeeds iff 0 <= value < 256^length (otherwise OverflowError), giving `length` bytes that read back as the value |
| Bytes.FromBytesRoundTrip | hanalyse/mainwindow.py:380 | encoding the unsigned reading of any bytes to the same length and order gives those bytes back |
| Tags.TypeLookupByName | hanalyse/tags.py:105-109 | a type text resolves to a member iff it is exactly that member's name |
| Tags.RoleLookupByName | hanalyse/tags.py:116-120 | a role text resolves to a member iff it is exactly that member's name |
| Tags.SetFieldEffect | hanalyse/tags.py:64-129 | a setter succeeds iff its conversion does and fails with the conversion's error; on success it stores the converted value in that field only, keeping the identifier, the parent and all other fields |
| Tags.AssignEffect | hanalyse/tags.py:47-52 | one keyword assignment succeeds iff the keyword is absent (the default is kept) or its value converts; only that field changes |
| Tags.AssignAllEffect | hanalyse/tags.py:47-52 | assigning a sequence of fields succeeds iff every one is acceptable, sets exactly those present to their converted values, and on failure reports the first unacceptable field's error |
| Tags.NewTagFields | hanalyse/tags.py:43-52 | `Tag(**kwargs)` succeeds iff every given field converts; it then has the given identifier, no parent, and each field's converted value or default ("" name, 0 start and end, Unknown type and role, "" comment); otherwise it fails with the first bad field's error in constructor order |
| Tags.NewTagIdentifier | hanalyse/tags.py:44 | a constructed tag carries the identifier it was given |
| Tags.HexOffsetExamples | hanalyse/tags.py:75-82 | "0x10" sets offset 16 and "0X1A" sets 26 |
| Tags.DecimalOffsetExample | hanalyse/tags.py:75-82 | "16" sets offset 16 |
| Tags.NonNumeralOffsets | hanalyse/tags.py:75-82 | "xyz" and "0x" fail with ValueError |
| Tags.HexTextOffset | hanalyse/tags.py:77-79 | any `0x`-prefixed hex formatting of n sets offset n |
| Tags.DecimalTextNotHex | hanalyse/tags.py:78-81 | an optionally signed decimal numeral amid whitespace never takes the `0x` branch |
| Tags.DecimalTextOffset | hanalyse/tags.py:80-81 | an unprefixed, optionally signed decimal numeral with surrounding whitespace sets its signed value |
| Tags.IdSource.constructor | hanalyse/tags.py:44 | the identifier source starts at 0 |
| Tags.IdSource.Fresh | hanalyse/tags.py:44 | each identifier handed out is the counter's value, which then grows by one |
| Tags.CreateTag | hanalyse/tags.py:43-52 | creating a tag uses exactly one fresh identifier and yields `Tag(**kwargs)` with it |
| TagDocument.InsertByStart | hanalyse/tags.py:446 | one insertion step of the sort adds exactly one element |
| TagDocument.SortByStart | hanalyse/tags.py:446 | the sort keeps the length |
| TagDocument.InsertByStartSorted | hanalyse/tags.py:446 | inserting into a start-sorted list keeps it start-sorted and adds only the new tag |
| TagDocument.InsertByStartMultiset | hanalyse/tags.py:446 | inserting adds the tag to the multiset of elements |
| TagDocument.InsertByStartWithStart | hanalyse/tags.py:446 | inserting puts the new tag before the earlier tags of equal start (which keeps the sort stable) |
| TagDocument.SortByStartSpec | hanalyse/tags.py:440-446 | `sorted(key=start)` is ordered by start, a permutation of its input, and stable: the tags with each start keep their store order |
| TagDocument.RecordsOfInsert | hanalyse/tags.py:446 | inserting a tag adds its record to the multiset of records |
| TagDocument.RecordsCons | hanalyse/tags.py:162-175 | the records of a tag followed by a list are its record followed by the list's records |
| TagDocument.RecordsOfSort | hanalyse/tags.py:440-449 | sorting keeps the multiset of records |
| TagDocument.NamedOfSort | hanalyse/tags.py:446-448 | every sorted tag can be written iff every stored one can |
| TagDocument.SortedRecords | hanalyse/tags.py:437-449 | the records of a sorted list have non-decreasing starts and can each be read back |
| TagDocument.WriteDocumentSpec | hanalyse/tags.py:437-449 | writing succeeds iff every slot holds a tag whose type and role are members; the records are then those of the stably sorted tags: they number as the tags, are ordered by start, are the multiset of the tags' records, keep the slot order among equal starts, and can all be read back |
| TagDocument.RecordsWithStartOf | hanalyse/tags.py:446 | the records starting at k are the records of the tags starting at k, in order |
| TagDocument.EntryLookups | hanalyse/tags.py:167-174 | the mapping holds each of the six keys with that field's written value |
| TagDocument.BuildTags | hanalyse/tags.py:430-435 | rebuilding tags never moves the identifier counter back |
| TagDocument.BuildStopsAtFailure | hanalyse/tags.py:430-435 | once an entry fails, the entries after it change nothing |
| TagDocument.BuildStep | hanalyse/tags.py:430-435 | after successful earlier entries, the rebuild of one more entry is that entry's step applied to the rebuild so far |
| TagDocument.BuildLast | hanalyse/tags.py:430-435 | appending an entry to the document rebuilds it after the others, unless an earlier entry already failed |
| TagDocument.RecordFromFields | hanalyse/tags.py:167-174 | a tag whose fields hold a record's values is written as exactly that record |
| TagDocument.EntryRebuilds | hanalyse/tags.py:432 | `Tag(**entry)` on a written entry succeeds and is written back as the same record |
| TagDocument.RebuildRecords | hanalyse/tags.py:430-435 | reading a written document appends one tag per record with consecutive identifiers and the same records in order |
| TagDocument.WriteReadRoundTrip | hanalyse/tags.py:422-449 | for a store of named tags, writing succeeds and reading the result back gives tags with the same multiset of records |
| TagModels.SliceBound | hanalyse/tags.py:344 | a Python slice bound, negatives counted from the end, is clamped into 0..len and unchanged when already in range |
| TagModels.DeleteSliceInRange | hanalyse/tags.py:344 | `del s[i:j]` with 0 <= i <= j <= len removes exactly j-i elements, keeping s[:i] and s[j:] |
| TagModels.InsertThenRemove | hanalyse/tags.py:320-353 | removing the rows just inserted restores the store |
| TagModels.NegativeRowsRemoval | hanalyse/tags.py:342-344 | a negative row passes the bound check and deletes Python-style from the end ([a,b,c] minus `[-2:-1]` is [a,c]) |
| TagModels.AppendFresh | hanalyse/tags.py:44 | appending a tag with the next fresh identifier keeps all identifiers distinct and below the counter |
| TagModels.TagModel.constructor | hanalyse/tags.py:215-219 | a new model has the given orientation and label order and no tags |
| TagModels.TagModel.Locate | hanalyse/tags.py:251-270 | an index names a tag and a field iff it is valid and within the row and column counts; rows are tags when horizontal, columns when vertical |
| TagModels.TagModel.Data | hanalyse/tags.py:251-275 | `data` returns a value iff the index is in range, the role is display or edit and the slot is filled; the value is that tag's field, with enums by name |
| TagModels.TagModel.SetData | hanalyse/tags.py:284-305 | `setData` returns False and changes nothing unless the index is in range and the role is edit; otherwise it sets that one field through its setter (the setter's error or AttributeError on an empty slot propagate), after which the cell shows the converted value and every other cell is unchanged |
| TagModels.TagModel.InsertPlaceholders | hanalyse/tags.py:326-327 | the insertion loop puts `count` empty slots at the position |
| TagModels.TagModel.InsertRows | hanalyse/tags.py:320-336 | succeeds iff 0 <= row <= the item or label count; only the horizontal item axis gains placeholders |
| TagModels.TagModel.RemoveRows | hanalyse/tags.py:338-353 | succeeds iff row+count is within the item or label count; only the horizontal item axis loses `del tags[row:row+count]` |
| TagModels.TagModel.InsertColumns | hanalyse/tags.py:355-371 | as InsertRows with the axes swapped |
| TagModels.TagModel.RemoveColumns | hanalyse/tags.py:373-388 | as RemoveRows with the axes swapped |
| TagModels.TagModel.ClearRows | hanalyse/tags.py:390-391 | empties the store when horizontal and leaves it alone otherwise |
| TagModels.TagModel.ClearColumns | hanalyse/tags.py:393-394 | empties the store when vertical and leaves it alone otherwise |
| TagModels.TagModel.AppendTag | hanalyse/tags.py:396-420 | the tag becomes the new last slot, earlier slots unchanged, in either orientation |
| TagModels.TagModel.AppendEntries | hanalyse/tags.py:430-435 | the loop appends the tags rebuilt from the entries up to the first failure and reports it; identifiers stay distinct |
| TagModels.TagModel.AppendEntry | hanalyse/tags.py:432-435 | one pass of the loop: the identifier counter, the error and the appended slot are exactly those of the entry's step, nothing changes on failure but the counter, and identifiers stay distinct |
| TagModels.TagModel.ReadFromFile | hanalyse/tags.py:422-435 | an unparsable document changes nothing; otherwise the rows are cleared first, then a null document raises TypeError and a list is rebuilt entry by entry |
| TagModels.TagModel.WriteToFile | hanalyse/tags.py:437-449 | the result is the document written for the store: it succeeds iff all slots hold writable tags, and then yields the store's records ordered by start as a permutation, with equal starts in slot order |
| TagModels.Transposed | hanalyse/tags.py:233-275 | a vertical model over the same tags swaps the counts and shows cell (c, r) where the horizontal one shows (r, c) |
| Controller.ScanEnd | hanalyse/mainwindow.py:205-206 | the scan reads tags up to the first empty slot, where reading `tag.start` raises |
| Controller.LastMatch | hanalyse/mainwindow.py:203-221 | the reported row is the last tag in store order with start <= offset <= end, or none when no tag covers the offset |
| Controller.Follow | hanalyse/mainwindow.py:193-199 | following selected rows succeeds iff their slots are all filled, and the main view then selects the last row's tag extent; the only error is AttributeError |
| Controller.FollowStopsAtEmpty | hanalyse/mainwindow.py:193-199 | at the first unfilled selected slot AttributeError is raised and the main view keeps the extent of the last filled row before it, or its earlier selection when there is none |
| Controller.DialogLookups | hanalyse/mainwindow.py:308-315 | the dialog passes all six fields as text |
| Controller.DialogArgumentsAcceptable | hanalyse/mainwindow.py:301-315 | with the prefilled offsets kept and valid type and role names, every field converts to the expected value |
| Controller.PrefilledWidth | hanalyse/mainwindow.py:301-304 | the `0x{:08x}` prefill is exactly ten characters iff the offset is below 2^32 |
| Controller.DialogRoundTrip | hanalyse/mainwindow.py:301-315 | the `0x{:08x}` prefilled offsets parse back to the selection start and end, so the new tag has exactly the selection and the dialog's name, comment, type and role |
| Controller.ReadBytes | hanalyse/mainwindow.py:378 | the reader returns at most `length` bytes, exactly the slice when it is in range |
| Controller.IndexOf | hanalyse/mainwindow.py:396 | the search returns the first match at or after `from`, or -1 when there is none |
| Controller.FindMissesMatchAtOffsetZero | hanalyse/mainwindow.py:396-399 | as written, a match at offset 0 is not recorded |
| Controller.FindMissesMatchAtOffsetZeroExample | hanalyse/mainwindow.py:396-399 | the needle [1,0,0,0] at the start of the data is missed as written and found by the corrected search |
| Controller.FindAgainRepeats | hanalyse/mainwindow.py:408-411 | as written, searching again from the stored hit finds that same hit |
| Controller.FindNext | hanalyse/mainwindow.py:389-412 | the corrected search returns the first match after the previous hit (from 0 without one), and nothing iff no match lies there |
| Controller.FindNextAdvances | hanalyse/mainwindow.py:401-412 | the corrected find-again never returns the previous hit again, and a first search finds a match at or before any match |
| Controller.MainWindow.constructor | hanalyse/mainwindow.py:174-178 | a horizontal tag model with `TAG_LABEL_ORDER`, no programmatic change, nothing selected and no stored hit |
| Controller.MainWindow.TagModelSelectionChanged | hanalyse/mainwindow.py:193-199 | during a programmatic change nothing happens; otherwise the main view follows the selected rows |
| Controller.MainWindow.Hex1PositionChanged | hanalyse/mainwindow.py:201-227 | the selected row becomes the last tag covering the offset (cleared when none does), an empty slot raises AttributeError, the hex selection is untouched, and the programmatic-change flag is up on return exactly when it was up on entry and the scan raised before any tag covered the offset |
| Controller.MainWindow.OnActionTagTriggered | hanalyse/mainwindow.py:298-319 | without data or with the dialog rejected nothing changes; otherwise one identifier is used and the tag built from the dialog is appended, or its error reported; with the prefilled offsets kept it spans the selection |
| Controller.MainWindow.ShowAbsOffset | hanalyse/mainwindow.py:374-381 | the second view's cursor becomes the unsigned reading of selectionLength+1 bytes at the selection start |
| Controller.MainWindow.FindOffset | hanalyse/mainwindow.py:389-399 | a cursor that does not fit 4 bytes raises OverflowError; otherwise a hit of the corrected search from the start is stored and shown |
| Controller.MainWindow.FindOffsetAgain | hanalyse/mainwindow.py:401-412 | as FindOffset, resuming after the stored hit; without a stored hit it raises AttributeError |
| CursesViewer.LineOffset | hanalyse.py:46-48 | a line starts at line*16 when that is within the contents, and at 0 when it lies past the end |
| CursesViewer.HexPartLength | hanalyse.py:53-57 | n bytes take 2n hex digits plus one space per pair begun (40 characters for 16) |
| CursesViewer.HexPartCell | hanalyse.py:53-57 | byte i's two lowercase digits stand at its column and a space precedes each even-indexed byte |
| CursesViewer.DumpShape | hanalyse.py:51-63 | a line begins with its offset as at least 7 lowercase hex digits reading back as the offset (exactly 7 iff the offset is below 16^7), followed by 40 hex columns, two spaces and 16 characters |
| CursesViewer.DumpHexCell | hanalyse.py:51-57 | byte i of a line appears as its two hex digits at its column past the offset |
| CursesViewer.DumpAsciiCell | hanalyse.py:52-63 | byte i of a line is shown as its character 42 places past the offset |
| CursesViewer.HexFile.constructor | hanalyse.py:37-43 | the file's contents are held whole |
| CursesViewer.HexFile.LineStr | hanalyse.py:45-63 | the dump line of the 16 bytes at the line's offset, or StructError when fewer than 16 bytes lie there |
| CursesViewer.HexFile.DumpColumns | hanalyse.py:51-63 | the loop appends, byte by byte, the hex columns (a space before even positions) and the characters ('.' outside 32..126) after the offset, giving the dump line |
| CursesViewer.StepKeepsOffset | hanalyse.py:170-195 | no key takes the offset below 0 or beyond the file length; RIGHT reaches the length itself |
| CursesViewer.RunKeepsOffset | hanalyse.py:161-199 | the offset stays within 0..length for any sequence of keys |
| CursesViewer.ToggleTwice | hanalyse.py:118-136 | toggling into the description and back restores the cursor, the pane and the offset |
| CursesViewer.OtherKeys | hanalyse.py:196-198 | keys other than q, tab and the arrows change nothing |
| CursesViewer.ArrowsUndo | hanalyse.py:170-195 | DOWN then UP, and RIGHT then LEFT, return to the same offset and cursor when the first key moved |
| CursesViewer.MainWindow.constructor | hanalyse.py:104-115 | the cursor starts at the origin in the hex pane at offset 0 |
| CursesViewer.MainWindow.ToggleWindow | hanalyse.py:118-136 | into the description the cursor is saved and moved to the window extent; back, the saved cursor is restored |
| CursesViewer.MainWindow.HandleKey | hanalyse.py:163-198 | one key: q quits, tab toggles, an arrow moves the offset within bounds and the cursor, failing when the cursor leaves the window; any other key changes nothing |
| CursesViewer.MainWindow.EventLoop | hanalyse.py:161-199 | the loop processes keys until q or a failed move, and keeps the offset within the file |

## Left out

- `__str__`, `headerData`, `flags` and the enums' integer values: display only.
- Qt model notifications and `dataChanged`: signals, not state.
- The `TagDumper`/`TagRepresenter` YAML text, `yaml.safe_load` and opening and closing files. A document is a sequence of entries; an unparsable one is `Unparsable`.
- Truncation of the target file before a failed write: file I/O.
- Label keys: a label names one of the six tag fields. An arbitrary attribute name in a custom label order is not modelled.
- Values: only integers and strings reach the setters here. Other Python objects are not modelled.
- `int()` details: the model accepts neither underscores (between digits, or right after the `0x` prefix) nor non-ASCII digits, and it has no limit on the number of decimal digits, where Python 3.11 and later reject numerals longer than 4300 digits.
- Top-level YAML documents that are a mapping or a scalar: `read_from_file` would iterate over their keys or characters. `TagDocument.Document` models only a list (`Items`), an empty document and a parse error.
- `QHexEditDataReader.read` is a library call that is not shown. The model assumes it returns the in-range slice, clamped at the end of the data (`Controller.ReadBytes`).
- `QHexEditDataReader.indexOf` is also not shown. The model assumes it returns the first match at or after `from`, or -1 (`Controller.IndexOf`).
- Widget geometry: selection start and length and cursor positions are non-negative parameters, as the widgets report them.
- `load_file`, `load_tags` and the file dialogs: the loaded data is the window constructor's `data` argument.
- Highlighting, comments and the role combobox in `on_actionTag_triggered`: widget calls with no effect on the model.
- The Qt debug assertions raised by `beginInsertRows` when count <= 0: Qt internals.
- `hexes.py`, `create_action`, `HexDescFile`, curses drawing and padding, `OptionParser` and profiling: UI and I/O.
- The first four dump lines drawn before the curses event loop starts: drawing. For a file shorter than 64 bytes that drawing already raises.
- `CursesViewer.MainWindow.constructor`: `savedX`/`savedY` start at 0, where Python leaves them unset. They are never read before the first toggle sets them.
- `CursesViewer.HexFile.LineStr`: line numbers are non-negative. The viewer only asks for lines 0 to 3.
- `Controller.MainWindow.FindOffset` and `Controller.MainWindow.FindOffsetAgain`: they follow the corrected search (see Findings), not the `found_pos > 0` test and the resume point as written. The as-written behaviour is `Controller.FindHit`.
- `Controller.MainWindow.FindOffset` and `Controller.MainWindow.FindOffsetAgain`: `show_search_result` moves the hex widget's cursor (`hexes.py:36-38`). That can emit `positionChanged`, which calls `hex_1_position_changed` and updates the selected row. The model does not follow this cascade, because whether `setCursorPos` emits the signal is up to the QHexEdit library, which is not shown.

## Findings

| source | as written | input that shows it | evidently intended | confidence | as-written member | corrected member |
|---|---|---|---|---|---|---|
| hanalyse/mainwindow.py:397 | a hit is recorded only when `found_pos > 0` | data beginning with the needle, e.g. bytes 01 00 00 00 with the cursor at 1 (little-endian) | `indexOf` returns -1 for no match, so the test is `found_pos >= 0` and offset 0 is a hit | not executed; high | Controller.FindMissesMatchAtOffsetZero | Controller.FindNext |
| hanalyse/mainwindow.py:408-409 | find-again searches from `_foundPos` itself | any data with a match at p after a find: the search from p finds p again | resume at `_foundPos + 1` so that find-again moves to the next match | not executed; high | Controller.FindAgainRepeats | Controller.FindNextAdvances |
