/** The controller logic of hanalyse/mainwindow.py: following the hex
    cursor in the tag table, creating a tag from the hex selection, jumping
    to an offset read from the data, and searching for the cursor position
    as a 4-byte value. The widgets appear only through the state the
    handlers read and write. */
module Controller {
  import opened Wrappers
  import opened Numerals
  import opened Bytes
  import opened Tags
  import opened TagModels

  /** `TAG_LABEL_ORDER`: column titles and the fields they show. */
  const TagLabelOrder: seq<Label> := [
    Label("Name", Name), Label("Start", Start), Label("End", End),
    Label("Type", Type), Label("Role", Role), Label("Comment", Comment)]

  /** A byte range as given to `hex_1.setSelection`: first and last offset. */
  datatype Extent = Extent(start: int, end: int)

  /** A search hit as given to `show_search_result`: where, and how many bytes. */
  datatype SearchHit = SearchHit(position: int, length: nat)

  // ---------------------------------------------------------------------------
  // Following the cursor

  /** `offset in range(tag.start, tag.end + 1)`. */
  predicate Covers(t: Tag, offset: int) {
    t.start <= offset <= t.end
  }

  /** How far the scan over the tags gets: up to the first unfilled slot,
      where reading `tag.start` raises AttributeError. */
  function ScanEnd(slots: seq<Option<Tag>>): (n: nat)
    ensures n <= |slots|
    ensures forall i :: 0 <= i < n ==> slots[i].Some?
    ensures n < |slots| ==> slots[n].None?
  {
    if slots == [] || slots[0].None? then 0 else 1 + ScanEnd(slots[1..])
  }

  /** The last of the first `n` slots whose tag covers `offset`. */
  function LastMatch(slots: seq<Option<Tag>>, offset: int, n: nat): (r: Option<nat>)
    requires n <= |slots|
    ensures r.Some? ==> r.value < n && slots[r.value].Some? && Covers(slots[r.value].value, offset)
    ensures r.Some? ==> forall j :: r.value < j < n && slots[j].Some? ==> !Covers(slots[j].value, offset)
    ensures r.None? ==> forall j :: 0 <= j < n && slots[j].Some? ==> !Covers(slots[j].value, offset)
  {
    if n == 0 then None
    else if slots[n - 1].Some? && Covers(slots[n - 1].value, offset) then Some(n - 1)
    else LastMatch(slots, offset, n - 1)
  }

  /** The table selection after the scan: each covering tag re-selects its
      row alone, so the last one scanned stays selected; when none covers
      the offset the selection is cleared, unless the scan stopped early. */
  function SelectionAfterScan(selected: Option<nat>, slots: seq<Option<Tag>>, offset: int): Option<nat> {
    var n := ScanEnd(slots);
    match LastMatch(slots, offset, n)
    case Some(row) => Some(row)
    case None => if n == |slots| then None else selected
  }

  /** What following a selection does to the hex selection: each selected
      row's tag becomes the hex selection in turn; an unfilled slot raises
      AttributeError and ends the loop. */
  datatype Followed = Followed(selection: Option<Extent>, error: Option<Exception>)

  function Follow(slots: seq<Option<Tag>>, rows: seq<nat>, selection: Option<Extent>): (f: Followed)
    requires forall i :: 0 <= i < |rows| ==> rows[i] < |slots|
    ensures f.error.None? <==> forall i :: 0 <= i < |rows| ==> slots[rows[i]].Some?
    ensures f.error.None? && rows != [] ==>
              var t := slots[rows[|rows| - 1]].value;
              f.selection == Some(Extent(t.start, t.end))
    ensures f.error.Some? ==> f.error == Some(AttributeError)
    ensures rows == [] ==> f == Followed(selection, None)
  {
    if rows == [] then Followed(selection, None)
    else match slots[rows[0]]
      case None => Followed(selection, Some(AttributeError))
      case Some(t) => Follow(slots, rows[1..], Some(Extent(t.start, t.end)))
  }

  /** At the first selected row whose slot is unfilled the loop raises, and
      the hex selection is that of the last row before it, or the one it
      had when that row is the first. */
  lemma {:induction false} FollowStopsAtEmpty(slots: seq<Option<Tag>>, rows: seq<nat>, selection: Option<Extent>, k: nat)
    requires forall i :: 0 <= i < |rows| ==> rows[i] < |slots|
    requires k < |rows| && slots[rows[k]].None?
    requires forall i :: 0 <= i < k ==> slots[rows[i]].Some?
    ensures var f := Follow(slots, rows, selection);
            && f.error == Some(AttributeError)
            && f.selection == if k == 0 then selection
                              else Some(Extent(slots[rows[k - 1]].value.start, slots[rows[k - 1]].value.end))
  {
    if k > 0 {
      var t := slots[rows[0]].value;
      var rest := rows[1..];
      assert forall i :: 0 <= i < k - 1 ==> rest[i] == rows[i + 1];
      FollowStopsAtEmpty(slots, rest, Some(Extent(t.start, t.end)), k - 1);
      if k > 1 {
        assert rest[k - 2] == rows[k - 1];
      }
    }
  }

  // ---------------------------------------------------------------------------
  // Creating a tag

  /** `'0x{:08x}'.format(offset)`, the text the tag dialog's extent fields
      are filled in with. */
  function Prefilled(offset: nat): string {
    "0x" + FormatHex(offset, 8)
  }

  /** The prefilled offset of a 32-bit position is always ten characters:
      `0x` and eight digits. */
  lemma PrefilledWidth(offset: nat)
    ensures |Prefilled(offset)| == 10 <==> offset < 0x1_0000_0000
  {
    FormatHexWidth(offset, 8);
    assert Pow16(8) == 0x1_0000_0000;
  }

  /** A line edit of the tag dialog: left as filled in, or replaced. */
  datatype Edit = Keep | Replace(text: string)

  function Edited(e: Edit, prefilled: string): string {
    match e case Keep => prefilled case Replace(text) => text
  }

  /** How the tag dialog was closed, with the texts of its widgets. */
  datatype TagDialog =
    | Rejected
    | Accepted(name: string, startEdit: Edit, endEdit: Edit, typeText: string, roleText: string, comment: string)

  /** The keyword arguments `on_actionTag_triggered` passes to `Tag`. */
  function DialogArguments(selStart: nat, selEnd: nat, d: TagDialog): map<string, Value>
    requires d.Accepted?
  {
    map[
      "name" := Text(d.name),
      "start" := Text(Edited(d.startEdit, Prefilled(selStart))),
      "end" := Text(Edited(d.endEdit, Prefilled(selEnd))),
      "type" := Text(d.typeText),
      "role" := Text(d.roleText),
      "comment" := Text(d.comment)]
  }

  /** The text the dialog passes for a field. */
  function DialogText(selStart: nat, selEnd: nat, d: TagDialog, f: Field): string
    requires d.Accepted?
  {
    match f
    case Name => d.name
    case Start => Edited(d.startEdit, Prefilled(selStart))
    case End => Edited(d.endEdit, Prefilled(selEnd))
    case Type => d.typeText
    case Role => d.roleText
    case Comment => d.comment
  }

  lemma DialogLookups(selStart: nat, selEnd: nat, d: TagDialog)
    requires d.Accepted?
    ensures forall f :: FieldKey(f) in DialogArguments(selStart, selEnd, d)
                        && DialogArguments(selStart, selEnd, d)[FieldKey(f)] == Text(DialogText(selStart, selEnd, d, f))
  {
    var kw := DialogArguments(selStart, selEnd, d);
    forall f ensures FieldKey(f) in kw && kw[FieldKey(f)] == Text(DialogText(selStart, selEnd, d, f)) {
      match f
      case Name =>
      case Start =>
      case End =>
      case Type =>
      case Role =>
      case Comment =>
    }
  }

  /** What each field of a tag made from an unedited selection shows. */
  function DialogShown(selStart: nat, selEnd: nat, d: TagDialog, f: Field): Value
    requires d.Accepted?
  {
    if f == Start then Int(selStart)
    else if f == End then Int(selEnd)
    else Text(DialogText(selStart, selEnd, d, f))
  }

  lemma DialogArgumentsAcceptable(selStart: nat, selEnd: nat, d: TagDialog)
    requires d.Accepted? && d.startEdit == Keep && d.endEdit == Keep
    requires TypeNamed(d.typeText).Some? && RoleNamed(d.roleText).Some?
    ensures forall f :: Acceptable(f, DialogArguments(selStart, selEnd, d))
    ensures forall f :: Initial(f, DialogArguments(selStart, selEnd, d)) == DialogShown(selStart, selEnd, d, f)
  {
    var kw := DialogArguments(selStart, selEnd, d);
    DialogLookups(selStart, selEnd, d);
    forall f ensures Acceptable(f, kw) && Initial(f, kw) == DialogShown(selStart, selEnd, d, f) {
      if f == Start {
        HexTextOffset(selStart, 8);
      } else if f == End {
        HexTextOffset(selEnd, 8);
      } else if f == Type {
        TypeLookupByName(d.typeText, TypeNamed(d.typeText).value);
      } else if f == Role {
        RoleLookupByName(d.roleText, RoleNamed(d.roleText).value);
      }
    }
  }

  /** A tag made from an unedited selection gets the selection's offsets
      back from the `0x`-prefixed text, and the chosen names as its type and
      role, provided those name members. */
  lemma DialogRoundTrip(id: nat, selStart: nat, selEnd: nat, d: TagDialog)
    requires d.Accepted? && d.startEdit == Keep && d.endEdit == Keep
    requires TypeNamed(d.typeText).Some? && RoleNamed(d.roleText).Some?
    ensures NewTag(id, DialogArguments(selStart, selEnd, d)).Success?
    ensures var t := NewTag(id, DialogArguments(selStart, selEnd, d)).value;
            && t.identifier == id && t.start == selStart && t.end == selEnd
            && t.name == Text(d.name) && t.comment == Text(d.comment)
            && t.tagType == Member(TypeNamed(d.typeText).value)
            && t.role == Member(RoleNamed(d.roleText).value)
  {
    var kw := DialogArguments(selStart, selEnd, d);
    DialogArgumentsAcceptable(selStart, selEnd, d);
    NewTagFields(id, kw);
    ShownDialogFields(NewTag(id, kw).value, selStart, selEnd, d);
  }

  /** A tag showing the dialog's values holds them. */
  lemma ShownDialogFields(t: Tag, selStart: nat, selEnd: nat, d: TagDialog)
    requires d.Accepted?
    requires TypeNamed(d.typeText).Some? && RoleNamed(d.roleText).Some?
    requires forall f :: Get(t, f) == DialogShown(selStart, selEnd, d, f)
    ensures t.start == selStart && t.end == selEnd
    ensures t.name == Text(d.name) && t.comment == Text(d.comment)
    ensures t.tagType == Member(TypeNamed(d.typeText).value)
    ensures t.role == Member(RoleNamed(d.roleText).value)
  {
    assert Get(t, Start) == Int(selStart) && Get(t, End) == Int(selEnd);
    assert Get(t, Name) == Text(d.name) && Get(t, Comment) == Text(d.comment);
    assert Get(t, Type) == Text(d.typeText) && Get(t, Role) == Text(d.roleText);
    TypeLookupByName(d.typeText, t.tagType.member);
    RoleLookupByName(d.roleText, t.role.member);
  }

  // ---------------------------------------------------------------------------
  // Reading and searching the data

  /** `QHexEditDataReader.read(pos, length)`, taken to return the bytes from
      `pos` on, as many as there are up to `length`. */
  function ReadBytes(data: seq<Byte>, pos: nat, length: nat): (r: seq<Byte>)
    ensures |r| <= length
    ensures pos + length <= |data| ==> r == data[pos..pos + length]
  {
    if pos >= |data| then [] else if pos + length <= |data| then data[pos..pos + length] else data[pos..]
  }

  /** Whether `needle` occurs in `data` at `pos`. */
  predicate MatchAt(data: seq<Byte>, needle: seq<Byte>, pos: nat) {
    pos + |needle| <= |data| && data[pos..pos + |needle|] == needle
  }

  /** `QHexEditDataReader.indexOf(needle, from)`, taken to return the first
      position at or after `from` where `needle` occurs, or -1. */
  function IndexOf(data: seq<Byte>, needle: seq<Byte>, from: nat): (p: int)
    decreases |data| - from
    ensures p == -1 || (from <= p && MatchAt(data, needle, p))
    ensures p != -1 ==> forall q :: from <= q < p ==> !MatchAt(data, needle, q)
    ensures p == -1 ==> forall q :: from <= q ==> !MatchAt(data, needle, q)
  {
    if from + |needle| > |data| then -1
    else if MatchAt(data, needle, from) then from
    else IndexOf(data, needle, from + 1)
  }

  /** The hit the find callbacks act on: the search result when it is
      positive (`found_pos > 0`), and nothing otherwise. */
  function FindHit(data: seq<Byte>, needle: seq<Byte>, from: nat): Option<nat> {
    var p := IndexOf(data, needle, from);
    if p > 0 then Some(p) else None
  }

  /** As written, a search from the start ignores a match at offset 0, even
      when it is the only one. */
  lemma FindMissesMatchAtOffsetZero(data: seq<Byte>, needle: seq<Byte>)
    requires MatchAt(data, needle, 0)
    ensures FindHit(data, needle, 0) == None
  {
  }

  /** The concrete case: the needle [1, 0, 0, 0] at the start of the data. */
  lemma FindMissesMatchAtOffsetZeroExample()
    ensures FindHit([1, 0, 0, 0], [1, 0, 0, 0], 0) == None
    ensures FindNext([1, 0, 0, 0], [1, 0, 0, 0], None) == Some(0)
  {
    FindMissesMatchAtOffsetZero([1, 0, 0, 0], [1, 0, 0, 0]);
    assert MatchAt([1, 0, 0, 0], [1, 0, 0, 0], 0);
  }

  /** As written, searching again from the stored hit finds that same hit,
      so find-again never moves past the first result. */
  lemma FindAgainRepeats(data: seq<Byte>, needle: seq<Byte>, from: nat, p: nat)
    requires FindHit(data, needle, from) == Some(p)
    ensures FindHit(data, needle, p) == Some(p)
  {
  }

  /** The search the find callbacks evidently intend: the first match
      after the previous hit, or from the start when there is none; a
      match at offset 0 counts. */
  function FindNext(data: seq<Byte>, needle: seq<Byte>, previous: Option<nat>): (r: Option<nat>)
    ensures var from := if previous.None? then 0 else previous.value + 1;
            && (r.Some? ==> from <= r.value && MatchAt(data, needle, r.value)
                            && forall q :: from <= q < r.value ==> !MatchAt(data, needle, q))
            && (r.None? <==> forall q :: from <= q ==> !MatchAt(data, needle, q))
  {
    var from := if previous.None? then 0 else previous.value + 1;
    var p := IndexOf(data, needle, from);
    if p >= 0 then Some(p) else None
  }

  /** Searching again with the corrected search visits the matches one
      after another: the next hit lies beyond the previous one, and no
      match lies between them. */
  lemma FindNextAdvances(data: seq<Byte>, needle: seq<Byte>, p: nat)
    requires MatchAt(data, needle, p)
    ensures FindNext(data, needle, Some(p)) != Some(p)
    ensures FindNext(data, needle, None).Some? && FindNext(data, needle, None).value <= p
  {
  }

  // ---------------------------------------------------------------------------
  // The window

  class MainWindow {
    /** The tag model, created horizontal with `TAG_LABEL_ORDER`. */
    const tagModel: TagModel
    /** `sys.byteorder`. */
    const order: ByteOrder
    /** The loaded data behind `_hexeditdatareader`, if a file was given. */
    const reader: Option<seq<Byte>>
    var programmaticChange: bool
    /** The row selected in the tag table. */
    var selectedRow: Option<nat>
    /** The last selection requested of the main hex view. */
    var hex1Selection: Option<Extent>
    /** The cursor position of the second hex view. */
    var hex2Cursor: int
    /** `_foundPos`: never assigned until a find succeeds. */
    var foundPos: Option<nat>
    /** The last search result shown in the main hex view. */
    var searchResult: Option<SearchHit>

    constructor (order: ByteOrder, data: Option<seq<Byte>>)
      ensures fresh(tagModel)
      ensures tagModel.orientation == Horizontal && tagModel.labelOrder == TagLabelOrder
      ensures tagModel.tags == []
      ensures this.order == order && reader == data
      ensures !programmaticChange && selectedRow == None && hex1Selection == None
      ensures hex2Cursor == 0 && foundPos == None && searchResult == None
    {
      tagModel := new TagModel(Horizontal, TagLabelOrder);
      this.order := order;
      reader := data;
      programmaticChange := false;
      selectedRow := None;
      hex1Selection := None;
      hex2Cursor := 0;
      foundPos := None;
      searchResult := None;
    }

    /** `tag_model_selection_changed(selected, _)`: while a selection is
      being made programmatically nothing happens; otherwise the hex view
      follows each selected row's tag. */
    method TagModelSelectionChanged(rows: seq<nat>) returns (r: Outcome)
      requires forall i :: 0 <= i < |rows| ==> rows[i] < |tagModel.tags|
      modifies this
      ensures programmaticChange ==> r == Pass && hex1Selection == old(hex1Selection)
      ensures !programmaticChange ==>
                var f := Follow(tagModel.tags, rows, old(hex1Selection));
                && hex1Selection == f.selection
                && r == if f.error.Some? then Fail(f.error.value) else Pass
      ensures programmaticChange == old(programmaticChange) && selectedRow == old(selectedRow)
      ensures hex2Cursor == old(hex2Cursor) && foundPos == old(foundPos) && searchResult == old(searchResult)
    {
      if programmaticChange {
        return Pass;
      }
      var i := 0;
      while i < |rows|
        invariant 0 <= i <= |rows|
        invariant Follow(tagModel.tags, rows, old(hex1Selection)) == Follow(tagModel.tags, rows[i..], hex1Selection)
        invariant programmaticChange == old(programmaticChange) && selectedRow == old(selectedRow)
        invariant hex2Cursor == old(hex2Cursor) && foundPos == old(foundPos) && searchResult == old(searchResult)
      {
        assert rows[i..][1..] == rows[i + 1..];
        match tagModel.tags[rows[i]]
        case None =>
          return Fail(AttributeError);
        case Some(t) =>
          hex1Selection := Some(Extent(t.start, t.end));
        i := i + 1;
      }
      r := Pass;
    }

    /** `hex_1_position_changed(offset)`: scans the tags in order; each tag
      covering the offset has its row selected, with `programmaticChange`
      raised around the selection so the table's selection signal is
      ignored; with no covering tag the selection is cleared the same way.
      The handler never lowers a flag it did not raise: the flag is down on
      return unless it was already up and the scan raised before any tag
      covered the offset. The selection signals it causes arrive with the
      flag up, so the hex selection is left alone. */
    method Hex1PositionChanged(offset: int) returns (r: Outcome)
      modifies this
      ensures programmaticChange <==>
                old(programmaticChange) && ScanEnd(tagModel.tags) < |tagModel.tags|
                && LastMatch(tagModel.tags, offset, ScanEnd(tagModel.tags)).None?
      ensures selectedRow == SelectionAfterScan(old(selectedRow), tagModel.tags, offset)
      ensures r == if ScanEnd(tagModel.tags) < |tagModel.tags| then Fail(AttributeError) else Pass
      ensures hex1Selection == old(hex1Selection)
      ensures hex2Cursor == old(hex2Cursor) && foundPos == old(foundPos) && searchResult == old(searchResult)
    {
      var slots := tagModel.tags;
      var found := false;
      var row := 0;
      while row < |slots|
        invariant 0 <= row <= ScanEnd(slots)
        invariant programmaticChange <==> old(programmaticChange) && !found
        invariant found <==> LastMatch(slots, offset, row).Some?
        invariant found ==> selectedRow == LastMatch(slots, offset, row)
        invariant !found ==> selectedRow == old(selectedRow)
        invariant hex1Selection == old(hex1Selection)
        invariant hex2Cursor == old(hex2Cursor) && foundPos == old(foundPos) && searchResult == old(searchResult)
      {
        if slots[row].None? {
          return Fail(AttributeError);
        }
        var tag := slots[row].value;
        if tag.start <= offset <= tag.end {
          found := true;
          programmaticChange := true;
          selectedRow := Some(row);
          var _ := TagModelSelectionChanged([row]);
          programmaticChange := false;
        }
        row := row + 1;
      }
      if !found {
        programmaticChange := true;
        selectedRow := None;
        var _ := TagModelSelectionChanged([]);
        programmaticChange := false;
      }
      r := Pass;
    }

    /** `on_actionTag_triggered`, given the hex selection and how the dialog
      was closed: with data loaded and the dialog accepted, a tag is built
      from the dialog's texts (drawing an identifier even when a setter
      raises) and appended; otherwise nothing happens. */
    method OnActionTagTriggered(selStart: nat, selEnd: nat, dialog: TagDialog, ids: IdSource)
      returns (r: Outcome)
      modifies tagModel, ids
      ensures reader.None? || dialog.Rejected? ==>
                r == Pass && tagModel.tags == old(tagModel.tags) && ids.next == old(ids.next)
      ensures reader.Some? && dialog.Accepted? ==>
                && ids.next == old(ids.next) + 1
                && match NewTag(old(ids.next), DialogArguments(selStart, selEnd, dialog))
                   case Success(t) => r == Pass && tagModel.tags == old(tagModel.tags) + [Some(t)]
                   case Failure(e) => r == Fail(e) && tagModel.tags == old(tagModel.tags)
      ensures reader.Some? && dialog.Accepted? && dialog.startEdit == Keep && dialog.endEdit == Keep
              && TypeNamed(dialog.typeText).Some? && RoleNamed(dialog.roleText).Some? ==>
                && r == Pass && |tagModel.tags| == |old(tagModel.tags)| + 1
                && var t := tagModel.tags[|tagModel.tags| - 1];
                   t.Some? && t.value.start == selStart && t.value.end == selEnd
    {
      if reader.None? || dialog.Rejected? {
        return Pass;
      }
      if dialog.startEdit == Keep && dialog.endEdit == Keep
         && TypeNamed(dialog.typeText).Some? && RoleNamed(dialog.roleText).Some? {
        DialogRoundTrip(ids.next, selStart, selEnd, dialog);
      }
      var t := CreateTag(DialogArguments(selStart, selEnd, dialog), ids);
      if t.Failure? {
        return Fail(t.error);
      }
      tagModel.AppendTag(t.value);
      r := Pass;
    }

    /** `show_abs_offset_cb`, given the main view's selection: the selected
      bytes and one more are read as an unsigned number in host byte order,
      and the second view's cursor moves there. */
    method ShowAbsOffset(selStart: nat, selLength: nat)
      modifies this
      ensures hex2Cursor == if reader.None? then old(hex2Cursor)
                            else FromBytesUnsigned(ReadBytes(reader.value, selStart, selLength + 1), order)
      ensures programmaticChange == old(programmaticChange) && selectedRow == old(selectedRow)
      ensures hex1Selection == old(hex1Selection) && foundPos == old(foundPos) && searchResult == old(searchResult)
    {
      if reader.Some? {
        var data := ReadBytes(reader.value, selStart, selLength + 1);
        hex2Cursor := FromBytesUnsigned(data, order);
      }
    }

    /** `find_offset_cb`: the second view's cursor as 4 unsigned bytes in host
      byte order (OverflowError when it does not fit) is searched for from
      the start, and a hit is stored and shown. The hit test is the corrected
      one of `FindNext`, which also accepts a match at offset 0. */
    method FindOffset() returns (r: Outcome)
      modifies this
      ensures reader.None? ==> r == Pass && foundPos == old(foundPos) && searchResult == old(searchResult)
      ensures reader.Some? ==>
                match ToBytesUnsigned(hex2Cursor, 4, order)
                case Failure(e) => r == Fail(e) && foundPos == old(foundPos) && searchResult == old(searchResult)
                case Success(needle) =>
                  && r == Pass
                  && match FindNext(reader.value, needle, None)
                     case None => foundPos == old(foundPos) && searchResult == old(searchResult)
                     case Some(p) => foundPos == Some(p) && searchResult == Some(SearchHit(p, 4))
      ensures programmaticChange == old(programmaticChange) && selectedRow == old(selectedRow)
      ensures hex1Selection == old(hex1Selection) && hex2Cursor == old(hex2Cursor)
    {
      if reader.None? {
        return Pass;
      }
      var encoded := ToBytesUnsigned(hex2Cursor, 4, order);
      if encoded.Failure? {
        return Fail(encoded.error);
      }
      var needle := encoded.value;
      var found := IndexOf(reader.value, needle, 0);
      if found >= 0 {
        foundPos := Some(found);
        searchResult := Some(SearchHit(found, 4));
      }
      r := Pass;
    }

    /** `find_offset_again_cb`: as `FindOffset`, but the search resumes after
      the stored hit (corrected as in `FindNext`); before any hit was stored,
      reading `_foundPos` raises AttributeError once the needle has been
      built. */
    method FindOffsetAgain() returns (r: Outcome)
      modifies this
      ensures reader.None? ==> r == Pass && foundPos == old(foundPos) && searchResult == old(searchResult)
      ensures reader.Some? ==>
                match ToBytesUnsigned(hex2Cursor, 4, order)
                case Failure(e) => r == Fail(e) && foundPos == old(foundPos) && searchResult == old(searchResult)
                case Success(needle) =>
                  match old(foundPos)
                  case None => r == Fail(AttributeError) && foundPos == None && searchResult == old(searchResult)
                  case Some(from) =>
                    && r == Pass
                    && match FindNext(reader.value, needle, Some(from))
                       case None => foundPos == old(foundPos) && searchResult == old(searchResult)
                       case Some(p) => foundPos == Some(p) && searchResult == Some(SearchHit(p, 4))
      ensures programmaticChange == old(programmaticChange) && selectedRow == old(selectedRow)
      ensures hex1Selection == old(hex1Selection) && hex2Cursor == old(hex2Cursor)
    {
      if reader.None? {
        return Pass;
      }
      var encoded := ToBytesUnsigned(hex2Cursor, 4, order);
      if encoded.Failure? {
        return Fail(encoded.error);
      }
      var needle := encoded.value;
      if foundPos.None? {
        return Fail(AttributeError);
      }
      var found := IndexOf(reader.value, needle, foundPos.value + 1);
      if found >= 0 {
        foundPos := Some(found);
        searchResult := Some(SearchHit(found, 4));
      }
      r := Pass;
    }
  }
}
