/** The table model of hanalyse/tags.py (`TagModel`): a list of tag slots
    shown as a table whose rows are tags and columns are fields
    (horizontal orientation) or the other way round (vertical). */
module TagModels {
  import opened Wrappers
  import opened Tags
  import opened TagDocument

  datatype Orientation = Horizontal | Vertical

  /** An entry of the label order: a column title and the attribute shown. */
  datatype Label = Label(title: string, key: Field)

  /** A model index: the invalid index, or a cell. */
  datatype Index = Invalid | Cell(row: int, column: int)

  /** The item data roles a view asks for. */
  datatype ItemRole = DisplayRole | EditRole | OtherRole

  /** Which tag slot and which field a cell shows. */
  datatype Location = Location(item: nat, key: Field)

  /** `count` empty slots, the `None`s `insertRows` adds (none for a
      negative count, as `range(count)` is then empty). */
  function Placeholders(count: int): (r: seq<Option<Tag>>)
    ensures |r| == if count > 0 then count else 0
    ensures forall i :: 0 <= i < |r| ==> r[i] == None
  {
    seq(if count > 0 then count else 0, _ => None)
  }

  /** The slots after `count` placeholders are inserted at `at`. */
  function WithPlaceholders(s: seq<Option<Tag>>, at: nat, count: int): seq<Option<Tag>>
    requires at <= |s|
  {
    s[..at] + Placeholders(count) + s[at..]
  }

  /** A slice bound as Python normalises it against a list of length `n`:
      negative bounds count from the end, and bounds are clamped to the list. */
  function SliceBound(i: int, n: nat): (b: nat)
    ensures b <= n
    ensures 0 <= i <= n ==> b == i
  {
    if i < 0 then (if i + n < 0 then 0 else i + n) else if i > n then n else i
  }

  /** `del s[i:j]`. */
  function DeleteSlice<T>(s: seq<T>, i: int, j: int): seq<T> {
    var lo := SliceBound(i, |s|);
    var hi := SliceBound(j, |s|);
    if lo < hi then s[..lo] + s[hi..] else s
  }

  /** Within the list, `del s[i:j]` removes exactly the elements from `i` up
      to `j`. */
  lemma DeleteSliceInRange<T>(s: seq<T>, i: int, j: int)
    requires 0 <= i <= j <= |s|
    ensures DeleteSlice(s, i, j) == s[..i] + s[j..]
    ensures |DeleteSlice(s, i, j)| == |s| - (j - i)
  {
    if i == j {
      assert s[..i] + s[j..] == s;
    }
  }

  /** Removing the placeholders just inserted restores the slots. */
  lemma InsertThenRemove(s: seq<Option<Tag>>, at: nat, count: nat)
    requires at <= |s|
    ensures DeleteSlice(WithPlaceholders(s, at, count), at, at + count) == s
  {
    var w := WithPlaceholders(s, at, count);
    DeleteSliceInRange(w, at, at + count);
    assert w[..at] == s[..at];
    assert w[at + count..] == s[at..];
  }

  /** A negative start row is taken from the end: with three slots,
      `del tags[-2:-1]` removes the middle one, and `del tags[-1:0]`
      removes none. */
  lemma NegativeRowsRemoval(a: Option<Tag>, b: Option<Tag>, c: Option<Tag>)
    ensures DeleteSlice([a, b, c], -2, -1) == [a, c]
    ensures DeleteSlice([a, b, c], -1, 0) == [a, b, c]
  {
    assert [a, b, c][..1] + [a, b, c][2..] == [a, c];
  }

  /** The tags given slot by slot. */
  function Slots(ts: seq<Tag>): (r: seq<Option<Tag>>)
    ensures |r| == |ts| && forall i :: 0 <= i < |ts| ==> r[i] == Some(ts[i])
  {
    seq(|ts|, i requires 0 <= i < |ts| => Some(ts[i]))
  }

  lemma AppendedSlots(base: seq<Option<Tag>>, ts: seq<Tag>, t: Tag)
    ensures base + Slots(ts) + [Some(t)] == base + Slots(ts + [t])
  {
    assert Slots(ts + [t]) == Slots(ts) + [Some(t)];
  }

  /** Distinct identifiers among the filled slots, all below `bound`. */
  predicate DistinctBelow(slots: seq<Option<Tag>>, bound: nat) {
    && (forall i :: 0 <= i < |slots| && slots[i].Some? ==> slots[i].value.identifier < bound)
    && (forall i, j :: 0 <= i < j < |slots| && slots[i].Some? && slots[j].Some? ==>
          slots[i].value.identifier != slots[j].value.identifier)
  }

  /** A tag carrying the next identifier keeps identifiers distinct. */
  lemma AppendFresh(slots: seq<Option<Tag>>, bound: nat, t: Tag)
    requires DistinctBelow(slots, bound) && t.identifier == bound
    ensures DistinctBelow(slots + [Some(t)], bound + 1)
  {
    var s := slots + [Some(t)];
    assert forall i :: 0 <= i < |slots| ==> s[i] == slots[i];
  }

  class TagModel {
    const orientation: Orientation
    const labelOrder: seq<Label>
    var tags: seq<Option<Tag>>

    /** `TagModel(parent, orientation, label_order)`: no tags yet. */
    constructor (orientation: Orientation, labelOrder: seq<Label>)
      ensures this.orientation == orientation && this.labelOrder == labelOrder
      ensures tags == []
    {
      this.orientation := orientation;
      this.labelOrder := labelOrder;
      tags := [];
    }

    /** `rowCount(parent)`: a valid parent has no children; otherwise the tags
      (horizontal) or the labels (vertical). */
    function RowCount(parent: Index): nat
      reads this
    {
      if parent.Cell? then 0
      else if orientation == Horizontal then |tags| else |labelOrder|
    }

    /** `columnCount(parent)`, the transpose of `RowCount`. */
    function ColumnCount(parent: Index): nat
      reads this
    {
      if parent.Cell? then 0
      else if orientation == Horizontal then |labelOrder| else |tags|
    }

    /** The tag slot and field a cell of the table shows, if it is in range. */
    function Locate(index: Index): (l: Option<Location>)
      reads this
      ensures l.Some? ==> l.value.item < |tags|
      ensures l.Some? <==> index.Cell? && 0 <= index.row < RowCount(Invalid) && 0 <= index.column < ColumnCount(Invalid)
    {
      if index.Invalid? then None
      else if !(0 <= index.row < RowCount(Invalid)) || !(0 <= index.column < ColumnCount(Invalid)) then None
      else if orientation == Horizontal then Some(Location(index.row, labelOrder[index.column].key))
      else Some(Location(index.column, labelOrder[index.row].key))
    }

    /** `data(index, role)`: the field of the cell's tag, enumeration members
      by name. An out-of-range cell, a role other than display or edit, and
      an unfilled slot (`getattr(None, key, None)`) give nothing. */
    function Data(index: Index, role: ItemRole): (r: Option<Value>)
      reads this
      ensures r.Some? <==> role != OtherRole && Locate(index).Some? && tags[Locate(index).value.item].Some?
      ensures r.Some? ==> r.value == Get(tags[Locate(index).value.item].value, Locate(index).value.key)
    {
      if role == OtherRole then None
      else match Locate(index)
        case None => None
        case Some(l) => (match tags[l.item] case None => None case Some(t) => Some(Get(t, l.key)))
    }

    /** `setData(index, value, role)`: outside the table or with a role other
      than edit it declines; on an unfilled slot `setattr` raises
      AttributeError; otherwise the field's setter runs, and either raises
      (leaving the tag as it was) or succeeds. After a success the cell
      shows the value as the setter converted it, and every cell showing
      another tag or another field shows what it showed before. */
    method SetData(index: Index, value: Value, role: ItemRole) returns (r: Result<bool>)
      modifies this
      ensures |tags| == |old(tags)|
      ensures Locate(index) == old(Locate(index))
      ensures (old(Locate(index)).None? || role != EditRole) ==> r == Success(false) && tags == old(tags)
      ensures old(Locate(index)).Some? && role == EditRole ==>
                var l := old(Locate(index)).value;
                match old(tags)[l.item]
                case None => r == Failure(AttributeError) && tags == old(tags)
                case Some(t) =>
                  match SetField(t, l.key, value)
                  case Success(u) => r == Success(true) && tags == old(tags)[l.item := Some(u)]
                  case Failure(e) => r == Failure(e) && tags == old(tags)
      ensures r == Success(true) ==>
                && Data(index, EditRole) == Some(Shown(old(Locate(index)).value.key, value).value)
                && forall j: Index, role': ItemRole ::
                     Locate(j).Some? && Locate(j).value != old(Locate(index)).value ==>
                     Data(j, role') == old(Data(j, role'))
    {
      var loc := Locate(index);
      if loc.None? || role != EditRole {
        return Success(false);
      }
      var l := loc.value;
      match tags[l.item]
      case None =>
        r := Failure(AttributeError);
      case Some(t) =>
        SetFieldEffect(t, l.key, value);
        match SetField(t, l.key, value)
        case Failure(e) =>
          r := Failure(e);
        case Success(u) =>
          tags := tags[l.item := Some(u)];
          r := Success(true);
    }

    /** Inserts `count` placeholders at `at`, one `list.insert` at a time. */
    method InsertPlaceholders(at: nat, count: int)
      requires at <= |tags|
      modifies this
      ensures tags == WithPlaceholders(old(tags), at, count)
    {
      var c := 0;
      while c < count
        invariant 0 <= c <= if count > 0 then count else 0
        invariant tags == old(tags)[..at] + Placeholders(c) + old(tags)[at..]
      {
        assert at + c <= |tags|;
        tags := tags[..at + c] + [None] + tags[at + c..];
        assert tags == old(tags)[..at] + Placeholders(c + 1) + old(tags)[at..];
        c := c + 1;
      }
    }

    /** `insertRows(row, count)`: adds placeholders when rows are tags and the
      position is within the list; with labels as rows it only reports
      whether the position is within the label order. */
    method InsertRows(row: int, count: int) returns (success: bool)
      modifies this
      ensures orientation == Horizontal ==> success == (0 <= row <= |old(tags)|)
      ensures orientation == Vertical ==> success == (0 <= row <= |labelOrder|)
      ensures tags == if orientation == Horizontal && success
                      then WithPlaceholders(old(tags), row, count) else old(tags)
    {
      success := false;
      if orientation == Horizontal {
        if 0 <= row <= |tags| {
          InsertPlaceholders(row, count);
          success := true;
        }
      } else {
        if 0 <= row <= |labelOrder| {
          success := true;
        }
      }
    }

    /** `removeRows(row, count)`: when rows are tags and `row + count` does
      not pass the end, `del tags[row:row + count]`; with labels as rows it
      only reports whether `row + count` stays within the label order. */
    method RemoveRows(row: int, count: int) returns (success: bool)
      modifies this
      ensures orientation == Horizontal ==> success == (row + count <= |old(tags)|)
      ensures orientation == Vertical ==> success == (row + count <= |labelOrder|)
      ensures tags == if orientation == Horizontal && success
                      then DeleteSlice(old(tags), row, row + count) else old(tags)
    {
      success := false;
      if orientation == Horizontal {
        if row + count <= |tags| {
          tags := DeleteSlice(tags, row, row + count);
          success := true;
        }
      } else {
        if row + count <= |labelOrder| {
          success := true;
        }
      }
    }

    /** `insertColumns(column, count)`, the transpose of `InsertRows`. */
    method InsertColumns(column: int, count: int) returns (success: bool)
      modifies this
      ensures orientation == Vertical ==> success == (0 <= column <= |old(tags)|)
      ensures orientation == Horizontal ==> success == (0 <= column <= |labelOrder|)
      ensures tags == if orientation == Vertical && success
                      then WithPlaceholders(old(tags), column, count) else old(tags)
    {
      success := false;
      if orientation == Horizontal {
        if 0 <= column <= |labelOrder| {
          success := true;
        }
      } else {
        if 0 <= column <= |tags| {
          InsertPlaceholders(column, count);
          success := true;
        }
      }
    }

    /** `removeColumns(column, count)`, the transpose of `RemoveRows`. */
    method RemoveColumns(column: int, count: int) returns (success: bool)
      modifies this
      ensures orientation == Vertical ==> success == (column + count <= |old(tags)|)
      ensures orientation == Horizontal ==> success == (column + count <= |labelOrder|)
      ensures tags == if orientation == Vertical && success
                      then DeleteSlice(old(tags), column, column + count) else old(tags)
    {
      success := false;
      if orientation == Horizontal {
        if column + count <= |labelOrder| {
          success := true;
        }
      } else {
        if column + count <= |tags| {
          tags := DeleteSlice(tags, column, column + count);
          success := true;
        }
      }
    }

    /** `clear_rows()`: removes every row, which empties the tag list only
      when rows are tags. */
    method ClearRows()
      modifies this
      ensures tags == if orientation == Horizontal then [] else old(tags)
    {
      var _ := RemoveRows(0, RowCount(Invalid));
    }

    /** `clear_columns()`: empties the tag list only when columns are tags. */
    method ClearColumns()
      modifies this
      ensures tags == if orientation == Vertical then [] else old(tags)
    {
      var _ := RemoveColumns(0, ColumnCount(Invalid));
    }

    /** `append_tag(tag)`: a placeholder is added at the end, as a row or a
      column, and the tag stored in it. */
    method AppendTag(tag: Tag)
      modifies this
      ensures tags == old(tags) + [Some(tag)]
    {
      var position: nat;
      if orientation == Horizontal {
        position := RowCount(Invalid);
        var _ := InsertRows(position, 1);
      } else {
        position := ColumnCount(Invalid);
        var _ := InsertColumns(position, 1);
      }
      tags := tags[position := Some(tag)];
    }

    /** The tags hold distinct identifiers, all below `bound`. */
    predicate Identified(bound: nat)
      reads this
    {
      DistinctBelow(tags, bound)
    }

    /** One pass of the loop of `read_from_file`: `append_tag(Tag(**tag))`
      for one item, after the items before it produced `p` and the slots
      `base + Slots(p.tags)`. */
    method AppendEntry(ghost base: seq<Option<Tag>>, ghost p: Built, e: Entry, ids: IdSource)
      returns (err: Option<Exception>)
      requires p.error == None && ids.next == p.nextId && tags == base + Slots(p.tags)
      modifies this, ids
      ensures var q := BuildNext(p, e);
              && err == q.error && ids.next == q.nextId
              && tags == (if err == None then base + Slots(q.tags) else old(tags))
      ensures old(Identified(ids.next)) ==> Identified(ids.next)
    {
      if e.NotMapping? {
        return Some(TypeError);
      }
      ghost var identified := Identified(ids.next);
      var t := CreateTag(e.fields, ids);
      if t.Failure? {
        return Some(t.error);
      }
      if identified {
        NewTagIdentifier(p.nextId, e.fields);
        AppendFresh(tags, p.nextId, t.value);
      }
      AppendTag(t.value);
      AppendedSlots(base, p.tags, t.value);
      err := None;
    }

    /** The loop of `read_from_file`: builds and appends one tag per item,
      stopping at the first item that fails. */
    method AppendEntries(es: seq<Entry>, ids: IdSource) returns (r: Outcome)
      modifies this, ids
      ensures var b := BuildTags(old(ids.next), es);
              && ids.next == b.nextId
              && tags == old(tags) + Slots(b.tags)
              && r == if b.error.Some? then Fail(b.error.value) else Pass
      ensures old(Identified(ids.next)) ==> Identified(ids.next)
    {
      ghost var id0 := ids.next;
      ghost var base := tags;
      ghost var identified := Identified(ids.next);
      ghost var b := BuildTags(id0, es[..0]);
      var i := 0;
      while i < |es|
        invariant 0 <= i <= |es|
        invariant b == BuildTags(id0, es[..i])
        invariant b.error == None && ids.next == b.nextId && tags == base + Slots(b.tags)
        invariant identified ==> Identified(ids.next)
      {
        BuildStep(id0, es, i);
        var err := AppendEntry(base, b, es[i], ids);
        b := BuildNext(b, es[i]);
        if err.Some? {
          BuildStopsAtFailure(id0, es, i + 1);
          return Fail(err.value);
        }
        i := i + 1;
      }
      assert es[..i] == es;
      r := Pass;
    }

    /** `read_from_file`, given what `yaml.safe_load` returned: a parse error
      leaves the model alone; otherwise the rows are cleared and one tag is
      built and appended per item until an item fails, whose exception is
      raised. An empty document is not iterable and raises TypeError after
      the clearing. Tags drawn from `ids` keep distinct identifiers. */
    method ReadFromFile(doc: Document, ids: IdSource) returns (r: Outcome)
      modifies this, ids
      ensures doc.Unparsable? ==> r == Fail(YamlError) && tags == old(tags) && ids.next == old(ids.next)
      ensures doc.Null? ==>
                && r == Fail(TypeError) && ids.next == old(ids.next)
                && tags == if orientation == Horizontal then [] else old(tags)
      ensures doc.Items? ==>
                var b := BuildTags(old(ids.next), doc.entries);
                && ids.next == b.nextId
                && tags == (if orientation == Horizontal then [] else old(tags)) + Slots(b.tags)
                && r == if b.error.Some? then Fail(b.error.value) else Pass
      ensures old(Identified(ids.next)) ==> Identified(ids.next)
    {
      if doc.Unparsable? {
        return Fail(YamlError);
      }
      ClearRows();
      if doc.Null? {
        return Fail(TypeError);
      }
      r := AppendEntries(doc.entries, ids);
    }

    /** `write_to_file`, as the records it writes: it succeeds exactly when
      every slot holds a tag with member type and role, and then writes
      their records ordered by start offset, each as often as its tag, and
      those of equal start in slot order. */
    method WriteToFile() returns (r: Result<seq<TagRecord>>)
      ensures r == WriteDocument(tags)
      ensures r.Success? <==> forall i :: 0 <= i < |tags| ==> tags[i].Some? && Named(tags[i].value)
      ensures r.Success? ==>
                && |r.value| == |tags|
                && (forall i, j :: 0 <= i < j < |r.value| ==> r.value[i].start <= r.value[j].start)
                && multiset(r.value) == multiset(Records(Present(tags)))
                && forall k :: RecordsWithStart(r.value, k) == RecordsWithStart(Records(Present(tags)), k)
    {
      WriteDocumentSpec(tags);
      r := WriteDocument(tags);
    }
  }

  /** The two orientations show the same table transposed. */
  lemma Transposed(h: TagModel, v: TagModel, row: int, column: int, role: ItemRole)
    requires h.orientation == Horizontal && v.orientation == Vertical
    requires h.labelOrder == v.labelOrder && h.tags == v.tags
    ensures h.RowCount(Invalid) == v.ColumnCount(Invalid)
    ensures h.ColumnCount(Invalid) == v.RowCount(Invalid)
    ensures h.Data(Cell(row, column), role) == v.Data(Cell(column, row), role)
  {
  }
}
