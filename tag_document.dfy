/** The YAML tag document of hanalyse/tags.py: the record `TagDumper` writes
    for each tag, the stable ordering by start offset applied before writing,
    and the rebuilding of tags from the loaded entries. */
module TagDocument {
  import opened Wrappers
  import opened Tags

  /** The six fields `represent_tag_object` emits for a tag, in that order. */
  datatype TagRecord = TagRecord(
    name: Value,
    start: int,
    end: int,
    typeName: string,
    roleName: string,
    comment: Value)

  /** Whether the representer can name the tag's type and role: `.name`
      fails on a value the setters stored as a bare int. */
  predicate Named(t: Tag) {
    t.tagType.Member? && t.role.Member?
  }

  function Record(t: Tag): (r: TagRecord)
    requires Named(t)
    ensures r.typeName == TypeName(t.tagType.member) && r.roleName == RoleName(t.role.member)
  {
    TagRecord(t.name, t.start, t.end, TypeName(t.tagType.member), RoleName(t.role.member), t.comment)
  }

  predicate AllNamed(ts: seq<Tag>) {
    forall i :: 0 <= i < |ts| ==> Named(ts[i])
  }

  function Records(ts: seq<Tag>): (rs: seq<TagRecord>)
    requires AllNamed(ts)
    ensures |rs| == |ts| && forall i :: 0 <= i < |ts| ==> rs[i] == Record(ts[i])
  {
    seq(|ts|, i requires 0 <= i < |ts| && AllNamed(ts) => Record(ts[i]))
  }

  // ---------------------------------------------------------------------------
  // `sorted(tags, key=lambda tag: tag.start)`

  predicate SortedByStart(ts: seq<Tag>) {
    forall i, j :: 0 <= i < j < |ts| ==> ts[i].start <= ts[j].start
  }

  /** Places `t` before the first tag that does not start before it. */
  function InsertByStart(t: Tag, s: seq<Tag>): (r: seq<Tag>)
    ensures |r| == |s| + 1
  {
    if s == [] || t.start <= s[0].start then [t] + s
    else [s[0]] + InsertByStart(t, s[1..])
  }

  /** A stable sort on the start offset. */
  function SortByStart(ts: seq<Tag>): (r: seq<Tag>)
    ensures |r| == |ts|
  {
    if ts == [] then [] else InsertByStart(ts[0], SortByStart(ts[1..]))
  }

  /** The tags starting at `k`, in their order. */
  function WithStart(ts: seq<Tag>, k: int): seq<Tag> {
    if ts == [] then []
    else (if ts[0].start == k then [ts[0]] else []) + WithStart(ts[1..], k)
  }

  lemma {:induction false} InsertByStartSorted(t: Tag, s: seq<Tag>)
    requires SortedByStart(s)
    ensures |InsertByStart(t, s)| == |s| + 1
    ensures forall i :: 0 <= i < |s| + 1 ==> InsertByStart(t, s)[i] == t || InsertByStart(t, s)[i] in s
    ensures SortedByStart(InsertByStart(t, s))
  {
    if s != [] && t.start > s[0].start {
      var rest := InsertByStart(t, s[1..]);
      InsertByStartSorted(t, s[1..]);
      var r := [s[0]] + rest;
      assert InsertByStart(t, s) == r;
      forall i | 0 <= i < |r| ensures r[i] == t || r[i] in s {
        if i > 0 {
          assert r[i] == rest[i - 1];
        }
      }
      forall j | 0 < j < |r| ensures r[0].start <= r[j].start {
        assert r[j] == rest[j - 1];
        if r[j] != t {
          var m :| 0 <= m < |s[1..]| && s[1..][m] == r[j];
          assert s[m + 1] == r[j];
        }
      }
      assert forall i, j :: 0 < i < j < |r| ==> r[i] == rest[i - 1] && r[j] == rest[j - 1];
    }
  }

  lemma {:induction false} InsertByStartMultiset(t: Tag, s: seq<Tag>)
    ensures multiset(InsertByStart(t, s)) == multiset(s) + multiset{t}
  {
    if s != [] && t.start > s[0].start {
      InsertByStartMultiset(t, s[1..]);
      assert s == [s[0]] + s[1..];
    }
  }

  /** Among the tags with any one start, the inserted tag comes first and
      the others keep their order. */
  lemma {:induction false} InsertByStartWithStart(t: Tag, s: seq<Tag>, k: int)
    ensures WithStart(InsertByStart(t, s), k) == (if t.start == k then [t] else []) + WithStart(s, k)
  {
    if s == [] || t.start <= s[0].start {
      WithStartCons(t, s, k);
    } else {
      var rest := InsertByStart(t, s[1..]);
      InsertByStartWithStart(t, s[1..], k);
      assert InsertByStart(t, s) == [s[0]] + rest;
      WithStartCons(s[0], rest, k);
      WithStartCons(s[0], s[1..], k);
      assert s == [s[0]] + s[1..];
      if t.start == k {
        assert s[0].start != k;
      }
    }
  }

  lemma WithStartCons(x: Tag, s: seq<Tag>, k: int)
    ensures WithStart([x] + s, k) == (if x.start == k then [x] else []) + WithStart(s, k)
  {
    assert ([x] + s)[1..] == s;
  }

  /** The sort orders by start offset, keeps every tag exactly as often as
      before, and keeps tags with the same start in their original order. */
  lemma {:induction false} SortByStartSpec(ts: seq<Tag>)
    ensures SortedByStart(SortByStart(ts))
    ensures multiset(SortByStart(ts)) == multiset(ts)
    ensures forall k :: WithStart(SortByStart(ts), k) == WithStart(ts, k)
  {
    if ts != [] {
      SortByStartSpec(ts[1..]);
      var rest := SortByStart(ts[1..]);
      InsertByStartSorted(ts[0], rest);
      InsertByStartMultiset(ts[0], rest);
      forall k ensures WithStart(SortByStart(ts), k) == WithStart(ts, k) {
        InsertByStartWithStart(ts[0], rest, k);
      }
      assert ts == [ts[0]] + ts[1..];
    }
  }

  lemma {:induction false} RecordsOfInsert(t: Tag, s: seq<Tag>)
    requires Named(t) && AllNamed(s)
    ensures AllNamed(InsertByStart(t, s))
    ensures multiset(Records(InsertByStart(t, s))) == multiset(Records(s)) + multiset{Record(t)}
  {
    if s == [] || t.start <= s[0].start {
      RecordsCons(t, s);
    } else {
      var rest := InsertByStart(t, s[1..]);
      RecordsOfInsert(t, s[1..]);
      assert InsertByStart(t, s) == [s[0]] + rest;
      assert s == [s[0]] + s[1..];
      ConsKeepsAddition(t, s[0], rest, s[1..]);
    }
  }

  /** Putting the same tag in front of both sides keeps one extra record. */
  lemma ConsKeepsAddition(t: Tag, x: Tag, rest: seq<Tag>, tail: seq<Tag>)
    requires Named(t) && Named(x) && AllNamed(rest) && AllNamed(tail)
    requires multiset(Records(rest)) == multiset(Records(tail)) + multiset{Record(t)}
    ensures AllNamed([x] + rest) && AllNamed([x] + tail)
    ensures multiset(Records([x] + rest)) == multiset(Records([x] + tail)) + multiset{Record(t)}
  {
    RecordsCons(x, rest);
    RecordsCons(x, tail);
  }

  lemma RecordsCons(x: Tag, s: seq<Tag>)
    requires Named(x) && AllNamed(s)
    ensures AllNamed([x] + s) && Records([x] + s) == [Record(x)] + Records(s)
  {
    assert ([x] + s)[1..] == s;
  }

  /** Sorting rearranges the records: it neither loses nor duplicates one. */
  lemma {:induction false} RecordsOfSort(ts: seq<Tag>)
    requires AllNamed(ts)
    ensures AllNamed(SortByStart(ts))
    ensures multiset(Records(SortByStart(ts))) == multiset(Records(ts))
  {
    if ts != [] {
      RecordsOfSort(ts[1..]);
      RecordsOfInsert(ts[0], SortByStart(ts[1..]));
      assert Records(ts) == [Record(ts[0])] + Records(ts[1..]);
    }
  }

  // ---------------------------------------------------------------------------
  // Writing

  /** The tags of a tag list in which every slot is filled. */
  function Present(slots: seq<Option<Tag>>): (ts: seq<Tag>)
    requires forall i :: 0 <= i < |slots| ==> slots[i].Some?
    ensures |ts| == |slots| && forall i :: 0 <= i < |slots| ==> ts[i] == slots[i].value
  {
    seq(|slots|, i requires 0 <= i < |slots| => slots[i].value)
  }

  /** `yaml.dump(sorted(tags, key=start))`, as the records it writes: an
      unfilled slot has no `start` and a bare-int type or role has no
      `.name`; both raise AttributeError. */
  function WriteDocument(slots: seq<Option<Tag>>): Result<seq<TagRecord>> {
    if exists i :: 0 <= i < |slots| && slots[i].None? then Failure(AttributeError)
    else
      var sorted := SortByStart(Present(slots));
      if AllNamed(sorted) then Success(Records(sorted)) else Failure(AttributeError)
  }

  /** A record whose type and role names the loader can look up. */
  predicate Readable(r: TagRecord) {
    TypeNamed(r.typeName).Some? && RoleNamed(r.roleName).Some?
  }

  /** The sorted list holds exactly the tags of the original. */
  lemma NamedOfSort(ts: seq<Tag>)
    ensures AllNamed(SortByStart(ts)) <==> AllNamed(ts)
  {
    SortByStartSpec(ts);
    var sorted := SortByStart(ts);
    assert forall x :: x in sorted <==> x in multiset(sorted);
    assert forall x :: x in ts <==> x in multiset(ts);
    if !AllNamed(ts) {
      var i :| 0 <= i < |ts| && !Named(ts[i]);
      assert ts[i] in sorted;
    }
    if !AllNamed(sorted) {
      var i :| 0 <= i < |sorted| && !Named(sorted[i]);
      assert sorted[i] in ts;
    }
  }

  /** The records of tags sorted by start are sorted by start, and their type
      and role names are all names of members. */
  lemma SortedRecords(ts: seq<Tag>)
    requires AllNamed(ts) && SortedByStart(ts)
    ensures forall i, j :: 0 <= i < j < |ts| ==> Records(ts)[i].start <= Records(ts)[j].start
    ensures forall i :: 0 <= i < |ts| ==> Readable(Records(ts)[i])
  {
    var rs := Records(ts);
    forall i | 0 <= i < |rs| ensures Readable(rs[i]) {
      TypeLookupByName(rs[i].typeName, ts[i].tagType.member);
      RoleLookupByName(rs[i].roleName, ts[i].role.member);
    }
  }

  /** The records starting at `k`, in their order. */
  function RecordsWithStart(rs: seq<TagRecord>, k: int): seq<TagRecord> {
    if rs == [] then []
    else (if rs[0].start == k then [rs[0]] else []) + RecordsWithStart(rs[1..], k)
  }

  /** Picking the records that start at `k` picks the records of the tags
      that start at `k`. */
  lemma {:induction false} RecordsWithStartOf(ts: seq<Tag>, k: int)
    requires AllNamed(ts)
    ensures AllNamed(WithStart(ts, k))
    ensures RecordsWithStart(Records(ts), k) == Records(WithStart(ts, k))
  {
    if ts != [] {
      var rs := Records(ts);
      assert rs[1..] == Records(ts[1..]);
      RecordsWithStartOf(ts[1..], k);
      var rest := WithStart(ts[1..], k);
      if ts[0].start == k {
        RecordsCons(ts[0], rest);
      } else {
        assert WithStart(ts, k) == rest;
      }
    }
  }

  /** Writing succeeds exactly when every slot holds a tag whose type and
      role are members; the records are then those of the tags sorted by
      start, in order of start offset, each as often as its tag, with the
      records of equal start in the order of their tags' slots, and they can
      all be read. */
  lemma WriteDocumentSpec(slots: seq<Option<Tag>>)
    ensures WriteDocument(slots).Success? <==>
              forall i :: 0 <= i < |slots| ==> slots[i].Some? && Named(slots[i].value)
    ensures WriteDocument(slots).Success? ==>
              var rs := WriteDocument(slots).value;
              && rs == Records(SortByStart(Present(slots)))
              && |rs| == |slots|
              && (forall i, j :: 0 <= i < j < |rs| ==> rs[i].start <= rs[j].start)
              && multiset(rs) == multiset(Records(Present(slots)))
              && (forall k :: RecordsWithStart(rs, k) == RecordsWithStart(Records(Present(slots)), k))
              && forall i :: 0 <= i < |rs| ==> Readable(rs[i])
  {
    if forall i :: 0 <= i < |slots| ==> slots[i].Some? {
      var ts := Present(slots);
      NamedOfSort(ts);
      assert AllNamed(ts) <==> forall i :: 0 <= i < |slots| ==> Named(slots[i].value);
      if AllNamed(ts) {
        SortByStartSpec(ts);
        RecordsOfSort(ts);
        SortedRecords(SortByStart(ts));
        forall k ensures RecordsWithStart(Records(SortByStart(ts)), k) == RecordsWithStart(Records(ts), k) {
          RecordsWithStartOf(SortByStart(ts), k);
          RecordsWithStartOf(ts, k);
        }
      }
    }
  }

  // ---------------------------------------------------------------------------
  // Reading

  /** One item of the loaded top-level list. */
  datatype Entry = Mapping(fields: map<string, Value>) | NotMapping

  /** What `yaml.safe_load` returns: a parse error, an empty document (None)
      or a list of items. */
  datatype Document = Unparsable | Null | Items(entries: seq<Entry>)

  /** The value the loader gives back under a field's key. */
  function EntryValue(r: TagRecord, f: Field): Value {
    match f
    case Name => r.name
    case Start => Int(r.start)
    case End => Int(r.end)
    case Type => Text(r.typeName)
    case Role => Text(r.roleName)
    case Comment => r.comment
  }

  /** The mapping the loader gives back for a written record. */
  function EntryOf(r: TagRecord): (e: Entry)
    ensures e.Mapping?
  {
    Mapping(map[
      "name" := r.name, "start" := Int(r.start), "end" := Int(r.end),
      "type" := Text(r.typeName), "role" := Text(r.roleName), "comment" := r.comment])
  }

  lemma EntryLookups(r: TagRecord)
    ensures forall f :: FieldKey(f) in EntryOf(r).fields && EntryOf(r).fields[FieldKey(f)] == EntryValue(r, f)
  {
    forall f ensures FieldKey(f) in EntryOf(r).fields && EntryOf(r).fields[FieldKey(f)] == EntryValue(r, f) {
      match f
      case Name =>
      case Start =>
      case End =>
      case Type =>
      case Role =>
      case Comment =>
    }
  }

  /** The document the loader gives back for written records. */
  function DocumentOf(rs: seq<TagRecord>): (d: Document)
    ensures d.Items? && |d.entries| == |rs|
    ensures forall i :: 0 <= i < |rs| ==> d.entries[i] == EntryOf(rs[i])
  {
    Items(seq(|rs|, i requires 0 <= i < |rs| => EntryOf(rs[i])))
  }

  /** The outcome of rebuilding tags from entries: the tags built, the next
      unused identifier, and the exception that stopped the loop, if any. */
  datatype Built = Built(tags: seq<Tag>, nextId: nat, error: Option<Exception>)

  /** `for tag in tags: append_tag(Tag(**tag))` over `es`, drawing identifiers
      from `firstId` on. `**` on an item that is not a mapping raises
      TypeError before a tag is created; a failing constructor has already
      drawn its identifier. */
  function BuildTags(firstId: nat, es: seq<Entry>): (b: Built)
    ensures firstId <= b.nextId
  {
    if es == [] then Built([], firstId, None)
    else
      var p := BuildTags(firstId, es[..|es| - 1]);
      if p.error.Some? then p else BuildNext(p, es[|es| - 1])
  }

  /** One item after the earlier ones succeeded: `**` on an item that is not
      a mapping raises TypeError before a tag is created; otherwise the
      constructor draws the next identifier and either appends its tag or
      raises. */
  function BuildNext(p: Built, e: Entry): (q: Built)
    ensures q.nextId == (if e.NotMapping? then p.nextId else p.nextId + 1)
    ensures q.error == None <==> e.Mapping? && NewTag(p.nextId, e.fields).Success?
    ensures q.error == None ==> q.tags == p.tags + [NewTag(p.nextId, e.fields).value]
    ensures q.error != None ==> q.tags == p.tags
  {
    match e
    case NotMapping => Built(p.tags, p.nextId, Some(TypeError))
    case Mapping(kwargs) =>
      match NewTag(p.nextId, kwargs)
      case Success(t) => Built(p.tags + [t], p.nextId + 1, None)
      case Failure(err) => Built(p.tags, p.nextId + 1, Some(err))
  }

  /** Once an entry fails, no later entry is looked at: the tags built are
      those before it. */
  lemma {:induction false} BuildStopsAtFailure(firstId: nat, es: seq<Entry>, k: nat)
    requires k <= |es|
    requires BuildTags(firstId, es[..k]).error.Some?
    ensures BuildTags(firstId, es) == BuildTags(firstId, es[..k])
  {
    if k < |es| {
      assert es[..|es| - 1][..k] == es[..k];
      BuildStopsAtFailure(firstId, es[..|es| - 1], k);
    } else {
      assert es[..k] == es;
    }
  }

  /** One more entry: what the loop does with item `i` once the earlier
      items succeeded. */
  lemma BuildStep(firstId: nat, es: seq<Entry>, i: nat)
    requires i < |es| && BuildTags(firstId, es[..i]).error == None
    ensures BuildTags(firstId, es[..i + 1]) == BuildNext(BuildTags(firstId, es[..i]), es[i])
  {
    assert es[..i + 1][..i] == es[..i];
  }

  /** A tag showing a record's values has that record. */
  lemma RecordFromFields(t: Tag, r: TagRecord)
    requires forall f :: Get(t, f) == EntryValue(r, f)
    ensures Named(t) && Record(t) == r
  {
    assert Get(t, Type) == Text(r.typeName) && Get(t, Role) == Text(r.roleName);
    assert Get(t, Name) == r.name && Get(t, Comment) == r.comment;
    assert Get(t, Start) == Int(r.start) && Get(t, End) == Int(r.end);
  }

  /** A record read back through the constructor gives a tag with that record. */
  lemma EntryRebuilds(id: nat, r: TagRecord)
    requires Readable(r)
    ensures NewTag(id, EntryOf(r).fields).Success?
    ensures var t := NewTag(id, EntryOf(r).fields).value;
            t.identifier == id && Named(t) && Record(t) == r
  {
    var kw := EntryOf(r).fields;
    EntryLookups(r);
    forall f ensures Acceptable(f, kw) && Initial(f, kw) == EntryValue(r, f) {
      if f == Type {
        TypeLookupByName(r.typeName, TypeNamed(r.typeName).value);
      } else if f == Role {
        RoleLookupByName(r.roleName, RoleNamed(r.roleName).value);
      }
    }
    NewTagFields(id, kw);
    RecordFromFields(NewTag(id, kw).value, r);
  }

  /** Readable records are rebuilt one tag each, in order, with consecutive
      fresh identifiers, and without error. */
  lemma {:induction false} RebuildRecords(firstId: nat, rs: seq<TagRecord>)
    requires forall i :: 0 <= i < |rs| ==> Readable(rs[i])
    ensures var b := BuildTags(firstId, DocumentOf(rs).entries);
            && b.error == None && b.nextId == firstId + |rs| && |b.tags| == |rs|
            && AllNamed(b.tags) && Records(b.tags) == rs
            && forall i :: 0 <= i < |rs| ==> b.tags[i].identifier == firstId + i
  {
    var es := DocumentOf(rs).entries;
    if rs != [] {
      var init, r := rs[..|rs| - 1], rs[|rs| - 1];
      var es0 := DocumentOf(init).entries;
      RebuildRecords(firstId, init);
      var p := BuildTags(firstId, es0);
      EntryRebuilds(p.nextId, r);
      LastSplit(rs);
      DocumentAppend(init, r);
      BuildLast(firstId, es0, EntryOf(r));
      RebuiltOneMore(firstId, init, r, p, NewTag(p.nextId, EntryOf(r).fields).value);
    }
  }

  lemma DocumentAppend(rs: seq<TagRecord>, r: TagRecord)
    ensures DocumentOf(rs + [r]).entries == DocumentOf(rs).entries + [EntryOf(r)]
  {
  }

  lemma BuildLast(firstId: nat, es: seq<Entry>, e: Entry)
    ensures var p := BuildTags(firstId, es);
            BuildTags(firstId, es + [e]) == if p.error.Some? then p else BuildNext(p, e)
  {
    assert (es + [e])[..|es|] == es;
  }

  lemma LastSplit<T>(s: seq<T>)
    requires s != []
    ensures s == s[..|s| - 1] + [s[|s| - 1]]
  {
  }

  lemma RecordsAppend(ts: seq<Tag>, t: Tag)
    requires AllNamed(ts) && Named(t)
    ensures AllNamed(ts + [t]) && Records(ts + [t]) == Records(ts) + [Record(t)]
  {
    assert forall i :: 0 <= i < |ts| ==> (ts + [t])[i] == ts[i];
  }

  /** The induction step of `RebuildRecords`: one more record rebuilt after `init`. */
  lemma RebuiltOneMore(firstId: nat, init: seq<TagRecord>, r: TagRecord, p: Built, t: Tag)
    requires p.nextId == firstId + |init| && |p.tags| == |init|
    requires AllNamed(p.tags) && Records(p.tags) == init
    requires forall i :: 0 <= i < |init| ==> p.tags[i].identifier == firstId + i
    requires t.identifier == p.nextId && Named(t) && Record(t) == r
    ensures AllNamed(p.tags + [t]) && Records(p.tags + [t]) == init + [r]
    ensures forall i :: 0 <= i < |init| + 1 ==> (p.tags + [t])[i].identifier == firstId + i
  {
    RecordsAppend(p.tags, t);
  }

  /** A tag list whose slots all hold tags with member types and roles is
      written, and reading the document back yields, without error, one
      fresh tag per written one, carrying the same records the same number
      of times. */
  lemma WriteReadRoundTrip(slots: seq<Option<Tag>>, firstId: nat)
    requires forall i :: 0 <= i < |slots| ==> slots[i].Some? && Named(slots[i].value)
    ensures WriteDocument(slots).Success?
    ensures AllNamed(Present(slots))
    ensures var b := BuildTags(firstId, DocumentOf(WriteDocument(slots).value).entries);
            && b.error == None && |b.tags| == |slots| && AllNamed(b.tags)
            && multiset(Records(b.tags)) == multiset(Records(Present(slots)))
  {
    WriteDocumentSpec(slots);
    var rs := WriteDocument(slots).value;
    RebuildRecords(firstId, rs);
    var b := BuildTags(firstId, DocumentOf(rs).entries);
    assert Records(b.tags) == rs;
  }
}
