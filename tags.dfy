/** The tag record of hanalyse/tags.py: the two enumerations, the six fields
    with their converting setters, and the keyword constructor. */
module Tags {
  import opened Wrappers
  import opened Numerals

  /** `TagTypes`: how the tagged bytes are to be read. */
  datatype TagType =
    | Char | Uint8 | Uint16 | Uint32 | Uint64
    | Int8 | Int16 | Int32 | Int64
    | String | Array | Unknown

  /** `TagRoles`: why the tagged bytes matter. */
  datatype TagRole = Constant | Count | Offset | Signature | Size | Data | Unknown

  /** `TagTypes.<member>.name`. */
  function TypeName(t: TagType): string {
    match t
    case Char => "Char"
    case Uint8 => "Uint8"
    case Uint16 => "Uint16"
    case Uint32 => "Uint32"
    case Uint64 => "Uint64"
    case Int8 => "Int8"
    case Int16 => "Int16"
    case Int32 => "Int32"
    case Int64 => "Int64"
    case String => "String"
    case Array => "Array"
    case Unknown => "Unknown"
  }

  /** `TagTypes[name]`: exact, case-sensitive lookup by member name. */
  function TypeNamed(s: string): Option<TagType> {
    if s == "Char" then Some(Char)
    else if s == "Uint8" then Some(Uint8)
    else if s == "Uint16" then Some(Uint16)
    else if s == "Uint32" then Some(Uint32)
    else if s == "Uint64" then Some(Uint64)
    else if s == "Int8" then Some(Int8)
    else if s == "Int16" then Some(Int16)
    else if s == "Int32" then Some(Int32)
    else if s == "Int64" then Some(Int64)
    else if s == "String" then Some(String)
    else if s == "Array" then Some(Array)
    else if s == "Unknown" then Some(TagType.Unknown)
    else None
  }

  /** `TagRoles.<member>.name`. */
  function RoleName(r: TagRole): string {
    match r
    case Constant => "Constant"
    case Count => "Count"
    case Offset => "Offset"
    case Signature => "Signature"
    case Size => "Size"
    case Data => "Data"
    case Unknown => "Unknown"
  }

  /** `TagRoles[name]`. */
  function RoleNamed(s: string): Option<TagRole> {
    if s == "Constant" then Some(Constant)
    else if s == "Count" then Some(Count)
    else if s == "Offset" then Some(Offset)
    else if s == "Signature" then Some(Signature)
    else if s == "Size" then Some(Size)
    else if s == "Data" then Some(Data)
    else if s == "Unknown" then Some(TagRole.Unknown)
    else None
  }

  /** Lookup by name finds exactly the member with that name. */
  lemma TypeLookupByName(s: string, t: TagType)
    ensures TypeNamed(s) == Some(t) <==> s == TypeName(t)
  {
  }

  /** Lookup by name finds exactly the member with that name. */
  lemma RoleLookupByName(s: string, r: TagRole)
    ensures RoleNamed(s) == Some(r) <==> s == RoleName(r)
  {
  }

  /** The dynamically typed values that reach the setters: the table editors,
      the dialog's text fields and the YAML loader hand over ints and strings. */
  datatype Value = Int(i: int) | Text(s: string)

  /** What the `type` and `role` attributes hold: the setter turns text into a
      member and stores any other value unchanged, so an int lands as is. */
  datatype Slot<E> = Member(member: E) | RawInt(raw: int)

  /** A `Tag`. The identifier stands for the `uuid4()` drawn at construction;
      `parent` is the `_parent_tag` attribute, never given a setter. */
  datatype Tag = Tag(
    identifier: nat,
    parent: Option<nat>,
    name: Value,
    start: int,
    end: int,
    tagType: Slot<TagType>,
    role: Slot<TagRole>,
    comment: Value)

  /** The attribute names the table's label order refers to. */
  datatype Field = Name | Start | End | Type | Role | Comment

  /** The keyword (and attribute) name of a field. */
  function FieldKey(f: Field): string {
    match f
    case Name => "name"
    case Start => "start"
    case End => "end"
    case Type => "type"
    case Role => "role"
    case Comment => "comment"
  }

  /** The order in which `Tag.__init__` assigns the fields. */
  const FieldOrder: seq<Field> := [Name, Start, End, Type, Role, Comment]

  /** The `start` and `end` setters: an int is stored, text is read as
      hexadecimal after a `0x`/`0X` prefix and as decimal otherwise. */
  function OffsetOf(v: Value): Result<int> {
    match v
    case Int(i) => Success(i)
    case Text(s) =>
      if HasHexPrefix(s) then
        (match ParseHexPrefixed(s) case Some(n) => Success(n) case None => Failure(ValueError))
      else
        (match ParseDecimal(s) case Some(n) => Success(n) case None => Failure(ValueError))
  }

  /** The `type` setter. */
  function TypeOf(v: Value): Result<Slot<TagType>> {
    match v
    case Int(i) => Success(RawInt(i))
    case Text(s) =>
      match TypeNamed(s) case Some(t) => Success(Member(t)) case None => Failure(KeyError)
  }

  /** The `role` setter. */
  function RoleOf(v: Value): Result<Slot<TagRole>> {
    match v
    case Int(i) => Success(RawInt(i))
    case Text(s) =>
      match RoleNamed(s) case Some(r) => Success(Member(r)) case None => Failure(KeyError)
  }

  /** `setattr(tag, key, value)` through the property setters. A setter that
      raises leaves the tag as it was. */
  function SetField(t: Tag, f: Field, v: Value): Result<Tag> {
    match f
    case Name => Success(t.(name := v))
    case Start => var n :- OffsetOf(v); Success(t.(start := n))
    case End => var n :- OffsetOf(v); Success(t.(end := n))
    case Type => var k :- TypeOf(v); Success(t.(tagType := k))
    case Role => var r :- RoleOf(v); Success(t.(role := r))
    case Comment => Success(t.(comment := v))
  }

  /** `getattr(tag, key)` as the table shows it: enumeration members by name. */
  function Get(t: Tag, f: Field): Value {
    match f
    case Name => t.name
    case Start => Int(t.start)
    case End => Int(t.end)
    case Type => (match t.tagType case Member(k) => Text(TypeName(k)) case RawInt(i) => Int(i))
    case Role => (match t.role case Member(r) => Text(RoleName(r)) case RawInt(i) => Int(i))
    case Comment => t.comment
  }

  /** What a field shows after being given `v`, or the exception the setter
      raises: offsets show the number the text denotes, enumeration names
      show as given when they name a member, other values show unchanged. */
  function Shown(f: Field, v: Value): Result<Value> {
    if f == Start || f == End then
      (match OffsetOf(v) case Success(n) => Success(Int(n)) case Failure(e) => Failure(e))
    else if f == Type && v.Text? && TypeNamed(v.s).None? then Failure(KeyError)
    else if f == Role && v.Text? && RoleNamed(v.s).None? then Failure(KeyError)
    else Success(v)
  }

  /** A setter changes its own field and nothing else: it succeeds exactly when
      the value is acceptable, the field then shows the value as `Shown`
      says, and every other field, the identifier and the parent keep theirs. */
  lemma SetFieldEffect(t: Tag, f: Field, v: Value)
    ensures SetField(t, f, v).Success? <==> Shown(f, v).Success?
    ensures SetField(t, f, v).Failure? ==> SetField(t, f, v).error == Shown(f, v).error
    ensures SetField(t, f, v).Success? ==>
              var u := SetField(t, f, v).value;
              && Get(u, f) == Shown(f, v).value
              && u.identifier == t.identifier && u.parent == t.parent
              && forall g :: g != f ==> Get(u, g) == Get(t, g)
  {
    match v
    case Int(_) =>
    case Text(s) =>
      if f == Type && TypeNamed(s).Some? {
        TypeLookupByName(s, TypeNamed(s).value);
      }
      if f == Role && RoleNamed(s).Some? {
        RoleLookupByName(s, RoleNamed(s).value);
      }
  }

  /** The tag `Tag()` builds with no keyword arguments. */
  function DefaultTag(id: nat): Tag {
    Tag(id, None, Text(""), 0, 0, Member(TagType.Unknown), Member(TagRole.Unknown), Text(""))
  }

  /** One statement of `Tag.__init__`: the setter runs on the keyword argument
      when it is present; otherwise the default is already in place. */
  function Assign(t: Tag, f: Field, kwargs: map<string, Value>): Result<Tag> {
    if FieldKey(f) in kwargs then SetField(t, f, kwargs[FieldKey(f)]) else Success(t)
  }

  /** The statements of `Tag.__init__` for the fields `fs`, in order; the
      first setter that raises ends the construction. */
  function AssignAll(t: Tag, fs: seq<Field>, kwargs: map<string, Value>): Result<Tag>
    decreases fs
  {
    if fs == [] then Success(t)
    else
      var u :- Assign(t, fs[0], kwargs);
      AssignAll(u, fs[1..], kwargs)
  }

  /** `Tag(**kwargs)` with identifier `id`. */
  function NewTag(id: nat, kwargs: map<string, Value>): Result<Tag> {
    AssignAll(DefaultTag(id), FieldOrder, kwargs)
  }

  /** Whether the keyword argument for `f`, if any, is acceptable. */
  predicate Acceptable(f: Field, kwargs: map<string, Value>) {
    FieldKey(f) !in kwargs || Shown(f, kwargs[FieldKey(f)]).Success?
  }

  /** What field `f` of a new tag shows: the converted argument, or the default. */
  function Initial(f: Field, kwargs: map<string, Value>): Value
    requires Acceptable(f, kwargs)
  {
    if FieldKey(f) in kwargs then Shown(f, kwargs[FieldKey(f)]).value else Get(DefaultTag(0), f)
  }

  lemma AssignEffect(t: Tag, f: Field, kwargs: map<string, Value>)
    ensures Assign(t, f, kwargs).Success? <==> Acceptable(f, kwargs)
    ensures Assign(t, f, kwargs).Failure? ==>
              Assign(t, f, kwargs).error == Shown(f, kwargs[FieldKey(f)]).error
    ensures Assign(t, f, kwargs).Success? ==>
              var u := Assign(t, f, kwargs).value;
              && Get(u, f) == (if FieldKey(f) in kwargs then Initial(f, kwargs) else Get(t, f))
              && u.identifier == t.identifier && u.parent == t.parent
              && forall g :: g != f ==> Get(u, g) == Get(t, g)
  {
    if FieldKey(f) in kwargs {
      SetFieldEffect(t, f, kwargs[FieldKey(f)]);
    }
  }

  /** Running the setters for `fs` succeeds exactly when each of their
      arguments is acceptable; the fields named in `fs` then show their
      converted arguments and the others keep their values. Otherwise the
      exception is that of the first unacceptable field of `fs`. */
  lemma {:induction false} AssignAllEffect(t: Tag, fs: seq<Field>, kwargs: map<string, Value>)
    ensures AssignAll(t, fs, kwargs).Success? <==> forall i :: 0 <= i < |fs| ==> Acceptable(fs[i], kwargs)
    ensures AssignAll(t, fs, kwargs).Success? ==>
              var u := AssignAll(t, fs, kwargs).value;
              && u.identifier == t.identifier && u.parent == t.parent
              && forall f :: Get(u, f) == if f in fs && FieldKey(f) in kwargs then Initial(f, kwargs) else Get(t, f)
    ensures AssignAll(t, fs, kwargs).Failure? ==>
              exists i :: 0 <= i < |fs| && !Acceptable(fs[i], kwargs)
                && (forall j :: 0 <= j < i ==> Acceptable(fs[j], kwargs))
                && AssignAll(t, fs, kwargs).error == Shown(fs[i], kwargs[FieldKey(fs[i])]).error
    decreases fs
  {
    if fs != [] {
      AssignEffect(t, fs[0], kwargs);
      if Acceptable(fs[0], kwargs) {
        var u := Assign(t, fs[0], kwargs).value;
        AssignAllEffect(u, fs[1..], kwargs);
        assert forall i :: 1 <= i < |fs| ==> fs[i] == fs[1..][i - 1];
        if AssignAll(t, fs, kwargs).Failure? {
          var k :| 0 <= k < |fs[1..]| && !Acceptable(fs[1..][k], kwargs)
                   && (forall j :: 0 <= j < k ==> Acceptable(fs[1..][j], kwargs))
                   && AssignAll(u, fs[1..], kwargs).error == Shown(fs[1..][k], kwargs[FieldKey(fs[1..][k])]).error;
          assert fs[k + 1] == fs[1..][k];
        }
      } else {
        assert AssignAll(t, fs, kwargs).Failure?;
      }
    }
  }

  /** The constructor: it succeeds exactly when every given field is
      acceptable, and then the tag carries the identifier drawn for it, no
      parent, and in each field the converted argument or the default (name
      "", start 0, end 0, type Unknown, role Unknown, comment ""). Otherwise
      it raises the exception of the first unacceptable field in declaration
      order. */
  lemma NewTagFields(id: nat, kwargs: map<string, Value>)
    ensures NewTag(id, kwargs).Success? <==> forall f :: Acceptable(f, kwargs)
    ensures NewTag(id, kwargs).Success? ==>
              var t := NewTag(id, kwargs).value;
              && t.identifier == id && t.parent == None
              && forall f :: Get(t, f) == Initial(f, kwargs)
    ensures NewTag(id, kwargs).Failure? ==>
              exists i :: 0 <= i < |FieldOrder| && !Acceptable(FieldOrder[i], kwargs)
                && (forall j :: 0 <= j < i ==> Acceptable(FieldOrder[j], kwargs))
                && NewTag(id, kwargs).error == Shown(FieldOrder[i], kwargs[FieldKey(FieldOrder[i])]).error
  {
    AssignAllEffect(DefaultTag(id), FieldOrder, kwargs);
    FieldOrderComplete();
    if NewTag(id, kwargs).Success? {
      DefaultsShown(id, NewTag(id, kwargs).value, kwargs);
    }
  }

  /** A created tag carries the identifier it was given. */
  lemma NewTagIdentifier(id: nat, kwargs: map<string, Value>)
    requires NewTag(id, kwargs).Success?
    ensures NewTag(id, kwargs).value.identifier == id
  {
    NewTagFields(id, kwargs);
  }

  /** The constructor assigns every field. */
  lemma FieldOrderComplete()
    ensures forall f :: f in FieldOrder
  {
    forall f: Field ensures f in FieldOrder {
      match f
      case Name => assert FieldOrder[0] == f;
      case Start => assert FieldOrder[1] == f;
      case End => assert FieldOrder[2] == f;
      case Type => assert FieldOrder[3] == f;
      case Role => assert FieldOrder[4] == f;
      case Comment => assert FieldOrder[5] == f;
    }
  }

  /** A field the keyword arguments leave out shows its default, whatever
      the identifier. */
  lemma DefaultsShown(id: nat, u: Tag, kwargs: map<string, Value>)
    requires forall f :: Acceptable(f, kwargs)
    requires forall f :: Get(u, f) == if f in FieldOrder && FieldKey(f) in kwargs then Initial(f, kwargs) else Get(DefaultTag(id), f)
    requires forall f :: f in FieldOrder
    ensures forall f :: Get(u, f) == Initial(f, kwargs)
  {
    forall f ensures Get(u, f) == Initial(f, kwargs) {
      assert Get(DefaultTag(id), f) == Get(DefaultTag(0), f);
    }
  }

  /** Hexadecimal offset text: "0x10" is 16 and "0X1A" is 26. */
  lemma HexOffsetExamples()
    ensures OffsetOf(Text("0x10")) == Success(16)
    ensures OffsetOf(Text("0X1A")) == Success(26)
  {
    assert HexString(16) == "10";
    assert "0x10" == "0x" + FormatHex(16, 2);
    HexTextOffset(16, 2);
    var hh := "0X1A";
    assert RStrip(hh[2..]) == "1A";
    assert "1A"[..1] == "1";
  }

  /** Decimal offset text: "16" is 16. */
  lemma DecimalOffsetExample()
    ensures OffsetOf(Text("16")) == Success(16)
  {
    assert "" + "" + "16" + "" == "16";
    DecimalTextOffset("", "", "16", "");
    assert "16"[..1] == "1" && "1"[..0] == "";
  }

  /** Offset text that is not a numeral raises ValueError. */
  lemma NonNumeralOffsets()
    ensures OffsetOf(Text("xyz")) == Failure(ValueError)
    ensures OffsetOf(Text("0x")) == Failure(ValueError)
  {
    NoDigitsRejected("xyz");
    assert RStrip("0x"[2..]) == [];
  }

  /** Offsets given as `0x` followed by zero-padded lowercase hexadecimal, as
      the tag dialog fills them in, are read back as the number written. */
  lemma HexTextOffset(n: nat, width: nat)
    ensures OffsetOf(Text("0x" + FormatHex(n, width))) == Success(n)
  {
    HexRoundTrip(n, width);
  }

  /** Decimal offsets are read as `int()` reads them. */
  lemma DecimalTextOffset(l: string, sign: string, d: string, r: string)
    requires AllSpace(l) && AllSpace(r)
    requires sign == "" || sign == "+" || sign == "-"
    requires d != [] && AllDec(d)
    ensures OffsetOf(Text(l + sign + d + r))
            == Success(if sign == "-" then -(DigitsValue(d, 10) as int) else DigitsValue(d, 10))
  {
    DecimalTextNotHex(l, sign, d, r);
    DecimalNumeralAccepted(l, sign, d, r);
  }

  /** A decimal numeral amid spaces never starts with `0x`: its first
      character is a space, a sign, or a digit followed by a digit, a space
      or nothing. */
  lemma DecimalTextNotHex(l: string, sign: string, d: string, r: string)
    requires AllSpace(l) && AllSpace(r)
    requires sign == "" || sign == "+" || sign == "-"
    requires d != [] && AllDec(d)
    ensures !HasHexPrefix(l + sign + d + r)
  {
    var s := l + sign + d + r;
    if l != [] {
      assert s[0] == l[0];
    } else if sign != "" {
      assert s[0] == sign[0];
    } else if |d| >= 2 {
      assert s[1] == d[1];
    } else if r != [] {
      assert s[1] == r[0];
    }
  }

  /** The source of `uuid4()` values: every draw differs from all earlier ones. */
  class IdSource {
    var next: nat

    constructor ()
      ensures next == 0
    {
      next := 0;
    }

    method Fresh() returns (id: nat)
      modifies this
      ensures id == old(next) && next == old(next) + 1
    {
      id := next;
      next := next + 1;
    }
  }

  /** `Tag(**kwargs)`: an identifier is drawn first, then the fields are set. */
  method CreateTag(kwargs: map<string, Value>, ids: IdSource) returns (r: Result<Tag>)
    modifies ids
    ensures ids.next == old(ids.next) + 1
    ensures r == NewTag(old(ids.next), kwargs)
  {
    var id := ids.Fresh();
    r := NewTag(id, kwargs);
  }
}
