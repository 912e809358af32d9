/**
 The two representations of an object in a commit, and the conversions between
 them: a snapshot row of the database and an entry of the commit's JSON tree.
 */
module Hnf {
  import opened NumberText
  import opened Wrappers

  type Uuid = nat

  type Path = string

  /**
   A JSON value. Python counts true, 1 and 1.0 as equal, and so does the model:
   a boolean is the number 0 or 1. Two values are equal when Python's are.
   */
  datatype Json =
    | JNull
    | JNum(n: real)
    | JStr(s: string)
    | JArr(items: seq<Json>)
    | JObj(fields: map<string, Json>)
  {
    /** Whether Python counts the value as true. */
    predicate Truthy() {
      match this
      case JNull => false
      case JNum(n) => n != 0.0
      case JStr(s) => s != ""
      case JArr(items) => items != []
      case JObj(fields) => fields != map[]
    }

    predicate WholeNumber() {
      JNum? && n == n.Floor as real
    }
  }

  type Props = map<string, Json>

  /**
   One key of a JSON object: missing, null, of the expected type, of another
   type that `str()` or `list()` turns into a value, or of any other type.
   */
  datatype Field<+T> = Absent | Null | Given(value: T) | Castable(value: T) | Other(json: Json)

  /**
   A JSON object that describes a hardware object; `others` are the keys the
   service does not know. Two are equal when Python's dicts are.
   */
  datatype Fields = Fields(
    objectId: Field<Uuid>,
    versionId: Field<Uuid>,
    versionNum: Option<Json>,
    contentHash: Field<string>,
    hnfType: Field<string>,
    kind: Field<string>,
    domain: Field<string>,
    refs: Field<seq<string>>,
    properties: Field<Props>,
    snapshotVersion: Field<nat>,
    others: map<string, Json>)

  /** A validated snapshot. */
  datatype Snapshot = Snapshot(
    path: Path,
    objectId: Option<Uuid>,
    versionId: Option<Uuid>,
    versionNum: Option<int>,
    contentHash: Option<string>,
    hnfType: string,
    domain: Option<string>,
    refs: seq<string>,
    properties: Option<Props>)

  /** A row of the snapshot table; the version number lives inside `properties`. */
  datatype Row = Row(
    objectId: Option<Uuid>,
    versionId: Option<Uuid>,
    contentHash: Option<string>,
    hnfType: string,
    domain: Option<string>,
    refs: seq<string>,
    snapshotVersion: nat,
    properties: Props)

  /** An entry of a commit's JSON tree. */
  datatype TreeEntry =
    | Object(fields: Fields)
    | RootRef(path: Path)
    | SceneRef(snapshot: nat, format: string)
    | Warnings
    | Leaf(json: Json)

  type JsonTree = map<Path, TreeEntry>

  const VERSION_NUM := "version_num"
  const SCENE_KEY := "scene_graph_snapshot"
  const ROOT_KEY := "tree_root_ref"
  const WARNINGS_KEY := "_hnf_validation_warnings"
  const DEFAULT_TYPE := "hardware.object"

  // -------------------------------------------------------------- validation

  /** An optional field: missing and null both mean no value; another type is rejected. */
  function Optional<T>(f: Field<T>): Result<Option<T>, ()> {
    match f
    case Absent => Ok(None)
    case Null => Ok(None)
    case Given(v) => Ok(Some(v))
    case _ => Err(())
  }

  function OptionalProps(f: Field<Props>): Option<Props> {
    if f.Given? then Some(f.value) else None
  }

  /** A version number that the validator takes as it is. */
  predicate Plain(v: Option<Json>) {
    v.Some? && (v.value.JNull? || v.value.WholeNumber())
  }

  /** A version number that the validator turns from a text into a number. */
  predicate IntegerText(v: Option<Json>) {
    v.Some? && v.value.JStr? && IsIntegerText(v.value.s)
  }

  /** A version number that the validator rejects. */
  predicate BadVersionNum(v: Option<Json>) {
    v.Some? && !Plain(v) && !IntegerText(v)
  }

  /** The integer the validator makes of a version number. */
  function VersionNumOf(v: Option<Json>): Option<int> {
    match v
    case Some(JNum(n)) => Some(n.Floor)
    case Some(JStr(s)) => Some(IntegerValue(s))
    case _ => None
  }

  predicate ValidProps(f: Field<Props>) {
    f.Absent? || f.Null? || f.Given?
  }

  /** The model accepts a snapshot payload; `None` when validation fails. */
  function Validate(path: Path, f: Fields): Option<Snapshot> {
    var objectId := Optional(f.objectId);
    var versionId := Optional(f.versionId);
    var contentHash := Optional(f.contentHash);
    var domain := Optional(f.domain);
    if objectId.Ok? && versionId.Ok? && !BadVersionNum(f.versionNum) && contentHash.Ok? && domain.Ok?
       && f.hnfType.Given? && (f.refs.Absent? || f.refs.Given?) && ValidProps(f.properties)
    then
      Some(Snapshot(path, objectId.value, versionId.value, VersionNumOf(f.versionNum), contentHash.value,
                    f.hnfType.value, domain.value, if f.refs.Given? then f.refs.value else [],
                    OptionalProps(f.properties)))
    else
      None
  }

  /**
   Collecting warnings about a valid payload calls `int()` on its version number,
   which raises on a text with a point although the validator takes "7.0".
   */
  predicate WarningRaises(path: Path, f: Fields) {
    Validate(path, f).Some? && f.versionNum.Some? && f.versionNum.value.JStr? && HasPoint(f.versionNum.value.s)
  }

  // ------------------------------------------------------------ snapshot rows

  function OrNull<T>(o: Option<T>): Field<T> {
    match o
    case None => Null
    case Some(v) => Given(v)
  }

  function PropsOf(s: Snapshot): Props {
    if s.properties.Some? then s.properties.value else map[]
  }

  /** `props.setdefault("version_num", n)` on the snapshot's properties. */
  function RowProps(s: Snapshot): Props {
    var props := PropsOf(s);
    if s.versionNum.Some? && VERSION_NUM !in props then props[VERSION_NUM := JNum(s.versionNum.value as real)]
    else props
  }

  function ToRow(s: Snapshot, snapshotVersion: nat): Row {
    Row(s.objectId, s.versionId, s.contentHash, s.hnfType, s.domain, s.refs, snapshotVersion, RowProps(s))
  }

  /** The value a row stands for in a diff or merge: every key present, nulls included. */
  function DiffValue(r: Row): Fields {
    var rest := r.properties - {VERSION_NUM};
    Fields(
      OrNull(r.objectId), OrNull(r.versionId),
      Some(if VERSION_NUM in r.properties then r.properties[VERSION_NUM] else JNull),
      OrNull(r.contentHash), Given(r.hnfType), Absent, OrNull(r.domain), Given(r.refs),
      if rest == map[] then Null else Given(rest),
      Given(r.snapshotVersion), map[])
  }

  /** `val.get(key)`: a missing key reads as null. */
  function Get<T>(f: Field<T>): Field<T> {
    if f.Absent? then Null else f
  }

  function VersionNumOrNull(f: Fields): Json {
    if f.versionNum.Some? then f.versionNum.value else JNull
  }

  function RefsOrEmpty(f: Field<seq<string>>): Field<seq<string>> {
    match f
    case Absent => Given([])
    case Null => Given([])
    case Other(j) => if j.Truthy() then f else Given([])
    case _ => f
  }

  /** The snapshot payload a merge builds from a value of the merged tree. */
  function Payload(f: Fields): Fields {
    Fields(Get(f.objectId), Get(f.versionId), Some(VersionNumOrNull(f)), Get(f.contentHash),
           if f.hnfType.Absent? then Given(DEFAULT_TYPE) else f.hnfType,
           Absent, Get(f.domain), RefsOrEmpty(f.refs), Get(f.properties), Absent, map[])
  }

  predicate NullOrGiven<T>(f: Field<T>) {
    f.Null? || f.Given?
  }

  /** The value has the keys that a first-version row decodes to. */
  predicate FromRow(f: Fields) {
    && NullOrGiven(f.objectId) && NullOrGiven(f.versionId) && f.versionNum.Some?
    && NullOrGiven(f.contentHash) && f.hnfType.Given? && f.kind.Absent? && NullOrGiven(f.domain) && f.refs.Given?
    && (f.properties.Null?
        || (f.properties.Given? && f.properties.value != map[] && VERSION_NUM !in f.properties.value))
    && f.snapshotVersion == Given(1) && f.others == map[]
  }

  function IfKnown<T>(f: Field<T>): Option<T> {
    if f.Given? then Some(f.value) else None
  }

  /** The keys tell exactly the values that first-version rows decode to. */
  lemma FromRowIff(f: Fields)
    ensures FromRow(f) <==> exists r: Row :: r.snapshotVersion == 1 && DiffValue(r) == f
  {
    if FromRow(f) {
      var rest := if f.properties.Given? then f.properties.value else map[];
      var props := rest[VERSION_NUM := f.versionNum.value];
      assert props - {VERSION_NUM} == rest;
      var r := Row(IfKnown(f.objectId), IfKnown(f.versionId), IfKnown(f.contentHash), f.hnfType.value,
                   IfKnown(f.domain), f.refs.value, 1, props);
      assert DiffValue(r) == f;
    }
  }

  /** The value with its version number as the validator stores it. */
  function Coerced(f: Fields): Fields {
    var n := VersionNumOf(f.versionNum);
    f.(versionNum := Some(if n.Some? then JNum(n.value as real) else JNull))
  }

  /**
   Building a payload from a row's value and storing it again. A version number
   that is no whole number, no integer text and not null, which can only come
   from free-form properties, fails validation, and then no row is written. Any
   other value survives, an integer text as the number it stands for; so it is
   unchanged exactly when its version number is null or a whole number.
   */
  lemma PayloadRoundTrip(path: Path, f: Fields)
    requires FromRow(f)
    ensures Validate(path, Payload(f)).Some? <==> !BadVersionNum(f.versionNum)
    ensures Validate(path, Payload(f)).Some? ==>
              Validate(path, Payload(f)).value.path == path
              && DiffValue(ToRow(Validate(path, Payload(f)).value, 1)) == Coerced(f)
    ensures !BadVersionNum(f.versionNum) ==> (Coerced(f) == f <==> Plain(f.versionNum))
  {
    if !BadVersionNum(f.versionNum) {
      var s := Validate(path, Payload(f)).value;
      var rest := if f.properties.Given? then f.properties.value else map[];
      assert PropsOf(s) == rest;
      assert RowProps(s) - {VERSION_NUM} == rest;
    }
  }

  /** What a payload of any value leaves in the table, if anything. */
  function StoredValue(path: Path, f: Fields): Option<Fields> {
    var s := Validate(path, Payload(f));
    if s.Some? then Some(DiffValue(ToRow(s.value, 1))) else None
  }

  /** Storing leaves a value unchanged exactly when it is a row's value with a plain version number. */
  lemma StoredUnchangedIff(path: Path, f: Fields)
    ensures StoredValue(path, f) == Some(f) <==> FromRow(f) && Plain(f.versionNum)
    ensures StoredValue(path, f).Some? ==> FromRow(StoredValue(path, f).value)
  {
    if FromRow(f) {
      PayloadRoundTrip(path, f);
    }
    var s := Validate(path, Payload(f));
    if s.Some? {
      var r := ToRow(s.value, 1);
      assert FromRow(DiffValue(r));
    }
  }

  // ------------------------------------------------------------ JSON entries

  function IfNonempty<T(==)>(o: Option<seq<T>>): Field<seq<T>> {
    if o.Some? && o.value != [] then Given(o.value) else Absent
  }

  function IfGiven<T>(o: Option<T>): Field<T> {
    if o.Some? then Given(o.value) else Absent
  }

  /** The JSON entry of a snapshot: empty fields are left out. */
  function LegacyTreeValue(s: Snapshot): Fields {
    Fields(
      IfGiven(s.objectId), IfGiven(s.versionId),
      if s.versionNum.Some? then Some(JNum(s.versionNum.value as real)) else None, IfNonempty(s.contentHash),
      Given(s.hnfType), Absent, IfNonempty(s.domain), IfNonempty(Some(s.refs)),
      if s.properties.Some? && s.properties.value != map[] then Given(s.properties.value) else Absent,
      Absent, map[])
  }

  /** An identifier key: falsy values read as none, any other non-identifier raises. */
  function Identifier(f: Field<Uuid>): Result<Option<Uuid>, ()> {
    match f
    case Given(u) => Ok(Some(u))
    case Castable(u) => Ok(Some(u))
    case Other(j) => if j.Truthy() then Err(()) else Ok(None)
    case _ => Ok(None)
  }

  predicate HasText(f: Field<string>) {
    (f.Given? || f.Castable?) && f.value != ""
  }

  /** `str(value.get("hnf_type") or value.get("kind") or "hardware.object")`. */
  function EntryType(f: Fields): string {
    if HasText(f.hnfType) then f.hnfType.value
    else if HasText(f.kind) then f.kind.value
    else DEFAULT_TYPE
  }

  /** `list(value.get("refs") or [])`; `None` when it raises or the items are not strings. */
  function EntryRefs(f: Field<seq<string>>): Option<seq<string>> {
    match f
    case Given(v) => Some(v)
    case Castable(v) => Some(v)
    case Other(j) => if j.Truthy() then None else Some([])
    case _ => Some([])
  }

  /** The snapshot a JSON entry describes; `None` when reading it raises. */
  function DecodeEntry(path: Path, f: Fields): Option<Snapshot> {
    var objectId := Identifier(f.objectId);
    var versionId := Identifier(f.versionId);
    var contentHash := Optional(f.contentHash);
    var domain := Optional(f.domain);
    var refs := EntryRefs(f.refs);
    if objectId.Ok? && versionId.Ok? && !BadVersionNum(f.versionNum) && contentHash.Ok? && domain.Ok?
       && refs.Some? && ValidProps(f.properties)
    then
      Some(Snapshot(path, objectId.value, versionId.value, VersionNumOf(f.versionNum), contentHash.value, EntryType(f),
                    domain.value, refs.value, OptionalProps(f.properties)))
    else
      None
  }

  function DropEmpty<T(==)>(o: Option<seq<T>>): Option<seq<T>> {
    if o.Some? && o.value == [] then None else o
  }

  /** The snapshot with its empty fields counted as absent. */
  function Normal(s: Snapshot): Snapshot {
    s.(contentHash := DropEmpty(s.contentHash), domain := DropEmpty(s.domain),
       properties := if s.properties == Some(map[]) then None else s.properties)
  }

  /** Reading a JSON entry and writing it again is idempotent. */
  lemma DecodeEncodeIdempotent(path: Path, f: Fields)
    requires DecodeEntry(path, f).Some?
    ensures var g := LegacyTreeValue(DecodeEntry(path, f).value);
            && DecodeEntry(path, g) == Some(Normal(DecodeEntry(path, f).value))
            && LegacyTreeValue(DecodeEntry(path, g).value) == g
  {
  }

  /** What a snapshot row stands for, read back as a snapshot with empty fields absent. */
  function RowObject(path: Path, r: Row): Option<Snapshot> {
    var s := Validate(path, Payload(DiffValue(r)));
    if s.Some? then Some(Normal(s.value)) else None
  }

  /** What a JSON entry stands for, with empty fields absent. */
  function EntryObject(path: Path, f: Fields): Option<Snapshot> {
    var s := DecodeEntry(path, f);
    if s.Some? then Some(Normal(s.value)) else None
  }

  lemma EntryDescribes(s: Snapshot)
    ensures EntryObject(s.path, LegacyTreeValue(s)) ==
            Some(Normal(s).(hnfType := if s.hnfType == "" then DEFAULT_TYPE else s.hnfType))
  {
  }

  lemma RowDescribes(s: Snapshot, snapshotVersion: nat)
    requires VERSION_NUM !in PropsOf(s)
    ensures RowObject(s.path, ToRow(s, snapshotVersion)) == Some(Normal(s))
  {
    assert RowProps(s) - {VERSION_NUM} == PropsOf(s);
  }

  lemma RowHidesVersionNum(path: Path, r: Row)
    requires RowObject(path, r).Some?
    ensures VERSION_NUM !in PropsOf(RowObject(path, r).value)
  {
  }

  /**
   A snapshot's row and its JSON entry describe the same object exactly when the
   type is non-empty and the free-form properties do not use the key under which
   the row stores the version number.
   */
  lemma RowAndEntryAgree(s: Snapshot, snapshotVersion: nat)
    ensures RowObject(s.path, ToRow(s, snapshotVersion)) == EntryObject(s.path, LegacyTreeValue(s))
       <==> s.hnfType != "" && VERSION_NUM !in PropsOf(s)
  {
    EntryDescribes(s);
    if VERSION_NUM in PropsOf(s) {
      if RowObject(s.path, ToRow(s, snapshotVersion)).Some? {
        RowHidesVersionNum(s.path, ToRow(s, snapshotVersion));
      }
      assert PropsOf(Normal(s)) == PropsOf(s);
    } else {
      RowDescribes(s, snapshotVersion);
    }
  }

  // ------------------------------------------------------------- whole trees

  /** The keys of a JSON tree that never describe an object. */
  predicate Reserved(path: Path) {
    path == SCENE_KEY || path == ROOT_KEY
  }

  /** Where reading a JSON tree looks for objects. */
  ghost predicate IsObjectAt(tree: JsonTree, path: Path) {
    path in tree && !Reserved(path) && tree[path].Object?
  }

  ghost predicate TreeReadable(tree: JsonTree) {
    forall p | IsObjectAt(tree, p) :: DecodeEntry(p, tree[p].fields).Some?
  }

  /** The state a commit stands for: its rows when it has any, else its JSON tree. */
  ghost function StateMap(rows: map<Path, Row>, tree: JsonTree): Option<map<Path, Fields>> {
    if rows != map[] then
      Some(map p | p in rows :: DiffValue(rows[p]))
    else if TreeReadable(tree) then
      Some(map p | p in tree && IsObjectAt(tree, p) :: LegacyTreeValue(DecodeEntry(p, tree[p].fields).value))
    else
      None
  }

  /** Recording a scene snapshot in a commit's tree leaves the commit's state alone. */
  lemma SceneKeyKeepsState(rows: map<Path, Row>, tree: JsonTree, entry: TreeEntry)
    ensures StateMap(rows, tree[SCENE_KEY := entry]) == StateMap(rows, tree)
  {
    var tree' := tree[SCENE_KEY := entry];
    assert forall p :: IsObjectAt(tree', p) <==> IsObjectAt(tree, p);
    if rows == map[] && TreeReadable(tree) {
      assert StateMap(rows, tree').value == StateMap(rows, tree).value;
    }
  }
}
