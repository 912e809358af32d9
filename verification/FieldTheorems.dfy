/** What each conversion makes of each key of an object, spelled out key by key. */
module FieldTheorems {
  import opened Wrappers
  import opened NumberText
  import opened Hnf
  import opened CommitContents

  /** A key whose value is missing, null or of the expected type. */
  predicate Usual<T>(f: Field<T>) {
    f.Absent? || f.Null? || f.Given?
  }

  /** The value of such a key, if it has one. */
  ghost predicate Carries<T>(f: Field<T>, o: Option<T>) {
    if f.Given? then o == Some(f.value) else o == None
  }

  /** The integer that a version number stands for: none, a whole number, or what an integer text says. */
  ghost predicate CarriesNumber(v: Option<Json>, o: Option<int>) {
    match v
    case None => o == None
    case Some(JNull) => o == None
    case Some(JNum(x)) => o.Some? && o.value as real == x
    case Some(JStr(t)) => IsIntegerText(t) && o == Some(IntegerValue(t))
    case _ => false
  }

  /** Which payloads the validator accepts, and what it makes of them. */
  lemma ValidIff(path: Path, f: Fields)
    ensures Validate(path, f).Some? <==>
              && Usual(f.objectId) && Usual(f.versionId) && Usual(f.contentHash) && Usual(f.domain)
              && Usual(f.properties)
              && f.hnfType.Given? && (f.refs.Absent? || f.refs.Given?)
              && exists o :: CarriesNumber(f.versionNum, o)
    ensures Validate(path, f).Some? ==>
              var s := Validate(path, f).value;
              && s.path == path && s.hnfType == f.hnfType.value && CarriesNumber(f.versionNum, s.versionNum)
              && Carries(f.objectId, s.objectId) && Carries(f.versionId, s.versionId)
              && Carries(f.contentHash, s.contentHash) && Carries(f.domain, s.domain)
              && Carries(f.properties, s.properties) && s.refs == if f.refs.Given? then f.refs.value else []
  {
    if f.versionNum.Some? && f.versionNum.value.JNum? {
      var x := f.versionNum.value.n;
      if o: Option<int> :| CarriesNumber(f.versionNum, o) {
        assert x.Floor == o.value;
      }
    }
    assert !BadVersionNum(f.versionNum) ==> CarriesNumber(f.versionNum, VersionNumOf(f.versionNum));
  }

  /** When storing a valid payload raises: its version number is a text with a point. */
  lemma RaisesExactlyOnPoint(path: Path, f: Fields)
    ensures WarningRaises(path, f) <==>
              Validate(path, f).Some? && f.versionNum.Some? && f.versionNum.value.JStr? && '.' in f.versionNum.value.s
  {
  }

  /** A listed snapshot is warned about when it is invalid, its path or type is empty, or its version number below 1. */
  lemma WarnedIff(raw: RawSnapshot)
    ensures Warned(raw) <==>
              || !raw.path.Given? || Validate(raw.path.value, raw.fields).None?
              || raw.path.value == "" || raw.fields.hnfType == Given("")
              || exists n :: n < 1 && CarriesNumber(raw.fields.versionNum, Some(n))
  {
    if raw.path.Given? {
      ValidIff(raw.path.value, raw.fields);
    }
  }

  /** A value or null. */
  function Nullable<T>(o: Option<T>): Field<T> {
    if o.Some? then Given(o.value) else Null
  }

  /** A value or no key. */
  function Optionally<T>(o: Option<T>): Field<T> {
    if o.Some? then Given(o.value) else Absent
  }

  /**
   The row of a snapshot decodes to its own values, null where it has none; the
   version number is that of the properties if they hold one, else its own, and
   is not among the properties any more.
   */
  lemma RowDecodesTo(s: Snapshot, n: nat)
    ensures var f := DiffValue(ToRow(s, n));
            var props := if s.properties.Some? then s.properties.value else map[];
            && f.objectId == Nullable(s.objectId) && f.versionId == Nullable(s.versionId)
            && f.contentHash == Nullable(s.contentHash) && f.domain == Nullable(s.domain)
            && f.hnfType == Given(s.hnfType) && f.kind == Absent && f.refs == Given(s.refs)
            && f.snapshotVersion == Given(n) && f.others == map[]
            && f.versionNum == Some(if "version_num" in props then props["version_num"]
                                    else if s.versionNum.Some? then JNum(s.versionNum.value as real) else JNull)
            && f.properties == if props.Keys <= {"version_num"} then Null else Given(props - {"version_num"})
  {
    var props := PropsOf(s);
    assert RowProps(s) - {VERSION_NUM} == props - {VERSION_NUM};
    var rest := props - {VERSION_NUM};
    assert rest.Keys == props.Keys - {VERSION_NUM};
    if props.Keys <= {VERSION_NUM} {
      assert rest.Keys == {};
      assert rest == map[];
    } else {
      var k :| k in props.Keys && k != VERSION_NUM;
      assert k in rest;
    }
  }

  /** A row of a snapshot holds its columns as they are. */
  lemma RowHolds(s: Snapshot, n: nat)
    ensures var r := ToRow(s, n);
            && r.objectId == s.objectId && r.versionId == s.versionId && r.contentHash == s.contentHash
            && r.hnfType == s.hnfType && r.domain == s.domain && r.refs == s.refs && r.snapshotVersion == n
  {
  }

  /** The payload of a value: null for missing keys, the default type and no references when those are missing. */
  lemma PayloadOf(f: Fields)
    ensures var g := Payload(f);
            && g.objectId == (if f.objectId == Absent then Null else f.objectId)
            && g.versionId == (if f.versionId == Absent then Null else f.versionId)
            && g.contentHash == (if f.contentHash == Absent then Null else f.contentHash)
            && g.domain == (if f.domain == Absent then Null else f.domain)
            && g.properties == (if f.properties == Absent then Null else f.properties)
            && g.versionNum == (if f.versionNum == None then Some(JNull) else f.versionNum)
            && g.hnfType == (if f.hnfType == Absent then Given("hardware.object") else f.hnfType)
            && (f.refs == Absent || f.refs == Null || (f.refs.Other? && !f.refs.json.Truthy()) ==> g.refs == Given([]))
            && (f.refs.Given? || f.refs.Castable? || (f.refs.Other? && f.refs.json.Truthy()) ==> g.refs == f.refs)
            && g.kind == Absent && g.snapshotVersion == Absent && g.others == map[]
  {
  }

  /** The JSON entry of a snapshot: the type always, everything else unless it is missing or empty. */
  lemma EntryOf(s: Snapshot)
    ensures var f := LegacyTreeValue(s);
            && f.objectId == Optionally(s.objectId) && f.versionId == Optionally(s.versionId)
            && f.versionNum == (if s.versionNum.Some? then Some(JNum(s.versionNum.value as real)) else None)
            && f.contentHash == (if s.contentHash == Some("") then Absent else Optionally(s.contentHash))
            && f.hnfType == Given(s.hnfType) && f.kind == Absent
            && f.domain == (if s.domain == Some("") then Absent else Optionally(s.domain))
            && f.refs == (if s.refs == [] then Absent else Given(s.refs))
            && f.properties == (if s.properties == Some(map[]) then Absent else Optionally(s.properties))
            && f.snapshotVersion == Absent && f.others == map[]
  {
  }

  /** What Python takes for false: such a value reads as if the key were missing. */
  predicate Falsy<T>(f: Field<T>) {
    f.Absent? || f.Null? || (f.Other? && f.json in {JNull, JNum(0.0), JStr(""), JArr([]), JObj(map[])})
  }

  /** The value of a key after `str()` or `list()`. */
  predicate HasValue<T>(f: Field<T>) {
    f.Given? || f.Castable?
  }

  /**
   Which JSON entries can be read, and what is read: `hnf_type` wins over `kind`,
   and both over the default.
   */
  lemma EntryReads(path: Path, f: Fields)
    ensures DecodeEntry(path, f).Some? <==>
              && (HasValue(f.objectId) || Falsy(f.objectId)) && (HasValue(f.versionId) || Falsy(f.versionId))
              && Usual(f.contentHash) && Usual(f.domain) && Usual(f.properties)
              && (HasValue(f.refs) || Falsy(f.refs)) && exists o :: CarriesNumber(f.versionNum, o)
    ensures DecodeEntry(path, f).Some? ==>
              var s := DecodeEntry(path, f).value;
              && s.path == path
              && s.hnfType == (if HasValue(f.hnfType) && f.hnfType.value != "" then f.hnfType.value
                               else if HasValue(f.kind) && f.kind.value != "" then f.kind.value
                               else "hardware.object")
              && s.objectId == (if HasValue(f.objectId) then Some(f.objectId.value) else None)
              && s.versionId == (if HasValue(f.versionId) then Some(f.versionId.value) else None)
              && s.refs == (if HasValue(f.refs) then f.refs.value else [])
              && CarriesNumber(f.versionNum, s.versionNum) && Carries(f.contentHash, s.contentHash)
              && Carries(f.domain, s.domain) && Carries(f.properties, s.properties)
  {
    if f.versionNum.Some? && f.versionNum.value.JNum? {
      if o: Option<int> :| CarriesNumber(f.versionNum, o) {
        assert f.versionNum.value.n.Floor == o.value;
      }
    }
    assert !BadVersionNum(f.versionNum) ==> CarriesNumber(f.versionNum, VersionNumOf(f.versionNum));
  }

  /** The payload that stores a snapshot read from a tree has all its values. */
  lemma DumpOf(s: Snapshot)
    ensures Dump(s).path == Given(s.path) && ValidateRaw(Dump(s)) == Some(s)
  {
    DumpValidates(s);
  }
}
