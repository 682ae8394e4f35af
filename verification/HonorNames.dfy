/** Renaming the charm honors inside stored snapshots. */
module HonorNames {
  import opened Wrappers

  datatype Json =
    | Null
    | Bool(value: bool)
    | Number(number: int)
    | Str(text: string)
    | List(items: seq<Json>)
    | Obj(fields: map<string, Json>)

  type Snapshot = map<string, Json>
  type Names = map<string, string>

  const NEW_NAMES: Names := map["charm_m" := "公司最靓的仔", "charm_f" := "公司最正的妞"]
  const OLD_NAMES: Names := map["charm_m" := "最有魅力帅哥", "charm_f" := "最有魅力美女"]

  /** The honor an entry is about, if it names one of these. */
  function HonorOf(item: Json, names: Names): Option<string> {
    if item.Obj? && "key" in item.fields && item.fields["key"].Str? && item.fields["key"].text in names
    then Some(item.fields["key"].text)
    else None
  }

  /** A key that is a list or an object cannot be looked up: the migration raises. */
  predicate Unhashable(item: Json) {
    item.Obj? && "key" in item.fields && (item.fields["key"].List? || item.fields["key"].Obj?)
  }

  function RenamedItem(item: Json, names: Names): Json {
    match HonorOf(item, names)
    case None => item
    case Some(key) => Obj(item.fields["name" := Str(names[key])])
  }

  function RenamedItems(items: seq<Json>, names: Names): seq<Json> {
    seq(|items|, i requires 0 <= i < |items| => RenamedItem(items[i], names))
  }

  function RenamedList(j: Json, names: Names): Json {
    if j.List? then List(RenamedItems(j.items, names)) else j
  }

  predicate Readable(j: Json) {
    j.List? ==> forall i :: 0 <= i < |j.items| ==> !Unhashable(j.items[i])
  }

  function RenamedField(s: Snapshot, field: string, names: Names): Snapshot {
    if field in s then s[field := RenamedList(s[field], names)] else s
  }

  function RenamedSnapshot(s: Snapshot, names: Names): Snapshot {
    var t := RenamedField(RenamedField(s, "rules", names), "entries", names);
    if "configuration" in t && t["configuration"].Obj?
    then t["configuration" := Obj(RenamedField(t["configuration"].fields, "rules", names))]
    else t
  }

  predicate ReadableField(s: Snapshot, field: string) {
    field in s ==> Readable(s[field])
  }

  predicate ReadableSnapshot(s: Snapshot) {
    && ReadableField(s, "rules") && ReadableField(s, "entries")
    && ("configuration" in s && s["configuration"].Obj? ==> ReadableField(s["configuration"].fields, "rules"))
  }

  /** Only an entry about one of these honors changes, and of it only the name. */
  predicate NameOnly(item: Json, item': Json, names: Names) {
    if item.Obj? && "key" in item.fields && item.fields["key"].Str? && item.fields["key"].text in names then
      item'.Obj? && item'.fields == item.fields["name" := Str(names[item.fields["key"].text])]
    else item' == item
  }

  predicate NamesOnly(j: Json, j': Json, names: Names) {
    if j.List? then
      j'.List? && |j'.items| == |j.items| && forall i :: 0 <= i < |j.items| ==> NameOnly(j.items[i], j'.items[i], names)
    else j' == j
  }

  /** Names change in the rules, the entries and the configuration's rules, and nothing else does. */
  predicate OnlyNames(s: Snapshot, s': Snapshot, names: Names) {
    && s'.Keys == s.Keys
    && (forall f :: f in s && f !in {"rules", "entries", "configuration"} ==> s'[f] == s[f])
    && ("rules" in s ==> NamesOnly(s["rules"], s'["rules"], names))
    && ("entries" in s ==> NamesOnly(s["entries"], s'["entries"], names))
    && ("configuration" in s && !s["configuration"].Obj? ==> s'["configuration"] == s["configuration"])
    && ("configuration" in s && s["configuration"].Obj? ==>
         s'["configuration"].Obj? && RulesOnly(s["configuration"].fields, s'["configuration"].fields, names))
  }

  predicate RulesOnly(c: Snapshot, c': Snapshot, names: Names) {
    && c'.Keys == c.Keys && (forall f :: f in c && f != "rules" ==> c'[f] == c[f])
    && ("rules" in c ==> NamesOnly(c["rules"], c'["rules"], names))
  }

  lemma ListNamesChange(j: Json, names: Names)
    ensures NamesOnly(j, RenamedList(j, names), names)
  {
  }

  lemma FieldNamesChange(s: Snapshot, field: string, names: Names)
    ensures var s' := RenamedField(s, field, names);
      && s'.Keys == s.Keys && (forall f :: f in s && f != field ==> s'[f] == s[f])
      && (field in s ==> NamesOnly(s[field], s'[field], names))
  {
    if field in s {
      ListNamesChange(s[field], names);
    }
  }

  lemma OnlyNamesChange(s: Snapshot, names: Names)
    ensures OnlyNames(s, RenamedSnapshot(s, names), names)
  {
    var r := RenamedField(s, "rules", names);
    var t := RenamedField(r, "entries", names);
    FieldNamesChange(s, "rules", names);
    FieldNamesChange(r, "entries", names);
    if "configuration" in s && s["configuration"].Obj? {
      FieldNamesChange(s["configuration"].fields, "rules", names);
      assert t["configuration"] == s["configuration"];
    }
  }

  /** The entry names its honor by a list or an object. */
  predicate KeyedByContainer(item: Json) {
    && item.Obj? && "key" in item.fields
    && item.fields["key"] != Null && !item.fields["key"].Bool? && !item.fields["key"].Number?
    && !item.fields["key"].Str?
  }

  /** All entries that a renaming looks at. */
  function Entries(s: Snapshot): seq<Json> {
    EntriesOf(s, "rules") + EntriesOf(s, "entries")
    + if "configuration" in s && s["configuration"].Obj? then EntriesOf(s["configuration"].fields, "rules") else []
  }

  function EntriesOf(s: Snapshot, field: string): seq<Json> {
    if field in s && s[field].List? then s[field].items else []
  }

  /** Some entry of the snapshot names its honor by a list or an object. */
  ghost predicate Stuck(s: Snapshot) {
    exists item :: item in Entries(s) && KeyedByContainer(item)
  }

  lemma ReadableFieldIff(s: Snapshot, field: string)
    ensures ReadableField(s, field) <==> forall item :: item in EntriesOf(s, field) ==> !KeyedByContainer(item)
  {
    if field in s && s[field].List? {
      var items := s[field].items;
      assert forall i :: 0 <= i < |items| ==> (Unhashable(items[i]) <==> KeyedByContainer(items[i]));
    }
  }

  lemma ReadableIff(s: Snapshot)
    ensures ReadableSnapshot(s) <==> !Stuck(s)
  {
    ReadableFieldIff(s, "rules");
    ReadableFieldIff(s, "entries");
    if "configuration" in s && s["configuration"].Obj? {
      ReadableFieldIff(s["configuration"].fields, "rules");
    }
  }

  // ---------- The loops ----------

  method RenameItems(items: seq<Json>, names: Names) returns (renamed: Option<seq<Json>>)
    ensures renamed == if Readable(List(items)) then Some(RenamedItems(items, names)) else None
  {
    var result := items;
    for n := 0 to |items|
      invariant |result| == |items|
      invariant forall i :: 0 <= i < n ==> !Unhashable(items[i]) && result[i] == RenamedItem(items[i], names)
      invariant forall i :: n <= i < |items| ==> result[i] == items[i]
    {
      var item := result[n];
      if item.Obj? && "key" in item.fields {
        var key := item.fields["key"];
        if key.List? || key.Obj? {
          assert Unhashable(List(items).items[n]);
          return None;
        }
        if key.Str? && key.text in names {
          result := result[n := Obj(item.fields["name" := Str(names[key.text])])];
        }
      }
    }
    assert result == RenamedItems(items, names);
    return Some(result);
  }

  method RenameField(s: Snapshot, field: string, names: Names) returns (renamed: Option<Snapshot>)
    ensures renamed == if ReadableField(s, field) then Some(RenamedField(s, field, names)) else None
  {
    if field !in s || !s[field].List? {
      assert field in s ==> s[field := s[field]] == s;
      return Some(s);
    }
    var items := RenameItems(s[field].items, names);
    match items {
      case None =>
        assert s[field] == List(s[field].items);
        return None;
      case Some(list) =>
        assert s[field] == List(s[field].items);
        return Some(s[field := List(list)]);
    }
  }

  /** Renames in the rules, the entries and the configuration's rules of a copy; None if it raises. */
  method RenameSnapshot(s: Snapshot, names: Names) returns (renamed: Option<Snapshot>)
    ensures renamed == if ReadableSnapshot(s) then Some(RenamedSnapshot(s, names)) else None
    ensures renamed.Some? ==> OnlyNames(s, renamed.value, names)
  {
    OnlyNamesChange(s, names);
    var rules := RenameField(s, "rules", names);
    if rules.None? {
      return None;
    }
    var entries := RenameField(rules.value, "entries", names);
    if entries.None? {
      return None;
    }
    var t := entries.value;
    if "configuration" in t && t["configuration"].Obj? {
      var inner := RenameField(t["configuration"].fields, "rules", names);
      if inner.None? {
        return None;
      }
      t := t["configuration" := Obj(inner.value)];
    }
    return Some(t);
  }

  // ---------- What renaming means ----------

  /** The entry carries the name the table gives its honor. */
  predicate NamedItem(item: Json, names: Names) {
    var honor := HonorOf(item, names);
    honor.None? || ("name" in item.fields && item.fields["name"] == Str(names[honor.value]))
  }

  predicate NamedList(j: Json, names: Names) {
    j.List? ==> forall i :: 0 <= i < |j.items| ==> NamedItem(j.items[i], names)
  }

  predicate NamedField(s: Snapshot, field: string, names: Names) {
    field in s ==> NamedList(s[field], names)
  }

  predicate NamedSnapshot(s: Snapshot, names: Names) {
    && NamedField(s, "rules", names) && NamedField(s, "entries", names)
    && ("configuration" in s && s["configuration"].Obj? ==> NamedField(s["configuration"].fields, "rules", names))
  }

  lemma ItemRenamedTwice(item: Json, first: Names, second: Names)
    requires first.Keys == second.Keys
    ensures RenamedItem(RenamedItem(item, first), second) == RenamedItem(item, second)
  {
    match HonorOf(item, first)
    case None =>
    case Some(key) =>
      var once := item.fields["name" := Str(first[key])];
      assert once["key"] == item.fields["key"];
      assert once["name" := Str(second[key])] == item.fields["name" := Str(second[key])];
  }

  lemma ListRenamedTwice(j: Json, first: Names, second: Names)
    requires first.Keys == second.Keys
    ensures RenamedList(RenamedList(j, first), second) == RenamedList(j, second)
  {
    if j.List? {
      forall i | 0 <= i < |j.items|
        ensures RenamedItem(RenamedItem(j.items[i], first), second) == RenamedItem(j.items[i], second)
      {
        ItemRenamedTwice(j.items[i], first, second);
      }
      assert RenamedItems(RenamedItems(j.items, first), second) == RenamedItems(j.items, second);
    }
  }

  lemma FieldRenamedTwice(s: Snapshot, field: string, first: Names, second: Names)
    requires first.Keys == second.Keys
    ensures RenamedField(RenamedField(s, field, first), field, second) == RenamedField(s, field, second)
  {
    if field in s {
      ListRenamedTwice(s[field], first, second);
    }
  }

  lemma FieldsCommute(s: Snapshot, f: string, g: string, first: Names, second: Names)
    requires f != g
    ensures RenamedField(RenamedField(s, f, first), g, second) == RenamedField(RenamedField(s, g, second), f, first)
  {
  }

  /** Of two renamings the later wins, so a renaming is idempotent and the two releases undo each other's. */
  lemma {:induction false} LastRenameWins(s: Snapshot, first: Names, second: Names)
    requires first.Keys == second.Keys
    ensures RenamedSnapshot(RenamedSnapshot(s, first), second) == RenamedSnapshot(s, second)
  {
    var t := RenamedField(RenamedField(s, "rules", first), "entries", first);
    var u := RenamedField(RenamedField(s, "rules", second), "entries", second);
    var both := RenamedField(RenamedField(t, "rules", second), "entries", second);
    assert both == u by {
      FieldsCommute(RenamedField(s, "rules", first), "entries", "rules", first, second);
      FieldRenamedTwice(s, "rules", first, second);
      FieldRenamedTwice(RenamedField(s, "rules", second), "entries", first, second);
    }
    if "configuration" in s && s["configuration"].Obj? {
      var c := s["configuration"].fields;
      assert t["configuration"] == u["configuration"] == s["configuration"];
      FieldRenamedTwice(c, "rules", first, second);
      ConfigurationLast(t, Obj(RenamedField(c, "rules", first)), second);
      assert both["configuration" := Obj(RenamedField(c, "rules", second))]
          == u["configuration" := Obj(RenamedField(c, "rules", second))];
    } else {
      assert "configuration" in t ==> t["configuration"] == s["configuration"];
    }
  }

  /** Replacing the configuration first or after renaming the other fields is the same. */
  lemma ConfigurationLast(t: Snapshot, value: Json, names: Names)
    ensures RenamedField(RenamedField(t["configuration" := value], "rules", names), "entries", names)
         == RenamedField(RenamedField(t, "rules", names), "entries", names)["configuration" := value]
  {
  }

  lemma ItemUnchanged(item: Json, names: Names)
    ensures RenamedItem(item, names) == item <==> NamedItem(item, names)
  {
    var honor := HonorOf(item, names);
    if honor.Some? {
      var renamed := item.fields["name" := Str(names[honor.value])];
      assert renamed["name"] == Str(names[honor.value]);
      if NamedItem(item, names) {
        assert renamed == item.fields;
      }
    }
  }

  lemma FieldUnchanged(s: Snapshot, field: string, names: Names)
    ensures RenamedField(s, field, names) == s <==> NamedField(s, field, names)
  {
    if field in s && s[field].List? {
      var items := s[field].items;
      forall i | 0 <= i < |items| ensures RenamedItem(items[i], names) == items[i] <==> NamedItem(items[i], names) {
        ItemUnchanged(items[i], names);
      }
      if NamedField(s, field, names) {
        assert RenamedItems(items, names) == items;
        assert s[field := s[field]] == s;
      } else {
        var i :| 0 <= i < |items| && !NamedItem(items[i], names);
        assert RenamedItems(items, names)[i] != items[i];
        assert RenamedField(s, field, names)[field] != s[field];
      }
    } else if field in s {
      assert s[field := s[field]] == s;
    }
  }

  /** Renaming leaves a snapshot as it is exactly when every charm honor in it already has its name. */
  lemma {:induction false} SnapshotUnchanged(s: Snapshot, names: Names)
    ensures RenamedSnapshot(s, names) == s <==> NamedSnapshot(s, names)
  {
    var r := RenamedField(s, "rules", names);
    var t := RenamedField(r, "entries", names);
    var u := RenamedSnapshot(s, names);
    FieldUnchanged(s, "rules", names);
    FieldUnchanged(s, "entries", names);
    assert "rules" in s ==> u["rules"] == r["rules"];
    assert "entries" in s ==> u["entries"] == RenamedField(s, "entries", names)["entries"];
    if "configuration" in s && s["configuration"].Obj? {
      FieldUnchanged(s["configuration"].fields, "rules", names);
      assert t["configuration"] == s["configuration"];
      assert u["configuration"] == Obj(RenamedField(s["configuration"].fields, "rules", names));
    }
    if u == s {
      assert RenamedField(s, "rules", names) == s;
      assert RenamedField(s, "entries", names) == s;
    }
    if NamedSnapshot(s, names) && "configuration" in s && s["configuration"].Obj? {
      assert s["configuration" := s["configuration"]] == s;
    }
  }

  /** After a renaming every charm honor has its name. */
  lemma {:induction false} RenamedIsNamed(s: Snapshot, names: Names)
    ensures NamedSnapshot(RenamedSnapshot(s, names), names)
  {
    LastRenameWins(s, names, names);
    SnapshotUnchanged(RenamedSnapshot(s, names), names);
  }

  /** Going up and down again restores a snapshot exactly when it had the old names everywhere. */
  lemma {:induction false} DownUndoesUpIff(s: Snapshot)
    ensures RenamedSnapshot(RenamedSnapshot(s, NEW_NAMES), OLD_NAMES) == s <==> NamedSnapshot(s, OLD_NAMES)
  {
    LastRenameWins(s, NEW_NAMES, OLD_NAMES);
    SnapshotUnchanged(s, OLD_NAMES);
  }
}
