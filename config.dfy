/**
 * The environment list of tui.py (`load_config`, lines 24-39). Every value of the
 * `[environments]` section of config.ini is a comma-separated line
 * `env name, env type, git repo, jumphost[, kubectl context]`; the values with at
 * least four fields are grouped by environment name.
 */
module Config {
  import opened Text

  /** One entry of an environment: `(env_type, git_repo, jumphost, context)`. */
  datatype EnvType = EnvType(envType: string, gitRepo: string, jumphost: string, context: Option<string>)

  /** Line 34: the comma-separated fields of a value, each stripped of surrounding whitespace. */
  function Fields(value: string): (fs: seq<string>)
    ensures |fs| == |Split(value, ',')| == Count(value, ',') + 1
    ensures forall k :: 0 <= k < |fs| ==> fs[k] == Strip(Split(value, ',')[k])
  {
    var parts := Split(value, ',');
    SplitLength(value, ',');
    seq(|parts|, k requires 0 <= k < |parts| => Strip(parts[k]))
  }

  /** Lines 34-38: the environment name and entry a value stands for, or `None` when it has
      fewer than four fields. */
  function ParseValue(value: string): Option<(string, EnvType)> {
    FromFields(Fields(value))
  }

  /** Lines 35-37 on the stripped fields. */
  function FromFields(fs: seq<string>): Option<(string, EnvType)> {
    if |fs| >= 4 then
      var context := if |fs| >= 5 && fs[4] != "" then Some(fs[4]) else None;
      Some((fs[0], EnvType(fs[1], fs[2], fs[3], context)))
    else None
  }

  /** A value is dropped exactly when it has fewer than three commas; otherwise its first four
      fields, stripped, are the name, type, repository and jumphost, and the context is the
      stripped fifth field, or `None` when there is no fifth field or it is blank. */
  lemma ParseValueFields(value: string)
    ensures ParseValue(value).None? <==> Count(value, ',') < 3
    ensures ParseValue(value).Some? ==>
              var parts := Split(value, ',');
              var (name, t) := ParseValue(value).value;
              && name == Strip(parts[0]) && t.envType == Strip(parts[1])
              && t.gitRepo == Strip(parts[2]) && t.jumphost == Strip(parts[3])
              && (t.context.None? <==> |parts| < 5 || Strip(parts[4]) == "")
              && (t.context.Some? ==> t.context.value == Strip(parts[4]))
  {
    SplitLength(value, ',');
  }

  /** Fields after the fifth are ignored. */
  lemma ExtraFieldsIgnored(value: string, extra: string)
    requires Count(value, ',') >= 4
    ensures ParseValue(value + [','] + extra) == ParseValue(value)
  {
    var longer := value + [','] + extra;
    SplitAppend(value, ',', extra);
    var fs, gs := Fields(longer), Fields(value);
    assert |fs| >= |gs| >= 5;
    forall k | 0 <= k < 5 ensures fs[k] == gs[k] {
      assert Split(longer, ',')[k] == Split(value, ',')[k];
    }
  }

  /** A field that survives the round trip: no comma, and no whitespace at either end. */
  predicate Clean(f: string) {
    ',' !in f && (f == [] || (!IsSpace(f[0]) && !IsSpace(f[|f| - 1])))
  }

  /** The fields of the config.ini value that describes one entry. */
  function EntryFields(name: string, t: EnvType): seq<string> {
    [name, t.envType, t.gitRepo, t.jumphost] + (if t.context.Some? then [t.context.value] else [])
  }

  predicate CleanEntry(name: string, t: EnvType) {
    (forall k :: 0 <= k < |EntryFields(name, t)| ==> Clean(EntryFields(name, t)[k]))
    && (t.context.Some? ==> t.context.value != "")
  }

  function FormatValue(name: string, t: EnvType): string {
    Join(EntryFields(name, t), ',')
  }

  /** Writing an entry as a value and parsing it back gives the entry. */
  lemma {:induction false} FormatThenParse(name: string, t: EnvType)
    requires CleanEntry(name, t)
    ensures ParseValue(FormatValue(name, t)) == Some((name, t))
  {
    var fields := EntryFields(name, t);
    SplitJoin(fields, ',');
    FieldsOfClean(FormatValue(name, t), fields);
    assert FromFields(fields) == Some((name, t));
  }

  /** Stripping fields that are already clean changes nothing. */
  lemma FieldsOfClean(value: string, fields: seq<string>)
    requires Split(value, ',') == fields
    requires forall k :: 0 <= k < |fields| ==> Clean(fields[k])
    ensures Fields(value) == fields
  {
    var fs := Fields(value);
    forall k | 0 <= k < |fields| ensures fs[k] == fields[k] {
      StripUnchanged(fields[k]);
    }
  }

  /** The `environments` defaultdict: names in the order they were first seen, and the entries
      of each name. */
  datatype Environments = Environments(names: seq<string>, types: map<string, seq<EnvType>>)

  /** Line 38: `environments[name].append(t)`. */
  function Add(g: Environments, name: string, t: EnvType): Environments {
    if name in g.types then Environments(g.names, g.types[name := g.types[name] + [t]])
    else Environments(g.names + [name], g.types[name := [t]])
  }

  /** The entries the values stand for, in input order (values with too few fields dropped). */
  function Records(values: seq<string>): seq<(string, EnvType)>
    decreases |values|
  {
    if values == [] then []
    else
      var rest := Records(values[..|values| - 1]);
      match ParseValue(values[|values| - 1])
      case None => rest
      case Some(r) => rest + [r]
  }

  /** One value stands for its parsed entry, or for nothing when it has too few fields. */
  lemma RecordOfValue(v: string)
    ensures Records([v]) == if ParseValue(v).Some? then [ParseValue(v).value] else []
  {
  }

  /** A value appended at the end adds its own records after those of the values before it. */
  lemma RecordsSnoc(init: seq<string>, last: string)
    ensures Records(init + [last]) == Records(init) + Records([last])
  {
    assert (init + [last])[..|init|] == init;
    RecordOfValue(last);
  }

  lemma SnocSplit<T>(s: seq<T>)
    requires s != []
    ensures s == s[..|s| - 1] + [s[|s| - 1]]
  {
  }

  lemma AppendAssoc<T>(x: seq<T>, y: seq<T>, z: seq<T>)
    ensures x + y + z == x + (y + z)
  {
  }

  /** The records of two runs of values are those of the first run followed by those of the
      second: values are read in order and each is dropped or kept on its own. */
  lemma {:induction false} RecordsAppend(a: seq<string>, b: seq<string>)
    ensures Records(a + b) == Records(a) + Records(b)
    decreases |b|
  {
    if b == [] {
      assert a + b == a;
    } else {
      var b', last := b[..|b| - 1], b[|b| - 1];
      RecordsAppend(a, b');
      SnocSplit(b);
      AppendAssoc(a, b', [last]);
      RecordsSnoc(a + b', last);
      RecordsSnoc(b', last);
      var x, y, z := Records(a), Records(b'), Records([last]);
      AppendAssoc(x, y, z);
    }
  }

  /** The records added one after another. */
  function Group(records: seq<(string, EnvType)>): Environments
    decreases |records|
  {
    if records == [] then Environments([], map[])
    else
      var (name, t) := records[|records| - 1];
      Add(Group(records[..|records| - 1]), name, t)
  }

  /** Lines 33-39 over the values in the order configparser yields them. */
  function Grouped(values: seq<string>): Environments {
    Group(Records(values))
  }

  /** The entries recorded for `name`, in input order. */
  function EntriesFor(records: seq<(string, EnvType)>, name: string): (r: seq<EnvType>)
    ensures |r| <= |records|
    decreases |records|
  {
    if records == [] then []
    else
      var rest := EntriesFor(records[..|records| - 1], name);
      if records[|records| - 1].0 == name then rest + [records[|records| - 1].1] else rest
  }

  ghost predicate Consistent(g: Environments) {
    && (forall i, j :: 0 <= i < j < |g.names| ==> g.names[i] != g.names[j])
    && (forall n :: n in g.types <==> n in g.names)
  }

  /** Each name is listed once, exactly the names with entries are listed, and the entries of a
      name are those recorded for it, in input order. */
  lemma {:induction false} GroupEntries(records: seq<(string, EnvType)>)
    ensures Consistent(Group(records))
    ensures forall n :: n in Group(records).types <==> EntriesFor(records, n) != []
    ensures forall n :: n in Group(records).types ==> Group(records).types[n] == EntriesFor(records, n)
    decreases |records|
  {
    if records != [] {
      GroupEntries(records[..|records| - 1]);
    }
  }

  /** More records never reorder or remove a name: the names keep the order in which they were
      first seen. */
  lemma {:induction false} NamesGrow(a: seq<(string, EnvType)>, b: seq<(string, EnvType)>)
    ensures Group(a).names <= Group(a + b).names
    decreases |b|
  {
    if b == [] {
      assert a + b == a;
    } else {
      var b' := b[..|b| - 1];
      NamesGrow(a, b');
      assert (a + b)[..|a + b| - 1] == a + b';
      assert (a + b)[|a + b| - 1] == b[|b| - 1];
      assert Group(a + b) == Add(Group(a + b'), b[|b| - 1].0, b[|b| - 1].1);
    }
  }

  /** The loop of lines 33-38, filling the defaultdict value by value. */
  method LoadConfig(values: seq<string>) returns (env: Environments)
    ensures env == Grouped(values)
  {
    var names: seq<string> := [];
    var types: map<string, seq<EnvType>> := map[];
    var i := 0;
    while i < |values|
      invariant 0 <= i <= |values|
      invariant Environments(names, types) == Grouped(values[..i])
    {
      assert values[..i + 1][..i] == values[..i];
      var parts := Fields(values[i]);
      if |parts| >= 4 {
        var context := if |parts| >= 5 && parts[4] != "" then Some(parts[4]) else None;
        var t := EnvType(parts[1], parts[2], parts[3], context);
        var name := parts[0];
        if name in types {
          types := types[name := types[name] + [t]];
        } else {
          names := names + [name];
          types := types[name := [t]];
        }
      }
      i := i + 1;
    }
    assert values[..|values|] == values;
    env := Environments(names, types);
  }
}
