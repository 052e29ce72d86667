/** The bot's string tables: per-language command tables, helper texts and
    language texts, each read from a directory of `<code>.yml` files, and
    the lookups that fall back to a default language. A YAML file is given
    as the table it parses to; directory listing and file reading are
    inputs. */
module StringTables {
  import opened Text

  /** A value of a YAML string table. */
  datatype Value = Str(s: string) | List(items: seq<string>) | Other

  type Table = map<string, Value>

  /** `tables[lang]`, or `tables[default]` when `lang` has no table; None
      when the default is missing as well (a KeyError). */
  function Lookup(tables: map<string, Table>, lang: string, default: string): (r: Option<Table>)
    ensures lang in tables ==> r == Some(tables[lang])
    ensures lang !in tables ==> (r.Some? <==> default in tables)
    ensures lang !in tables && r.Some? ==> r.value == tables[default]
  {
    if lang in tables then Some(tables[lang])
    else if default in tables then Some(tables[default])
    else None
  }

  /** `get_command`: the command table of `lang`, English when absent. */
  function GetCommand(commands: map<string, Table>, lang: string): (r: Option<Table>)
    ensures lang in commands ==> r == Some(commands[lang])
    ensures "en" in commands ==> r.Some?
    ensures r.Some? ==> (lang in commands && r.value == commands[lang])
                        || (lang !in commands && "en" in commands && r.value == commands["en"])
    ensures lang !in commands && "en" !in commands ==> r.None?
  {
    Lookup(commands, lang, "en")
  }

  /** `get_string`: the language table of `lang`, English when absent. */
  function GetString(languages: map<string, Table>, lang: string): (r: Option<Table>)
    ensures lang in languages ==> r == Some(languages[lang])
    ensures "en" in languages ==> r.Some?
    ensures r.Some? ==> (lang in languages && r.value == languages[lang])
                        || (lang !in languages && "en" in languages && r.value == languages["en"])
    ensures lang !in languages && "en" !in languages ==> r.None?
  {
    Lookup(languages, lang, "en")
  }

  /** `get_helpers`: the helper table of `lang`, Hindi (not English) when
      absent. */
  function GetHelpers(helpers: map<string, Table>, lang: string): (r: Option<Table>)
    ensures lang in helpers ==> r == Some(helpers[lang])
    ensures "hi" in helpers ==> r.Some?
    ensures r.Some? ==> (lang in helpers && r.value == helpers[lang])
                        || (lang !in helpers && "hi" in helpers && r.value == helpers["hi"])
    ensures lang !in helpers && "hi" !in helpers ==> r.None?
  {
    Lookup(helpers, lang, "hi")
  }

  /** `t.get(key, default)`. */
  function GetOr(t: Table, key: string, default: Value): (r: Value)
    ensures key in t ==> r == t[key]
    ensures key !in t ==> r == default
  {
    if key in t then t[key] else default
  }

  /** The English command keys a table lacks. */
  function MissingKeys(english: set<string>, t: Table): (r: set<string>)
    ensures r <= english
    ensures r == {} <==> english <= t.Keys
  {
    var r := english - t.Keys;
    assert forall k :: k in english && k !in t ==> k in r;
    assert (forall k :: k !in r) ==> r == {};
    r
  }

  /** A language table completed from the English one: every English key is
      present, keys the table had keep their values, the others take the
      English value. */
  function Merged(t: Table, en: Table): (r: Table)
    ensures r.Keys == t.Keys + en.Keys
    ensures forall k :: k in t ==> r[k] == t[k]
    ensures forall k :: k in r && k !in t ==> r[k] == en[k]
  {
    map k | k in t.Keys + en.Keys :: if k in t then t[k] else en[k]
  }

  /** The loop that copies every English item the table lacks. */
  method MergeEnglish(t: Table, en: Table) returns (m: Table)
    ensures m == Merged(t, en)
  {
    m := t;
    var todo := en.Keys;
    while todo != {}
      invariant todo <= en.Keys
      invariant m.Keys == t.Keys + (en.Keys - todo)
      invariant forall k :: k in t ==> m[k] == t[k]
      invariant forall k :: k in m && k !in t ==> m[k] == en[k]
      decreases |todo|
    {
      var item :| item in todo;
      if item !in m {
        m := m[item := en[item]];
      }
      todo := todo - {item};
    }
    assert forall k :: k in m ==> m[k] == Merged(t, en)[k];
  }

  /** A directory of string tables: its entries in listing order, and the
      table each `.yml` entry parses to. */
  datatype Dir = Dir(names: seq<string>, files: map<string, Table>)

  predicate IsYaml(n: string) {
    EndsWith(n, ".yml")
  }

  /** The language code of a `.yml` file name: the name without `.yml`. */
  function Code(n: string): (c: string)
    requires IsYaml(n)
    ensures c + ".yml" == n
  {
    n[..|n| - 4]
  }

  /** Entry names are distinct and the parsed tables are exactly those of
      the `.yml` entries. */
  ghost predicate ValidDir(d: Dir) {
    && (forall i, j :: 0 <= i < j < |d.names| ==> d.names[i] != d.names[j])
    && (forall n :: n in d.files <==> n in d.names && IsYaml(n))
  }

  /** Two `.yml` files never share a language code. */
  lemma {:induction false} CodeInjective(a: string, b: string)
    requires IsYaml(a) && IsYaml(b) && Code(a) == Code(b)
    ensures a == b
  {
    calc {
      a;
      Code(a) + ".yml";
      Code(b) + ".yml";
      b;
    }
  }

  /** What loading puts under a file's code: its table, completed from the
      English one when there is one to complete from. */
  function Expected(t: Table, en: Option<Table>): Table {
    if en.Some? then Merged(t, en.value) else t
  }

  /** The `.yml` entries of the first `i` names of `d`, except those in
      `skip`, are loaded into `m` under their codes. */
  ghost predicate HoldsUpTo(m: map<string, Table>, d: Dir, i: nat, skip: set<string>, en: Option<Table>)
    requires ValidDir(d) && i <= |d.names|
  {
    forall j :: 0 <= j < i && IsYaml(d.names[j]) && d.names[j] !in skip ==>
      Code(d.names[j]) in m && m[Code(d.names[j])] == Expected(d.files[d.names[j]], en)
  }

  /** Every key of `m` is the code of a file of `d` not in `skip`, one of
      `keep`, or a key of `before` with its value there. */
  ghost predicate KeysFrom(m: map<string, Table>, before: map<string, Table>, d: Dir, skip: set<string>, keep: set<string>) {
    forall c :: c in m ==> (c + ".yml" in d.files && c + ".yml" !in skip) || c in keep || (c in before && m[c] == before[c])
  }

  /** The language files among the first `i` names of `d`, except those in
      `skip`, have their "name" recorded in `p` under their codes. */
  ghost predicate NamedUpTo(p: map<string, Value>, d: Dir, i: nat, skip: set<string>, en: Table)
    requires ValidDir(d) && i <= |d.names|
  {
    forall j :: 0 <= j < i && IsYaml(d.names[j]) && d.names[j] !in skip ==>
      && "name" in Merged(d.files[d.names[j]], en)
      && Code(d.names[j]) in p && p[Code(d.names[j])] == Merged(d.files[d.names[j]], en)["name"]
  }

  /** Recording the `i`-th name keeps what the earlier names recorded. */
  lemma {:induction false} NamedAdd(p: map<string, Value>, d: Dir, i: nat, skip: set<string>, en: Table)
    requires ValidDir(d) && i < |d.names| && NamedUpTo(p, d, i, skip, en)
    requires IsYaml(d.names[i]) && d.names[i] !in skip && "name" in Merged(d.files[d.names[i]], en)
    ensures NamedUpTo(p[Code(d.names[i]) := Merged(d.files[d.names[i]], en)["name"]], d, i + 1, skip, en)
  {
    var n := d.names[i];
    forall j | 0 <= j < i && IsYaml(d.names[j])
      ensures Code(d.names[j]) != Code(n)
    {
      if Code(d.names[j]) == Code(n) {
        CodeInjective(d.names[j], n);
      }
    }
  }

  /** A name that is not a language file to complete records nothing. */
  lemma {:induction false} NamedSkip(p: map<string, Value>, d: Dir, i: nat, skip: set<string>, en: Table)
    requires ValidDir(d) && i < |d.names| && NamedUpTo(p, d, i, skip, en)
    requires !IsYaml(d.names[i]) || d.names[i] in skip
    ensures NamedUpTo(p, d, i + 1, skip, en)
  {
  }

  /** Once every name is processed, every language file not skipped has its
      name recorded. */
  lemma {:induction false} NamedAll(p: map<string, Value>, d: Dir, skip: set<string>, en: Table)
    requires ValidDir(d) && NamedUpTo(p, d, |d.names|, skip, en)
    ensures forall n :: n in d.files && n !in skip ==>
              IsYaml(n) && "name" in Merged(d.files[n], en) && Code(n) in p && p[Code(n)] == Merged(d.files[n], en)["name"]
  {
    forall n | n in d.files && n !in skip
      ensures IsYaml(n) && "name" in Merged(d.files[n], en) && Code(n) in p && p[Code(n)] == Merged(d.files[n], en)["name"]
    {
      var j :| 0 <= j < |d.names| && d.names[j] == n;
    }
  }

  /** A name that is not `.yml`, or is skipped, leaves the loaded prefix as
      it was. */
  lemma {:induction false} HoldsSkip(m: map<string, Table>, d: Dir, i: nat, skip: set<string>, en: Option<Table>)
    requires ValidDir(d) && i < |d.names| && HoldsUpTo(m, d, i, skip, en)
    requires !IsYaml(d.names[i]) || d.names[i] in skip
    ensures HoldsUpTo(m, d, i + 1, skip, en)
  {
  }

  /** Loading the `i`-th name keeps what the earlier names loaded: no two
      names share a code. */
  lemma {:induction false} HoldsAdd(m: map<string, Table>, d: Dir, i: nat, skip: set<string>, en: Option<Table>)
    requires ValidDir(d) && i < |d.names| && HoldsUpTo(m, d, i, skip, en)
    requires IsYaml(d.names[i]) && d.names[i] !in skip
    ensures HoldsUpTo(m[Code(d.names[i]) := Expected(d.files[d.names[i]], en)], d, i + 1, skip, en)
  {
    var n := d.names[i];
    forall j | 0 <= j < i && IsYaml(d.names[j])
      ensures Code(d.names[j]) != Code(n)
    {
      if Code(d.names[j]) == Code(n) {
        CodeInjective(d.names[j], n);
      }
    }
  }

  /** Once every name is processed, every file not skipped is loaded. */
  lemma {:induction false} HoldsAll(m: map<string, Table>, d: Dir, skip: set<string>, en: Option<Table>)
    requires ValidDir(d) && HoldsUpTo(m, d, |d.names|, skip, en)
    ensures forall n :: n in d.files && n !in skip ==> IsYaml(n) && Code(n) in m && m[Code(n)] == Expected(d.files[n], en)
  {
    forall n | n in d.files && n !in skip
      ensures IsYaml(n) && Code(n) in m && m[Code(n)] == Expected(d.files[n], en)
    {
      var j :| 0 <= j < |d.names| && d.names[j] == n;
    }
  }

  /** A file of `d` is one of its names, and a `.yml` one. */
  lemma {:induction false} Listed(d: Dir, n: string)
    requires ValidDir(d) && n in d.files
    ensures n in d.names && IsYaml(n)
  {
  }

  /** Two `.yml` names other than `other` have a code other than
      `other`'s. */
  lemma {:induction false} CodeOther(n: string, other: string)
    requires IsYaml(n) && IsYaml(other) && n != other
    ensures Code(n) != Code(other)
  {
    if Code(n) == Code(other) {
      CodeInjective(n, other);
    }
  }

  /** `m` holds the table of every `.yml` file of `d` under its code; every
      other key of `m` is one of `before`, with its value there. */
  ghost predicate HoldsDir(m: map<string, Table>, before: map<string, Table>, d: Dir) {
    && (forall n :: n in d.files ==> IsYaml(n) && Code(n) in m && m[Code(n)] == d.files[n])
    && (forall c :: c in m ==> c + ".yml" in d.files || (c in before && m[c] == before[c]))
  }

  /** Every command table of `d` has all keys of the English one. */
  predicate CommandsComplete(d: Dir)
    requires "en.yml" in d.files
  {
    forall n :: n in d.files && n != "en.yml" ==> d.files["en.yml"].Keys <= d.files[n].Keys
  }

  /** The command files among the first `i` names of `d`, other than
      `en.yml`, have every key of `english`. */
  ghost predicate CoveredUpTo(d: Dir, i: nat, english: set<string>)
    requires ValidDir(d) && i <= |d.names|
  {
    forall j :: 0 <= j < i && IsYaml(d.names[j]) && d.names[j] != "en.yml" ==> english <= d.files[d.names[j]].Keys
  }

  lemma {:induction false} CoveredAdd(d: Dir, i: nat, english: set<string>)
    requires ValidDir(d) && i < |d.names| && CoveredUpTo(d, i, english)
    requires d.names[i] in d.files && english <= d.files[d.names[i]].Keys
    ensures CoveredUpTo(d, i + 1, english)
  {
  }

  lemma {:induction false} CoveredSkip(d: Dir, i: nat, english: set<string>)
    requires ValidDir(d) && i < |d.names| && CoveredUpTo(d, i, english)
    requires !IsYaml(d.names[i]) || d.names[i] == "en.yml"
    ensures CoveredUpTo(d, i + 1, english)
  {
  }

  /** All names covered: the command tables are complete. */
  lemma {:induction false} CoveredAll(d: Dir)
    requires ValidDir(d) && "en.yml" in d.files && CoveredUpTo(d, |d.names|, d.files["en.yml"].Keys)
    ensures CommandsComplete(d)
  {
    forall n | n in d.files && n != "en.yml"
      ensures d.files["en.yml"].Keys <= d.files[n].Keys
    {
      var j :| 0 <= j < |d.names| && d.names[j] == n;
    }
  }

  /** A command file without some English key leaves the tables incomplete. */
  lemma {:induction false} Uncovered(d: Dir, n: string)
    requires "en.yml" in d.files && n in d.files && n != "en.yml"
    requires !(d.files["en.yml"].Keys <= d.files[n].Keys)
    ensures !CommandsComplete(d)
  {
  }

  /** Every language table of `d` other than English and Hindi has a
      "name" once completed from the English one. */
  predicate NamesPresent(d: Dir)
    requires "en.yml" in d.files
  {
    forall n :: n in d.files && n != "en.yml" && n != "hi.yml" ==> "name" in Merged(d.files[n], d.files["en.yml"])
  }

  /** A language file that lacks a "name" even once completed. */
  lemma {:induction false} NameMissing(d: Dir, n: string)
    requires ValidDir(d) && "en.yml" in d.files
    requires n in d.names && IsYaml(n) && n != "en.yml" && n != "hi.yml"
    requires "name" !in Merged(d.files[n], d.files["en.yml"])
    ensures !NamesPresent(d)
  {
  }

  /** Names recorded for every language file mean every one has a name. */
  lemma {:induction false} NamesRecorded(p: map<string, Value>, d: Dir)
    requires ValidDir(d) && "en.yml" in d.files
    requires NamedUpTo(p, d, |d.names|, {"en.yml", "hi.yml"}, d.files["en.yml"])
    ensures NamesPresent(d)
  {
    NamedAll(p, d, {"en.yml", "hi.yml"}, d.files["en.yml"]);
  }

  /** The language tables after loading: English under "en", every other
      file except `hi.yml` completed from it under its code, with its name
      recorded; no other key but those already there. */
  ghost predicate TranslationsLoaded(languages: map<string, Table>, present: map<string, Value>,
                                     before: map<string, Table>, d: Dir, en: Table) {
    && "en" in languages && languages["en"] == en
    && (forall n :: n in d.files && n != "en.yml" && n != "hi.yml" ==>
          && IsYaml(n) && Code(n) in languages && languages[Code(n)] == Merged(d.files[n], en)
          && "name" in Merged(d.files[n], en)
          && Code(n) in present && present[Code(n)] == Merged(d.files[n], en)["name"])
    && KeysFrom(languages, before, d, {"en.yml", "hi.yml"}, {"en"})
  }

  /** With `en.yml` present Hindi is never loaded, so `get_string("hi")`
      gives the English table. */
  lemma {:induction false} HindiReadsEnglish(languages: map<string, Table>, present: map<string, Value>,
                                             before: map<string, Table>, d: Dir, en: Table)
    requires TranslationsLoaded(languages, present, before, d, en) && "hi" !in before
    ensures "hi" !in languages && GetString(languages, "hi") == Some(en)
  {
    assert "hi" + ".yml" == "hi.yml";
  }

  /** The loop's invariants at its end give the loaded language tables. */
  lemma {:induction false} TranslationsDone(languages: map<string, Table>, present: map<string, Value>,
                         before: map<string, Table>, d: Dir, en: Table)
    requires ValidDir(d)
    requires "en" in languages && languages["en"] == en
    requires HoldsUpTo(languages, d, |d.names|, {"en.yml", "hi.yml"}, Some(en))
    requires NamedUpTo(present, d, |d.names|, {"en.yml", "hi.yml"}, en)
    requires KeysFrom(languages, before, d, {"en.yml", "hi.yml"}, {"en"})
    ensures TranslationsLoaded(languages, present, before, d, en)
  {
    HoldsAll(languages, d, {"en.yml", "hi.yml"}, Some(en));
    NamedAll(present, d, {"en.yml", "hi.yml"}, en);
  }

  /** The language loop's state after the first `i` names: English under
      "en" with its name, the files among those names completed and named,
      and no key but those or the keys already there. */
  ghost predicate TranslatedUpTo(languages: map<string, Table>, present: map<string, Value>,
                                 before: map<string, Table>, d: Dir, i: nat, en: Table, name: Value)
    requires ValidDir(d) && i <= |d.names|
  {
    && "en" in languages && languages["en"] == en
    && "en" in present && present["en"] == name
    && HoldsUpTo(languages, d, i, {"en.yml", "hi.yml"}, Some(en))
    && NamedUpTo(present, d, i, {"en.yml", "hi.yml"}, en)
    && KeysFrom(languages, before, d, {"en.yml", "hi.yml"}, {"en"})
  }

  /** Completing and naming the `i`-th file keeps the loop's state. */
  lemma {:induction false} TranslatedAdd(languages: map<string, Table>, present: map<string, Value>,
                                         before: map<string, Table>, d: Dir, i: nat, en: Table, name: Value)
    requires ValidDir(d) && i < |d.names| && TranslatedUpTo(languages, present, before, d, i, en, name)
    requires "en.yml" in d.files && d.files["en.yml"] == en
    requires IsYaml(d.names[i]) && d.names[i] != "en.yml" && d.names[i] != "hi.yml"
    requires "name" in Merged(d.files[d.names[i]], en)
    ensures var n := d.names[i];
            TranslatedUpTo(languages[Code(n) := Merged(d.files[n], en)],
                           present[Code(n) := Merged(d.files[n], en)["name"]], before, d, i + 1, en, name)
  {
    var n := d.names[i];
    HoldsAdd(languages, d, i, {"en.yml", "hi.yml"}, Some(en));
    NamedAdd(present, d, i, {"en.yml", "hi.yml"}, en);
    CodeOther(n, "en.yml");
    assert Code("en.yml") == "en";
  }

  /** Passing over a name that is not a language file to complete keeps the
      loop's state. */
  lemma {:induction false} TranslatedSkip(languages: map<string, Table>, present: map<string, Value>,
                                          before: map<string, Table>, d: Dir, i: nat, en: Table, name: Value)
    requires ValidDir(d) && i < |d.names| && TranslatedUpTo(languages, present, before, d, i, en, name)
    requires !IsYaml(d.names[i]) || d.names[i] == "en.yml" || d.names[i] == "hi.yml"
    ensures TranslatedUpTo(languages, present, before, d, i + 1, en, name)
  {
    HoldsSkip(languages, d, i, {"en.yml", "hi.yml"}, Some(en));
    NamedSkip(present, d, i, {"en.yml", "hi.yml"}, en);
  }

  /** At the end of the loop every language file has been loaded. */
  lemma {:induction false} TranslatedAll(languages: map<string, Table>, present: map<string, Value>,
                                         before: map<string, Table>, d: Dir, en: Table, name: Value)
    requires ValidDir(d) && "en.yml" in d.files && d.files["en.yml"] == en
    requires TranslatedUpTo(languages, present, before, d, |d.names|, en, name)
    ensures NamesPresent(d) && TranslationsLoaded(languages, present, before, d, en)
    ensures "en" in present && present["en"] == name
  {
    NamesRecorded(present, d);
    TranslationsDone(languages, present, before, d, en);
  }

  /** How loading ends: every table is loaded, or the process exits because
      of the named file. */
  datatype Outcome = Loaded | Exit(file: string)

  /** The loaded string tables. */
  class Strings {
    var commands: map<string, Table>
    var helpers: map<string, Table>
    var languages: map<string, Table>
    var languagesPresent: map<string, Value>

    constructor ()
      ensures commands == map[] && helpers == map[] && languages == map[] && languagesPresent == map[]
    {
      commands := map[];
      helpers := map[];
      languages := map[];
      languagesPresent := map[];
    }

    /** Loads the command tables: English first, which must exist, then
        every other `.yml` file, exiting at the first whose keys do not
        cover the English keys. */
    method LoadCommands(d: Dir) returns (r: Outcome)
      requires ValidDir(d)
      modifies this
      ensures r.Loaded? <==> "en.yml" in d.files && CommandsComplete(d)
      ensures r.Loaded? ==> HoldsDir(commands, old(commands), d) && "en" in commands
      ensures helpers == old(helpers) && languages == old(languages)
      ensures languagesPresent == old(languagesPresent)
    {
      if "en.yml" !in d.files {
        return Exit("en.yml");
      }
      var en := d.files["en.yml"];
      ghost var before := commands;
      commands := commands["en" := en];
      var english := en.Keys;
      assert Code("en.yml") == "en";
      var i := 0;
      while i < |d.names|
        invariant 0 <= i <= |d.names|
        invariant "en" in commands && commands["en"] == en
        invariant HoldsUpTo(commands, d, i, {"en.yml"}, None)
        invariant CoveredUpTo(d, i, english)
        invariant KeysFrom(commands, before, d, {"en.yml"}, {"en"})
        invariant helpers == old(helpers) && languages == old(languages)
        invariant languagesPresent == old(languagesPresent)
      {
        var n := d.names[i];
        if IsYaml(n) && n != "en.yml" {
          var code := Code(n);
          HoldsAdd(commands, d, i, {"en.yml"}, None);
          CodeOther(n, "en.yml");
          commands := commands[code := d.files[n]];
          assert n in d.files;
          if MissingKeys(english, commands[code]) != {} {
            Uncovered(d, n);
            return Exit(n);
          }
          CoveredAdd(d, i, english);
        } else {
          HoldsSkip(commands, d, i, {"en.yml"}, None);
          CoveredSkip(d, i, english);
        }
        i := i + 1;
      }
      HoldsAll(commands, d, {"en.yml"}, None);
      CoveredAll(d);
      return Loaded;
    }

    /** Loads every helper table of the directory. */
    method LoadHelpers(d: Dir)
      requires ValidDir(d)
      modifies this
      ensures HoldsDir(helpers, old(helpers), d)
      ensures commands == old(commands) && languages == old(languages)
      ensures languagesPresent == old(languagesPresent)
    {
      var i := 0;
      while i < |d.names|
        invariant 0 <= i <= |d.names|
        invariant HoldsUpTo(helpers, d, i, {}, None)
        invariant KeysFrom(helpers, old(helpers), d, {}, {})
        invariant commands == old(commands) && languages == old(languages)
        invariant languagesPresent == old(languagesPresent)
      {
        var n := d.names[i];
        if IsYaml(n) {
          HoldsAdd(helpers, d, i, {}, None);
          helpers := helpers[Code(n) := d.files[n]];
        } else {
          HoldsSkip(helpers, d, i, {}, None);
        }
        i := i + 1;
      }
      HoldsAll(helpers, d, {}, None);
    }

    /** Loads the language tables. Without `en.yml` the Hindi table is
        loaded as a fallback, but the English file is then opened all the
        same and loading fails. Otherwise English is loaded and every other
        file except `hi.yml` is completed from it and must then hold a
        "name". */
    method LoadLanguages(d: Dir) returns (r: Outcome)
      requires ValidDir(d)
      modifies this
      ensures r.Loaded? <==> "en.yml" in d.files && NamesPresent(d)
      ensures r.Loaded? ==> && "en.yml" in d.files
                            && TranslationsLoaded(languages, languagesPresent, old(languages), d, d.files["en.yml"])
                            && "en" in languagesPresent
                            && languagesPresent["en"] == GetOr(d.files["en.yml"], "name", Str("English"))
      ensures commands == old(commands) && helpers == old(helpers)
    {
      if "en.yml" !in d.files {
        if "hi.yml" !in d.files {
          return Exit("hi.yml");
        }
        var hi := d.files["hi.yml"];
        languages := languages["hi" := hi];
        languagesPresent := languagesPresent["hi" := GetOr(hi, "name", Str("Hindi"))];
        return Exit("en.yml");
      }
      var en := d.files["en.yml"];
      languages := languages["en" := en];
      languagesPresent := languagesPresent["en" := GetOr(en, "name", Str("English"))];
      r := LoadTranslations(d, en);
    }

    /** The loop over the language files other than `en.yml` and `hi.yml`:
        each is completed from the English table `en` and must then hold a
        "name". */
    method LoadTranslations(d: Dir, en: Table) returns (r: Outcome)
      requires ValidDir(d) && "en.yml" in d.files && d.files["en.yml"] == en
      requires "en" in languages && languages["en"] == en
      requires "en" in languagesPresent
      modifies this
      ensures r.Loaded? <==> NamesPresent(d)
      ensures r.Loaded? ==> TranslationsLoaded(languages, languagesPresent, old(languages), d, en)
      ensures r.Loaded? ==> "en" in languagesPresent && languagesPresent["en"] == old(languagesPresent)["en"]
      ensures commands == old(commands) && helpers == old(helpers)
    {
      ghost var name := languagesPresent["en"];
      assert Code("en.yml") == "en";
      var i := 0;
      while i < |d.names|
        invariant 0 <= i <= |d.names|
        invariant TranslatedUpTo(languages, languagesPresent, old(languages), d, i, en, name)
        invariant commands == old(commands) && helpers == old(helpers)
      {
        var n := d.names[i];
        if IsYaml(n) && n != "en.yml" && n != "hi.yml" {
          var merged := MergeEnglish(d.files[n], en);
          if "name" !in merged {
            languages := languages[Code(n) := merged];
            NameMissing(d, n);
            return Exit(n);
          }
          TranslatedAdd(languages, languagesPresent, old(languages), d, i, en, name);
          languages := languages[Code(n) := merged];
          languagesPresent := languagesPresent[Code(n) := merged["name"]];
        } else {
          TranslatedSkip(languages, languagesPresent, old(languages), d, i, en, name);
        }
        i := i + 1;
      }
      TranslatedAll(languages, languagesPresent, old(languages), d, en, name);
      return Loaded;
    }

    /** Loading at start-up: commands, then helpers, then languages. Once the
        commands are loaded the command table is never empty, so the final
        emptiness check cannot fire, and the English command and language
        tables make every `get_command` and `get_string` lookup succeed. */
    method Load(cmds: Dir, helps: Dir, langs: Dir) returns (r: Outcome)
      requires ValidDir(cmds) && ValidDir(helps) && ValidDir(langs)
      modifies this
      ensures r.Loaded? <==> && "en.yml" in cmds.files && CommandsComplete(cmds)
                             && "en.yml" in langs.files && NamesPresent(langs)
      ensures r.Loaded? ==> commands != map[]
      ensures r.Loaded? ==> forall lang :: GetCommand(commands, lang).Some? && GetString(languages, lang).Some?
      ensures r.Loaded? ==> HoldsDir(commands, old(commands), cmds) && HoldsDir(helpers, old(helpers), helps)
      ensures r.Loaded? ==> && TranslationsLoaded(languages, languagesPresent, old(languages), langs, langs.files["en.yml"])
                            && "en" in languagesPresent
                            && languagesPresent["en"] == GetOr(langs.files["en.yml"], "name", Str("English"))
      ensures !("en.yml" in cmds.files && CommandsComplete(cmds)) ==>
                helpers == old(helpers) && languages == old(languages) && languagesPresent == old(languagesPresent)
    {
      r := LoadCommands(cmds);
      if r.Exit? {
        return;
      }
      LoadHelpers(helps);
      r := LoadLanguages(langs);
    }
  }
}
