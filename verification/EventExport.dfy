/**
 Exporting an event's options to the environment (src/lib/event_config.c:293-376).
 An event imports other events; their options are exported first.
 */
module EventExport {
  import opened Basics
  import opened OptionStore

  datatype EventConfig = EventConfig(imported: seq<string>, options: seq<EventOption>)

  /** The two hash tables: configurations by name, and symbolic links between names. */
  datatype Registry = Registry(configs: map<string, EventConfig>, symlinks: map<string, string>)

  type Variables = map<string, string>

  /** The key get_event_config looks up for name. */
  function Target(reg: Registry, name: string): string {
    if name in reg.symlinks then reg.symlinks[name] else name
  }

  // ----- the import graph -----

  predicate Imports(reg: Registry, n: string, m: string) {
    && n in reg.configs && m in reg.configs
    && exists k | 0 <= k < |reg.configs[n].imported| :: Target(reg, reg.configs[n].imported[k]) == m
  }

  ghost predicate IsPath(reg: Registry, path: seq<string>) {
    && path != []
    && (forall i | 0 <= i < |path| :: path[i] in reg.configs)
    && (forall i | 0 < i < |path| :: Imports(reg, path[i - 1], path[i]))
  }

  ghost predicate Leads(reg: Registry, n: string, m: string, path: seq<string>) {
    IsPath(reg, path) && path[0] == n && path[|path| - 1] == m
  }

  /** No event that n leads to imports itself, directly or through others. */
  ghost predicate Acyclic(reg: Registry, n: string) {
    forall m, there, back | Leads(reg, n, m, there) && Leads(reg, m, m, back) :: |back| == 1
  }

  /** The configurations met on the way from n, n included. */
  ghost function Reach(reg: Registry, n: string): set<string> {
    set m | m in reg.configs && exists path :: Leads(reg, n, m, path)
  }

  lemma LeadsOn(reg: Registry, n: string, m: string, x: string, path: seq<string>)
    requires Imports(reg, n, m) && Leads(reg, m, x, path)
    ensures Leads(reg, n, x, [n] + path)
  {
    var longer := [n] + path;
    assert forall i | 0 < i < |longer| :: longer[i] == path[i - 1];
  }

  /** Along an import the reachable set loses the importer, so the recursion ends. */
  lemma ImportShrinks(reg: Registry, n: string, k: nat)
    requires n in reg.configs && Acyclic(reg, n) && k < |reg.configs[n].imported|
    ensures Acyclic(reg, Target(reg, reg.configs[n].imported[k]))
    ensures Reach(reg, Target(reg, reg.configs[n].imported[k])) < Reach(reg, n)
  {
    var m := Target(reg, reg.configs[n].imported[k]);
    assert Leads(reg, n, n, [n]);
    assert n in Reach(reg, n);
    if m in reg.configs {
      assert Imports(reg, n, m);
      forall x | x in Reach(reg, m) ensures x in Reach(reg, n) && x != n {
        var path :| Leads(reg, m, x, path);
        LeadsOn(reg, n, m, x, path);
        assert |[n] + path| != 1;
      }
      forall x, there, back | Leads(reg, m, x, there) && Leads(reg, x, x, back) ensures |back| == 1 {
        LeadsOn(reg, n, m, x, there);
      }
    }
  }

  lemma {:induction false} SmallerSet(a: set<string>, b: set<string>)
    requires a < b
    ensures |a| < |b|
  {
    if a != {} {
      var x :| x in a;
      SmallerSet(a - {x}, b - {x});
    }
  }

  /** Exporting n makes d calls inside one another, each for an import of the one before. */
  predicate Nests(reg: Registry, n: string, d: nat)
    decreases d
  {
    n in reg.configs &&
    (d == 0 || exists k | 0 <= k < |reg.configs[n].imported| :: Nests(reg, Target(reg, reg.configs[n].imported[k]), d - 1))
  }

  lemma {:induction false} NestsLess(reg: Registry, n: string, d: nat, less: nat)
    requires Nests(reg, n, d) && less <= d
    ensures Nests(reg, n, less)
    decreases d
  {
    if less > 0 {
      var k :| 0 <= k < |reg.configs[n].imported| && Nests(reg, Target(reg, reg.configs[n].imported[k]), d - 1);
      NestsLess(reg, Target(reg, reg.configs[n].imported[k]), d - 1, less - 1);
    }
  }

  lemma ReachesItself(reg: Registry, n: string)
    requires n in reg.configs
    ensures |Reach(reg, n)| >= 1
  {
    assert Leads(reg, n, n, [n]);
    SmallerSet({}, Reach(reg, n)) by { assert n in Reach(reg, n); }
  }

  lemma {:induction false} NestingBounded(reg: Registry, n: string, d: nat)
    requires Acyclic(reg, n) && Nests(reg, n, d)
    ensures d < |Reach(reg, n)|
    decreases d
  {
    ReachesItself(reg, n);
    if d > 0 {
      var k :| 0 <= k < |reg.configs[n].imported| && Nests(reg, Target(reg, reg.configs[n].imported[k]), d - 1);
      var m := Target(reg, reg.configs[n].imported[k]);
      ImportShrinks(reg, n, k);
      NestingBounded(reg, m, d - 1);
      SmallerSet(Reach(reg, m), Reach(reg, n));
    }
  }

  lemma {:induction false} PathNests(reg: Registry, path: seq<string>, d: nat)
    requires IsPath(reg, path) && Nests(reg, path[|path| - 1], d)
    ensures Nests(reg, path[0], d + |path| - 1)
  {
    if |path| > 1 {
      var rest := path[1..];
      assert forall i | 0 < i < |rest| :: rest[i - 1] == path[i] && rest[i] == path[i + 1];
      PathNests(reg, rest, d);
      assert Imports(reg, path[0], path[1]);
    }
  }

  lemma {:induction false} CycleNests(reg: Registry, m: string, back: seq<string>, d: nat)
    requires Leads(reg, m, m, back) && |back| > 1
    ensures Nests(reg, m, d)
  {
    if d > 0 {
      CycleNests(reg, m, back, d - 1);
      PathNests(reg, back, d - 1);
      NestsLess(reg, m, d - 1 + |back| - 1, d);
    }
  }

  /** The recursion of export_event_config ends exactly on an event that leads to no cycle:
      if there is one, calls nest to any depth. */
  lemma RecursionEndsIff(reg: Registry, n: string)
    ensures Acyclic(reg, n) <==> exists d: nat :: !Nests(reg, n, d)
  {
    if Acyclic(reg, n) {
      if Nests(reg, n, |Reach(reg, n)|) {
        NestingBounded(reg, n, |Reach(reg, n)|);
      }
      assert !Nests(reg, n, |Reach(reg, n)|);
    } else {
      var m, there, back :| Leads(reg, n, m, there) && Leads(reg, m, m, back) && |back| != 1;
      forall d: nat ensures Nests(reg, n, d) {
        CycleNests(reg, m, back, d);
        PathNests(reg, there, d);
        NestsLess(reg, n, d + |there| - 1, d);
      }
    }
  }

  // ----- what an event contributes -----

  /** The options of a list that have a value; the last one of a name counts. */
  function Own(options: seq<EventOption>): Variables {
    if options == [] then map[]
    else
      var last := options[|options| - 1];
      var before := Own(options[..|options| - 1]);
      if last.value.None? then before else before[last.name := last.value.value]
  }

  /** Own options override the imported ones. */
  ghost function Values(reg: Registry, name: string): Variables
    requires Acyclic(reg, Target(reg, name))
    decreases Reach(reg, Target(reg, name)), 1, 0
  {
    var n := Target(reg, name);
    if n !in reg.configs then map[]
    else Imported(reg, n, |reg.configs[n].imported|) + Own(reg.configs[n].options)
  }

  /** Later imports override earlier ones. */
  ghost function Imported(reg: Registry, n: string, count: nat): Variables
    requires n in reg.configs && Acyclic(reg, n) && count <= |reg.configs[n].imported|
    decreases Reach(reg, n), 0, count
  {
    if count == 0 then map[] else Imported(reg, n, count - 1) + ImportedBy(reg, n, count - 1)
  }

  /** What import k of n sets. */
  ghost function ImportedBy(reg: Registry, n: string, k: nat): Variables
    requires n in reg.configs && Acyclic(reg, n) && k < |reg.configs[n].imported|
    decreases Reach(reg, n), 0, 0
  {
    ImportShrinks(reg, n, k);
    Values(reg, reg.configs[n].imported[k])
  }

  /** Of several imports that set a variable the last one decides. */
  lemma {:induction false} LastImportWins(reg: Registry, n: string, count: nat, v: string, k: nat)
    requires n in reg.configs && Acyclic(reg, n) && k < count <= |reg.configs[n].imported|
    requires v in ImportedBy(reg, n, k) && forall i | k < i < count :: v !in ImportedBy(reg, n, i)
    ensures v in Imported(reg, n, count) && Imported(reg, n, count)[v] == ImportedBy(reg, n, k)[v]
    decreases count
  {
    AddedWins(Imported(reg, n, count - 1), ImportedBy(reg, n, count - 1), v);
    if k < count - 1 {
      LastImportWins(reg, n, count - 1, v, k);
    }
  }

  lemma AddedWins(vars: Variables, added: Variables, v: string)
    ensures v in vars + added <==> v in vars || v in added
    ensures v in added ==> v in vars + added && (vars + added)[v] == added[v]
    ensures v in vars && v !in added ==> v in vars + added && (vars + added)[v] == vars[v]
  {
  }

  /** Some option of the list is called v and has a value. */
  predicate HasOwn(options: seq<EventOption>, v: string) {
    exists j | 0 <= j < |options| :: options[j].name == v && options[j].value.Some?
  }

  /** Exporting name sets v. */
  ghost predicate Sets(reg: Registry, name: string, v: string) {
    Acyclic(reg, Target(reg, name)) && v in Values(reg, name)
  }

  lemma {:induction false} OwnIff(options: seq<EventOption>, v: string)
    ensures v in Own(options) <==> HasOwn(options, v)
  {
    if options != [] {
      var front := options[..|options| - 1];
      OwnIff(front, v);
      assert forall j | 0 <= j < |front| :: front[j] == options[j];
    }
  }

  lemma ImportedBySets(reg: Registry, n: string, k: nat, v: string)
    requires n in reg.configs && Acyclic(reg, n) && k < |reg.configs[n].imported|
    ensures v in ImportedBy(reg, n, k) <==> Sets(reg, reg.configs[n].imported[k], v)
  {
    ImportShrinks(reg, n, k);
  }

  lemma {:induction false} ImportedIff(reg: Registry, n: string, count: nat, v: string)
    requires n in reg.configs && Acyclic(reg, n) && count <= |reg.configs[n].imported|
    ensures v in Imported(reg, n, count) <==> exists k | 0 <= k < count :: v in ImportedBy(reg, n, k)
    decreases count
  {
    if count > 0 {
      ImportedIff(reg, n, count - 1, v);
      AddedWins(Imported(reg, n, count - 1), ImportedBy(reg, n, count - 1), v);
      assert v in ImportedBy(reg, n, count - 1) ==> exists k | 0 <= k < count :: v in ImportedBy(reg, n, k);
    }
  }

  /** One of the events that config imports sets v. */
  ghost predicate ImportSets(reg: Registry, config: EventConfig, v: string) {
    exists k | 0 <= k < |config.imported| :: Sets(reg, config.imported[k], v)
  }

  lemma ImportSetsIff(reg: Registry, n: string, v: string)
    requires n in reg.configs && Acyclic(reg, n)
    ensures v in Imported(reg, n, |reg.configs[n].imported|) <==> ImportSets(reg, reg.configs[n], v)
  {
    var imported := reg.configs[n].imported;
    ImportedIff(reg, n, |imported|, v);
    if k :| 0 <= k < |imported| && v in ImportedBy(reg, n, k) {
      ImportedBySets(reg, n, k, v);
    }
    if k :| 0 <= k < |imported| && Sets(reg, imported[k], v) {
      ImportedBySets(reg, n, k, v);
    }
  }

  /** Exporting an event sets its own options that have a value and what its imports set,
      and nothing else. */
  lemma SetsIff(reg: Registry, name: string, v: string)
    requires Acyclic(reg, Target(reg, name))
    ensures var n := Target(reg, name);
      Sets(reg, name, v) <==>
        n in reg.configs && (HasOwn(reg.configs[n].options, v) || ImportSets(reg, reg.configs[n], v))
  {
    var n := Target(reg, name);
    if n in reg.configs {
      OwnIff(reg.configs[n].options, v);
      ImportSetsIff(reg, n, v);
      AddedWins(Imported(reg, n, |reg.configs[n].imported|), Own(reg.configs[n].options), v);
    }
  }

  /** Of the imports that set a variable the last one gives it its value, unless the event
      has an option of that name with a value itself. */
  lemma LastImportDecides(reg: Registry, name: string, v: string, k: nat)
    requires var n := Target(reg, name); n in reg.configs && Acyclic(reg, n)
    requires var config := reg.configs[Target(reg, name)]; k < |config.imported| && !HasOwn(config.options, v)
    requires Sets(reg, reg.configs[Target(reg, name)].imported[k], v)
    requires var imported := reg.configs[Target(reg, name)].imported;
      forall i | k < i < |imported| :: !Sets(reg, imported[i], v)
    ensures Sets(reg, name, v)
    ensures Values(reg, name)[v] == Values(reg, reg.configs[Target(reg, name)].imported[k])[v]
  {
    var n := Target(reg, name);
    var count := |reg.configs[n].imported|;
    forall i | k <= i < count ensures v in ImportedBy(reg, n, i) <==> i == k {
      ImportedBySets(reg, n, i, v);
    }
    LastImportWins(reg, n, count, v, k);
    OwnIff(reg.configs[n].options, v);
    AddedWins(Imported(reg, n, count), Own(reg.configs[n].options), v);
  }

  /** A symbolic link stands for the event it points to. */
  lemma LinkIsFollowed(reg: Registry, link: string)
    requires link in reg.symlinks && reg.symlinks[link] !in reg.symlinks && Acyclic(reg, reg.symlinks[link])
    ensures forall v :: Sets(reg, link, v) <==> Sets(reg, reg.symlinks[link], v)
    ensures Acyclic(reg, Target(reg, link)) && Values(reg, link) == Values(reg, reg.symlinks[link])
  {
  }

  /** An event's own option with a value beats every import. */
  lemma OwnOptionWins(reg: Registry, name: string, k: nat)
    requires var n := Target(reg, name); n in reg.configs && Acyclic(reg, n)
    requires var own := reg.configs[Target(reg, name)].options; k < |own| && own[k].value.Some?
    requires var own := reg.configs[Target(reg, name)].options;
      forall i | k < i < |own| :: own[i].name != own[k].name || own[i].value.None?
    ensures var option := reg.configs[Target(reg, name)].options[k];
      option.name in Values(reg, name) && Values(reg, name)[option.name] == option.value.value
  {
    var own := reg.configs[Target(reg, name)].options;
    OwnValue(own, k, |own|);
    assert own[..|own|] == own;
  }

  lemma {:induction false} OwnValue(options: seq<EventOption>, k: nat, count: nat)
    requires k < count <= |options| && options[k].value.Some?
    requires forall i | k < i < count :: options[i].name != options[k].name || options[i].value.None?
    ensures options[k].name in Own(options[..count])
    ensures Own(options[..count])[options[k].name] == options[k].value.value
    decreases count
  {
    OwnStep(options, count - 1);
    if k < count - 1 {
      OwnValue(options, k, count - 1);
    }
  }

  // ----- the environment -----

  /** setenv refuses an empty name and one with an equals sign. */
  predicate Settable(name: string) {
    name != "" && '=' !in name
  }

  function BeforeEquals(name: string): (r: string)
    ensures '=' !in r
    ensures '=' !in name ==> r == name
  {
    if name == "" || name[0] == '=' then "" else [name[0]] + BeforeEquals(name[1..])
  }

  lemma {:induction false} UpToEquals(name: string)
    ensures BeforeEquals(name) == name[..IndexOf(name, '=')]
  {
    if name != "" && name[0] != '=' {
      UpToEquals(name[1..]);
      LaterIndex(name, 1);
    }
  }

  lemma {:induction false} LaterIndex(name: string, from: nat)
    requires 1 <= from <= |name|
    ensures IndexOf(name, '=', from) == 1 + IndexOf(name[1..], '=', from - 1)
    decreases |name| - from
  {
    if from < |name| && name[from] != '=' {
      LaterIndex(name, from + 1);
    }
  }

  class Environment {
    var vars: Variables

    constructor (vars: Variables)
      ensures this.vars == vars
    {
      this.vars := vars;
    }

    /** xsetenv, which ends the process when setenv fails. */
    method Set(name: string, value: string) returns (died: bool)
      modifies this
      ensures died <==> !Settable(name)
      ensures vars == if died then old(vars) else old(vars)[name := value]
    {
      died := !Settable(name);
      if !died {
        vars := vars[name := value];
      }
    }

    /** safe_unsetenv. */
    method Unset(name: string)
      modifies this
      ensures vars == old(vars) - {BeforeEquals(name)}
    {
      vars := vars - {BeforeEquals(name)};
    }
  }

  /** list names each variable of vars once and nothing else. */
  ghost predicate Lists(list: seq<string>, vars: Variables) {
    Distinct(list) && forall v :: v in list <==> v in vars
  }

  ghost predicate AllSettable(vars: Variables) {
    forall v | v in vars :: Settable(v)
  }

  /** The inner loop: prepends to list the names of exported it does not have. */
  method Prepend(list: seq<string>, exported: seq<string>, ghost vars: Variables, ghost added: Variables)
    returns (r: seq<string>)
    requires Lists(list, vars) && Lists(exported, added)
    ensures Lists(r, vars + added)
  {
    r := list;
    var rest := exported;
    while rest != []
      invariant Distinct(r) && Distinct(rest) && forall v | v in rest :: v in exported
      invariant forall v :: v in r <==> v in vars || (v in exported && v !in rest)
    {
      assert rest == [rest[0]] + rest[1..] && rest[0] !in rest[1..];
      if rest[0] !in r {
        r := [rest[0]] + r;
      }
      rest := rest[1..];
    }
  }

  lemma AddRight(was: Variables, vars: Variables, added: Variables)
    ensures (was + vars) + added == was + (vars + added)
    ensures AllSettable(vars + added) <==> AllSettable(vars) && AllSettable(added)
  {
    assert forall v | v in added :: v in vars + added;
    assert forall v | v in vars :: v in vars + added;
  }

  lemma SetRight(was: Variables, vars: Variables, name: string, value: string)
    ensures (was + vars)[name := value] == was + vars[name := value]
    ensures AllSettable(vars[name := value]) <==> Settable(name) && AllSettable(vars - {name})
  {
    assert name in vars[name := value];
    assert forall v | v in vars - {name} :: v in vars[name := value];
  }

  // ----- exporting -----

  /** Puts name at the front of list unless the list has it. */
  method AddName(list: seq<string>, name: string, ghost vars: Variables, ghost value: string) returns (r: seq<string>)
    requires Lists(list, vars)
    ensures Lists(r, vars[name := value])
  {
    r := if name in list then list else [name] + list;
  }

  /** The second loop: exports the event's own options. */
  method ExportOwn(env: Environment, list: seq<string>, options: seq<EventOption>, ghost imported: Variables)
    returns (died: bool, r: seq<string>)
    requires Lists(list, imported)
    modifies env
    ensures died <==> !AllSettable(Own(options))
    ensures !died ==> Lists(r, imported + Own(options)) && env.vars == old(env.vars) + Own(options)
  {
    r := list;
    ghost var was, own, vars := env.vars, Own([]), imported;
    assert options[..0] == [];
    var i := 0;
    while i < |options|
      invariant 0 <= i <= |options| && own == Own(options[..i]) && AllSettable(own)
      invariant vars == imported + own && Lists(r, vars) && env.vars == was + own
    {
      var opt := options[i];
      OwnStep(options, i);
      if opt.value.Some? {
        var value := opt.value.value;
        r := AddName(r, opt.name, vars, value);
        SetRight(was, own, opt.name, value);
        SetRight(imported, own, opt.name, value);
        died := env.Set(opt.name, value);
        own, vars := own[opt.name := value], vars[opt.name := value];
        if died {
          OwnKept(options, i + 1, opt.name);
          return;
        }
      }
      i := i + 1;
    }
    assert options[..i] == options;
    died := false;
  }

  lemma OwnStep(options: seq<EventOption>, i: nat)
    requires i < |options|
    ensures Own(options[..i + 1]) ==
      if options[i].value.None? then Own(options[..i]) else Own(options[..i])[options[i].name := options[i].value.value]
  {
    assert options[..i + 1][..i] == options[..i];
  }

  lemma {:induction false} OwnKept(options: seq<EventOption>, i: nat, name: string)
    requires i <= |options| && name in Own(options[..i])
    ensures name in Own(options)
    decreases |options| - i
  {
    if i == |options| {
      assert options[..i] == options;
    } else {
      OwnStep(options, i);
      OwnKept(options, i + 1, name);
    }
  }

  lemma ImportedStep(reg: Registry, n: string, i: nat)
    requires n in reg.configs && Acyclic(reg, n) && i < |reg.configs[n].imported|
    ensures Acyclic(reg, Target(reg, reg.configs[n].imported[i]))
    ensures Reach(reg, Target(reg, reg.configs[n].imported[i])) < Reach(reg, n)
    ensures Imported(reg, n, i + 1) == Imported(reg, n, i) + Values(reg, reg.configs[n].imported[i])
  {
    ImportShrinks(reg, n, i);
  }

  lemma AddKeeps(vars: Variables, added: Variables)
    ensures vars.Keys <= (vars + added).Keys
  {}

  lemma ImportedGrows(reg: Registry, n: string, i: nat)
    requires n in reg.configs && Acyclic(reg, n) && i < |reg.configs[n].imported|
    ensures Imported(reg, n, i).Keys <= Imported(reg, n, i + 1).Keys
  {
    ImportedStep(reg, n, i);
    AddKeeps(Imported(reg, n, i), Values(reg, reg.configs[n].imported[i]));
  }

  lemma {:induction false} ImportedKept(reg: Registry, n: string, i: nat, count: nat)
    requires n in reg.configs && Acyclic(reg, n) && i <= count <= |reg.configs[n].imported|
    ensures Imported(reg, n, i).Keys <= Imported(reg, n, count).Keys
    decreases count - i
  {
    if i < count {
      ImportedGrows(reg, n, i);
      ImportedKept(reg, n, i + 1, count);
    }
  }

  lemma StaysUnsettable(reg: Registry, n: string, i: nat)
    requires n in reg.configs && Acyclic(reg, n) && i <= |reg.configs[n].imported|
    requires !AllSettable(Imported(reg, n, i))
    ensures !AllSettable(Imported(reg, n, |reg.configs[n].imported|))
  {
    ImportedKept(reg, n, i, |reg.configs[n].imported|);
    var v :| v in Imported(reg, n, i) && !Settable(v);
    assert v in Imported(reg, n, i).Keys;
  }

  /** One turn of the first loop: exports import number i and takes over its names. */
  method ExportImport(reg: Registry, env: Environment, n: string, i: nat, list: seq<string>, ghost was: Variables)
    returns (died: bool, r: seq<string>)
    requires n in reg.configs && Acyclic(reg, n) && i < |reg.configs[n].imported|
    requires Lists(list, Imported(reg, n, i)) && AllSettable(Imported(reg, n, i))
    requires env.vars == was + Imported(reg, n, i)
    modifies env
    ensures died <==> !AllSettable(Imported(reg, n, i + 1))
    ensures !died ==> Lists(r, Imported(reg, n, i + 1)) && env.vars == was + Imported(reg, n, i + 1)
    decreases Reach(reg, n), 0
  {
    ImportedStep(reg, n, i);
    var name := reg.configs[n].imported[i];
    ghost var vars, added := Imported(reg, n, i), Values(reg, name);
    AddRight(was, vars, added);
    var exported;
    died, exported := Export(reg, env, name);
    r := list;
    if !died {
      r := Prepend(list, exported, vars, added);
    }
  }

  /** The first loop: exports the imported events in turn. */
  method ExportImports(reg: Registry, env: Environment, n: string) returns (died: bool, list: seq<string>)
    requires n in reg.configs && Acyclic(reg, n)
    modifies env
    ensures died <==> !AllSettable(Imported(reg, n, |reg.configs[n].imported|))
    ensures !died ==> Lists(list, Imported(reg, n, |reg.configs[n].imported|))
    ensures !died ==> env.vars == old(env.vars) + Imported(reg, n, |reg.configs[n].imported|)
    decreases Reach(reg, n), 1
  {
    died, list := false, [];
    ghost var was := env.vars;
    var i := 0;
    while i < |reg.configs[n].imported| && !died
      invariant 0 <= i <= |reg.configs[n].imported|
      invariant died <==> !AllSettable(Imported(reg, n, i))
      invariant !died ==> Lists(list, Imported(reg, n, i)) && env.vars == was + Imported(reg, n, i)
    {
      died, list := ExportImport(reg, env, n, i, list, was);
      i := i + 1;
    }
    if died {
      StaysUnsettable(reg, n, i);
    }
  }

  /** export_event_config. The list comes back in the order of prepending. */
  method Export(reg: Registry, env: Environment, name: string) returns (died: bool, list: seq<string>)
    requires Acyclic(reg, Target(reg, name))
    modifies env
    ensures died <==> !AllSettable(Values(reg, name))
    ensures !died ==> Lists(list, Values(reg, name)) && env.vars == old(env.vars) + Values(reg, name)
    decreases Reach(reg, Target(reg, name)), 2
  {
    var n := Target(reg, name);
    if n !in reg.configs {
      return false, [];
    }
    var config := reg.configs[n];
    ghost var was, vars := env.vars, Imported(reg, n, |config.imported|);
    AddRight(was, vars, Own(config.options));
    died, list := ExportImports(reg, env, n);
    if !died {
      died, list := ExportOwn(env, list, config.options, vars);
    }
  }

  /** The variables unexport_event_config removes. */
  function Unset(list: seq<string>): set<string> {
    set k | 0 <= k < |list| :: BeforeEquals(list[k])
  }

  /** unexport_event_config. */
  method Unexport(env: Environment, list: seq<string>)
    modifies env
    ensures env.vars == old(env.vars) - Unset(list)
  {
    var i := 0;
    while i < |list|
      invariant 0 <= i <= |list|
      invariant env.vars == old(env.vars) - Unset(list[..i])
    {
      env.Unset(list[i]);
      assert list[..i + 1] == list[..i] + [list[i]];
      assert Unset(list[..i + 1]) == Unset(list[..i]) + {BeforeEquals(list[i])};
      i := i + 1;
    }
    assert list[..i] == list;
  }

  /** Unexporting what was exported leaves every other variable as it was. */
  method ExportAndUnexport(reg: Registry, env: Environment, name: string) returns (died: bool)
    requires Acyclic(reg, Target(reg, name))
    modifies env
    ensures died <==> !AllSettable(Values(reg, name))
    ensures !died ==> env.vars == old(env.vars) - Values(reg, name).Keys
  {
    var list;
    died, list := Export(reg, env, name);
    if !died {
      Unexport(env, list);
      forall v ensures v in Unset(list) <==> v in Values(reg, name) {
        if v in Values(reg, name) {
          var k :| 0 <= k < |list| && list[k] == v;
          assert Unset(list) >= {BeforeEquals(list[k])};
        } else {
          assert forall k | 0 <= k < |list| :: list[k] in list;
        }
      }
    }
  }
}
