/**
 Saving and loading a configuration file (src/lib/configuration_files.c:263-318 and
 382-498). The augeas library is taken as a map from tree path to value, written to
 the file by aug_save. Saving removes the options that are no longer set by sorting
 the old paths, finding each new one by bisection and shifting it out of the array.
 */
module ConfFile {
  import opened Basics

  type Options = map<string, string>

  // ----- strcmp as an order -----

  function Compare(a: string, b: string): int {
    if a == [] then (if b == [] then 0 else -1)
    else if b == [] then 1
    else if a[0] < b[0] then -1
    else if a[0] > b[0] then 1
    else Compare(a[1..], b[1..])
  }

  predicate Less(a: string, b: string) { Compare(a, b) < 0 }

  lemma {:induction false} CompareEqual(a: string, b: string)
    ensures Compare(a, b) == 0 <==> a == b
  {
    if a != [] && b != [] && a[0] == b[0] {
      CompareEqual(a[1..], b[1..]);
      assert a == [a[0]] + a[1..] && b == [b[0]] + b[1..];
    }
  }

  lemma {:induction false} CompareSwap(a: string, b: string)
    ensures Compare(a, b) == -Compare(b, a)
  {
    if a != [] && b != [] && a[0] == b[0] {
      CompareSwap(a[1..], b[1..]);
    }
  }

  lemma {:induction false} LessTransitive(a: string, b: string, c: string)
    requires Less(a, b) && Less(b, c)
    ensures Less(a, c)
  {
    if a != [] && b != [] && c != [] && a[0] == b[0] == c[0] {
      LessTransitive(a[1..], b[1..], c[1..]);
    }
  }

  ghost predicate Sorted(s: seq<string>) {
    forall i, j | 0 <= i < j < |s| :: Less(s[i], s[j])
  }

  // ----- qsort -----

  function Insert(x: string, s: seq<string>): seq<string> {
    if s == [] || Less(x, s[0]) then [x] + s else [s[0]] + Insert(x, s[1..])
  }

  /** What qsort makes of pairwise different strings. */
  function Sort(s: seq<string>): seq<string> {
    if s == [] then [] else Insert(s[0], Sort(s[1..]))
  }

  lemma {:induction false} InsertSorted(x: string, s: seq<string>)
    requires Sorted(s) && x !in s
    ensures Sorted(Insert(x, s))
    ensures forall y :: y in Insert(x, s) <==> y == x || y in s
  {
    if s != [] {
      if Less(x, s[0]) {
        forall i | 1 <= i < |s| ensures Less(x, s[i]) {
          LessTransitive(x, s[0], s[i]);
        }
      } else {
        InsertSorted(x, s[1..]);
        CompareEqual(x, s[0]);
        CompareSwap(x, s[0]);
        var rest := Insert(x, s[1..]);
        forall i | 0 <= i < |rest| ensures Less(s[0], rest[i]) {
          assert rest[i] in rest;
          if rest[i] != x {
            var j :| 0 <= j < |s[1..]| && s[1..][j] == rest[i];
            assert s[j + 1] == rest[i];
          }
        }
      }
      assert s == [s[0]] + s[1..];
    }
  }

  lemma {:induction false} SortSorts(s: seq<string>)
    requires Distinct(s)
    ensures Sorted(Sort(s)) && forall y :: y in Sort(s) <==> y in s
  {
    if s != [] {
      SortSorts(s[1..]);
      assert s[0] !in s[1..];
      InsertSorted(s[0], Sort(s[1..]));
      assert s == [s[0]] + s[1..];
    }
  }

  // ----- bsearch and the shift -----

  /** bsearch in the first count entries: the index of key, or -1. */
  method Bsearch(names: array<string>, count: nat, key: string) returns (opt: int)
    requires count <= names.Length && Sorted(names[..count])
    ensures -1 <= opt < count
    ensures if opt >= 0 then names[opt] == key else key !in names[..count]
  {
    var lo, hi := 0, count;
    ghost var s := names[..count];
    while lo < hi
      invariant 0 <= lo <= hi <= count
      invariant forall i | 0 <= i < lo :: Less(s[i], key)
      invariant forall i | hi <= i < count :: Less(key, s[i])
    {
      var mid := (lo + hi) / 2;
      var c := Compare(names[mid], key);
      CompareEqual(names[mid], key);
      CompareSwap(names[mid], key);
      assert s[mid] == names[mid];
      if c == 0 {
        return mid;
      } else if c < 0 {
        forall i | 0 <= i < mid ensures Less(s[i], key) {
          LessTransitive(s[i], s[mid], key);
        }
        lo := mid + 1;
      } else {
        forall i | mid < i < count ensures Less(key, s[i]) {
          LessTransitive(key, s[mid], s[i]);
        }
        hi := mid;
      }
    }
    forall i | 0 <= i < count ensures s[i] != key {
      CompareEqual(s[i], key);
      CompareEqual(key, s[i]);
    }
    return -1;
  }

  /** Moves the entries behind opt one place forward. */
  method ShiftOut(names: array<string>, count: nat, opt: nat)
    requires opt < count <= names.Length
    modifies names
    ensures names[..count - 1] == RemoveAt(old(names[..count]), opt)
  {
    var iter := opt;
    while iter != count - 1
      invariant opt <= iter <= count - 1
      invariant forall i | 0 <= i < opt :: names[i] == old(names[i])
      invariant forall i | opt <= i < iter :: names[i] == old(names[i + 1])
      invariant forall i | iter <= i < count :: names[i] == old(names[i])
    {
      names[iter] := names[iter + 1];
      iter := iter + 1;
    }
  }

  lemma RemoveAtMembers(s: seq<string>, i: nat)
    requires i < |s| && Sorted(s)
    ensures Sorted(RemoveAt(s, i))
    ensures forall x :: x in RemoveAt(s, i) <==> x in s && x != s[i]
  {
    var r := RemoveAt(s, i);
    assert forall j | 0 <= j < |r| :: r[j] == if j < i then s[j] else s[j + 1];
    forall j | 0 <= j < |s| && j != i ensures s[j] != s[i] && s[j] in r {
      CompareEqual(s[j], s[i]);
      CompareEqual(s[i], s[j]);
      assert s[j] == r[if j < i then j else j - 1];
    }
  }

  // ----- saving -----

  /** The augeas handle: its tree, and the file aug_save writes. */
  class Augeas {
    var tree: Options
    var file: Options

    constructor (file: Options)
      ensures tree == file && this.file == file
    {
      this.tree := file;
      this.file := file;
    }
  }

  /** One entry of the settings, in the order the hash table delivers them. */
  datatype Setting = Setting(name: string, value: string)

  predicate DistinctNames(settings: seq<Setting>) {
    forall i, j | 0 <= i < j < |settings| :: settings[i].name != settings[j].name
  }

  /** The settings as options of the file whose tree paths begin with base. */
  function AsOptions(base: string, settings: seq<Setting>): Options {
    if settings == [] then map[]
    else
      var last := settings[|settings| - 1];
      AsOptions(base, settings[..|settings| - 1])[base + last.name := last.value]
  }

  lemma {:induction false} AsOptionsKeys(base: string, settings: seq<Setting>, path: string)
    ensures path in AsOptions(base, settings) <==> exists i | 0 <= i < |settings| :: path == base + settings[i].name
  {
    if settings != [] {
      var front := settings[..|settings| - 1];
      AsOptionsKeys(base, front, path);
      assert forall i | 0 <= i < |front| :: front[i] == settings[i];
    }
  }

  lemma AsOptionsStep(base: string, settings: seq<Setting>, i: nat)
    requires i < |settings|
    ensures AsOptions(base, settings[..i + 1])
         == AsOptions(base, settings[..i])[base + settings[i].name := settings[i].value]
  {
    assert settings[..i + 1][..i] == settings[..i];
  }

  /** names lists in order the old paths that no setting visited so far uses. */
  ghost predicate Remaining(names: seq<string>, was: Options, visited: Options) {
    Sorted(names) && forall p :: p in names <==> p in was && p !in visited
  }

  lemma RemainingWithout(names: seq<string>, opt: nat, was: Options, visited: Options, value: string)
    requires Remaining(names, was, visited) && opt < |names|
    ensures Remaining(RemoveAt(names, opt), was, visited[names[opt] := value])
  {
    RemoveAtMembers(names, opt);
  }

  /** Where the library may fail: the paths aug_set and aug_rm refuse, and aug_save. */
  datatype Faults = Faults(unsettable: set<string>, unremovable: set<string>, unsavable: bool)

  predicate Settable(base: string, settings: seq<Setting>, faults: Faults) {
    forall i | 0 <= i < |settings| :: base + settings[i].name !in faults.unsettable
  }

  predicate Removable(was: Options, wanted: Options, faults: Faults) {
    forall p | p in was && p !in wanted :: p !in faults.unremovable
  }

  /** Finds path among the first count names and shifts it out if it is there. */
  method StrikeOff(names: array<string>, count: nat, path: string, ghost was: Options, ghost visited: Options,
                   ghost value: string) returns (left: nat)
    requires count <= names.Length && Remaining(names[..count], was, visited)
    modifies names
    ensures left <= count && Remaining(names[..left], was, visited[path := value])
  {
    var opt := Bsearch(names, count, path);
    if opt >= 0 {
      RemainingWithout(names[..count], opt, was, visited, value);
      ShiftOut(names, count, opt);
      left := count - 1;
    } else {
      left := count;
    }
  }

  lemma UpdateRight(was: Options, visited: Options, path: string, value: string)
    ensures (was + visited)[path := value] == was + visited[path := value]
  {}

  /** The first loop of save_conf_file: sets every option and strikes it off the names. */
  method SetOptions(aug: Augeas, base: string, settings: seq<Setting>, names: array<string>, faults: Faults)
    returns (ok: bool, count: nat)
    requires Remaining(names[..], aug.tree, map[])
    modifies aug`tree, names
    ensures ok <==> Settable(base, settings, faults)
    ensures ok ==> aug.tree == old(aug.tree) + AsOptions(base, settings)
    ensures ok ==> count <= names.Length && Remaining(names[..count], old(aug.tree), AsOptions(base, settings))
  {
    count := names.Length;
    assert names[..count] == names[..];
    ghost var was, visited := aug.tree, AsOptions(base, []);
    assert settings[..0] == [];
    var i := 0;
    while i < |settings|
      invariant 0 <= i <= |settings| && count <= names.Length
      invariant forall k | 0 <= k < i :: base + settings[k].name !in faults.unsettable
      invariant visited == AsOptions(base, settings[..i])
      invariant aug.tree == was + visited
      invariant Remaining(names[..count], was, visited)
    {
      var path, value := base + settings[i].name, settings[i].value;
      AsOptionsStep(base, settings, i);
      UpdateRight(was, visited, path, value);
      var ret := if path in faults.unsettable then -1 else 0;
      if ret == 0 {
        aug.tree := aug.tree[path := value];
      }
      count := StrikeOff(names, count, path, was, visited, value);
      visited := visited[path := value];
      if ret < 0 {
        return false, count;
      }
      i := i + 1;
    }
    assert settings[..i] == settings;
    return true, count;
  }

  function Members(names: seq<string>): set<string> {
    set k | 0 <= k < |names| :: names[k]
  }

  /** The second loop: removes the options whose names are left. */
  method RemoveOptions(aug: Augeas, names: array<string>, count: nat, faults: Faults) returns (ok: bool)
    requires count <= names.Length
    modifies aug`tree
    ensures ok <==> forall k | 0 <= k < count :: names[k] !in faults.unremovable
    ensures ok ==> aug.tree == old(aug.tree) - Members(names[..count])
  {
    var i := 0;
    while i < count
      invariant 0 <= i <= count
      invariant forall k | 0 <= k < i :: names[k] !in faults.unremovable
      invariant aug.tree == old(aug.tree) - Members(names[..i])
    {
      if names[i] in faults.unremovable {
        return false;
      }
      aug.tree := aug.tree - {names[i]};
      assert names[..i + 1] == names[..i] + [names[i]];
      assert Members(names[..i + 1]) == Members(names[..i]) + {names[i]};
      i := i + 1;
    }
    return true;
  }

  lemma StaleRemoved(was: Options, wanted: Options, stale: seq<string>, faults: Faults)
    requires Remaining(stale, was, wanted)
    ensures (was + wanted) - Members(stale) == wanted
    ensures Removable(was, wanted, faults) <==> forall k | 0 <= k < |stale| :: stale[k] !in faults.unremovable
  {
    assert forall p :: p in Members(stale) <==> p in stale;
    forall p | p in was && p !in wanted ensures exists k | 0 <= k < |stale| :: stale[k] == p {
      assert p in stale;
    }
    assert forall k | 0 <= k < |stale| :: stale[k] in stale;
  }

  /** save_conf_file. matches is what aug_match delivers: every option of the file once. */
  method Save(aug: Augeas, base: string, settings: seq<Setting>, matches: seq<string>, faults: Faults)
    returns (ok: bool)
    requires Distinct(matches) && forall p :: p in matches <==> p in aug.tree
    modifies aug
    ensures ok <==>
      && Settable(base, settings, faults)
      && Removable(old(aug.tree), AsOptions(base, settings), faults)
      && !faults.unsavable
    ensures ok ==> aug.file == aug.tree == AsOptions(base, settings)
    ensures !ok ==> aug.file == old(aug.file)
  {
    ghost var was := aug.tree;
    SortSorts(matches);
    var sorted := Sort(matches);
    var names := new string[|sorted|](i requires 0 <= i < |sorted| => sorted[i]);
    assert names[..] == sorted;
    var allSet, count := SetOptions(aug, base, settings, names, faults);
    if !allSet {
      return false;
    }
    StaleRemoved(was, AsOptions(base, settings), names[..count], faults);
    var allRemoved := RemoveOptions(aug, names, count, faults);
    if !allRemoved || faults.unsavable {
      return false;
    }
    aug.file := aug.tree;
    return true;
  }

  // ----- loading -----

  /** What follows the last slash of a path. */
  function OptionOf(path: string): (option: string)
    ensures '/' !in option
  {
    if path == [] || path[|path| - 1] == '/' then []
    else OptionOf(path[..|path| - 1]) + [path[|path| - 1]]
  }

  lemma {:induction false} OptionOfJoined(base: string, name: string)
    requires base != [] && base[|base| - 1] == '/' && '/' !in name
    ensures OptionOf(base + name) == name
  {
    if name == [] {
      assert base + name == base;
    } else {
      var front := name[..|name| - 1];
      OptionOfJoined(base, front);
      assert (base + name)[..|base + name| - 1] == base + front;
    }
  }

  /** What reading the options named by matches sets. */
  function Reading(tree: Options, matches: seq<string>, skipKeysWithoutValue: bool): Options {
    if matches == [] then map[]
    else
      var before := Reading(tree, matches[..|matches| - 1], skipKeysWithoutValue);
      var path := matches[|matches| - 1];
      if path !in tree || (skipKeysWithoutValue && tree[path] == "") then before
      else before[OptionOf(path) := tree[path]]
  }

  predicate Readable(settings: seq<Setting>, skipKeysWithoutValue: bool) {
    forall i | 0 <= i < |settings| ::
      '/' !in settings[i].name && (skipKeysWithoutValue ==> settings[i].value != "")
  }

  lemma {:induction false} ValueSaved(base: string, settings: seq<Setting>, i: nat)
    requires DistinctNames(settings) && i < |settings|
    ensures base + settings[i].name in AsOptions(base, settings)
    ensures AsOptions(base, settings)[base + settings[i].name] == settings[i].value
  {
    var last := |settings| - 1;
    if i < last {
      ValueSaved(base, settings[..last], i);
      assert settings[i].name != settings[last].name;
      assert (base + settings[i].name)[|base|..] == settings[i].name;
      assert (base + settings[last].name)[|base|..] == settings[last].name;
    }
  }

  lemma {:induction false} ReadingIsPlain(tree: Options, matches: seq<string>, skipKeysWithoutValue: bool, option: string)
    requires option in Reading(tree, matches, skipKeysWithoutValue)
    ensures '/' !in option
    ensures skipKeysWithoutValue ==> Reading(tree, matches, skipKeysWithoutValue)[option] != ""
    ensures exists m | m in matches && m in tree ::
      OptionOf(m) == option && Reading(tree, matches, skipKeysWithoutValue)[option] == tree[m]
  {
    var last := matches[|matches| - 1];
    var before := Reading(tree, matches[..|matches| - 1], skipKeysWithoutValue);
    if Reading(tree, matches, skipKeysWithoutValue) == before || option != OptionOf(last) {
      ReadingIsPlain(tree, matches[..|matches| - 1], skipKeysWithoutValue, option);
      assert forall m | m in matches[..|matches| - 1] :: m in matches;
    } else {
      assert last in matches;
    }
  }

  lemma {:induction false} ReadingReads(tree: Options, matches: seq<string>, skipKeysWithoutValue: bool, path: string)
    requires path in matches && path in tree && (skipKeysWithoutValue ==> tree[path] != "")
    ensures OptionOf(path) in Reading(tree, matches, skipKeysWithoutValue)
  {
    var front := matches[..|matches| - 1];
    if path in front {
      ReadingReads(tree, front, skipKeysWithoutValue, path);
    } else {
      assert matches == front + [matches[|matches| - 1]];
    }
  }

  /** Where two matches end in the same option the later one counts. */
  lemma {:induction false} LastMatchWins(tree: Options, matches: seq<string>, skipKeysWithoutValue: bool, k: nat)
    requires k < |matches| && matches[k] in tree && !(skipKeysWithoutValue && tree[matches[k]] == "")
    requires forall i | k < i < |matches| && matches[i] in tree && !(skipKeysWithoutValue && tree[matches[i]] == "") ::
      OptionOf(matches[i]) != OptionOf(matches[k])
    ensures OptionOf(matches[k]) in Reading(tree, matches, skipKeysWithoutValue)
    ensures Reading(tree, matches, skipKeysWithoutValue)[OptionOf(matches[k])] == tree[matches[k]]
    decreases |matches|
  {
    if k < |matches| - 1 {
      LastMatchWins(tree, matches[..|matches| - 1], skipKeysWithoutValue, k);
    }
  }

  /** Loading a saved file gives the settings back exactly when each one can be read. */
  lemma LoadAfterSave(base: string, settings: seq<Setting>, matches: seq<string>, skipKeysWithoutValue: bool)
    requires base != [] && base[|base| - 1] == '/' && DistinctNames(settings)
    requires forall p :: p in matches <==> p in AsOptions(base, settings)
    ensures Reading(AsOptions(base, settings), matches, skipKeysWithoutValue) == AsOptions("", settings)
       <==> Readable(settings, skipKeysWithoutValue)
  {
    var tree, wanted := AsOptions(base, settings), AsOptions("", settings);
    var got := Reading(tree, matches, skipKeysWithoutValue);
    forall i | 0 <= i < |settings|
      ensures settings[i].name in wanted && wanted[settings[i].name] == settings[i].value
    {
      ValueSaved("", settings, i);
      assert "" + settings[i].name == settings[i].name;
    }
    if got == wanted {
      forall i | 0 <= i < |settings|
        ensures '/' !in settings[i].name && (skipKeysWithoutValue ==> settings[i].value != "")
      {
        ReadingIsPlain(tree, matches, skipKeysWithoutValue, settings[i].name);
      }
    }
    if Readable(settings, skipKeysWithoutValue) {
      forall o | o in wanted ensures o in got {
        AsOptionsKeys("", settings, o);
        var i :| 0 <= i < |settings| && o == "" + settings[i].name;
        ValueSaved(base, settings, i);
        OptionOfJoined(base, settings[i].name);
        ReadingReads(tree, matches, skipKeysWithoutValue, base + settings[i].name);
        assert "" + settings[i].name == settings[i].name;
      }
      forall o | o in got ensures o in wanted && got[o] == wanted[o] {
        ReadingIsPlain(tree, matches, skipKeysWithoutValue, o);
        var m :| m in matches && m in tree && OptionOf(m) == o && got[o] == tree[m];
        AsOptionsKeys(base, settings, m);
        var i :| 0 <= i < |settings| && m == base + settings[i].name;
        ValueSaved(base, settings, i);
        OptionOfJoined(base, settings[i].name);
      }
    }
  }

  /** A map_string_t. */
  class Settings {
    var items: Options

    constructor ()
      ensures items == map[]
    {
      items := map[];
    }

    /** load_conf_file; the options read before one whose value cannot be got stay. */
    method Load(tree: Options, matches: seq<string>, unreadable: set<string>, skipKeysWithoutValue: bool)
      returns (ok: bool, ghost read_: nat)
      requires forall p | p in matches :: p in tree
      modifies this
      ensures read_ <= |matches| && forall k | 0 <= k < read_ :: matches[k] !in unreadable
      ensures if read_ < |matches| then !ok && matches[read_] in unreadable else ok
      ensures items == old(items) + Reading(tree, matches[..read_], skipKeysWithoutValue)
    {
      var i := 0;
      while i < |matches|
        invariant 0 <= i <= |matches|
        invariant forall k | 0 <= k < i :: matches[k] !in unreadable
        invariant items == old(items) + Reading(tree, matches[..i], skipKeysWithoutValue)
      {
        assert matches[..i + 1][..i] == matches[..i];
        if matches[i] in unreadable {
          return false, i;
        }
        var value := tree[matches[i]];
        if !skipKeysWithoutValue || value != "" {
          items := items[OptionOf(matches[i]) := value];
        }
        i := i + 1;
      }
      return true, i;
    }
  }
}
