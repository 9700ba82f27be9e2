/**
 The option list of an event configuration: merging what the XML description defines
 (src/lib/event_xml_parser.c:119-166) with what .conf files set
 (src/lib/event_config.c:193-213). Both may name the same option.
 */
module OptionStore {
  import opened Basics
  import NumberFiles

  datatype Kind = TextOption | Bool | Password | Number | HintHtml

  /** event_option_t, as far as merging, exporting and storing use it. */
  datatype EventOption = EventOption(name: string, value: Option<string>, kind: Kind)

  type Options = seq<EventOption>

  predicate UniqueNames(options: Options) {
    forall i, j | 0 <= i < j < |options| :: options[i].name != options[j].name
  }

  /** The place of the first option called name, or the length of the list. */
  function Find(options: Options, name: string, from: nat := 0): (k: nat)
    requires from <= |options|
    ensures from <= k <= |options|
    ensures k < |options| ==> options[k].name == name
    ensures forall i | from <= i < k :: options[i].name != name
    decreases |options| - from
  {
    if from == |options| || options[from].name == name then from else Find(options, name, from + 1)
  }

  /** get_event_option_from_list, followed by taking the value. */
  function ValueOf(options: Options, name: string): Option<string> {
    var k := Find(options, name);
    if k < |options| then options[k].value else None
  }

  /** "%u" of the length of the list. */
  function Invented(length: nat): string { NumberFiles.Digits(length % 0x1_0000_0000) }

  /** One change to the list: an option element of the XML, or a line of a .conf file. */
  datatype Change =
    | Xml(given: Option<string>, default: Option<string>, kind: Kind)
    | Conf(name: string, value: string)
  {
    /** The option concerned; a nameless one is called after the length of the list. */
    function Name(length: nat): string {
      match this
      case Xml(None, _, _) => Invented(length)
      case Xml(Some(n), _, _) => n
      case Conf(n, _) => n
    }

    /** The option as it is after the change, was being what it was before if there was one. */
    function Updated(name: string, was: Option<EventOption>): EventOption {
      match this
      case Xml(_, default, kind) =>
        EventOption(name, if was.Some? && was.value.value.Some? then was.value.value else default, kind)
      case Conf(_, v) => EventOption(name, Some(v), if was.Some? then was.value.kind else TextOption)
    }
  }

  function Apply(options: Options, c: Change): Options {
    var name := c.Name(|options|);
    var k := Find(options, name);
    if k < |options| then options[k := c.Updated(name, Some(options[k]))] else options + [c.Updated(name, None)]
  }

  /** The list after the first end changes. */
  function Run(changes: seq<Change>, end: nat := |changes|): Options
    requires end <= |changes|
  {
    if end == 0 then [] else Apply(Run(changes, end - 1), changes[end - 1])
  }

  lemma RunNext(changes: seq<Change>, i: nat)
    requires i < |changes|
    ensures Run(changes, i + 1) == Apply(Run(changes, i), changes[i])
  {
  }

  /** The list once the first i of some more changes are made. */
  ghost function ListAt(done: seq<Change>, more: seq<Change>, i: nat): Options
    requires i <= |more|
  {
    Run(done + more, |done| + i)
  }

  lemma ListAtNext(done: seq<Change>, more: seq<Change>, i: nat)
    requires i < |more|
    ensures ListAt(done, more, i + 1) == Apply(ListAt(done, more, i), more[i])
  {
    assert (done + more)[|done| + i] == more[i];
    RunNext(done + more, |done| + i);
  }

  lemma ListAtEnds(done: seq<Change>, more: seq<Change>)
    ensures ListAt(done, more, 0) == Run(done) && ListAt(done, more, |more|) == Run(done + more)
  {
    RunOfPrefix(done, done + more, |done|);
  }

  lemma {:induction false} RunOfPrefix(a: seq<Change>, b: seq<Change>, end: nat)
    requires end <= |a| && end <= |b| && a[..end] == b[..end]
    ensures Run(a, end) == Run(b, end)
  {
    if end > 0 {
      assert a[..end - 1] == a[..end][..end - 1] && b[..end - 1] == b[..end][..end - 1];
      RunOfPrefix(a, b, end - 1);
      assert a[end - 1] == a[..end][end - 1] && b[end - 1] == b[..end][end - 1];
    }
  }

  /** event_config_t's list, changed in place. */
  class OptionList {
    var options: Options

    constructor ()
      ensures options == Run([])
    {
      options := [];
    }

    /** consume_cur_option for an option element that has ended. */
    method ConsumeCurOption(given: Option<string>, default: Option<string>, kind: Kind)
      modifies this
      ensures options == Apply(old(options), Xml(given, default, kind))
    {
      var name;
      if given.None? {
        name := Invented(|options|);
      } else {
        name := given.value;
      }
      var opt := EventOption(name, default, kind);
      var elem := Find(options, name);
      if elem < |options| {
        var oldOpt := options[elem];
        if oldOpt.value.Some? {
          opt := opt.(value := oldOpt.value);
        }
        options := options[elem := opt];
      } else {
        options := options + [opt];
      }
    }

    /** One turn of the merge loop of load_config_files. */
    method SetValue(line: Change)
      requires line.Conf?
      modifies this
      ensures options == Apply(old(options), line)
    {
      var elem := Find(options, line.name);
      if elem < |options| {
        options := options[elem := options[elem].(value := Some(line.value))];
      } else {
        options := options + [EventOption(line.name, Some(line.value), TextOption)];
      }
    }

    /** The merge loop of load_config_files, over the lines of one file. */
    method LoadConf(lines: seq<Change>, ghost done: seq<Change>)
      requires forall i | 0 <= i < |lines| :: lines[i].Conf?
      requires options == Run(done)
      modifies this
      ensures options == Run(done + lines)
    {
      var i := 0;
      ListAtEnds(done, lines);
      while i < |lines|
        invariant 0 <= i <= |lines| && options == ListAt(done, lines, i)
      {
        ListAtNext(done, lines, i);
        SetValue(lines[i]);
        i := i + 1;
      }
    }
  }

  // ----- every change -----

  lemma FindsFirst(options: Options, name: string, k: nat)
    requires k < |options| && options[k].name == name
    requires UniqueNames(options) || forall i | 0 <= i < k :: options[i].name != name
    ensures Find(options, name) == k
  {
    var f := Find(options, name);
    assert f <= k;
    assert options[f].name == name;
  }

  /** A change touches the option it names and no other; names and places stay. */
  lemma ApplyKeeps(options: Options, c: Change)
    requires UniqueNames(options)
    ensures UniqueNames(Apply(options, c))
    ensures |options| <= |Apply(options, c)| <= |options| + 1
    ensures forall i | 0 <= i < |options| :: Apply(options, c)[i].name == options[i].name
    ensures forall i | 0 <= i < |options| ::
      options[i].name != c.Name(|options|) ==> Apply(options, c)[i] == options[i]
  {}

  /** An XML default never displaces a value; a .conf line always sets one. */
  lemma ApplyValue(options: Options, c: Change, m: string)
    requires UniqueNames(options)
    ensures m != c.Name(|options|) ==> ValueOf(Apply(options, c), m) == ValueOf(options, m)
    ensures m == c.Name(|options|) && c.Conf? ==> ValueOf(Apply(options, c), m) == Some(c.value)
    ensures m == c.Name(|options|) && c.Xml? ==>
      ValueOf(Apply(options, c), m) == if ValueOf(options, m).Some? then ValueOf(options, m) else c.default
  {
    var after := Apply(options, c);
    var k := Find(options, m);
    ApplyKeeps(options, c);
    if k < |options| {
      FindsFirst(after, m, k);
    } else if m == c.Name(|options|) {
      FindsFirst(after, m, |options|);
    } else {
      assert forall i | 0 <= i < |after| :: after[i].name != m;
    }
  }

  // ----- every run -----

  lemma {:induction false} RunUnique(changes: seq<Change>, end: nat := |changes|)
    requires end <= |changes|
    ensures UniqueNames(Run(changes, end))
  {
    if end > 0 {
      RunUnique(changes, end - 1);
      ApplyKeeps(Run(changes, end - 1), changes[end - 1]);
    }
  }

  /** The option that change number i is about. */
  function NameAt(changes: seq<Change>, i: nat): string
    requires i < |changes|
  {
    changes[i].Name(|Run(changes, i)|)
  }

  /** What a change does to the value of one option. */
  predicate Obeys(c: Change, concerned: bool, before: Option<string>, after: Option<string>) {
    if !concerned then after == before
    else if c.Conf? then after == Some(c.value)
    else after == if before.Some? then before else c.default
  }

  /** values are the values an option has before each change and after the last one;
      about tells which changes concern it. */
  ghost predicate IsHistory(changes: seq<Change>, about: seq<bool>, values: seq<Option<string>>) {
    && |about| == |changes| && |values| == |changes| + 1 && values[0] == None
    && forall i | 0 <= i < |changes| :: Obeys(changes[i], about[i], values[i], values[i + 1])
  }

  ghost function ValuesOver(changes: seq<Change>, m: string): (values: seq<Option<string>>)
    ensures |values| == |changes| + 1
    ensures forall i | 0 <= i <= |changes| :: values[i] == ValueOf(Run(changes, i), m)
  {
    seq(|changes| + 1, i requires 0 <= i <= |changes| => ValueOf(Run(changes, i), m))
  }

  ghost function About(changes: seq<Change>, m: string): (about: seq<bool>)
    ensures |about| == |changes|
    ensures forall i | 0 <= i < |changes| :: about[i] == (NameAt(changes, i) == m)
  {
    seq(|changes|, i requires 0 <= i < |changes| => NameAt(changes, i) == m)
  }

  lemma RunObeys(changes: seq<Change>, i: nat, m: string)
    requires i < |changes|
    ensures Obeys(changes[i], NameAt(changes, i) == m, ValueOf(Run(changes, i), m), ValueOf(Run(changes, i + 1), m))
  {
    RunUnique(changes, i);
    RunNext(changes, i);
    ApplyValue(Run(changes, i), changes[i], m);
  }

  lemma RunIsHistory(changes: seq<Change>, m: string)
    ensures IsHistory(changes, About(changes, m), ValuesOver(changes, m))
  {
    assert Run(changes, 0) == [];
    forall i | 0 <= i < |changes|
      ensures Obeys(changes[i], About(changes, m)[i], ValuesOver(changes, m)[i], ValuesOver(changes, m)[i + 1])
    {
      RunObeys(changes, i, m);
    }
  }

  lemma {:induction false} ConfStays(changes: seq<Change>, about: seq<bool>, values: seq<Option<string>>, i: nat, end: nat)
    requires IsHistory(changes, about, values) && i < end <= |changes| && changes[i].Conf? && about[i]
    requires forall j | i < j < end :: !(changes[j].Conf? && about[j])
    ensures values[end] == Some(changes[i].value)
  {
    assert Obeys(changes[end - 1], about[end - 1], values[end - 1], values[end]);
    if i < end - 1 {
      ConfStays(changes, about, values, i, end - 1);
    }
  }

  /** The last .conf line for an option gives its value, whatever the XML says when. */
  lemma LastConfWins(changes: seq<Change>, i: nat, end: nat)
    requires i < end <= |changes| && changes[i].Conf?
    requires forall j | i < j < end :: !(changes[j].Conf? && changes[j].name == changes[i].name)
    ensures ValueOf(Run(changes, end), changes[i].name) == Some(changes[i].value)
  {
    var m := changes[i].name;
    RunIsHistory(changes, m);
    ConfStays(changes, About(changes, m), ValuesOver(changes, m), i, end);
  }

  lemma {:induction false} NoValueYet(changes: seq<Change>, about: seq<bool>, values: seq<Option<string>>, end: nat)
    requires IsHistory(changes, about, values) && end <= |changes|
    requires forall j | 0 <= j < end && about[j] :: changes[j].Xml? && changes[j].default.None?
    ensures values[end] == None
  {
    if end > 0 {
      NoValueYet(changes, about, values, end - 1);
      assert Obeys(changes[end - 1], about[end - 1], values[end - 1], values[end]);
    }
  }

  lemma {:induction false} ValueStays(changes: seq<Change>, about: seq<bool>, values: seq<Option<string>>, i: nat, end: nat)
    requires IsHistory(changes, about, values) && i <= end <= |changes| && values[i].Some?
    requires forall j | i <= j < end && about[j] :: changes[j].Xml?
    ensures values[end] == values[i]
  {
    if i < end {
      ValueStays(changes, about, values, i, end - 1);
      assert Obeys(changes[end - 1], about[end - 1], values[end - 1], values[end]);
    }
  }

  /** Without a .conf line for it, an option has the first default the XML gave it. */
  lemma FirstDefaultWins(changes: seq<Change>, m: string, i: nat, end: nat)
    requires i < end <= |changes|
    requires NameAt(changes, i) == m && changes[i].Xml? && changes[i].default.Some?
    requires forall j | 0 <= j < end :: NameAt(changes, j) == m ==> changes[j].Xml?
    requires forall j | 0 <= j < i :: NameAt(changes, j) == m ==> changes[j].default.None?
    ensures ValueOf(Run(changes, end), m) == changes[i].default
  {
    var about, values := About(changes, m), ValuesOver(changes, m);
    RunIsHistory(changes, m);
    NoValueYet(changes, about, values, i);
    assert Obeys(changes[i], about[i], values[i], values[i + 1]);
    ValueStays(changes, about, values, i + 1, end);
  }

  // ----- kinds -----

  function KindOf(options: Options, name: string): Option<Kind> {
    var k := Find(options, name);
    if k < |options| then Some(options[k].kind) else None
  }

  /** A change in the XML sets the kind; a .conf line keeps the one there is, or makes a text option. */
  lemma ApplyKind(options: Options, c: Change, m: string)
    requires UniqueNames(options)
    ensures m != c.Name(|options|) ==> KindOf(Apply(options, c), m) == KindOf(options, m)
    ensures m == c.Name(|options|) && c.Xml? ==> KindOf(Apply(options, c), m) == Some(c.kind)
    ensures m == c.Name(|options|) && c.Conf? ==>
      KindOf(Apply(options, c), m) == if KindOf(options, m).Some? then KindOf(options, m) else Some(TextOption)
  {
    var after := Apply(options, c);
    var k := Find(options, m);
    ApplyKeeps(options, c);
    if k < |options| {
      FindsFirst(after, m, k);
    } else if m == c.Name(|options|) {
      FindsFirst(after, m, |options|);
    } else {
      assert forall i | 0 <= i < |after| :: after[i].name != m;
    }
  }

  /** What a change does to the kind of one option. */
  predicate ObeysKind(c: Change, concerned: bool, before: Option<Kind>, after: Option<Kind>) {
    if !concerned then after == before
    else if c.Xml? then after == Some(c.kind)
    else after == if before.Some? then before else Some(TextOption)
  }

  ghost predicate IsKindHistory(changes: seq<Change>, about: seq<bool>, kinds: seq<Option<Kind>>) {
    && |about| == |changes| && |kinds| == |changes| + 1 && kinds[0] == None
    && forall i | 0 <= i < |changes| :: ObeysKind(changes[i], about[i], kinds[i], kinds[i + 1])
  }

  ghost function KindsOver(changes: seq<Change>, m: string): (kinds: seq<Option<Kind>>)
    ensures |kinds| == |changes| + 1
    ensures forall i | 0 <= i <= |changes| :: kinds[i] == KindOf(Run(changes, i), m)
  {
    seq(|changes| + 1, i requires 0 <= i <= |changes| => KindOf(Run(changes, i), m))
  }

  lemma RunObeysKind(changes: seq<Change>, i: nat, m: string)
    requires i < |changes|
    ensures ObeysKind(changes[i], NameAt(changes, i) == m, KindOf(Run(changes, i), m), KindOf(Run(changes, i + 1), m))
  {
    RunUnique(changes, i);
    RunNext(changes, i);
    ApplyKind(Run(changes, i), changes[i], m);
  }

  lemma RunIsKindHistory(changes: seq<Change>, m: string)
    ensures IsKindHistory(changes, About(changes, m), KindsOver(changes, m))
  {
    assert Run(changes, 0) == [];
    forall i | 0 <= i < |changes|
      ensures ObeysKind(changes[i], About(changes, m)[i], KindsOver(changes, m)[i], KindsOver(changes, m)[i + 1])
    {
      RunObeysKind(changes, i, m);
    }
  }

  lemma {:induction false} KindStays(changes: seq<Change>, about: seq<bool>, kinds: seq<Option<Kind>>, i: nat, end: nat)
    requires IsKindHistory(changes, about, kinds) && i <= end <= |changes|
    requires forall j | i <= j < end && about[j] :: changes[j].Conf?
    ensures kinds[i].Some? ==> kinds[end] == kinds[i]
    ensures kinds[i].None? ==> kinds[end] == None || kinds[end] == Some(TextOption)
    decreases end
  {
    if i < end {
      KindStays(changes, about, kinds, i, end - 1);
      assert ObeysKind(changes[end - 1], about[end - 1], kinds[end - 1], kinds[end]);
    }
  }

  /** The last XML element for an option gives its kind, whatever .conf lines say when. */
  lemma LastXmlKind(changes: seq<Change>, i: nat, end: nat)
    requires i < end <= |changes| && changes[i].Xml?
    requires forall j | i < j < end && NameAt(changes, j) == NameAt(changes, i) :: changes[j].Conf?
    ensures KindOf(Run(changes, end), NameAt(changes, i)) == Some(changes[i].kind)
  {
    var m := NameAt(changes, i);
    var about, kinds := About(changes, m), KindsOver(changes, m);
    RunIsKindHistory(changes, m);
    assert ObeysKind(changes[i], about[i], kinds[i], kinds[i + 1]);
    KindStays(changes, about, kinds, i + 1, end);
  }

  /** An option that the XML does not have is a text option. */
  lemma ConfOnlyKind(changes: seq<Change>, m: string, end: nat)
    requires end <= |changes| && forall j | 0 <= j < end && NameAt(changes, j) == m :: changes[j].Conf?
    ensures KindOf(Run(changes, end), m) == None || KindOf(Run(changes, end), m) == Some(TextOption)
  {
    RunIsKindHistory(changes, m);
    KindStays(changes, About(changes, m), KindsOver(changes, m), 0, end);
  }

  // ----- invented names -----

  /** A nameless option becomes a new one exactly when the invented name is not taken. */
  lemma NamelessAppendsIff(options: Options, default: Option<string>, kind: Kind)
    ensures Apply(options, Xml(None, default, kind)) ==
        options + [EventOption(Invented(|options|), default, kind)]
      <==> forall i | 0 <= i < |options| :: options[i].name != Invented(|options|)
  {
    var k := Find(options, Invented(|options|));
    assert k < |options| ==> options[k].name == Invented(|options|);
  }

  lemma InventedApart(m: nat, n: nat)
    requires m < n < 0x1_0000_0000
    ensures Invented(m) != Invented(n)
  {
    InventedSmall(m);
    InventedSmall(n);
    NumberFiles.ValueOfDigits(m);
    NumberFiles.ValueOfDigits(n);
  }

  lemma InventedSmall(length: nat)
    requires length < 0x1_0000_0000
    ensures Invented(length) == NumberFiles.Digits(length)
  {
    assert length % 0x1_0000_0000 == length;
  }

  predicate Nameless(c: Change) { c.Xml? && c.given.None? }

  function Length(changes: seq<Change>, i: nat): nat
    requires i <= |changes|
  {
    |Run(changes, i)|
  }

  lemma {:induction false} LengthGrows(changes: seq<Change>, i: nat, j: nat)
    requires i <= j <= |changes|
    ensures Length(changes, i) <= Length(changes, j) <= Length(changes, i) + (j - i)
  {
    if i < j {
      LengthGrows(changes, i, j - 1);
    }
  }

  predicate HasName(options: Options, name: string) { Find(options, name) < |options| }

  lemma HasNameAt(options: Options, k: nat)
    requires k < |options|
    ensures HasName(options, options[k].name)
  {
    assert Find(options, options[k].name) <= k;
  }

  lemma ApplyNames(options: Options, c: Change, name: string)
    ensures HasName(Apply(options, c), name) <==> HasName(options, name) || name == c.Name(|options|)
  {
    var after := Apply(options, c);
    HasNameAt(after, Find(options, c.Name(|options|)));
    forall i | 0 <= i < |options| ensures after[i].name == options[i].name {
    }
    if HasName(options, name) {
      HasNameAt(after, Find(options, name));
    }
    if HasName(after, name) && Find(after, name) < |options| {
      HasNameAt(options, Find(after, name));
    }
  }

  lemma {:induction false} Accumulates(has: seq<bool>, about: seq<bool>, end: nat)
    requires |has| == |about| + 1 && !has[0] && end <= |about|
    requires forall i | 0 <= i < |about| :: has[i + 1] == (has[i] || about[i])
    ensures has[end] <==> exists j :: 0 <= j < end && about[j]
  {
    if end > 0 {
      Accumulates(has, about, end - 1);
      assert has[(end - 1) + 1] == (has[end - 1] || about[end - 1]);
    }
  }

  ghost function Names(changes: seq<Change>, name: string): (has: seq<bool>)
    ensures |has| == |changes| + 1
    ensures forall i | 0 <= i <= |changes| :: has[i] == HasName(Run(changes, i), name)
  {
    seq(|changes| + 1, i requires 0 <= i <= |changes| => HasName(Run(changes, i), name))
  }

  lemma RunNamesNext(changes: seq<Change>, i: nat, name: string)
    requires i < |changes|
    ensures HasName(Run(changes, i + 1), name) <==> HasName(Run(changes, i), name) || NameAt(changes, i) == name
  {
    RunNext(changes, i);
    ApplyNames(Run(changes, i), changes[i], name);
  }

  /** The names of a run are those its changes are about. */
  lemma RunNames(changes: seq<Change>, end: nat, name: string)
    requires end <= |changes|
    ensures HasName(Run(changes, end), name) <==> exists j :: 0 <= j < end && NameAt(changes, j) == name
  {
    var has, about := Names(changes, name), About(changes, name);
    assert Run(changes, 0) == [];
    forall i | 0 <= i < |changes| ensures has[i + 1] == (has[i] || about[i]) {
      RunNamesNext(changes, i, name);
    }
    Accumulates(has, about, end);
    if j :| 0 <= j < end && NameAt(changes, j) == name {
      assert about[j];
    }
    if j :| 0 <= j < end && about[j] {
      assert NameAt(changes, j) == name;
    }
  }

  /** Change number i adds an option to the list. */
  predicate Appends(changes: seq<Change>, i: nat)
    requires i < |changes|
  {
    Length(changes, i + 1) == Length(changes, i) + 1
  }

  lemma AppendsIff(changes: seq<Change>, i: nat)
    requires i < |changes|
    ensures Appends(changes, i) <==> forall j | 0 <= j < i :: NameAt(changes, j) != NameAt(changes, i)
  {
    RunNames(changes, i, NameAt(changes, i));
  }

  /** The given name of change j is the one invented for change i. */
  predicate Collides(changes: seq<Change>, j: nat, i: nat)
    requires j < i < |changes|
  {
    !Nameless(changes[j]) && Nameless(changes[i]) && NameAt(changes, j) == NameAt(changes, i)
  }

  lemma InventedMeetsNone(changes: seq<Change>, i: nat, last: nat)
    requires i < last < |changes| && last < 0x1_0000_0000
    requires Nameless(changes[i]) && Appends(changes, i) && Nameless(changes[last])
    ensures NameAt(changes, i) != NameAt(changes, last)
  {
    LengthGrows(changes, i + 1, last);
    LengthGrows(changes, 0, last);
    InventedApart(Length(changes, i), Length(changes, last));
  }

  ghost predicate AllNew(changes: seq<Change>, end: nat)
    requires end <= |changes|
  {
    forall i | 0 <= i < end && Nameless(changes[i]) :: Appends(changes, i)
  }

  ghost predicate NoneCollides(changes: seq<Change>, end: nat)
    requires end <= |changes|
  {
    forall j, i | 0 <= j < i < end :: !Collides(changes, j, i)
  }

  lemma LastIsNew(changes: seq<Change>, last: nat)
    requires last < |changes| && last < 0x1_0000_0000 && AllNew(changes, last) && Nameless(changes[last])
    ensures Appends(changes, last) <==> forall j | 0 <= j < last :: !Collides(changes, j, last)
  {
    AppendsIff(changes, last);
    forall j | 0 <= j < last && Nameless(changes[j]) ensures NameAt(changes, j) != NameAt(changes, last) {
      InventedMeetsNone(changes, j, last);
    }
    if !Appends(changes, last) {
      var j :| 0 <= j < last && NameAt(changes, j) == NameAt(changes, last);
      assert Collides(changes, j, last);
    }
  }

  /** In a run every nameless option becomes a new one exactly when no name given before
      it is the one invented for it; invented names never meet each other. */
  lemma {:induction false} NamelessNewIff(changes: seq<Change>, end: nat)
    requires end <= |changes| && end < 0x1_0000_0000
    ensures AllNew(changes, end) <==> NoneCollides(changes, end)
  {
    if end > 0 {
      var last := end - 1;
      NamelessNewIff(changes, last);
      if AllNew(changes, last) && Nameless(changes[last]) {
        LastIsNew(changes, last);
      }
    }
  }

  /** An option called "1" and a nameless one after it: the second replaces the first. */
  lemma NamelessReplaces()
    ensures Run([Xml(Some("1"), Some("v"), TextOption), Xml(None, None, HintHtml)])
      == [EventOption("1", Some("v"), HintHtml)]
  {
    var changes := [Xml(Some("1"), Some("v"), TextOption), Xml(None, None, HintHtml)];
    assert Run(changes, 0) == [];
    assert Run(changes, 1) == [EventOption("1", Some("v"), TextOption)];
    InventedSmall(1);
    assert NumberFiles.Digits(1) == "1";
  }
}
