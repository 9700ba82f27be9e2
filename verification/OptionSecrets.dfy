/**
 Event options as a secret of the key ring (src/gtk-helpers/secrets.c): written as
 name=value and a zero byte each (lines 992-1023), and read back into an option list
 (lines 1323-1357).
 */
module OptionSecrets {
  import opened Basics
  import opened OptionStore

  const NUL := '\0'

  predicate NoNul(s: string) { NUL !in s }

  /** What holds of an option whose strings are C strings. */
  predicate CStrings(options: Options) {
    forall i | 0 <= i < |options| ::
      NoNul(options[i].name) && (options[i].value.Some? ==> NoNul(options[i].value.value))
  }

  predicate Stored(op: EventOption, storePasswords: bool) {
    op.value.Some? && (op.kind != Password || storePasswords)
  }

  function Entry(name: string, value: string): string { name + "=" + value }

  // ----- writing -----

  /** The secret of the options from number i on. */
  function Secret(options: Options, storePasswords: bool, i: nat := 0): string
    requires i <= |options|
    decreases |options| - i
  {
    if i == |options| then ""
    else if Stored(options[i], storePasswords) then
      Entry(options[i].name, options[i].value.value) + [NUL] + Secret(options, storePasswords, i + 1)
    else Secret(options, storePasswords, i + 1)
  }

  /** Appends the bytes of a string one by one. */
  method AddBytes(builder: string, bytes: string) returns (r: string)
    ensures r == builder + bytes
  {
    r := builder;
    var byte := 0;
    while byte < |bytes|
      invariant 0 <= byte <= |bytes| && r == builder + bytes[..byte]
    {
      r := r + [bytes[byte]];
      byte := byte + 1;
    }
    assert bytes[..byte] == bytes;
  }

  /** One turn of the loop for an option that is stored. */
  method AddOption(builder: string, op: EventOption, ghost rest: string) returns (r: string)
    requires op.value.Some?
    ensures r + rest == builder + (Entry(op.name, op.value.value) + [NUL] + rest)
  {
    r := AddBytes(builder, op.name);
    r := r + "=";
    r := AddBytes(r, op.value.value);
    r := r + [NUL];
    assert r == builder + (Entry(op.name, op.value.value) + [NUL]);
  }

  /** create_secret_from_options, the bytes of it. */
  method CreateSecret(options: Options, storePasswords: bool) returns (value: string)
    ensures value == Secret(options, storePasswords)
  {
    value := "";
    var iter := 0;
    while iter < |options|
      invariant 0 <= iter <= |options|
      invariant value + Secret(options, storePasswords, iter) == Secret(options, storePasswords)
    {
      var op := options[iter];
      if op.value.Some? && (op.kind != Password || storePasswords) {
        value := AddOption(value, op, Secret(options, storePasswords, iter + 1));
      }
      iter := iter + 1;
    }
  }

  // ----- reading -----

  /** One name=value text put into the list, if the list knows the name. */
  function WithEntry(options: Options, entry: string): Options {
    var d := IndexOf(entry, '=');
    if d == |entry| then options
    else
      var k := Find(options, entry[..d]);
      if k == |options| then options else options[k := options[k].(value := Some(entry[d + 1..]))]
  }

  /** What reading data makes of the list; an unterminated text at the end is dropped. */
  function Loaded(options: Options, data: string): Options
    decreases |data|
  {
    var end := IndexOf(data, NUL);
    if end == |data| then options else Loaded(WithEntry(options, data[..end]), data[end + 1..])
  }

  /** The reading loop of load_event_options_from_item. */
  method LoadSecret(list: OptionList, secret: string)
    modifies list
    ensures list.options == Loaded(old(list.options), secret)
  {
    var data, nelems := secret, |secret|;
    while nelems > 0
      invariant nelems == |data|
      invariant Loaded(list.options, data) == Loaded(old(list.options), secret)
    {
      var sz := IndexOf(data, NUL) + 1;
      if sz > nelems {
        break;
      }
      nelems := nelems - sz;
      var text := data[..sz - 1];
      var delimiter := IndexOf(text, '=');
      if delimiter < |text| {
        var name, value := text[..delimiter], text[delimiter + 1..];
        var option := Find(list.options, name);
        if option < |list.options| {
          list.options := list.options[option := list.options[option].(value := Some(value))];
        }
      }
      data := data[sz..];
    }
  }

  // ----- the round trip -----

  predicate SameNames(a: Options, b: Options) {
    |a| == |b| && forall i | 0 <= i < |a| :: a[i].name == b[i].name
  }

  /** No stored option has the delimiter in its name. */
  predicate PlainNames(options: Options, storePasswords: bool) {
    forall i | 0 <= i < |options| && Stored(options[i], storePasswords) :: '=' !in options[i].name
  }

  /** The list into with the values of the stored options from number i on put back. */
  function Restored(into: Options, options: Options, storePasswords: bool, i: nat := 0): (r: Options)
    requires SameNames(into, options)
  {
    seq(|into|, k requires 0 <= k < |into| =>
      if k >= i && Stored(options[k], storePasswords) then into[k].(value := options[k].value) else into[k])
  }

  lemma IndexIs(s: string, c: char, from: nat, k: nat)
    requires from <= k < |s| && s[k] == c && forall i | from <= i < k :: s[i] != c
    ensures IndexOf(s, c, from) == k
  {
    var r := IndexOf(s, c, from);
    assert r <= k;
  }

  lemma EntryDecodes(into: Options, k: nat, value: string)
    requires UniqueNames(into) && k < |into| && '=' !in into[k].name
    ensures WithEntry(into, Entry(into[k].name, value)) == into[k := into[k].(value := Some(value))]
  {
    var name := into[k].name;
    var entry := Entry(name, value);
    assert entry[..|name|] == name && entry[|name| + 1..] == value;
    IndexIs(entry, '=', 0, |name|);
    FindsFirst(into, name, k);
  }

  lemma FirstEntry(into: Options, entry: string, rest: string)
    requires NoNul(entry)
    ensures Loaded(into, entry + [NUL] + rest) == Loaded(WithEntry(into, entry), rest)
  {
    var data := entry + [NUL] + rest;
    IndexIs(data, NUL, 0, |entry|);
    assert data[..|entry|] == entry && data[|entry| + 1..] == rest;
  }

  lemma RestoredStep(into: Options, options: Options, storePasswords: bool, i: nat)
    requires SameNames(into, options) && i < |options|
    ensures var next := if Stored(options[i], storePasswords) then into[i := into[i].(value := options[i].value)] else into;
      SameNames(next, options) && Restored(into, options, storePasswords, i) == Restored(next, options, storePasswords, i + 1)
  {}

  lemma SecretStep(options: Options, storePasswords: bool, i: nat)
    requires CStrings(options) && i < |options| && Stored(options[i], storePasswords)
    ensures var entry := Entry(options[i].name, options[i].value.value);
      NoNul(entry) && Secret(options, storePasswords, i) == entry + [NUL] + Secret(options, storePasswords, i + 1)
  {}

  lemma {:induction false} LoadedRest(into: Options, options: Options, storePasswords: bool, i: nat)
    requires SameNames(into, options) && UniqueNames(options) && CStrings(options)
    requires PlainNames(options, storePasswords) && i <= |options|
    ensures Loaded(into, Secret(options, storePasswords, i)) == Restored(into, options, storePasswords, i)
    decreases |options| - i
  {
    if i == |options| {
      assert Restored(into, options, storePasswords, i) == into;
    } else {
      RestoredStep(into, options, storePasswords, i);
      if Stored(options[i], storePasswords) {
        var value := options[i].value.value;
        SecretStep(options, storePasswords, i);
        FirstEntry(into, Entry(options[i].name, value), Secret(options, storePasswords, i + 1));
        assert UniqueNames(into);
        EntryDecodes(into, i, value);
        LoadedRest(into[i := into[i].(value := options[i].value)], options, storePasswords, i + 1);
      } else {
        LoadedRest(into, options, storePasswords, i + 1);
      }
    }
  }

  /** Only values differ, and not of an option whose name has the delimiter in it. */
  predicate OnlyValues(a: Options, b: Options) {
    && |a| == |b|
    && forall k | 0 <= k < |a| ::
         a[k].name == b[k].name && a[k].kind == b[k].kind && ('=' in a[k].name ==> a[k] == b[k])
  }

  lemma EntryOnlyValues(into: Options, entry: string)
    ensures OnlyValues(into, WithEntry(into, entry))
  {
    var d := IndexOf(entry, '=');
    assert '=' !in entry[..d];
  }

  /** Whatever data is, reading it only changes values, and only of options whose name
      can stand before the delimiter. */
  lemma {:induction false} LoadedOnlyValues(into: Options, data: string)
    ensures OnlyValues(into, Loaded(into, data))
    decreases |data|
  {
    var end := IndexOf(data, NUL);
    if end < |data| {
      var next := WithEntry(into, data[..end]);
      EntryOnlyValues(into, data[..end]);
      LoadedOnlyValues(next, data[end + 1..]);
      OnlyValuesTwice(into, next, Loaded(next, data[end + 1..]));
    }
  }

  lemma OnlyValuesTwice(a: Options, b: Options, c: Options)
    requires OnlyValues(a, b) && OnlyValues(b, c)
    ensures OnlyValues(a, c)
  {
  }

  /** A stored option with the delimiter in its name is not restored where it is missing. */
  lemma NotRestored(options: Options, storePasswords: bool, k: nat) returns (into: Options)
    requires k < |options| && Stored(options[k], storePasswords) && '=' in options[k].name
    ensures SameNames(into, options)
    ensures Loaded(into, Secret(options, storePasswords)) != Restored(into, options, storePasswords)
  {
    into := options[k := options[k].(value := None)];
    LoadedOnlyValues(into, Secret(options, storePasswords));
    assert Restored(into, options, storePasswords)[k].value == options[k].value;
  }

  /** Reading a written secret back restores every stored value and leaves the other
      options alone, for every list with these names, exactly when the names are plain. */
  lemma SecretRoundTrip(options: Options, storePasswords: bool)
    requires UniqueNames(options) && CStrings(options)
    ensures PlainNames(options, storePasswords) <==>
      forall into | SameNames(into, options) ::
        Loaded(into, Secret(options, storePasswords)) == Restored(into, options, storePasswords)
  {
    if PlainNames(options, storePasswords) {
      forall into | SameNames(into, options)
        ensures Loaded(into, Secret(options, storePasswords)) == Restored(into, options, storePasswords)
      {
        LoadedRest(into, options, storePasswords, 0);
      }
    } else {
      var k :| 0 <= k < |options| && Stored(options[k], storePasswords) && '=' in options[k].name;
      var into := NotRestored(options, storePasswords, k);
    }
  }

  /** In particular for the list that any run of XML elements and .conf lines builds. */
  lemma RunSecretRoundTrip(changes: seq<Change>, storePasswords: bool, into: Options)
    requires CStrings(Run(changes)) && PlainNames(Run(changes), storePasswords) && SameNames(into, Run(changes))
    ensures Loaded(into, Secret(Run(changes), storePasswords)) == Restored(into, Run(changes), storePasswords)
  {
    RunUnique(changes);
    SecretRoundTrip(Run(changes), storePasswords);
  }

  /** What reading a secret back makes of option k: it gets the stored value if it has one,
      and is no password or passwords were asked for. */
  lemma WhatIsRestored(options: Options, storePasswords: bool, into: Options, k: nat)
    requires UniqueNames(options) && CStrings(options) && PlainNames(options, storePasswords)
    requires SameNames(into, options) && k < |options|
    ensures |Loaded(into, Secret(options, storePasswords))| == |into|
    ensures Loaded(into, Secret(options, storePasswords))[k] ==
      if options[k].value.None? || (options[k].kind == Password && !storePasswords) then into[k]
      else into[k].(value := options[k].value)
  {
    SecretRoundTrip(options, storePasswords);
  }

  /** Unless they are asked for, passwords do not show in a secret: lists that differ in the
      values of passwords only have the same one. */
  lemma {:induction false} PasswordsDoNotShow(a: Options, b: Options, i: nat)
    requires |a| == |b| && i <= |a|
    requires forall k | 0 <= k < |a| && a[k] != b[k] :: a[k].kind == Password && b[k].kind == Password
    ensures Secret(a, false, i) == Secret(b, false, i)
    decreases |a| - i
  {
    if i < |a| {
      PasswordsDoNotShow(a, b, i + 1);
    }
  }
}
