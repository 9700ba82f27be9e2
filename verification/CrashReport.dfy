/**
 The report a user edits in a text editor (src/cli/cli-report.c:117-288): printing the
 fields of a problem into one text, and reading an edited text back into the problem.
 */
module CrashReport {
  import opened Basics
  import opened ReportText

  const FIELD_SEP := "%----"

  /** struct problem_item, as far as the editor is concerned. */
  datatype Item = Item(content: string, editable: bool)

  type Items = map<string, Item>

  // ----- strstr -----

  ghost predicate OccursAt(text: string, pat: string, i: nat) {
    i + |pat| <= |text| && text[i..i + |pat|] == pat
  }

  /** strstr: the first occurrence. */
  function Find(text: string, pat: string): (r: Option<nat>)
    ensures r.Some? ==> OccursAt(text, pat, r.value) && forall j: nat | j < r.value :: !OccursAt(text, pat, j)
    ensures r.None? ==> forall j: nat :: !OccursAt(text, pat, j)
  {
    if pat <= text then Some(0)
    else if text == [] then None
    else
      var r := Find(text[1..], pat);
      OccursInTail(text, pat);
      if r.None? then None else Some(r.value + 1)
  }

  lemma OccursInTail(text: string, pat: string)
    requires text != []
    ensures forall j: nat | j > 0 :: OccursAt(text, pat, j) <==> OccursAt(text[1..], pat, j - 1)
  {
    var tail := text[1..];
    forall j: nat | j > 0 ensures OccursAt(text, pat, j) <==> OccursAt(tail, pat, j - 1) {
      if j + |pat| <= |text| {
        var x, y := text[j..j + |pat|], tail[j - 1..j - 1 + |pat|];
        assert forall k | 0 <= k < |pat| :: x[k] == text[j + k] && y[k] == tail[j - 1 + k] == text[j + k];
        assert x == y;
      }
    }
  }

  lemma FindNone(text: string, pat: string)
    requires forall j: nat :: !OccursAt(text, pat, j)
    ensures Find(text, pat) == None
  {
  }

  lemma FindIs(text: string, pat: string, i: nat)
    requires OccursAt(text, pat, i) && forall j: nat | j < i :: !OccursAt(text, pat, j)
    ensures Find(text, pat) == Some(i)
  {
  }

  // ----- strtrim -----

  function TrimLeft(s: string): string {
    if s != [] && IsSpace(s[0]) then TrimLeft(s[1..]) else s
  }

  function TrimRight(s: string): string {
    if s != [] && IsSpace(s[|s| - 1]) then TrimRight(s[..|s| - 1]) else s
  }

  function Trim(s: string): string { TrimRight(TrimLeft(s)) }

  predicate AllBlank(s: string) { forall c | c in s :: IsSpace(c) }

  lemma {:induction false} LeftBlanks(s: string) returns (ws: string)
    ensures s == ws + TrimLeft(s) && AllBlank(ws) && (TrimLeft(s) != "" ==> !IsSpace(TrimLeft(s)[0]))
  {
    ws := "";
    if s != [] && IsSpace(s[0]) {
      var rest := LeftBlanks(s[1..]);
      ws := [s[0]] + rest;
      Regroup([s[0]], rest, TrimLeft(s));
      assert s == [s[0]] + s[1..];
    }
  }

  lemma {:induction false} RightBlanks(s: string) returns (ws: string)
    ensures s == TrimRight(s) + ws && AllBlank(ws) && (TrimRight(s) != "" ==> !IsSpace(TrimRight(s)[|TrimRight(s)| - 1]))
    ensures TrimRight(s) <= s
  {
    ws := "";
    if s != [] && IsSpace(s[|s| - 1]) {
      var rest := RightBlanks(s[..|s| - 1]);
      ws := rest + [s[|s| - 1]];
      Regroup(TrimRight(s), rest, [s[|s| - 1]]);
    }
  }

  /** Trimming takes blanks away at both ends, and all of them. */
  lemma TrimIs(s: string) returns (left: string, right: string)
    ensures s == left + Trim(s) + right && AllBlank(left) && AllBlank(right)
    ensures Trim(s) != "" ==> !IsSpace(Trim(s)[0]) && !IsSpace(Trim(s)[|Trim(s)| - 1])
  {
    left := LeftBlanks(s);
    right := RightBlanks(TrimLeft(s));
    Regroup(left, Trim(s), right);
  }

  // ----- which fields, in which order -----

  const FIXED_FIELDS := ["comment", "backtrace", "duphash", "architecture", "cmdline", "component",
                         "coredump", "executable", "kernel", "package", "reason"]

  /** The last field: operating system data of the root directory if there is one, and
      the os-release file in preference to the release string. */
  function OsField(keys: set<string>): string {
    if "rootdir" in keys then
      if "os_info_in_rootdir" in keys then "os_info_in_rootdir" else "os_release_in_rootdir"
    else
      if "os_info" in keys then "os_info" else "os_release"
  }

  function FieldOrder(keys: set<string>): seq<string> { FIXED_FIELDS + [OsField(keys)] }

  // ----- writing -----

  /** The translated texts of the program. */
  datatype Texts = Texts(header: string, describe: string -> string, readOnly: string)

  function FieldText(texts: Texts, field: string, item: Item): string {
    (FIELD_SEP + field + "\n")
    + (texts.describe(field) + "\n")
    + (if item.editable then "" else texts.readOnly + "\n")
    + (Escaped(item.content, true) + "\n")
  }

  function FieldsText(texts: Texts, items: Items, fields: seq<string>): string {
    if fields == [] then ""
    else (if fields[0] in items then FieldText(texts, fields[0], items[fields[0]]) else "") + FieldsText(texts, items, fields[1..])
  }

  /** The text write_crash_report puts in the file. */
  function Written(texts: Texts, items: Items): string {
    texts.header + "\n\n" + FieldsText(texts, items, FieldOrder(items.Keys))
  }

  // ----- reading -----

  function Separator(field: string): string { "\n" + FIELD_SEP + field + "\n" }

  /** The text up to the next field. */
  function UpToMark(text: string): string {
    match Find(text, "\n" + FIELD_SEP)
    case None => text
    case Some(end) => text[..end]
  }

  /** The text between the field's separator and the next field, if the field is there. */
  function FieldValue(text: string, field: string): Option<string> { ValueBehind(text, Separator(field)) }

  function ValueBehind(text: string, separator: string): Option<string> {
    ValueIn(Behind(text, Find(text, separator), |separator|))
  }

  /** What comes n characters behind a place that was found. */
  function Behind(text: string, found: Option<nat>, n: nat): Option<string>
    requires found.Some? ==> found.value + n <= |text|
  {
    if found.None? then None else Some(text[found.value + n..])
  }

  function ValueIn(tail: Option<string>): Option<string> {
    if tail.None? then None else Some(UpToMark(tail.value))
  }

  /** The item after reading a field with this value, and whether it changed. */
  function Update(item: Item, value: Option<string>): (Item, bool) {
    if value.None? || !item.editable || Trim(value.value) == Trim(item.content) then (item, false)
    else (item.(content := Trim(value.value)), true)
  }

  function ReadField(text: string, items: Items, field: string): (Items, bool) {
    if field !in items then (items, false)
    else
      var (item, changed) := Update(items[field], FieldValue(text, field));
      if changed then (items[field := item], true) else (items, false)
  }

  function ReadFields(text: string, items: Items, fields: seq<string>): (Items, bool) {
    if fields == [] then (items, false)
    else
      var (items1, changed1) := ReadField(text, items, fields[0]);
      var (items2, changed2) := ReadFields(text, items1, fields[1..]);
      (items2, changed1 || changed2)
  }

  /** problem_data_t: a hash table whose items the reader replaces. */
  class ProblemData {
    var items: Items

    constructor (items: Items)
      ensures this.items == items
    {
      this.items := items;
    }

    /** write_crash_report_field, onto the end of fp. */
    method WriteField(texts: Texts, fp: string, field: string) returns (fp': string)
      ensures fp' == fp + if field in items then FieldText(texts, field, items[field]) else ""
    {
      fp' := fp;
      if field in items {
        var item := items[field];
        var line := FIELD_SEP + field + "\n";
        var description := texts.describe(field) + "\n";
        fp' := fp' + line + description;
        var note := "";
        if !item.editable {
          note := texts.readOnly + "\n";
        }
        var escaped := Escape(item.content);
        var content := escaped[..escaped.Length - 1] + "\n";
        fp' := fp' + note + content;
        Regroup5(fp, line, description, note, content);
      }
    }

    method WriteFields(texts: Texts, fp: string, fields: seq<string>) returns (fp': string)
      ensures fp' == fp + FieldsText(texts, items, fields)
    {
      fp' := fp;
      for i := 0 to |fields|
        invariant fp' + FieldsText(texts, items, fields[i..]) == fp + FieldsText(texts, items, fields)
      {
        assert fields[i..][1..] == fields[i + 1..];
        ghost var before := fp';
        fp' := WriteField(texts, fp', fields[i]);
        Regroup(before, if fields[i] in items then FieldText(texts, fields[i], items[fields[i]]) else "", FieldsText(texts, items, fields[i + 1..]));
      }
    }

    /** write_crash_report. */
    method Write(texts: Texts) returns (fp: string)
      ensures fp == Written(texts, items)
    {
      fp := WriteFields(texts, texts.header + "\n\n", FieldOrder(items.Keys));
    }

    /** The text of a field: up to the next separator, or to the end. */
    static method Locate(text: string, field: string) returns (value: Option<string>)
      ensures value == FieldValue(text, field)
    {
      var found := Find(text, Separator(field));
      if found.None? {
        return None;
      }
      var textfield := text[found.value + |Separator(field)|..];
      var end := Find(textfield, "\n" + FIELD_SEP);
      var length := if end.None? then |textfield| else end.value;
      assert textfield[..|textfield|] == textfield;
      return Some(textfield[..length]);
    }

    /** read_crash_report_field. */
    method Read(text: string, field: string) returns (r: nat)
      modifies this
      ensures (items, r == 1) == ReadField(text, old(items), field) && r <= 1
    {
      r := 0;
      var value := Locate(text, field);
      if value.None? || field !in items || !items[field].editable {
        return;
      }
      var newvalue := Trim(value.value);
      if newvalue == Trim(items[field].content) {
        return;
      }
      items := items[field := items[field].(content := newvalue)];
      r := 1;
    }

    method ReadList(text: string, fields: seq<string>) returns (result: nat)
      modifies this
      ensures (items, result == 1) == ReadFields(text, old(items), fields) && result <= 1
    {
      result := 0;
      for i := 0 to |fields|
        invariant result <= 1
        invariant var m := ReadFields(text, items, fields[i..]);
          (m.0, m.1 || result == 1) == ReadFields(text, old(items), fields)
      {
        assert fields[i..][1..] == fields[i + 1..];
        var r := Read(text, fields[i]);
        result := if result == 1 || r == 1 then 1 else 0;
      }
    }

    /** read_crash_report: 1 iff some field changed. */
    method ReadAll(text: string) returns (result: nat)
      modifies this
      ensures (items, result == 1) == ReadFields(text, old(items), FieldOrder(old(items.Keys))) && result <= 1
    {
      result := ReadList(text, FieldOrder(items.Keys));
    }
  }

  // ----- a report written out -----

  const SAMPLE_KEYS := {"comment", "backtrace", "duphash", "architecture", "cmdline", "component", "coredump",
                        "executable", "kernel", "package", "reason", "hostname"}

  /** A problem in which everything contains `#x`, and only the comment can be edited. */
  function Sample(more: set<string>): Items {
    map f | f in SAMPLE_KEYS + more :: Item("#x", f == "comment")
  }

  const SAMPLE_TEXTS := Texts("# H", (field: string) => "# D " + field, "# R")

  /** The fields of the report, os being the last one. */
  function SampleName(i: nat, os: string): string {
    match i
    case 0 => "comment"
    case 1 => "backtrace"
    case 2 => "duphash"
    case 3 => "architecture"
    case 4 => "cmdline"
    case 5 => "component"
    case 6 => "coredump"
    case 7 => "executable"
    case 8 => "kernel"
    case 9 => "package"
    case 10 => "reason"
    case _ => os
  }

  function SampleField(name: string, note: string): string {
    ("%----" + name + "\n") + ("# D " + name + "\n") + note + "\\#x\n"
  }

  function SampleFields(i: nat, os: string): string
    decreases 12 - i
  {
    if i >= 12 then "" else SampleField(SampleName(i, os), if i == 0 then "" else "# R\n") + SampleFields(i + 1, os)
  }

  lemma EscapedSample()
    ensures Escaped("#x", true) == "\\#x"
  {
    assert Escaped("x", false) == "x";
  }

  lemma SampleFieldIs(name: string, editable: bool)
    ensures FieldText(SAMPLE_TEXTS, name, Item("#x", editable)) == SampleField(name, if editable then "" else "# R\n")
  {
    EscapedSample();
    assert "# R" + "\n" == "# R\n" && "\\#x" + "\n" == "\\#x\n";
  }

  /** The operating system data that a report shows, by what there is to show. */
  predicate Shows(more: set<string>, os: string) {
    || (more == {"os_release"} && os == "os_release")
    || (more == {"os_info", "os_release"} && os == "os_info")
    || (more == {"rootdir", "os_info", "os_release", "os_release_in_rootdir"} && os == "os_release_in_rootdir")
    || (more == {"rootdir", "os_info", "os_info_in_rootdir", "os_release_in_rootdir"} && os == "os_info_in_rootdir")
  }

  lemma SampleOrder(os: string, i: nat)
    requires i < 12
    ensures (FIXED_FIELDS + [os])[i] == SampleName(i, os)
  {
  }

  lemma SampleHas(more: set<string>, os: string, i: nat)
    requires Shows(more, os) && i < 12
    ensures SampleName(i, os) in Sample(more) && (SampleName(i, os) == "comment" <==> i == 0)
  {
  }

  lemma FieldsFrom(texts: Texts, items: Items, fields: seq<string>, i: nat)
    requires i < |fields| && fields[i] in items
    ensures FieldsText(texts, items, fields[i..]) == FieldText(texts, fields[i], items[fields[i]]) + FieldsText(texts, items, fields[i + 1..])
  {
    assert fields[i..][1..] == fields[i + 1..];
  }

  lemma {:induction false} SampleFrom(more: set<string>, os: string, i: nat)
    requires Shows(more, os) && i <= 12
    ensures FieldsText(SAMPLE_TEXTS, Sample(more), (FIXED_FIELDS + [os])[i..]) == SampleFields(i, os)
    decreases 12 - i
  {
    if i < 12 {
      SampleFrom(more, os, i + 1);
      SampleOrder(os, i);
      SampleHas(more, os, i);
      FieldsFrom(SAMPLE_TEXTS, Sample(more), FIXED_FIELDS + [os], i);
      SampleFieldIs(SampleName(i, os), i == 0);
    }
  }

  lemma OsOfMore(more: set<string>, os: string)
    requires Shows(more, os)
    ensures OsField(more) == os
  {
  }

  lemma NoOsInSample(f: string)
    requires f == "rootdir" || f == "os_info" || f == "os_info_in_rootdir"
    ensures f !in SAMPLE_KEYS
  {
  }

  lemma SampleOs(more: set<string>, os: string)
    requires Shows(more, os)
    ensures OsField(Sample(more).Keys) == os
  {
    OsOfMore(more, os);
    NoOsInSample("rootdir");
    NoOsInSample("os_info");
    NoOsInSample("os_info_in_rootdir");
  }

  /** The whole report of such a problem. */
  lemma SampleReport(more: set<string>, os: string)
    requires Shows(more, os)
    ensures Written(SAMPLE_TEXTS, Sample(more)) == "# H" + "\n\n" + SampleFields(0, os)
  {
    SampleFrom(more, os, 0);
    SampleOs(more, os);
    WrittenIs(SAMPLE_TEXTS, Sample(more), os, SampleFields(0, os));
  }

  lemma WrittenIs(texts: Texts, items: Items, os: string, body: string)
    requires OsField(items.Keys) == os && FieldsText(texts, items, (FIXED_FIELDS + [os])[0..]) == body
    ensures Written(texts, items) == texts.header + "\n\n" + body
  {
    var fields := FIXED_FIELDS + [os];
    assert fields[0..] == fields;
  }
}
