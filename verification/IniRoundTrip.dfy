/** Saving and loading: the text that SaveIni builds is read back as the same sections (ini.cpp:466-481). */
module IniRoundTrip {
  import opened CString
  import opened IniText
  import opened IniFile
  import opened Wrappers

  const EOL: string := "\r\n"

  function EntryText(e: Entry): string {
    (if e.value == "" then "" else (if e.name == "" then "" else e.name + "=") + e.value) + EOL
  }

  function EntriesText(es: seq<Entry>): string {
    if es == [] then "" else EntryText(es[0]) + EntriesText(es[1..])
  }

  function SectionText(s: Section): string {
    (if s.name == "" then "" else "[" + s.name + "]" + EOL) + EntriesText(s.entries) + EOL
  }

  function FileText(ss: seq<Section>): string {
    if ss == [] then "" else SectionText(ss[0]) + FileText(ss[1..])
  }

  lemma {:induction false} EntriesSnoc(es: seq<Entry>, e: Entry)
    ensures EntriesText(es + [e]) == EntriesText(es) + EntryText(e)
  {
    if es == [] {
      assert [e][1..] == [];
    } else {
      assert (es + [e])[1..] == es[1..] + [e];
      EntriesSnoc(es[1..], e);
    }
  }

  lemma {:induction false} FileSnoc(ss: seq<Section>, s: Section)
    ensures FileText(ss + [s]) == FileText(ss) + SectionText(s)
  {
    if ss == [] {
      assert [s][1..] == [];
    } else {
      assert (ss + [s])[1..] == ss[1..] + [s];
      FileSnoc(ss[1..], s);
    }
  }

  /** ini.cpp:466-481 */
  method BuildText(sections: seq<Section>) returns (iniData: string)
    ensures iniData == FileText(sections)
  {
    iniData := "";
    for i := 0 to |sections|
      invariant iniData == FileText(sections[..i])
    {
      assert sections[..i + 1] == sections[..i] + [sections[i]];
      FileSnoc(sections[..i], sections[i]);
      var text := SectionLines(sections[i]);
      iniData := iniData + text;
    }
    assert sections[..|sections|] == sections;
  }

  method SectionLines(s: Section) returns (text: string)
    ensures text == SectionText(s)
  {
    hide EntryText, EntriesText;
    text := "";
    if |s.name| > 0 { text := text + ("[" + s.name + "]" + EOL); }
    ghost var header := text;
    NoEntries();
    for j := 0 to |s.entries|
      invariant text == header + EntriesText(s.entries[..j])
    {
      assert s.entries[..j + 1] == s.entries[..j] + [s.entries[j]];
      EntriesSnoc(s.entries[..j], s.entries[j]);
      var line := EntryLine(s.entries[j]);
      text := text + line;
    }
    assert s.entries[..|s.entries|] == s.entries;
    text := text + EOL;
  }

  lemma NoEntries()
    ensures EntriesText([]) == ""
  {}

  /** ini.cpp:473-478 */
  method EntryLine(e: Entry) returns (line: string)
    ensures line == EntryText(e)
  {
    line := "";
    if |e.value| > 0 {
      if |e.name| > 0 { line := line + (e.name + "="); }
      line := line + e.value;
    }
    line := line + EOL;
  }

  // ----- documents that can be written down -----

  predicate Inline(s: string) { '\n' !in s && '\0' !in s }

  /** Nothing to trim at either end. */
  predicate Trimmed(s: string) { s == "" || (!Blank(s[0]) && !Blank(s[|s| - 1])) }

  /** A setting has a name and a value, and the reader trims neither where they meet the `=`, nor the line they
      make; a line without a name is empty, or a comment, or has no `=`. */
  predicate GoodEntry(e: Entry) {
    && Inline(e.name) && Inline(e.value)
    && (if e.name != "" then
          && e.value != "" && '=' !in e.name && e.name[0] != '#' && e.name[0] != '['
          && !Blank(e.name[0]) && !Space(e.name[|e.name| - 1]) && !Space(e.value[0]) && !Blank(e.value[|e.value| - 1])
        else
          Trimmed(e.value) && (e.value != "" ==> e.value[0] != '[' && (e.value[0] == '#' || '=' !in e.value)))
  }

  predicate GoodSection(s: Section) {
    && (forall i :: 0 <= i < |s.entries| ==> GoodEntry(s.entries[i]))
    && (s.entries != [] ==> !IsEmpty(s.entries[|s.entries| - 1]))
  }

  predicate GoodName(n: string) { n != "" && Inline(n) && ']' !in n }

  /** The first section has no name, and the others have one. */
  predicate GoodFile(ss: seq<Section>) {
    && ss != [] && ss[0].name == ""
    && (forall i :: 0 < i < |ss| ==> GoodName(ss[i].name))
    && (forall i :: 0 <= i < |ss| ==> GoodSection(ss[i]))
  }

  // ----- reading one line back -----

  /** `t` stands in the text at `i`. */
  ghost predicate Has(s: string, i: nat, t: string) { i + |t| <= |s| && s[i..i + |t|] == t }

  lemma HasParts(s: string, i: nat, a: string, b: string)
    requires Has(s, i, a + b)
    ensures Has(s, i, a) && Has(s, i + |a|, b)
  {
    assert s[i..i + |a|] == s[i..i + |a + b|][..|a|];
    assert s[i + |a|..i + |a + b|] == s[i..i + |a + b|][|a|..];
  }

  lemma HasThree(s: string, i: nat, a: string, b: string, c: string)
    requires Has(s, i, a + b + c)
    ensures Has(s, i, a) && Has(s, i + |a|, b) && Has(s, i + |a| + |b|, c)
  {
    hide Has;
    HasParts(s, i, a + b, c);
    HasParts(s, i, a, b);
  }

  lemma HasInside(s: string, i: nat, t: string)
    requires Has(s, i, t)
    ensures i + |t| <= |s|
  {}

  lemma HasAt(s: string, i: nat, t: string, k: nat)
    requires Has(s, i, t) && k < |t|
    ensures s[i + k] == t[k]
  {
    assert s[i..i + |t|][k] == s[i + k];
  }

  /** The first place of a character that is not in the text before. */
  lemma {:induction false} FindAt(s: string, i: nat, j: nat, c: char)
    requires i <= j < |s| && s[j] == c && forall k :: i <= k < j ==> s[k] != c
    ensures Find(s, i, c) == j
    decreases j - i
  {
    if i < j { FindAt(s, i + 1, j, c); }
  }

  /** No place before `j`. */
  lemma {:induction false} FindNot(s: string, i: nat, j: nat, c: char)
    requires i <= j <= |s| && forall k :: i <= k < j ==> s[k] != c
    ensures Find(s, i, c) >= j
    decreases j - i
  {
    if i < j { FindNot(s, i + 1, j, c); }
  }

  lemma {:induction false} TrimTo(s: string, start: nat, end: nat, to: nat)
    requires start <= to <= end <= |s| && (to > start ==> !Blank(s[to - 1]))
    requires forall k :: to <= k < end ==> Blank(s[k])
    ensures TrimBlank(s, start, end) == to
    decreases end
  {
    if end > to { TrimTo(s, start, end - 1, to); }
  }

  /** A trimmed line is read as it is. */
  lemma PrepText(s: string, i: nat, t: string)
    requires Has(s, i, t + EOL) && t != "" && Trimmed(t) && Inline(t)
    ensures Prep(s, i) == Line(i + |t| + 2, i, i + |t|)
  {
    HasParts(s, i, t, EOL);
    HasAt(s, i, t, 0);
    HasAt(s, i, t, |t| - 1);
    HasAt(s, i + |t|, EOL, 0);
    HasAt(s, i + |t|, EOL, 1);
    forall k | i <= k < i + |t|
      ensures s[k] != '\n'
    {
      HasAt(s, i, t, k - i);
    }
    FindAt(s, i, i + |t| + 1, '\n');
    TrimTo(s, i, i + |t| + 1, i + |t|);
  }

  /** An empty line is empty. */
  lemma PrepEmpty(s: string, i: nat)
    requires Has(s, i, EOL)
    ensures Prep(s, i) == Line(i + 2, i + 1, i + 1) && At(s, i + 1) == '\n'
  {
    HasAt(s, i, EOL, 0);
    HasAt(s, i, EOL, 1);
    assert SkipBlank(s, i + 1) == i + 1;
    assert Find(s, i + 1, '\n') == i + 1;
  }

  // ----- reading entries back -----

  /** A line without a name. */
  lemma EntryBare(s: string, i: nat, v: string)
    requires Has(s, i, v + EOL) && v != "" && GoodEntry(Entry("", v))
    ensures EntryOf(s, i, i + |v|) == Some(Entry("", v))
  {
    HasParts(s, i, v, EOL);
    HasAt(s, i, v, 0);
    HasAt(s, i + |v|, EOL, 0);
    if v[0] != '#' {
      forall k | i <= k < i + |v| + 1
        ensures s[k] != '='
      {
        if k < i + |v| { HasAt(s, i, v, k - i); }
      }
      FindNot(s, i, i + |v| + 1, '=');
    }
  }

  lemma SettingParts(s: string, i: nat, e: Entry)
    requires e.name != "" && GoodEntry(e) && Has(s, i, e.name + "=" + e.value + EOL)
    ensures Has(s, i, e.name) && Has(s, i + |e.name|, "=") && Has(s, i + |e.name| + 1, e.value)
    ensures i + |e.name| + 1 + |e.value| < |s|
  {
    hide Has;
    HasParts(s, i, e.name + "=" + e.value, EOL);
    HasThree(s, i, e.name, "=", e.value);
    HasInside(s, i + |e.name + "=" + e.value|, EOL);
  }

  lemma PartIs(s: string, i: nat, t: string)
    requires Has(s, i, t)
    ensures i + |t| <= |s| && s[i..i + |t|] == t
  {}

  /** Where the separator is. */
  lemma SettingSeparator(s: string, i: nat, n: string)
    requires Has(s, i, n) && '=' !in n && i + |n| < |s| && s[i + |n|] == '='
    ensures Find(s, i, '=') == i + |n|
  {
    forall k | i <= k < i + |n|
      ensures s[k] != '='
    {
      HasAt(s, i, n, k - i);
    }
    FindAt(s, i, i + |n|, '=');
  }

  /** A setting. */
  lemma EntrySetting(s: string, i: nat, e: Entry)
    requires e.name != "" && GoodEntry(e) && Has(s, i, e.name + "=" + e.value + EOL)
    ensures EntryOf(s, i, i + |e.name| + 1 + |e.value|) == Some(e)
  {
    hide Find, TrimSpace, SkipSpace, Has;
    var n, v := e.name, e.value;
    SettingParts(s, i, e);
    PartIs(s, i, n);
    PartIs(s, i + |n| + 1, v);
    HasAt(s, i, n, 0);
    HasAt(s, i, n, |n| - 1);
    HasAt(s, i + |n|, "=", 0);
    HasAt(s, i + |n| + 1, v, 0);
    SettingSeparator(s, i, n);
    NothingToTrim(s, i, i + |n|);
  }

  lemma NothingToTrim(s: string, i: nat, sep: nat)
    requires i < sep && sep + 1 < |s| && !Space(s[sep - 1]) && !Space(s[sep + 1])
    ensures TrimSpace(s, i, sep) == sep && SkipSpace(s, sep + 1) == sep + 1
  {}

  /** What is read back for an entry, and that the line is no header. */
  lemma EntryBack(s: string, i: nat, e: Entry)
    requires GoodEntry(e) && Has(s, i, EntryText(e))
    ensures var l := Prep(s, i);
      l.next == i + |EntryText(e)| && At(s, l.start) != '[' && EntryOf(s, l.start, l.end) == Some(e)
  {
    if e.value == "" {
      assert EntryText(e) == EOL;
      PrepEmpty(s, i);
      EmptyEntry(s, i + 1);
      assert e == Entry("", "");
    } else if e.name == "" {
      assert EntryText(e) == e.value + EOL;
      PrepText(s, i, e.value);
      HasParts(s, i, e.value, EOL);
      HasAt(s, i, e.value, 0);
      EntryBare(s, i, e.value);
    } else {
      SettingBack(s, i, e);
    }
  }

  lemma EmptyEntry(s: string, i: nat)
    requires i < |s| && s[i] == '\n'
    ensures EntryOf(s, i, i) == Some(Entry("", ""))
  {
    FindNot(s, i, i + 1, '=');
    assert s[i..i] == "";
  }

  lemma SettingText(e: Entry)
    requires e.name != "" && e.value != "" && GoodEntry(e)
    ensures var t := e.name + "=" + e.value;
      t != "" && Trimmed(t) && Inline(t) && t[0] != '[' && EntryText(e) == t + EOL && |EntryText(e)| == |t| + 2
  {
    var t := e.name + "=" + e.value;
    assert t[0] == e.name[0] && t[|t| - 1] == e.value[|e.value| - 1];
  }

  lemma AtIs(s: string, i: nat)
    requires i < |s|
    ensures At(s, i) == s[i]
  {}

  lemma SettingBack(s: string, i: nat, e: Entry)
    requires e.name != "" && e.value != "" && GoodEntry(e) && Has(s, i, EntryText(e))
    ensures var l := Prep(s, i);
      l.next == i + |EntryText(e)| && At(s, l.start) != '[' && EntryOf(s, l.start, l.end) == Some(e)
  {
    hide *;
    var t := e.name + "=" + e.value;
    SettingText(e);
    PrepText(s, i, t);
    HasParts(s, i, t, EOL);
    HasAt(s, i, t, 0);
    HasInside(s, i, t);
    AtIs(s, i);
    EntrySetting(s, i, e);
  }

  /** Entries, the empty line behind them, and then the end of the text or a header. */
  lemma {:induction false} EntriesBack(s: string, i: nat, es: seq<Entry>)
    requires (forall k :: 0 <= k < |es| ==> GoodEntry(es[k])) && Has(s, i, EntriesText(es) + EOL)
    requires var j := i + |EntriesText(es)| + 2; j < |s| ==> s[j] == '['
    ensures Entries(s, i) == Read(es + [Entry("", "")], i + |EntriesText(es)| + 2)
    decreases |es|
  {
    hide Entries, Prep, EntryOf, EntryText, GoodEntry;
    if es == [] {
      assert EntriesText(es) + EOL == EOL;
      LastLine(s, i);
      assert es + [Entry("", "")] == [Entry("", "")];
    } else {
      var e, rest := es[0], es[1..];
      FirstEntry(s, i, es);
      EntryBack(s, i, e);
      EntriesBack(s, i + |EntryText(e)|, rest);
      EntryRead(s, i, e);
      assert es + [Entry("", "")] == [e] + (rest + [Entry("", "")]);
    }
  }

  lemma FirstEntry(s: string, i: nat, es: seq<Entry>)
    requires es != [] && Has(s, i, EntriesText(es) + EOL)
    ensures Has(s, i, EntryText(es[0])) && Has(s, i + |EntryText(es[0])|, EntriesText(es[1..]) + EOL)
    ensures |EntriesText(es)| == |EntryText(es[0])| + |EntriesText(es[1..])| && |EntryText(es[0])| >= 2
  {
    assert EntriesText(es) + EOL == EntryText(es[0]) + (EntriesText(es[1..]) + EOL);
    HasParts(s, i, EntryText(es[0]), EntriesText(es[1..]) + EOL);
  }

  /** One turn of the loop of ReadSection. */
  lemma EntryRead(s: string, i: nat, e: Entry)
    requires i < |s| && At(s, Prep(s, i).start) != '[' && EntryOf(s, Prep(s, i).start, Prep(s, i).end) == Some(e)
    requires Entries(s, Prep(s, i).next).Read?
    ensures var rest := Entries(s, Prep(s, i).next); Entries(s, i) == Read([e] + rest.entries, rest.stop)
  {
    hide Prep, EntryOf;
  }

  /** The empty line at the end of a section. */
  lemma LastLine(s: string, i: nat)
    requires Has(s, i, EOL) && (i + 2 < |s| ==> s[i + 2] == '[')
    ensures Entries(s, i) == Read([Entry("", "")], i + 2)
  {
    PrepEmpty(s, i);
    EmptyEntry(s, i + 1);
    StopsHere(s, i + 2);
    EntryRead(s, i, Entry("", ""));
    assert [Entry("", "")] + [] == [Entry("", "")];
  }

  lemma StopsHere(s: string, i: nat)
    requires i <= |s| && (i < |s| ==> s[i] == '[')
    ensures Entries(s, i) == Read([], i)
  {}

  // ----- reading sections back -----

  lemma EmptyDropped(es: seq<Entry>)
    requires es != [] ==> !IsEmpty(es[|es| - 1])
    ensures DropEmpty(es + [Entry("", "")]) == es
  {
    assert (es + [Entry("", "")])[..|es|] == es;
  }

  /** A header line gives the name. */
  lemma HeaderBack(s: string, i: nat, name: string)
    requires GoodName(name) && Has(s, i, "[" + name + "]" + EOL)
    ensures var l := Prep(s, i);
      l.start < l.end && s[l.start] == '[' && l.next == i + |name| + 4 && HeaderName(s, l.start, l.end) == name
  {
    var t := "[" + name + "]";
    PrepText(s, i, t);
    HasParts(s, i, t, EOL);
    HasAt(s, i, t, 0);
    HasAt(s, i, t, |t| - 1);
    forall k | i <= k < i + |t| - 1
      ensures s[k] != ']'
    {
      HasAt(s, i, t, k - i);
    }
    FindAt(s, i, i + |t| - 1, ']');
    assert s[i + 1..i + |t| - 1] == s[i..i + |t|][1..|t| - 1];
    assert t[1..|t| - 1] == name;
  }

  /** The entries of a section and what follows it. */
  function Tail(ss: seq<Section>): string
    requires ss != []
  {
    EntriesText(ss[0].entries) + EOL + FileText(ss[1..])
  }

  /** The sections from the entries of the first one on. */
  lemma {:induction false} SectionsBack(s: string, i: nat, ss: seq<Section>)
    requires Terminated(s) && ss != [] && Has(s, i, Tail(ss)) && i + |Tail(ss)| == |s|
    requires forall k :: 0 <= k < |ss| ==> GoodSection(ss[k])
    requires forall k :: 0 < k < |ss| ==> GoodName(ss[k].name)
    ensures LoadFrom(s, i, ss[0].name) == Some(ss)
    decreases |ss|
  {
    hide Entries, Prep, DropEmpty, HeaderName, GoodName, LoadFrom, Terminated, Tail;
    var rest := ss[1..];
    assert |ss| > 1 ==> ss[1].name != "" by { NamesNotEmpty(ss); }
    var j := FirstSection(s, i, ss);
    assert ss == [ss[0]] + rest;
    if rest == [] {
      assert ss == [ss[0]];
      LoadLast(s, i, ss[0]);
    } else {
      HeaderAndTail(s, j, rest);
      HeaderBack(s, j, rest[0].name);
      SectionsBack(s, Prep(s, j).next, rest);
      LoadNext(s, i, ss[0], j, rest);
    }
  }

  /** The entries of the first section, the empty line behind them, and the header of the next section. */
  lemma TailParts(s: string, i: nat, ss: seq<Section>) returns (j: nat)
    requires ss != [] && Has(s, i, Tail(ss)) && i + |Tail(ss)| == |s|
    requires |ss| > 1 ==> ss[1].name != ""
    ensures j == i + |EntriesText(ss[0].entries)| + 2 <= |s| && (j < |s| ==> s[j] == '[')
    ensures Has(s, i, EntriesText(ss[0].entries) + EOL) && Has(s, i, EntriesText(ss[0].entries)) && Has(s, j - 2, EOL)
    ensures Has(s, j, FileText(ss[1..])) && j + |FileText(ss[1..])| == |s| && (ss[1..] == [] <==> j == |s|)
  {
    hide EntriesText, FileText;
    var es, rest := ss[0].entries, ss[1..];
    j := i + |EntriesText(es)| + 2;
    HasParts(s, i, EntriesText(es) + EOL, FileText(rest));
    HasParts(s, i, EntriesText(es), EOL);
    NextHeader(s, j, rest);
  }

  /** The entries of the first section are read, up to the next header. */
  lemma FirstSection(s: string, i: nat, ss: seq<Section>) returns (j: nat)
    requires ss != [] && Has(s, i, Tail(ss)) && i + |Tail(ss)| == |s| && GoodSection(ss[0])
    requires |ss| > 1 ==> ss[1].name != ""
    ensures j <= |s| && Entries(s, i).Read? && Entries(s, i).stop == j
    ensures DropEmpty(Entries(s, i).entries) == ss[0].entries
    ensures Has(s, j, FileText(ss[1..])) && j + |FileText(ss[1..])| == |s| && (ss[1..] == [] <==> j == |s|)
  {
    hide Entries, DropEmpty, EntriesText, FileText, GoodEntry, Tail;
    j := TailParts(s, i, ss);
    EntriesBack(s, i, ss[0].entries);
    EmptyDropped(ss[0].entries);
  }

  lemma NamesNotEmpty(ss: seq<Section>)
    requires forall k :: 0 < k < |ss| ==> GoodName(ss[k].name)
    ensures |ss| > 1 ==> ss[1].name != ""
  {}

  lemma LoadLast(s: string, i: nat, first: Section)
    requires i <= |s| && Terminated(s) && Entries(s, i).Read? && Entries(s, i).stop == |s|
    requires DropEmpty(Entries(s, i).entries) == first.entries
    ensures LoadFrom(s, i, first.name) == Some([first])
  {
    hide Entries, DropEmpty;
    assert first == Section(first.name, first.entries);
  }

  lemma LoadNext(s: string, i: nat, first: Section, j: nat, rest: seq<Section>)
    requires i <= |s| && Terminated(s) && Entries(s, i).Read? && Entries(s, i).stop == j < |s|
    requires DropEmpty(Entries(s, i).entries) == first.entries
    requires var l := Prep(s, j);
      l.start < l.end && s[l.start] == '[' && LoadFrom(s, l.next, HeaderName(s, l.start, l.end)) == Some(rest)
    ensures LoadFrom(s, i, first.name) == Some([first] + rest)
  {
    hide Entries, DropEmpty, Prep, HeaderName;
    assert first == Section(first.name, first.entries);
  }

  /** Sections with a name begin with a bracket. */
  lemma NextHeader(s: string, j: nat, rest: seq<Section>)
    requires Has(s, j, FileText(rest)) && j + |FileText(rest)| == |s|
    requires rest != [] ==> rest[0].name != ""
    ensures (rest == [] <==> j == |s|) && (rest != [] ==> s[j] == '[')
  {
    if rest != [] {
      assert FileText(rest)[0] == '[';
      HasAt(s, j, FileText(rest), 0);
    }
  }

  lemma HeaderAndTail(s: string, j: nat, rest: seq<Section>)
    requires rest != [] && rest[0].name != "" && Has(s, j, FileText(rest))
    ensures Has(s, j, "[" + rest[0].name + "]" + EOL)
    ensures Has(s, j + |rest[0].name| + 4, Tail(rest)) && |FileText(rest)| == |rest[0].name| + 4 + |Tail(rest)|
  {
    var header := "[" + rest[0].name + "]" + EOL;
    assert FileText(rest) == header + Tail(rest);
    HasParts(s, j, header, Tail(rest));
  }

  lemma {:induction false} EntriesTerminated(es: seq<Entry>)
    requires forall k :: 0 <= k < |es| ==> GoodEntry(es[k])
    ensures Terminated(EntriesText(es))
  {
    if es != [] { EntriesTerminated(es[1..]); }
  }

  lemma {:induction false} FileTerminated(ss: seq<Section>)
    requires forall k :: 0 <= k < |ss| ==> GoodSection(ss[k]) && '\0' !in ss[k].name
    ensures Terminated(FileText(ss))
  {
    if ss != [] {
      EntriesTerminated(ss[0].entries);
      FileTerminated(ss[1..]);
      hide EntriesText;
    }
  }

  lemma FirstUnnamed(ss: seq<Section>)
    requires ss != [] && ss[0].name == ""
    ensures FileText(ss) == Tail(ss)
  {
    assert SectionText(ss[0]) == EntriesText(ss[0].entries) + EOL;
  }

  /** Loading the text that was saved gives the same sections and entries in the same order. */
  lemma RoundTrip(ss: seq<Section>)
    requires GoodFile(ss)
    ensures Terminated(FileText(ss)) && LoadFrom(FileText(ss), 0, "") == Some(ss)
  {
    FileTerminated(ss);
    var s := FileText(ss);
    FirstUnnamed(ss);
    assert s[0..|s|] == s;
    hide FileText, LoadFrom, Tail, GoodSection, GoodName;
    SectionsBack(s, 0, ss);
  }

  /** Saving a file object and loading the text into another one copies it. */
  method SaveAndLoad(from: CIniFile, to: CIniFile) returns (ok: bool)
    requires GoodFile(from.sections) && from != to
    modifies to
    ensures ok && to.sections == from.sections
  {
    var text := BuildText(from.sections);
    RoundTrip(from.sections);
    ok := to.Load(text);
  }

  /** A setting without a value but with a blank behind the `=` makes the length of the value negative. */
  lemma BlankValueFails()
    ensures LoadFrom("a= \n", 0, "") == None
  {
    var s := "a= \n";
    assert Terminated(s);
    FindAt(s, 0, 3, '\n');
    TrimTo(s, 0, 3, 2);
    assert Prep(s, 0) == Line(4, 0, 2);
    FindAt(s, 0, 1, '=');
    assert SkipSpace(s, 3) == 3 && SkipSpace(s, 2) == 3;
    assert EntryOf(s, 0, 2) == None;
  }

  lemma {:induction false} TrimEnds(s: string, start: nat, end: nat)
    requires start <= end <= |s|
    ensures var e := TrimBlank(s, start, end); (e > start ==> !Blank(s[e - 1])) && (e < end ==> Blank(s[e]))
    decreases end
  {
    if end > start && Blank(s[end - 1]) { TrimEnds(s, start, end - 1); }
  }

  lemma {:induction false} SkipSpaceTo(s: string, i: nat, j: nat)
    requires i <= j <= |s|
    ensures SkipSpace(s, i) > j <==> j < |s| && forall k :: i <= k <= j ==> Space(s[k])
    decreases j - i
  {
    if i < j && Space(s[i]) { SkipSpaceTo(s, i + 1, j); }
  }

  /** The first `=` is the last character that the trimming left, and a space or a tab stands behind it. */
  predicate BlankValue(s: string, l: Line)
    requires l.start <= l.end <= |s|
  {
    At(s, l.start) != '#' && Find(s, l.start, '=') + 1 == l.end && Space(At(s, l.end))
  }

  /** Exactly such lines fail. */
  lemma LineFails(s: string, i: nat)
    requires i <= |s|
    ensures var l := Prep(s, i); EntryOf(s, l.start, l.end) == None <==> BlankValue(s, l)
  {
    var l := Prep(s, i);
    TrimEnds(s, l.start, Find(s, l.start, '\n'));
    FailsAt(s, l);
  }

  lemma FailsAt(s: string, l: Line)
    requires l.start <= l.end <= |s| && (l.end < |s| ==> Blank(s[l.end]) || s[l.end] == '\n')
    requires l.end > l.start ==> !Blank(s[l.end - 1])
    ensures EntryOf(s, l.start, l.end) == None <==> BlankValue(s, l)
  {
    hide Prep, TrimBlank, SkipSpace, Find;
    var sep := Find(s, l.start, '=');
    if sep < l.end { SkipSpaceTo(s, sep + 1, l.end); }
  }

  /** Some line from `i` on is no header and fails. */
  predicate AnyFails(s: string, i: nat)
    requires i <= |s|
    decreases |s| - i
  {
    i < |s| && var l := Prep(s, i); (At(s, l.start) != '[' && BlankValue(s, l)) || AnyFails(s, l.next)
  }

  lemma {:induction false} EntriesFail(s: string, i: nat)
    requires i <= |s|
    ensures match Entries(s, i) case Failed => AnyFails(s, i) case Read(_, stop) => AnyFails(s, i) == AnyFails(s, stop)
    decreases |s| - i
  {
    hide Prep, BlankValue, EntryOf;
    if i < |s| {
      LineFails(s, i);
      EntriesFail(s, Prep(s, i).next);
    }
  }

  /** Loading fails exactly when some line does. */
  lemma {:induction false} LoadFails(s: string, i: nat, name: string)
    requires i <= |s| && Terminated(s)
    ensures LoadFrom(s, i, name) == None <==> AnyFails(s, i)
    decreases |s| - i
  {
    hide Prep, BlankValue, Entries, DropEmpty, HeaderName;
    EntriesFail(s, i);
    if Entries(s, i).Read? && Entries(s, i).stop < |s| {
      var stop := Entries(s, i).stop;
      HeaderHasEnd(s, stop);
      var l := Prep(s, stop);
      LoadFails(s, l.next, HeaderName(s, l.start, l.end));
    }
  }
}
