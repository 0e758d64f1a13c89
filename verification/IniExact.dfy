/** Which documents survive saving and loading: exactly the good ones (ini.cpp:124-481). */
module IniExact {
  import opened CString
  import opened IniText
  import opened IniRoundTrip
  import opened Wrappers

  // ----- what is read back from lines -----

  lemma {:induction false} SkipEnds(s: string, i: nat)
    requires i <= |s|
    ensures SkipBlank(s, i) < |s| ==> !Blank(s[SkipBlank(s, i)])
    decreases |s| - i
  {
    if i < |s| && Blank(s[i]) { SkipEnds(s, i + 1); }
  }

  lemma {:induction false} SkipStops(s: string, i: nat, j: nat)
    requires i <= j < |s| && !Blank(s[j])
    ensures SkipBlank(s, i) <= j
    decreases j - i
  {
    if i < j { SkipStops(s, i + 1, j); }
  }

  /** A line of one piece: where it is trimmed at most, and what it means that it is not. */
  lemma PrepBounds(s: string, i: nat, t: string)
    requires Has(s, i, t + EOL) && '\n' !in t
    ensures var l := Prep(s, i); l.next == i + |t| + 2 && i <= l.start && (l.end <= i + |t| || l.start == l.end)
    ensures var l := Prep(s, i); t != "" && l.start == i && l.end == i + |t| ==> Trimmed(t)
  {
    HasParts(s, i, t, EOL);
    HasAt(s, i + |t|, EOL, 0);
    HasAt(s, i + |t|, EOL, 1);
    var nl := i + |t| + 1;
    SkipStops(s, i, nl);
    SkipEnds(s, i);
    var start := SkipBlank(s, i);
    forall k | start <= k < nl
      ensures s[k] != '\n'
    {
      if k < i + |t| { HasAt(s, i, t, k - i); }
    }
    FindAt(s, start, nl, '\n');
    TrimEnds(s, start, nl);
    var end := TrimBlank(s, start, nl);
    assert Prep(s, i) == Line(nl + 1, start, end);
    if t != "" && start == i && end == i + |t| {
      HasAt(s, i, t, 0);
      HasAt(s, i, t, |t| - 1);
      assert t[|t| - 1] == s[end - 1] && t[0] == s[start];
      assert !Blank(t[0]) && !Blank(t[|t| - 1]);
    }
  }

  /** What is read from a line has no line end in it. */
  lemma PrepInline(s: string, i: nat, k: nat)
    requires i <= |s| && Terminated(s) && Prep(s, i).start <= k < Prep(s, i).end
    ensures s[k] != '\n' && s[k] != '\0'
  {
    var l := Prep(s, i);
    FindLeast(s, l.start, k, '\n');
  }

  lemma {:induction false} FindLeast(s: string, i: nat, k: nat, c: char)
    requires i <= |s| && i <= k < Find(s, i, c)
    ensures s[k] != c
    decreases k - i
  {
    if i < k { FindLeast(s, i + 1, k, c); }
  }

  lemma InlinePart(s: string, i: nat, a: nat, b: nat)
    requires i <= |s| && Terminated(s) && Prep(s, i).start <= a <= b <= Prep(s, i).end
    ensures Inline(s[a..b])
  {
    forall k | a <= k < b
      ensures s[k] != '\n' && s[k] != '\0'
    {
      PrepInline(s, i, k);
    }
    hide Prep;
  }

  lemma EntryInline(s: string, i: nat, e: Entry)
    requires i <= |s| && Terminated(s) && EntryOf(s, Prep(s, i).start, Prep(s, i).end) == Some(e)
    ensures Inline(e.name) && Inline(e.value)
  {
    hide Prep;
    var l := Prep(s, i);
    var sep := Find(s, l.start, '=');
    InlinePart(s, i, l.start, l.end);
    if sep <= l.end && sep < |s| {
      var value := SkipSpace(s, sep + 1);
      InlinePart(s, i, l.start, TrimSpace(s, l.start, sep));
      if value <= l.end { InlinePart(s, i, value, l.end); }
    }
  }

  /** The line of an entry that is read back as the entry is that of a good one. */
  lemma LineMust(s: string, i: nat, e: Entry)
    requires Terminated(s) && Has(s, i, EntryText(e)) && At(s, Prep(s, i).start) != '['
    requires EntryOf(s, Prep(s, i).start, Prep(s, i).end) == Some(e)
    ensures GoodEntry(e) && Prep(s, i).next == i + |EntryText(e)|
  {
    hide Prep, EntryOf;
    EntryInline(s, i, e);
    if e.value == "" {
      assert EntryText(e) == EOL;
      PrepEmpty(s, i);
      EmptyEntry(s, i + 1);
    } else if e.name == "" {
      assert EntryText(e) == e.value + EOL;
      PrepBounds(s, i, e.value);
      BareMust(s, i, Prep(s, i).start, Prep(s, i).end, e.value);
    } else {
      var t := e.name + "=" + e.value;
      assert EntryText(e) == t + EOL;
      PrepBounds(s, i, t);
      HasParts(s, i, t, EOL);
      SettingMust(s, i, Prep(s, i).start, Prep(s, i).end, e);
      assert t[0] == e.name[0] && t[|t| - 1] == e.value[|e.value| - 1];
    }
  }

  /** A value without a name is the whole line, and not taken for a setting. */
  lemma BareMust(s: string, i: nat, start: nat, end: nat, v: string)
    requires v != "" && Has(s, i, v + EOL) && i <= start <= end <= |s| && (end <= i + |v| || start == end)
    requires At(s, start) != '[' && EntryOf(s, start, end) == Some(Entry("", v))
    ensures start == i && end == i + |v| && v[0] != '[' && (v[0] == '#' || '=' !in v)
  {
    HasParts(s, i, v, EOL);
    HasAt(s, i, v, 0);
    EntrySizes(s, start, end, Entry("", v));
    if v[0] != '#' { NotBefore(s, i, v, '='); }
  }

  /** A setting is longer than its value. */
  lemma EntrySizes(s: string, start: nat, end: nat, e: Entry)
    requires start <= end <= |s| && EntryOf(s, start, end) == Some(e)
    ensures var sep := Find(s, start, '=');
      if At(s, start) == '#' || sep == |s| || sep > end then |e.value| == end - start else |e.value| < end - start
  {
    hide SkipSpace, TrimSpace, Find;
  }

  /** Name and value fill their line on both sides of the `=`. */
  lemma SettingFills(s: string, i: nat, start: nat, end: nat, e: Entry)
    requires e.name != "" && e.value != "" && i <= start <= end <= |s|
    requires end <= i + |e.name| + 1 + |e.value| || start == end
    requires EntryOf(s, start, end) == Some(e)
    ensures start == i && end == i + |e.name| + 1 + |e.value| <= |s|
    ensures var sep := Find(s, i, '=');
      sep == i + |e.name| && TrimSpace(s, i, sep) == sep && SkipSpace(s, sep + 1) == sep + 1 && At(s, i) != '#'
  {
    hide Find, TrimSpace, SkipSpace;
    var sep := Find(s, start, '=');
    var nameEnd, value := TrimSpace(s, start, sep), SkipSpace(s, sep + 1);
    assert |s[start..nameEnd]| == nameEnd - start && |s[value..end]| == end - value;
  }

  lemma NothingTrimmed(s: string, i: nat, j: nat)
    requires i < j < |s|
    ensures TrimSpace(s, i, j) == j ==> !Space(s[j - 1])
    ensures SkipSpace(s, j) == j ==> !Space(s[j])
  {}

  lemma SettingMust(s: string, i: nat, start: nat, end: nat, e: Entry)
    requires e.name != "" && e.value != "" && Has(s, i, e.name + "=" + e.value) && i <= start <= end <= |s|
    requires end <= i + |e.name| + 1 + |e.value| || start == end
    requires At(s, start) != '[' && EntryOf(s, start, end) == Some(e)
    ensures start == i && end == i + |e.name| + 1 + |e.value| && '=' !in e.name
    ensures e.name[0] != '#' && e.name[0] != '[' && !Space(e.name[|e.name| - 1]) && !Space(e.value[0])
  {
    hide EntryOf, Find, TrimSpace, SkipSpace;
    var n, v := e.name, e.value;
    SettingFills(s, i, start, end, e);
    HasThree(s, i, n, "=", v);
    HasAt(s, i, n, 0);
    HasAt(s, i, n, |n| - 1);
    HasAt(s, i + |n| + 1, v, 0);
    NothingTrimmed(s, i, i + |n|);
    NothingTrimmed(s, i, i + |n| + 1);
    NotBefore(s, i, n, '=');
  }

  lemma NotBefore(s: string, i: nat, n: string, c: char)
    requires Has(s, i, n) && Find(s, i, c) >= i + |n|
    ensures c !in n
  {
    forall k | 0 <= k < |n|
      ensures n[k] != c
    {
      HasAt(s, i, n, k);
      FindLeast(s, i, i + k, c);
    }
  }

  lemma {:induction false} DropEmptyIs(es: seq<Entry>)
    ensures DropEmpty(es) <= es && (DropEmpty(es) != [] ==> !IsEmpty(DropEmpty(es)[|DropEmpty(es)| - 1]))
    ensures forall k :: |DropEmpty(es)| <= k < |es| ==> IsEmpty(es[k])
    decreases |es|
  {
    if es != [] && IsEmpty(es[|es| - 1]) { DropEmptyIs(es[..|es| - 1]); }
  }

  /** Entries that are read back from their lines. */
  lemma {:induction false} EntriesMust(s: string, i: nat, es: seq<Entry>, all: seq<Entry>, stop: nat)
    requires Terminated(s) && Has(s, i, EntriesText(es)) && Entries(s, i) == Read(all, stop) && es <= all
    ensures forall k :: 0 <= k < |es| ==> GoodEntry(es[k])
    ensures i + |EntriesText(es)| <= |s| && Entries(s, i + |EntriesText(es)|) == Read(all[|es|..], stop)
    decreases |es|
  {
    hide Prep, EntryOf, EntryText, GoodEntry;
    if es == [] {
      assert all[0..] == all;
    } else {
      var e, rest := es[0], es[1..];
      HasParts(s, i, EntryText(e), EntriesText(rest));
      var l := Prep(s, i);
      assert all[0] == e;
      LineMust(s, i, e);
      assert rest <= all[1..] && Entries(s, l.next) == Read(all[1..], stop);
      EntriesMust(s, l.next, rest, all[1..], stop);
      assert all[1..][|rest|..] == all[|es|..];
    }
  }

  lemma LoadFirst(s: string, i: nat, name: string)
    requires i <= |s| && Terminated(s) && LoadFrom(s, i, name).Some?
    ensures var ss := LoadFrom(s, i, name).value; ss != [] && ss[0].name == name
  {}

  /** A name that is read back from its header. */
  lemma HeaderMust(s: string, j: nat, name: string)
    requires Terminated(s) && name != "" && Has(s, j, "[" + name + "]" + EOL)
    requires var l := Prep(s, j); l.start < l.end && s[l.start] == '[' && HeaderName(s, l.start, l.end) == name
    ensures GoodName(name) && Prep(s, j).next == j + |name| + 4
  {
    var l := Prep(s, j);
    var stop := Find(s, l.start, ']');
    var to := if stop == |s| || stop > l.end then l.end else stop;
    InlinePart(s, j, l.start + 1, to);
    forall k | l.start + 1 <= k < to
      ensures s[k] != ']'
    {
      FindLeast(s, l.start, k, ']');
    }
    hide Prep;
    assert GoodName(name);
    HeaderBack(s, j, name);
  }

  /** The first of them, and where its entries end. */
  lemma FirstMust(s: string, i: nat, ss: seq<Section>) returns (j: nat)
    requires Terminated(s) && ss != [] && Has(s, i, Tail(ss)) && i + |Tail(ss)| == |s|
    requires |ss| > 1 ==> ss[1].name != ""
    requires Entries(s, i).Read? && DropEmpty(Entries(s, i).entries) == ss[0].entries
    ensures GoodSection(ss[0]) && j <= |s| && Entries(s, i).stop == j
    ensures Has(s, j, FileText(ss[1..])) && j + |FileText(ss[1..])| == |s| && (ss[1..] == [] <==> j == |s|)
  {
    hide Entries, DropEmpty, EntriesText, FileText, GoodEntry, Terminated, Prep, Tail;
    var all := Entries(s, i).entries;
    j := TailParts(s, i, ss);
    DropEmptyIs(all);
    EntriesMust(s, i, ss[0].entries, all, Entries(s, i).stop);
    LastLine(s, j - 2);
  }

  // ----- lines, and blank lines at the end of a section -----

  /** The lines from `i` on. */
  function LinesFrom(s: string, i: nat): nat
    requires i <= |s|
    decreases |s| - i
  {
    if i == |s| then 0 else 1 + LinesFrom(s, Prep(s, i).next)
  }

  /** A blank line, and behind it a header or the end of the text. */
  predicate Closing(s: string, i: nat)
    requires i < |s|
  {
    var l := Prep(s, i);
    l.start == l.end && At(s, l.start) != '[' && (l.next == |s| || At(s, Prep(s, l.next).start) == '[')
  }

  function Closings(s: string, i: nat): nat
    requires i <= |s|
    decreases |s| - i
  {
    if i == |s| then 0 else (if Closing(s, i) then 1 else 0) + Closings(s, Prep(s, i).next)
  }

  lemma BlankLine(s: string, i: nat)
    requires i < |s| && Prep(s, i).start == Prep(s, i).end
    ensures var l := Prep(s, i); EntryOf(s, l.start, l.end) == Some(Entry("", ""))
  {
    var l := Prep(s, i);
    SkipEnds(s, i);
    var nl := Find(s, l.start, '\n');
    TrimEnds(s, l.start, nl);
    assert s[l.start..l.end] == "";
  }

  /** The entries that are read take a line each, and a closing line is the last of them. */
  lemma {:induction false} EntriesCount(s: string, i: nat, all: seq<Entry>, stop: nat)
    requires i <= |s| && Entries(s, i) == Read(all, stop)
    ensures LinesFrom(s, i) == |all| + LinesFrom(s, stop)
    ensures Closings(s, i) == Closings(s, stop)
      || (Closings(s, i) == 1 + Closings(s, stop) && all != [] && IsEmpty(all[|all| - 1]))
    decreases |s| - i
  {
    hide Prep, EntryOf, BlankValue;
    if i < |s| && At(s, Prep(s, i).start) != '[' {
      var l := Prep(s, i);
      if Closing(s, i) {
        BlankLine(s, i);
        StopsAtHeader(s, l.next);
      } else {
        EntriesCount(s, l.next, all[1..], stop);
      }
    }
  }

  lemma StopsAtHeader(s: string, i: nat)
    requires i <= |s| && (i == |s| || At(s, Prep(s, i).start) == '[')
    ensures Entries(s, i) == Read([], i)
  {
    hide Prep;
  }

  /** A header line does not close a section. */
  lemma HeaderCount(s: string, i: nat)
    requires i < |s| && At(s, Prep(s, i).start) == '['
    ensures LinesFrom(s, i) == 1 + LinesFrom(s, Prep(s, i).next) && Closings(s, i) == Closings(s, Prep(s, i).next)
  {
    hide Prep;
  }

  /** The entries of all sections. */
  function Total(ss: seq<Section>): nat { if ss == [] then 0 else |ss[0].entries| + Total(ss[1..]) }

  /** The sections behind the first that have a name. */
  function Named(ss: seq<Section>): nat {
    if |ss| <= 1 then 0 else (if ss[1].name != "" then 1 else 0) + Named(ss[1..])
  }

  lemma DropCount(all: seq<Entry>)
    ensures |DropEmpty(all)| <= |all|
    ensures all != [] && IsEmpty(all[|all| - 1]) ==> |DropEmpty(all)| < |all|
  {
    DropEmptyIs(all);
    if all != [] { DropEmptyIs(all[..|all| - 1]); }
  }

  /** What is read takes a line for each entry and each header, and each closing line is lost. */
  lemma {:induction false} LoadCount(s: string, i: nat, name: string, ss: seq<Section>)
    requires i <= |s| && Terminated(s) && LoadFrom(s, i, name) == Some(ss)
    ensures ss != [] && LinesFrom(s, i) >= Total(ss) + |ss| - 1 + Closings(s, i)
    decreases |s| - i
  {
    hide Entries, Prep, DropEmpty, HeaderName, LinesFrom, Closings, Terminated;
    var all, stop := Entries(s, i).entries, Entries(s, i).stop;
    EntriesCount(s, i, all, stop);
    DropCount(all);
    if stop < |s| {
      HeaderHasEnd(s, stop);
      var l := Prep(s, stop);
      HeaderCount(s, stop);
      assert ss[1..] == LoadFrom(s, l.next, HeaderName(s, l.start, l.end)).value;
      LoadCount(s, l.next, HeaderName(s, l.start, l.end), ss[1..]);
    } else {
      NoLines(s);
      assert ss[1..] == [];
    }
  }

  lemma NoLines(s: string)
    ensures LinesFrom(s, |s|) == 0 && Closings(s, |s|) == 0
  {}

  // ----- what is read has no line ends in it -----

  predicate OneLine(t: string) { '\n' !in t }

  ghost predicate LinesOnly(ss: seq<Section>) {
    && (forall k :: 0 < k < |ss| ==> OneLine(ss[k].name))
    && (forall k :: 0 <= k < |ss| ==> EntriesOnLines(ss[k].entries))
  }

  ghost predicate EntriesOnLines(es: seq<Entry>) {
    forall k :: 0 <= k < |es| ==> OneLine(es[k].name) && OneLine(es[k].value)
  }

  lemma {:induction false} EntriesInline(s: string, i: nat)
    requires i <= |s| && Terminated(s) && Entries(s, i).Read?
    ensures EntriesOnLines(Entries(s, i).entries)
    decreases |s| - i
  {
    hide Prep, EntryOf;
    if i < |s| && At(s, Prep(s, i).start) != '[' {
      var l := Prep(s, i);
      EntryInline(s, i, EntryOf(s, l.start, l.end).value);
      EntriesInline(s, l.next);
    }
  }

  lemma {:induction false} LoadInline(s: string, i: nat, name: string, ss: seq<Section>)
    requires i <= |s| && Terminated(s) && LoadFrom(s, i, name) == Some(ss)
    ensures LinesOnly(ss)
    decreases |s| - i
  {
    hide Entries, Prep, DropEmpty, HeaderName, Terminated;
    var all, stop := Entries(s, i).entries, Entries(s, i).stop;
    EntriesInline(s, i);
    DropEmptyIs(all);
    if stop < |s| {
      HeaderHasEnd(s, stop);
      var l := Prep(s, stop);
      var next := HeaderName(s, l.start, l.end);
      var rest := LoadFrom(s, l.next, next).value;
      HeaderInline(s, stop);
      LoadInline(s, l.next, next, rest);
      LoadFirst(s, l.next, next);
      assert ss == [ss[0]] + rest;
    }
  }

  lemma HeaderInline(s: string, i: nat)
    requires i <= |s| && Terminated(s)
    requires var l := Prep(s, i); l.start < l.end && s[l.start] == '['
    ensures var l := Prep(s, i); OneLine(HeaderName(s, l.start, l.end))
  {
    hide Prep;
    var l := Prep(s, i);
    var stop := Find(s, l.start, ']');
    InlinePart(s, i, l.start + 1, if stop == |s| || stop > l.end then l.end else stop);
  }

  // ----- the lines of a text that was saved -----

  lemma {:induction false} EntriesLines(s: string, i: nat, es: seq<Entry>)
    requires Has(s, i, EntriesText(es)) && EntriesOnLines(es)
    ensures var j := i + |EntriesText(es)|;
      j <= |s| && LinesFrom(s, i) == |es| + LinesFrom(s, j) && Closings(s, i) >= Closings(s, j)
    decreases |es|
  {
    hide Prep, Closing;
    if es != [] {
      var e, rest := es[0], es[1..];
      HasParts(s, i, EntryText(e), EntriesText(rest));
      var t := if e.value == "" then "" else (if e.name == "" then "" else e.name + "=") + e.value;
      assert EntryText(e) == t + EOL;
      PrepBounds(s, i, t);
      EntriesLines(s, i + |EntryText(e)|, rest);
    }
  }

  /** A line for each entry, one behind each section, and one for each name; and the line behind a section closes
      it if a name or the end follows. */
  lemma {:induction false} TextLines(s: string, i: nat, ss: seq<Section>)
    requires ss != [] && Has(s, i, Tail(ss)) && i + |Tail(ss)| == |s| && LinesOnly(ss)
    ensures LinesFrom(s, i) == Total(ss) + |ss| + Named(ss) && Closings(s, i) >= 1 + Named(ss)
    decreases |ss|
  {
    hide *;
    var rest := ss[1..];
    var j := SectionLines(s, i, ss);
    CountStep(ss);
    BehindSection(s, j);
    if rest == [] {
      NoLines(s);
    } else if rest[0].name == "" {
      TextLines(s, j + 2, rest);
    } else {
      HeaderLine(s, j + 2, rest[0].name);
      TextLines(s, j + 2 + |rest[0].name| + 4, rest);
    }
  }

  lemma CountStep(ss: seq<Section>)
    requires ss != [] && LinesOnly(ss)
    ensures Total(ss) == |ss[0].entries| + Total(ss[1..]) && Total([]) == 0 && Named([]) == 0
    ensures Named(ss) == if |ss| > 1 then (if ss[1].name != "" then 1 else 0) + Named(ss[1..]) else 0
    ensures ss[1..] != [] ==> LinesOnly(ss[1..]) && OneLine(ss[1..][0].name)
  {}

  /** The lines of the first section, the empty one behind it, and what follows. */
  lemma SectionLines(s: string, i: nat, ss: seq<Section>) returns (j: nat)
    requires ss != [] && Has(s, i, Tail(ss)) && i + |Tail(ss)| == |s| && LinesOnly(ss)
    ensures j + 2 <= |s| && Has(s, j, EOL) && (ss[1..] == [] ==> j + 2 == |s|)
    ensures LinesFrom(s, i) == |ss[0].entries| + LinesFrom(s, j) && Closings(s, i) >= Closings(s, j)
    ensures ss[1..] != [] ==> var name := ss[1..][0].name;
      var k := if name == "" then j + 2 else j + 2 + |name| + 4;
      && Has(s, k, Tail(ss[1..])) && k + |Tail(ss[1..])| == |s|
      && (name != "" ==> Has(s, j + 2, "[" + name + "]" + EOL))
  {
    hide LinesFrom, Closings, EntriesText, Prep;
    var es, rest := ss[0].entries, ss[1..];
    j := i + |EntriesText(es)|;
    HasParts(s, i, EntriesText(es) + EOL, FileText(rest));
    HasParts(s, i, EntriesText(es), EOL);
    EntriesLines(s, i, es);
    if rest == [] {
      NoText();
    } else if rest[0].name == "" {
      FirstUnnamed(rest);
    } else {
      HeaderAndTail(s, j + 2, rest);
    }
    hide FileText, Tail;
  }

  lemma NoText()
    ensures FileText([]) == ""
  {}

  /** The empty line behind a section. */
  lemma BehindSection(s: string, j: nat)
    requires Has(s, j, EOL)
    ensures j + 2 <= |s| && LinesFrom(s, j) == 1 + LinesFrom(s, j + 2) && Closings(s, j) >= Closings(s, j + 2)
    ensures j + 2 == |s| || At(s, Prep(s, j + 2).start) == '[' ==> Closings(s, j) == 1 + Closings(s, j + 2)
  {
    PrepEmpty(s, j);
    hide Prep;
  }

  lemma HeaderLine(s: string, j: nat, name: string)
    requires Has(s, j, "[" + name + "]" + EOL) && OneLine(name)
    ensures j + |name| + 4 <= |s| && At(s, Prep(s, j).start) == '['
    ensures LinesFrom(s, j) == 1 + LinesFrom(s, j + |name| + 4) && Closings(s, j) == Closings(s, j + |name| + 4)
  {
    hide Prep, LinesFrom, Closings;
    var t := "[" + name + "]";
    PrepBounds(s, j, t);
    HasParts(s, j, t, EOL);
    HasAt(s, j, t, 0);
    StartsHere(s, j);
    HeaderCount(s, j);
  }

  lemma StartsHere(s: string, j: nat)
    requires j < |s| && !Blank(s[j])
    ensures Prep(s, j).start == j
  {}

  // ----- a section without a name behind the first -----

  /** Its entries join the section before it, and what is read behind the next header is shorter. */
  lemma UnnamedLost(s: string, i: nat, ss: seq<Section>)
    requires Terminated(s) && |ss| > 1 && ss[1].name == "" && Has(s, i, Tail(ss)) && i + |Tail(ss)| == |s|
    ensures LoadFrom(s, i, ss[0].name) != Some(ss)
  {
    hide Entries, Prep, DropEmpty, HeaderName, Terminated, Tail, EntriesText, FileText;
    hide LinesFrom, Closings, Total, Named;
    if LoadFrom(s, i, ss[0].name) == Some(ss) {
      var es, rest, all, stop := ss[0].entries, ss[1..], Entries(s, i).entries, Entries(s, i).stop;
      assert ss == [ss[0]] + rest;
      HeaderHasEnd(s, stop);
      var l := Prep(s, stop);
      assert LoadFrom(s, l.next, HeaderName(s, l.start, l.end)) == Some(rest);
      LoadInline(s, l.next, HeaderName(s, l.start, l.end), rest);
      LoadCount(s, l.next, HeaderName(s, l.start, l.end), rest);
      HeaderCount(s, stop);
      DropEmptyIs(all);
      var j, later := JoinedSection(s, i, ss, all, stop);
      TextLines(s, j, rest);
      EntriesCount(s, j, later, stop);
    }
  }

  /** Where the unnamed section starts, and the entries that are read from there on. */
  lemma JoinedSection(s: string, i: nat, ss: seq<Section>, all: seq<Entry>, stop: nat)
    returns (j: nat, later: seq<Entry>)
    requires Terminated(s) && |ss| > 1 && ss[1].name == "" && Has(s, i, Tail(ss)) && i + |Tail(ss)| == |s|
    requires Entries(s, i) == Read(all, stop) && ss[0].entries <= all && stop < |s|
    ensures j <= |s| && Entries(s, j) == Read(later, stop)
    ensures Has(s, j, Tail(ss[1..])) && j + |Tail(ss[1..])| == |s|
  {
    hide Entries, Prep, EntriesText, FileText, Terminated;
    var es, rest := ss[0].entries, ss[1..];
    HasParts(s, i, EntriesText(es) + EOL, FileText(rest));
    HasParts(s, i, EntriesText(es), EOL);
    FirstUnnamed(rest);
    EntriesMust(s, i, es, all, stop);
    var blank := i + |EntriesText(es)|;
    j := blank + 2;
    BlankRead(s, blank);
    later := all[|es|..][1..];
  }

  lemma BlankRead(s: string, i: nat)
    requires Has(s, i, EOL) && Entries(s, i).Read?
    ensures i + 2 <= |s| && Entries(s, i + 2).Read? && Entries(s, i).entries != []
    ensures Entries(s, i + 2) == Read(Entries(s, i).entries[1..], Entries(s, i).stop)
  {
    PrepEmpty(s, i);
    EmptyEntry(s, i + 1);
    hide Prep, EntryOf;
  }

  // ----- the documents that survive -----

  /** Sections that are read back from the entries of the first one on. */
  lemma {:induction false} SectionsMust(s: string, i: nat, ss: seq<Section>)
    requires Terminated(s) && ss != [] && Has(s, i, Tail(ss)) && i + |Tail(ss)| == |s|
    requires LoadFrom(s, i, ss[0].name) == Some(ss)
    ensures forall k :: 0 <= k < |ss| ==> GoodSection(ss[k])
    ensures forall k :: 0 < k < |ss| ==> GoodName(ss[k].name)
    decreases |ss|
  {
    hide Entries, Prep, DropEmpty, HeaderName, GoodName, GoodSection, Terminated, Tail;
    var rest := ss[1..];
    assert ss == [ss[0]] + rest;
    if |ss| > 1 && ss[1].name == "" { UnnamedLost(s, i, ss); }
    var j := FirstMust(s, i, ss);
    if rest != [] {
      var l := Prep(s, j);
      HeaderHasEnd(s, j);
      var name := HeaderName(s, l.start, l.end);
      assert LoadFrom(s, l.next, name) == Some(rest);
      LoadFirst(s, l.next, name);
      HeaderAndTail(s, j, rest);
      HeaderMust(s, j, rest[0].name);
      SectionsMust(s, l.next, rest);
    }
  }

  /** The sections survive saving and loading. */
  ghost predicate Survives(ss: seq<Section>) {
    Terminated(FileText(ss)) && LoadFrom(FileText(ss), 0, "") == Some(ss)
  }

  /** The documents that survive are exactly the good ones. */
  lemma RoundTripExact(ss: seq<Section>)
    ensures Survives(ss) <==> GoodFile(ss)
  {
    if GoodFile(ss) { RoundTrip(ss); }
    if Survives(ss) {
      var s := FileText(ss);
      LoadFirst(s, 0, "");
      FirstUnnamed(ss);
      assert s[0..|s|] == s;
      hide FileText, LoadFrom, Tail, GoodSection, GoodName, Terminated;
      SectionsMust(s, 0, ss);
    }
  }
}
