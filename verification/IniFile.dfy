/** CIniFile: reading the text of an ini file into sections, and building the text again
    (ini.cpp:124-133, 360-438, 466-481). */
module IniFile {
  import opened CString
  import opened IniText
  import opened Wrappers

  method PrepLine(s: string, i: nat) returns (next: nat, line: nat, end: nat)
    requires i <= |s| && Terminated(s)
    ensures Line(next, line, end) == Prep(s, i)
  {
    line := i;
    while At(s, line) == ' ' || At(s, line) == '\t' || At(s, line) == '\r'
      invariant i <= line <= |s| && SkipBlank(s, i) == SkipBlank(s, line)
      decreases |s| - line
    {
      line := line + 1;
    }
    end := Wcschr(s, line, '\n');
    next := if end == |s| then end else end + 1;
    ghost var nl := end;
    while end > line && (s[end - 1] == ' ' || s[end - 1] == '\t' || s[end - 1] == '\r')
      invariant line <= end <= |s| && TrimBlank(s, line, nl) == TrimBlank(s, line, end)
    {
      end := end - 1;
    }
  }

  /** The place of a character at `i` or behind it, or the end of the text. */
  method Wcschr(s: string, i: nat, c: char) returns (j: nat)
    requires i <= |s| && Terminated(s) && c != '\0'
    ensures j == Find(s, i, c)
  {
    j := i;
    while At(s, j) != '\0' && At(s, j) != c
      invariant i <= j <= |s| && Find(s, i, c) == Find(s, j, c)
      decreases |s| - j
    {
      j := j + 1;
    }
  }

  method ReadEntry(s: string, line: nat, end: nat) returns (e: Option<Entry>)
    requires line <= end <= |s| && Terminated(s)
    ensures e == EntryOf(s, line, end)
  {
    var separator := Wcschr(s, line, '=');
    if At(s, line) == '#' || separator > end || separator == |s| {
      return Some(Entry("", s[line..end]));
    }
    var nameEnd := separator;
    while nameEnd > line && (s[nameEnd - 1] == ' ' || s[nameEnd - 1] == '\t')
      invariant line <= nameEnd <= |s| && TrimSpace(s, line, separator) == TrimSpace(s, line, nameEnd)
    {
      nameEnd := nameEnd - 1;
    }
    var valueStart := separator + 1;
    while At(s, valueStart) == ' ' || At(s, valueStart) == '\t'
      invariant separator < valueStart <= |s| && SkipSpace(s, separator + 1) == SkipSpace(s, valueStart)
      decreases |s| - valueStart
    {
      valueStart := valueStart + 1;
    }
    if valueStart > end { return None; }
    e := Some(Entry(s[line..nameEnd], s[valueStart..end]));
  }

  /** The loop of ReadSection: ini.cpp:408-417. */
  method ReadLines(s: string, i: nat) returns (ok: bool, entries: seq<Entry>, stop: nat)
    requires i <= |s| && Terminated(s)
    ensures ok == Entries(s, i).Read? && (ok ==> Entries(s, i) == Read(entries, stop))
  {
    entries, stop := [], i;
    while At(s, stop) != '\0'
      invariant i <= stop <= |s| && Entries(s, i) == Joined(entries, Entries(s, stop))
      decreases |s| - stop
    {
      var next, line, end := PrepLine(s, stop);
      OneLine(s, stop, entries);
      if At(s, line) == '[' { return true, entries, stop; }
      var e := ReadEntry(s, line, end);
      if e.None? { return false, entries, stop; }
      entries := entries + [e.value];
      stop := next;
    }
    ok := true;
  }

  /** What one turn of the loop does to what is still to be read. */
  lemma OneLine(s: string, i: nat, seen: seq<Entry>)
    requires i < |s|
    ensures var l := Prep(s, i); var e := EntryOf(s, l.start, l.end);
      if At(s, l.start) == '[' then Joined(seen, Entries(s, i)) == Read(seen, i)
      else if e.None? then Entries(s, i) == Failed
      else Joined(seen, Entries(s, i)) == Joined(seen + [e.value], Entries(s, l.next))
  {
    hide Prep, EntryOf;
    var l := Prep(s, i);
    if At(s, l.start) == '[' {
      assert seen + [] == seen;
    } else if EntryOf(s, l.start, l.end).Some? && Entries(s, l.next).Read? {
      var e, rest := EntryOf(s, l.start, l.end).value, Entries(s, l.next).entries;
      assert seen + ([e] + rest) == seen + [e] + rest;
    }
  }

  /** ini.cpp:419-420 */
  method DropEmptyLines(all: seq<Entry>) returns (entries: seq<Entry>)
    ensures entries == DropEmpty(all)
  {
    entries := all;
    while |entries| > 0 && |entries[|entries| - 1].name| == 0 && |entries[|entries| - 1].value| == 0
      invariant DropEmpty(all) == DropEmpty(entries)
    {
      entries := entries[..|entries| - 1];
    }
  }

  function Last(sections: seq<Section>): Section
    requires sections != []
  {
    sections[|sections| - 1]
  }

  function Front(sections: seq<Section>): seq<Section>
    requires sections != []
  {
    sections[..|sections| - 1]
  }

  class CIniFile {
    var sections: seq<Section>

    constructor ()
      ensures sections == []
    {
      sections := [];
    }

    /** ini.cpp:406-421; the entries go to the last section. */
    method ReadSection(s: string, i: nat) returns (ok: bool, stop: nat)
      requires i <= |s| && Terminated(s) && sections != []
      modifies this
      ensures ok == Entries(s, i).Read? && (ok ==> stop == Entries(s, i).stop)
      ensures ok ==> (
        var read := Section(old(Last(sections)).name, DropEmpty(Entries(s, i).entries));
        sections == old(Front(sections)) + [read])
    {
      var entries;
      ok, entries, stop := ReadLines(s, i);
      if ok {
        entries := DropEmptyLines(entries);
        sections := sections[..|sections| - 1] + [Section(sections[|sections| - 1].name, entries)];
      }
    }

    /** ini.cpp:423-438: a new section, or null if the line is no header. */
    method ReadHeader(s: string, i: nat) returns (next: nat, found: bool)
      requires i <= |s| && Terminated(s)
      modifies this
      ensures next == Prep(s, i).next && found == (At(s, Prep(s, i).start) == '[')
      ensures var l := Prep(s, i); found ==>
        l.start < l.end && s[l.start] == '[' && sections == old(sections) + [Section(HeaderName(s, l.start, l.end), [])]
      ensures !found ==> sections == old(sections)
    {
      var line, end;
      next, line, end := PrepLine(s, i);
      found := At(s, line) == '[';
      if found {
        HeaderHasEnd(s, i);
        var start := line + 1;
        var stop := Wcschr(s, line, ']');
        if stop == |s| || stop > end { stop := end; }
        sections := sections + [Section(s[start..stop], [])];
      }
    }

    /** ini.cpp:124-133. */
    method Load(s: string) returns (ok: bool)
      requires Terminated(s)
      modifies this
      ensures ok == LoadFrom(s, 0, "").Some? && (ok ==> sections == LoadFrom(s, 0, "").value)
    {
      hide LoadFrom, Entries, Prep;
      sections := [Section("", [])];
      var i: nat, more := 0, true;
      Begin(LoadFrom(s, 0, ""));
      while At(s, i) != '\0' && more
        invariant i <= |s| && more && sections != [] && Last(sections).entries == []
        invariant LoadFrom(s, 0, "") == Behind(Front(sections), LoadFrom(s, i, Last(sections).name))
        decreases |s| - i
      {
        ghost var front, name := Front(sections), Last(sections).name;
        LoadStep(s, i, front, name);
        ok, i := ReadSection(s, i);
        if !ok { return; }
        if At(s, i) == '\0' { return; }
        i, more := ReadHeader(s, i);
      }
      AtTheEnd(s, sections);
      ok := true;
    }
  }

  /** What one turn of the loop does to what is still to be read. */
  lemma LoadStep(s: string, i: nat, front: seq<Section>, name: string)
    requires i < |s| && Terminated(s)
    ensures Entries(s, i).Failed? ==> LoadFrom(s, i, name) == None
    ensures Entries(s, i).Read? && Entries(s, i).stop == |s| ==>
      Behind(front, LoadFrom(s, i, name)) == Some(front + [Section(name, DropEmpty(Entries(s, i).entries))])
    ensures Entries(s, i).Read? && Entries(s, i).stop < |s| ==>
      var l := Prep(s, Entries(s, i).stop);
      && At(s, l.start) == '[' && l.start < l.end && s[l.start] == '['
      && Behind(front, LoadFrom(s, i, name)) == Behind(
        front + [Section(name, DropEmpty(Entries(s, i).entries))], LoadFrom(s, l.next, HeaderName(s, l.start, l.end)))
  {
    hide Entries, Prep, HeaderName, DropEmpty;
    if Entries(s, i).Read? && Entries(s, i).stop < |s| {
      var stop := Entries(s, i).stop;
      HeaderHasEnd(s, stop);
      var l := Prep(s, stop);
      var section := Section(name, DropEmpty(Entries(s, i).entries));
      var r := LoadFrom(s, l.next, HeaderName(s, l.start, l.end));
      if r.Some? { assert front + ([section] + r.value) == front + [section] + r.value; }
    }
  }

  lemma Begin(r: Option<seq<Section>>)
    ensures r == Behind([], r)
  {
    if r.Some? { assert [] + r.value == r.value; }
  }

  lemma AtTheEnd(s: string, sections: seq<Section>)
    requires Terminated(s) && sections != [] && Last(sections).entries == []
    ensures Behind(Front(sections), LoadFrom(s, |s|, Last(sections).name)) == Some(sections)
  {
    assert sections == Front(sections) + [Last(sections)];
  }

  /** What has been read, and what is read from there on. */
  function Joined(es: seq<Entry>, r: Read): Read {
    match r
    case Failed => Failed
    case Read(rest, stop) => Read(es + rest, stop)
  }

  function Behind(front: seq<Section>, r: Option<seq<Section>>): Option<seq<Section>> {
    match r
    case None => None
    case Some(rest) => Some(front + rest)
  }
}
