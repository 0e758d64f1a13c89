/** The text of an ini file and what is read from it (ini.cpp:124-133, 360-438, 466-481). */
module IniText {
  import opened CString
  import opened Wrappers

  datatype Entry = Entry(name: string, value: string)

  datatype Section = Section(name: string, entries: seq<Entry>)

  /** A piece of text between two line ends: where the next line starts, and what is left after trimming. */
  datatype Line = Line(next: nat, start: nat, end: nat)

  predicate Blank(c: char) { c == ' ' || c == '\t' || c == '\r' }

  predicate Space(c: char) { c == ' ' || c == '\t' }

  function SkipBlank(s: string, i: nat): (r: nat)
    requires i <= |s|
    ensures i <= r <= |s|
    decreases |s| - i
  {
    if i < |s| && Blank(s[i]) then SkipBlank(s, i + 1) else i
  }

  function SkipSpace(s: string, i: nat): (r: nat)
    requires i <= |s|
    ensures i <= r <= |s|
    decreases |s| - i
  {
    if i < |s| && Space(s[i]) then SkipSpace(s, i + 1) else i
  }

  function TrimBlank(s: string, start: nat, end: nat): (r: nat)
    requires start <= end <= |s|
    ensures start <= r <= end
  {
    if end > start && Blank(s[end - 1]) then TrimBlank(s, start, end - 1) else end
  }

  function TrimSpace(s: string, start: nat, end: nat): (r: nat)
    requires start <= end <= |s|
    ensures start <= r <= end
  {
    if end > start && Space(s[end - 1]) then TrimSpace(s, start, end - 1) else end
  }

  /** wcschr: where the character is, or the end of the text. */
  function Find(s: string, i: nat, c: char): (r: nat)
    requires i <= |s|
    ensures i <= r <= |s| && (r < |s| ==> s[r] == c)
    decreases |s| - i
  {
    if i < |s| && s[i] != c then Find(s, i + 1, c) else i
  }

  /** PrepLine: ini.cpp:360-377. */
  function Prep(s: string, i: nat): (l: Line)
    requires i <= |s|
    ensures i <= l.start <= l.end <= l.next <= |s| && (i < |s| ==> i < l.next)
  {
    var start := SkipBlank(s, i);
    var nl := Find(s, start, '\n');
    Line(if nl < |s| then nl + 1 else nl, start, TrimBlank(s, start, nl))
  }

  /** ReadEntry: ini.cpp:379-404. There is no entry when the length of the value comes out negative, on which
      the constructor of the value's string throws. */
  function EntryOf(s: string, start: nat, end: nat): Option<Entry>
    requires start <= end <= |s|
  {
    var sep := Find(s, start, '=');
    if At(s, start) == '#' || sep == |s| || sep > end then Some(Entry("", s[start..end]))
    else
      var value := SkipSpace(s, sep + 1);
      if value > end then None
      else Some(Entry(s[start..TrimSpace(s, start, sep)], s[value..end]))
  }

  /** What the loop of ReadSection reads before the next header, and where it stops. */
  datatype Read = Failed | Read(entries: seq<Entry>, stop: nat)

  function Entries(s: string, i: nat): (r: Read)
    requires i <= |s|
    ensures r.Read? ==> i <= r.stop <= |s| && (r.stop < |s| ==> At(s, Prep(s, r.stop).start) == '[')
    decreases |s| - i
  {
    if i == |s| then Read([], i)
    else
      var l := Prep(s, i);
      if At(s, l.start) == '[' then Read([], i)
      else
        match EntryOf(s, l.start, l.end)
        case None => Failed
        case Some(e) =>
          match Entries(s, l.next)
          case Failed => Failed
          case Read(rest, stop) => Read([e] + rest, stop)
  }

  predicate IsEmpty(e: Entry) { e.name == "" && e.value == "" }

  /** ini.cpp:419-420 */
  function DropEmpty(es: seq<Entry>): seq<Entry> {
    if es != [] && IsEmpty(es[|es| - 1]) then DropEmpty(es[..|es| - 1]) else es
  }

  /** ini.cpp:430-434 */
  function HeaderName(s: string, start: nat, end: nat): string
    requires start < end <= |s| && s[start] == '['
  {
    var stop := Find(s, start, ']');
    s[start + 1..if stop == |s| || stop > end then end else stop]
  }

  lemma HeaderHasEnd(s: string, i: nat)
    requires i <= |s| && Terminated(s) && At(s, Prep(s, i).start) == '['
    ensures var l := Prep(s, i); l.start < l.end && s[l.start] == '['
  {
    var start := SkipBlank(s, i);
    assert Find(s, start, '\n') > start;
    TrimKeeps(s, start, Find(s, start, '\n'), start + 1);
  }

  lemma {:induction false} TrimKeeps(s: string, start: nat, end: nat, k: nat)
    requires start < k <= end <= |s| && !Blank(s[k - 1])
    ensures TrimBlank(s, start, end) >= k
    decreases end
  {
    if end > k { if Blank(s[end - 1]) { TrimKeeps(s, start, end - 1, k); } }
  }

  /** The section under way, and those that follow. */
  function LoadFrom(s: string, i: nat, name: string): Option<seq<Section>>
    requires i <= |s| && Terminated(s)
    decreases |s| - i
  {
    match Entries(s, i)
    case Failed => None
    case Read(entries, stop) =>
      var section := Section(name, DropEmpty(entries));
      if stop == |s| then Some([section])
      else
        HeaderHasEnd(s, stop);
        var l := Prep(s, stop);
        match LoadFrom(s, l.next, HeaderName(s, l.start, l.end))
        case None => None
        case Some(rest) => Some([section] + rest)
  }
}
