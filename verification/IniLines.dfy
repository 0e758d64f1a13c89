/** What is read from any text, line by line and however the lines are laid out (ini.cpp:124-133, 360-438). */
module IniLines {
  import opened CString
  import opened IniText
  import opened IniRoundTrip
  import opened Wrappers

  /** What a line says, without the blanks around it. */
  datatype Row =
    | Setting(name: string, before: string, behind: string, value: string)   // before and behind the first `=`
    | NoValue(name: string, before: string)                                  // the line ends with its first `=`
    | Plain(text: string)
    | Header(name: string, tail: string)
    | Unclosed(name: string)

  function Body(r: Row): string {
    match r
    case Setting(name, before, behind, value) => name + before + "=" + behind + value
    case NoValue(name, before) => name + before + "="
    case Plain(text) => text
    case Header(name, tail) => "[" + name + "]" + tail
    case Unclosed(name) => "[" + name
  }

  /** Spaces, tabs and carriage returns. */
  predicate Blanks(t: string) { forall k :: 0 <= k < |t| ==> t[k] == ' ' || t[k] == '\t' || t[k] == '\r' }

  predicate Spaces(t: string) { forall k :: 0 <= k < |t| ==> t[k] == ' ' || t[k] == '\t' }

  predicate NameBefore(name: string, before: string) {
    && '=' !in name && Spaces(before)
    && (if name == "" then before == ""
        else name[0] != '#' && name[0] != '[' && !Blank(name[0]) && !Space(name[|name| - 1]))
  }

  /** What makes a row one of its kind. */
  predicate GoodRow(r: Row) {
    match r
    case Setting(name, before, behind, value) =>
      && NameBefore(name, before) && Spaces(behind)
      && value != "" && !Space(value[0]) && !Blank(value[|value| - 1])
    case NoValue(name, before) => NameBefore(name, before)
    case Plain(text) => Trimmed(text) && (text != "" ==> text[0] != '[' && (text[0] == '#' || '=' !in text))
    case Header(name, tail) => ']' !in name && (tail != "" ==> !Blank(tail[|tail| - 1]))
    case Unclosed(name) => ']' !in name && (name != "" ==> !Blank(name[|name| - 1]))
  }

  /** A row with the blanks around it, and the end of its line, which the last one may lack. */
  datatype Laid = Laid(front: string, row: Row, back: string, eol: string)

  function Line(l: Laid): string { l.front + Body(l.row) + l.back }

  predicate GoodLine(l: Laid) {
    && GoodRow(l.row) && Inline(Body(l.row))
    && Blanks(l.front) && Blanks(l.back) && (Body(l.row) == "" ==> l.back == "")
    && (l.eol == "\n" || (l.eol == "" && Line(l) != ""))
  }

  /** A space or a tab behind the `=` of a row without a value: reading it fails. */
  predicate Fails(l: Laid) { l.row.NoValue? && l.back != "" && Space(l.back[0]) }

  function Text(ls: seq<Laid>): string {
    if ls == [] then "" else Line(ls[0]) + ls[0].eol + Text(ls[1..])
  }

  /** Only the last line may lack its end. */
  predicate GoodLines(ls: seq<Laid>) {
    && (forall k :: 0 <= k < |ls| ==> GoodLine(ls[k]))
    && (forall k :: 0 <= k < |ls| - 1 ==> ls[k].eol == "\n")
  }

  predicate IsHeader(r: Row) { r.Header? || r.Unclosed? }

  function EntryOfRow(r: Row): Entry {
    match r
    case Setting(name, _, _, value) => Entry(name, value)
    case NoValue(name, _) => Entry(name, "")
    case Plain(text) => Entry("", text)
    case _ => Entry("", Body(r))
  }

  // ----- one line -----

  lemma {:induction false} SkipTo(s: string, i: nat, j: nat)
    requires i <= j <= |s| && (j < |s| ==> !Blank(s[j])) && forall k :: i <= k < j ==> Blank(s[k])
    ensures SkipBlank(s, i) == j
    decreases j - i
  {
    if i < j { SkipTo(s, i + 1, j); }
  }

  lemma {:induction false} SkipSpacesTo(s: string, i: nat, j: nat)
    requires i <= j <= |s| && (j < |s| ==> !Space(s[j])) && forall k :: i <= k < j ==> Space(s[k])
    ensures SkipSpace(s, i) == j
    decreases j - i
  {
    if i < j { SkipSpacesTo(s, i + 1, j); }
  }

  lemma {:induction false} TrimSpacesTo(s: string, start: nat, end: nat, to: nat)
    requires start <= to <= end <= |s| && (to > start ==> !Space(s[to - 1]))
    requires forall k :: to <= k < end ==> Space(s[k])
    ensures TrimSpace(s, start, end) == to
    decreases end
  {
    if end > to { TrimSpacesTo(s, start, end - 1, to); }
  }

  /** The end of a line: the first one behind its text, or the end of the text. */
  lemma FindEnd(s: string, i: nat, j: nat)
    requires i <= j <= |s| && (j < |s| ==> s[j] == '\n') && forall k :: i <= k < j ==> s[k] != '\n'
    ensures Find(s, i, '\n') == j
  {
    if j < |s| { FindAt(s, i, j, '\n'); } else { FindNot(s, i, j, '\n'); }
  }

  /** The blanks around a line are trimmed. */
  lemma PrepIs(s: string, i: nat, front: string, body: string, back: string)
    requires Has(s, i, front + body + back) && Blanks(front) && Blanks(back) && '\n' !in body
    requires if body == "" then back == "" else !Blank(body[0]) && !Blank(body[|body| - 1])
    requires var j := i + |front| + |body| + |back|; j < |s| ==> s[j] == '\n'
    ensures var j := i + |front| + |body| + |back|;
      Prep(s, i) == IniText.Line(if j < |s| then j + 1 else j, i + |front|, i + |front| + |body|)
  {
    HasThree(s, i, front, body, back);
    var st, en, j := i + |front|, i + |front| + |body|, i + |front| + |body| + |back|;
    assert forall k :: i <= k < st ==> s[k] == s[i..i + |front|][k - i] == front[k - i];
    assert forall k :: st <= k < en ==> s[k] == s[st..st + |body|][k - st] == body[k - st];
    assert forall k :: en <= k < j ==> s[k] == s[en..en + |back|][k - en] == back[k - en];
    SkipTo(s, i, st);
    FindEnd(s, st, j);
    TrimTo(s, st, j, en);
  }

  /** The trimmed text of a line stands at `start`. */
  ghost predicate Stands(s: string, start: nat, body: string) {
    Has(s, start, body) && (start + |body| < |s| ==> Blank(s[start + |body|]) || s[start + |body|] == '\n')
  }

  lemma Chars(s: string, i: nat, t: string)
    requires Has(s, i, t)
    ensures i + |t| <= |s| && forall k :: i <= k < i + |t| ==> s[k] == t[k - i]
  {
    assert forall k :: i <= k < i + |t| ==> s[k] == s[i..i + |t|][k - i];
  }

  /** The name is found in front of the first `=`. */
  lemma NameStands(s: string, start: nat, name: string, before: string)
    requires NameBefore(name, before) && Has(s, start, name + before + "=")
    ensures var sep := start + |name| + |before|;
      sep < |s| && Find(s, start, '=') == sep && TrimSpace(s, start, sep) == start + |name|
    ensures At(s, start) != '#' && At(s, start) != '[' && s[start..start + |name|] == name
  {
    hide Has, Find, TrimSpace;
    HasThree(s, start, name, before, "=");
    Chars(s, start, name);
    Chars(s, start + |name|, before);
    Chars(s, start + |name| + |before|, "=");
    FindAt(s, start, start + |name| + |before|, '=');
    TrimSpacesTo(s, start, start + |name| + |before|, start + |name|);
    assert s[start..start + |name|] == name;
  }

  lemma SettingRead(s: string, start: nat, r: Row)
    requires r.Setting? && GoodRow(r) && Stands(s, start, Body(r))
    ensures EntryOf(s, start, start + |Body(r)|) == Some(Entry(r.name, r.value))
    ensures At(s, start) != '['
  {
    hide Has, Find, TrimSpace, SkipSpace, NameBefore;
    var head := r.name + r.before + "=";
    HasThree(s, start, head, r.behind, r.value);
    NameStands(s, start, r.name, r.before);
    ValueStands(s, start + |head|, r.behind, r.value);
  }

  /** The value is found behind the first `=`. */
  lemma ValueStands(s: string, i: nat, behind: string, value: string)
    requires Has(s, i, behind) && Has(s, i + |behind|, value) && Spaces(behind) && value != "" && !Space(value[0])
    ensures var v := i + |behind|; v + |value| <= |s| && SkipSpace(s, i) == v && s[v..v + |value|] == value
  {
    hide Has, SkipSpace;
    Chars(s, i, behind);
    var v := i + |behind|;
    Chars(s, v, value);
    SkipSpacesTo(s, i, v);
    assert s[v..v + |value|] == value;
  }

  lemma NoValueRead(s: string, start: nat, r: Row)
    requires r.NoValue? && GoodRow(r) && Stands(s, start, Body(r))
    ensures At(s, start) != '['
    ensures (
      var end := start + |Body(r)|;
      EntryOf(s, start, end) == if end < |s| && Space(s[end]) then None else Some(Entry(r.name, "")))
  {
    hide Has, Find, TrimSpace, SkipSpace, NameBefore;
    var end := start + |Body(r)|;
    NameStands(s, start, r.name, r.before);
    OneSpace(s, end);
    assert s[end..end] == "";
  }

  lemma OneSpace(s: string, i: nat)
    requires i <= |s|
    ensures SkipSpace(s, i) > i <==> i < |s| && Space(s[i])
  {}

  lemma PlainRead(s: string, start: nat, r: Row)
    requires r.Plain? && GoodRow(r) && Stands(s, start, Body(r))
    ensures EntryOf(s, start, start + |Body(r)|) == Some(Entry("", r.text)) && At(s, start) != '['
  {
    var t, end := r.text, start + |r.text|;
    Chars(s, start, t);
    assert s[start..end] == t;
    if t == "" || t[0] != '#' {
      FindNot(s, start, end, '=');
      assert Find(s, start, '=') == end ==> end == |s|;
    }
  }

  lemma HeaderRead(s: string, start: nat, r: Row)
    requires IsHeader(r) && GoodRow(r) && Stands(s, start, Body(r))
    ensures (
      var end := start + |Body(r)|;
      start < end <= |s| && s[start] == '[' && HeaderName(s, start, end) == r.name)
  {
    hide Has, Find;
    var n, at := r.name, start + 1;
    if r.Header? {
      HasThree(s, start, "[" + n, "]", r.tail);
      OpenName(s, start, n);
      Chars(s, at + |n|, "]");
      TailFits(s, at + |n| + 1, r.tail);
      FindAt(s, start, at + |n|, ']');
    } else {
      OpenName(s, start, n);
      FindNot(s, start, at + |n|, ']');
      assert Find(s, start, ']') == at + |n| ==> at + |n| == |s|;
    }
  }

  lemma OpenName(s: string, start: nat, n: string)
    requires Has(s, start, "[" + n) && ']' !in n
    ensures var at := start + 1;
      at + |n| <= |s| && s[start] == '[' && s[at..at + |n|] == n && forall k :: start <= k < at + |n| ==> s[k] != ']'
  {
    hide Has;
    HasParts(s, start, "[", n);
    Chars(s, start, "[");
    Chars(s, start + 1, n);
    assert s[start + 1..start + 1 + |n|] == n;
  }

  lemma TailFits(s: string, i: nat, t: string)
    requires Has(s, i, t)
    ensures i + |t| <= |s|
  {}

  /** What is read where the text of a row stands. */
  lemma RowRead(s: string, start: nat, r: Row)
    requires GoodRow(r) && Stands(s, start, Body(r))
    ensures (
      var end := start + |Body(r)|;
      && end <= |s| && (At(s, start) == '[' <==> IsHeader(r))
      && (IsHeader(r) ==> start < end && s[start] == '[' && HeaderName(s, start, end) == r.name)
      && (!IsHeader(r) ==>
            EntryOf(s, start, end) == (if r.NoValue? && end < |s| && Space(s[end]) then None else Some(EntryOfRow(r)))))
  {
    hide EntryOf, HeaderName, Find, GoodRow, Body, Stands;
    match r
    case Setting(_, _, _, _) => SettingRead(s, start, r); Fit(s, start, r);
    case NoValue(_, _) => NoValueRead(s, start, r); Fit(s, start, r);
    case Plain(_) => PlainRead(s, start, r); Fit(s, start, r);
    case _ => HeaderRead(s, start, r);
  }

  lemma Fit(s: string, start: nat, r: Row)
    requires Stands(s, start, Body(r))
    ensures start + |Body(r)| <= |s|
  {}

  /** What is read from a line, and where the next one starts. */
  lemma LineRead(s: string, i: nat, l: Laid)
    requires GoodLine(l) && Has(s, i, Line(l)) && i + |Line(l)| <= |s|
    requires if l.eol == "" then i + |Line(l)| == |s| else i + |Line(l)| < |s| && s[i + |Line(l)|] == '\n'
    ensures i < |s|
    ensures var p := Prep(s, i);
      && p.next == i + |Line(l)| + |l.eol|
      && (At(s, p.start) == '[' <==> IsHeader(l.row))
      && (IsHeader(l.row) ==> p.start < p.end && s[p.start] == '[' && HeaderName(s, p.start, p.end) == l.row.name)
      && (!IsHeader(l.row) ==> EntryOf(s, p.start, p.end) == if Fails(l) then None else Some(EntryOfRow(l.row)))
  {
    hide EntryOf, HeaderName, Prep, Find, SkipBlank, TrimBlank, GoodRow, Body, Stands, Has, Trimmed, EntryOfRow;
    var body, st := Body(l.row), i + |l.front|;
    BodyTrimmed(l.row);
    TrimmedIs(body);
    PrepIs(s, i, l.front, body, l.back);
    LineStands(s, i, l);
    RowRead(s, st, l.row);
  }

  lemma TrimmedIs(t: string)
    requires Trimmed(t)
    ensures t == "" || (!Blank(t[0]) && !Blank(t[|t| - 1]))
  {}

  lemma BodyTrimmed(r: Row)
    requires GoodRow(r)
    ensures Trimmed(Body(r))
  {
    var b := Body(r);
    match r
    case Setting(name, before, behind, value) =>
      assert b[|b| - 1] == value[|value| - 1] && b[0] == (if name == "" then '=' else name[0]);
    case NoValue(name, before) => assert b[0] == (if name == "" then '=' else name[0]);
    case Header(name, tail) => assert b[|b| - 1] == (if tail == "" then ']' else tail[|tail| - 1]);
    case _ =>
  }

  lemma LineStands(s: string, i: nat, l: Laid)
    requires GoodLine(l) && Has(s, i, Line(l))
    requires if l.eol == "" then i + |Line(l)| == |s| else i + |Line(l)| < |s| && s[i + |Line(l)|] == '\n'
    ensures var st := i + |l.front|; Stands(s, st, Body(l.row))
    ensures var end := i + |l.front| + |Body(l.row)|; (end < |s| && Space(s[end]) <==> l.back != "" && Space(l.back[0]))
  {
    hide Body, GoodRow;
    var body, st, end := Body(l.row), i + |l.front|, i + |l.front| + |Body(l.row)|;
    HasThree(s, i, l.front, body, l.back);
    if l.back != "" { assert s[end] == s[end..end + |l.back|][0] == l.back[0]; }
  }

  // ----- whole texts -----

  /** The entries of the lines before the first header. */
  function Leading(ls: seq<Laid>): seq<Entry> {
    if ls == [] || IsHeader(ls[0].row) then [] else [EntryOfRow(ls[0].row)] + Leading(ls[1..])
  }

  function FromHeader(ls: seq<Laid>): (r: seq<Laid>)
    ensures |r| <= |ls| && (r != [] ==> IsHeader(r[0].row))
  {
    if ls == [] || IsHeader(ls[0].row) then ls else FromHeader(ls[1..])
  }

  /** A section for the lines before the first header, and one for each header and the lines behind it. Entries
      without name and value at the end of a section are left out. */
  function Sections(ls: seq<Laid>, name: string): seq<Section>
    decreases |ls|
  {
    var rest := FromHeader(ls);
    [Section(name, DropEmpty(Leading(ls)))] + if rest == [] then [] else Sections(rest[1..], rest[0].row.name)
  }

  lemma TextFirst(s: string, i: nat, ls: seq<Laid>)
    requires GoodLines(ls) && ls != [] && i <= |s| && s[i..] == Text(ls)
    ensures var l := ls[0]; var next := i + |Line(l)| + |l.eol|;
      && GoodLine(l) && Has(s, i, Line(l)) && next <= |s| && s[next..] == Text(ls[1..]) && GoodLines(ls[1..])
      && (if l.eol == "" then i + |Line(l)| == |s| else i + |Line(l)| < |s| && s[i + |Line(l)|] == '\n')
  {
    hide GoodLine, Line;
    var l, rest := ls[0], ls[1..];
    var next := i + |Line(l)| + |l.eol|;
    EolIs(l);
    assert s[i..i + |Line(l)|] == s[i..][..|Line(l)|] == Line(l);
    assert s[next..] == s[i..][|Line(l)| + |l.eol|..] == Text(rest);
    if l.eol == "" {
      assert rest == [];
    } else {
      assert s[i + |Line(l)|] == s[i..][|Line(l)|] == l.eol[0];
    }
  }

  lemma EolIs(l: Laid)
    requires GoodLine(l)
    ensures l.eol == "\n" || (l.eol == "" && Line(l) != "")
  {}

  predicate NoneFails(ls: seq<Laid>) { forall k :: 0 <= k < |ls| ==> !Fails(ls[k]) }

  /** The text from `i` on is made of these lines. */
  ghost predicate MadeOf(s: string, i: nat, ls: seq<Laid>) { i <= |s| && GoodLines(ls) && s[i..] == Text(ls) }

  lemma MadeOfNothing(s: string, i: nat)
    requires MadeOf(s, i, [])
    ensures i == |s|
  {
    assert |s[i..]| == 0;
  }

  /** The first line, and the others behind it. */
  lemma FirstRead(s: string, i: nat, ls: seq<Laid>) returns (next: nat)
    requires MadeOf(s, i, ls) && ls != [] && NoneFails(ls)
    ensures i < next <= |s| && MadeOf(s, next, ls[1..]) && NoneFails(ls[1..])
    ensures var p, r := Prep(s, i), ls[0].row;
      && p.next == next && (At(s, p.start) == '[' <==> IsHeader(r))
      && (IsHeader(r) ==> p.start < p.end && s[p.start] == '[' && HeaderName(s, p.start, p.end) == r.name)
      && (!IsHeader(r) ==> EntryOf(s, p.start, p.end) == Some(EntryOfRow(r)))
  {
    hide Prep, EntryOf, GoodLine, Line, Fails, HeaderName;
    TextFirst(s, i, ls);
    LineRead(s, i, ls[0]);
    next := Prep(s, i).next;
    assert forall k :: 0 <= k < |ls[1..]| ==> ls[1..][k] == ls[k + 1];
  }

  lemma {:induction false} EntriesLaid(s: string, i: nat, ls: seq<Laid>)
    requires MadeOf(s, i, ls) && NoneFails(ls) && i <= |s|
    ensures Entries(s, i).Read? && Entries(s, i).entries == Leading(ls)
    ensures MadeOf(s, Entries(s, i).stop, FromHeader(ls)) && NoneFails(FromHeader(ls))
    decreases |ls|
  {
    hide Prep, EntryOf, HeaderName, MadeOf, NoneFails, IsHeader, EntryOfRow;
    if ls == [] {
      MadeOfNothing(s, i);
    } else {
      var next := FirstRead(s, i, ls);
      if !IsHeader(ls[0].row) { EntriesLaid(s, next, ls[1..]); }
    }
  }

  /** Every text whose lines do not fail is read as the sections and entries that its lines say. */
  lemma {:induction false} LoadLaid(s: string, i: nat, ls: seq<Laid>, name: string)
    requires Terminated(s) && MadeOf(s, i, ls) && NoneFails(ls) && i <= |s|
    ensures LoadFrom(s, i, name) == Some(Sections(ls, name))
    decreases |ls|
  {
    hide Prep, Entries, EntryOf, HeaderName, DropEmpty, Leading, FromHeader, Terminated, MadeOf, NoneFails;
    EntriesLaid(s, i, ls);
    var stop, rest := Entries(s, i).stop, FromHeader(ls);
    if rest == [] {
      MadeOfNothing(s, stop);
      assert [Section(name, DropEmpty(Leading(ls)))] + [] == [Section(name, DropEmpty(Leading(ls)))];
    } else {
      var next := FirstRead(s, stop, rest);
      LoadLaid(s, next, rest[1..], rest[0].row.name);
    }
  }

  // ----- every text has lines -----

  lemma {:induction false} SpaceEnds(s: string, i: nat)
    requires i <= |s|
    ensures var j := SkipSpace(s, i); (j < |s| ==> !Space(s[j])) && forall k :: i <= k < j ==> Space(s[k])
    decreases |s| - i
  {
    if i < |s| && Space(s[i]) { SpaceEnds(s, i + 1); }
  }

  lemma {:induction false} BlankEnds(s: string, i: nat)
    requires i <= |s|
    ensures var j := SkipBlank(s, i); (j < |s| ==> !Blank(s[j])) && forall k :: i <= k < j ==> Blank(s[k])
    decreases |s| - i
  {
    if i < |s| && Blank(s[i]) { BlankEnds(s, i + 1); }
  }

  lemma {:induction false} BlankBack(s: string, start: nat, end: nat)
    requires start <= end <= |s|
    ensures var e := TrimBlank(s, start, end);
      (e > start ==> !Blank(s[e - 1])) && forall k :: e <= k < end ==> Blank(s[k])
    decreases end
  {
    if end > start && Blank(s[end - 1]) { BlankBack(s, start, end - 1); }
  }

  lemma {:induction false} SpaceBack(s: string, start: nat, end: nat)
    requires start <= end <= |s|
    ensures var e := TrimSpace(s, start, end);
      (e > start ==> !Space(s[e - 1])) && forall k :: e <= k < end ==> Space(s[k])
    decreases end
  {
    if end > start && Space(s[end - 1]) { SpaceBack(s, start, end - 1); }
  }

  lemma {:induction false} NotBeforeFind(s: string, i: nat, c: char)
    requires i <= |s|
    ensures forall k :: i <= k < Find(s, i, c) ==> s[k] != c
    decreases |s| - i
  {
    if i < |s| && s[i] != c { NotBeforeFind(s, i + 1, c); }
  }

  /** Every text without blanks around it is a row. */
  lemma RowOf(t: string) returns (r: Row)
    requires Trimmed(t)
    ensures GoodRow(r) && Body(r) == t
  {
    if t != "" && t[0] == '[' {
      r := HeaderOf(t);
    } else if t == "" || t[0] == '#' || '=' !in t {
      r := Plain(t);
    } else {
      r := SettingOf(t);
    }
  }

  lemma HeaderOf(t: string) returns (r: Row)
    requires t != "" && Trimmed(t) && t[0] == '['
    ensures GoodRow(r) && Body(r) == t
  {
    var p := Find(t, 1, ']');
    NotBeforeFind(t, 1, ']');
    if p == |t| {
      r := Unclosed(t[1..]);
      assert t == "[" + t[1..];
    } else {
      r := Header(t[1..p], t[p + 1..]);
      assert t == "[" + t[1..p] + "]" + t[p + 1..];
    }
  }

  lemma SettingOf(t: string) returns (r: Row)
    requires t != "" && Trimmed(t) && t[0] != '[' && t[0] != '#' && '=' in t
    ensures GoodRow(r) && Body(r) == t
  {
    hide NameBefore, Find, SkipSpace, Trimmed, GoodRow, Body;
    var p := Find(t, 0, '=');
    NotBeforeFind(t, 0, '=');
    TrimmedIs(t);
    assert p < |t|;
    var n := NameOf(t, p);
    r := RowBehind(t, p, n);
  }

  lemma RowBehind(t: string, p: nat, n: nat) returns (r: Row)
    requires n <= p < |t| && t[p] == '=' && NameBefore(t[..n], t[n..p]) && !Blank(t[|t| - 1])
    ensures GoodRow(r) && Body(r) == t
  {
    hide NameBefore, SkipSpace;
    var name, before := t[..n], t[n..p];
    var head := name + before + "=";
    assert head == t[..p + 1];
    if p == |t| - 1 {
      r := NoValue(name, before);
    } else {
      var v := SkipSpace(t, p + 1);
      SpaceEnds(t, p + 1);
      r := Setting(name, before, t[p + 1..v], t[v..]);
      assert t == t[..p + 1] + t[p + 1..v] + t[v..];
    }
  }

  lemma NameOf(t: string, p: nat) returns (n: nat)
    requires p < |t| && t[p] == '=' && (forall k :: 0 <= k < p ==> t[k] != '=')
    requires !Blank(t[0]) && t[0] != '[' && t[0] != '#'
    ensures n <= p && NameBefore(t[..n], t[n..p])
  {
    hide TrimSpace;
    n := TrimSpace(t, 0, p);
    SpaceBack(t, 0, p);
  }

  /** Every line is a row with blanks around it. */
  lemma Lay(t: string, eol: string) returns (l: Laid)
    requires Inline(t) && (eol == "\n" || (eol == "" && t != ""))
    ensures GoodLine(l) && Line(l) == t && l.eol == eol
  {
    hide SkipBlank, TrimBlank, GoodRow, Body, Inline, GoodLine;
    var a := SkipBlank(t, 0);
    BlankEnds(t, 0);
    if a == |t| {
      Blanked(t);
      l := Laid(t, Plain(""), "", eol);
      NothingIn(t, eol);
    } else {
      var b := TrimBlank(t, a, |t|);
      BlankBack(t, a, |t|);
      var row := RowOf(t[a..b]);
      l := Laid(t[..a], row, t[b..], eol);
      assert t == t[..a] + t[a..b] + t[b..];
      Part(t, a, b);
      GoodLaid(l);
    }
  }

  lemma Blanked(t: string)
    requires forall k :: 0 <= k < |t| ==> Blank(t[k])
    ensures Blanks(t)
  {}

  lemma NothingIn(t: string, eol: string)
    requires Blanks(t) && (eol == "\n" || (eol == "" && t != ""))
    ensures var l := Laid(t, Plain(""), "", eol); GoodLine(l) && Line(l) == t
  {}

  lemma Part(t: string, a: nat, b: nat)
    requires a <= b <= |t| && Inline(t)
    ensures Inline(t[a..b])
  {}

  lemma GoodLaid(l: Laid)
    requires GoodRow(l.row) && Blanks(l.front) && Blanks(l.back) && Inline(Body(l.row)) && Body(l.row) != ""
    requires l.eol == "\n" || l.eol == ""
    ensures GoodLine(l)
  {
    hide GoodRow, Body, Inline;
  }

  lemma {:induction false} LayText(s: string) returns (ls: seq<Laid>)
    requires Terminated(s)
    ensures GoodLines(ls) && Text(ls) == s
    decreases |s|
  {
    hide GoodLine, Line;
    if s == "" { return []; }
    var nl := Find(s, 0, '\n');
    NotBeforeFind(s, 0, '\n');
    if nl == |s| {
      var l := Lay(s, "");
      ls := [l];
      assert ls[1..] == [];
    } else {
      var l := Lay(s[..nl], "\n");
      var rest := LayText(s[nl + 1..]);
      ls := [l] + rest;
      assert ls[1..] == rest && s == s[..nl] + "\n" + s[nl + 1..];
    }
  }

  lemma {:induction false} FailsLaid(s: string, i: nat, ls: seq<Laid>)
    requires i <= |s| && GoodLines(ls) && s[i..] == Text(ls)
    ensures AnyFails(s, i) <==> exists k :: 0 <= k < |ls| && Fails(ls[k])
    decreases |ls|
  {
    hide Prep, EntryOf, GoodLine, Line, HeaderName, BlankValue;
    if ls == [] {
      assert |s[i..]| == 0;
    } else {
      var l, rest := ls[0], ls[1..];
      TextFirst(s, i, ls);
      LineRead(s, i, l);
      LineFails(s, i);
      FailsLaid(s, i + |Line(l)| + |l.eol|, rest);
      assert ls == [l] + rest;
      assert forall k :: 0 <= k < |rest| ==> rest[k] == ls[k + 1];
      if k :| 0 <= k < |ls| && Fails(ls[k]) && k > 0 { assert Fails(rest[k - 1]); }
    }
  }

  /** Any text is made of such lines, and read as what they say, unless one of them fails. */
  lemma EveryText(s: string) returns (ls: seq<Laid>)
    requires Terminated(s)
    ensures GoodLines(ls) && Text(ls) == s
    ensures LoadFrom(s, 0, "") ==
      if exists k :: 0 <= k < |ls| && Fails(ls[k]) then None else Some(Sections(ls, ""))
  {
    hide GoodLines, Fails, AnyFails, Sections, LoadFrom, Text;
    ls := LayText(s);
    assert s[0..] == s;
    FailsLaid(s, 0, ls);
    LoadFails(s, 0, "");
    if !exists k :: 0 <= k < |ls| && Fails(ls[k]) { LoadLaid(s, 0, ls, ""); }
  }
}
