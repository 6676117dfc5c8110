/**
 Exception objects on the heap and the code of src/lomiri/Exception.cpp that renders them.

 `earlier` is the only link the code ever changes; the nested exception is captured once, at construction.
 A set `objects` of exceptions and their `earlier` links (a map, so that facts about it are plain values)
 make up a graph; `Denotes` says that the part of the graph reachable from an object unfolds into a given
 finite report value, which is possible only where the graph has no cycle.
 */
module Exceptions {
  import opened Options
  import opened Report

  datatype Kind = LomiriKind | StdNestedKind | BareNestedKind | PlainStdKind | UnknownKind

  class ExceptionObject {
    const kind: Kind
    const name: string
    const reason: string
    const what: string
    const nested: ExceptionObject?
    var earlier: ExceptionObject?

    constructor (kind: Kind, name: string, reason: string, what: string,
                 nested: ExceptionObject?, earlier: ExceptionObject?)
      ensures this.kind == kind && this.name == name && this.reason == reason && this.what == what
      ensures this.nested == nested && this.earlier == earlier
    {
      this.kind := kind;
      this.name := name;
      this.reason := reason;
      this.what := what;
      this.nested := nested;
      this.earlier := earlier;
    }

    /** self(): make_exception_ptr of a copy. */
    method Self() returns (copy: ExceptionObject)
      ensures fresh(copy) && SameContents(copy) && copy.earlier == earlier
    {
      copy := new ExceptionObject(kind, name, reason, what, nested, earlier);
    }

    ghost predicate SameContents(other: ExceptionObject) {
      other.kind == kind && other.name == name && other.reason == reason && other.what == what
      && other.nested == nested
    }

    /** Links `this` to an earlier exception and hands out a copy of the result. */
    method Remember(earlierException: ExceptionObject?) returns (copy: ExceptionObject)
      modifies this`earlier
      ensures earlier == earlierException
      ensures fresh(copy) && SameContents(copy) && copy.earlier == earlierException
    {
      if earlier != earlierException {
        earlier := earlierException;
      }
      copy := Self();
    }
  }

  /** The std::string the helpers append to. */
  class Text {
    var s: string

    constructor (s: string)
      ensures this.s == s
    {
      this.s := s;
    }

    method Append(t: string)
      modifies this
      ensures s == old(s) + t
    {
      s := s + t;
    }
  }

  /** An int variable that is declared without an initial value. */
  class Counter {
    var value: int
    ghost var written: bool

    constructor ()
      ensures !written
    {
      written := false;
      value := *;
    }

    method Set(v: int)
      modifies this
      ensures written && value == v
    {
      value := v;
      written := true;
    }

    method Increment()
      requires written
      modifies this
      ensures written && value == old(value) + 1
    {
      value := value + 1;
    }

    function Get(): int
      requires written
      reads this
    {
      value
    }
  }

  type Links = map<ExceptionObject, ExceptionObject?>

  ghost function EarlierLinks(objects: set<ExceptionObject>): Links
    reads objects
  {
    map e | e in objects :: e.earlier
  }

  // ----- what an object unfolds to -----

  ghost predicate Denotes(links: Links, e: ExceptionObject, v: Lomiri)
    decreases v
  {
    && e.kind == LomiriKind && e in links
    && e.name == v.name && e.reason == v.reason
    && DenotesEarlier(links, links[e], v.earlier)
    && DenotesNested(links, e.nested, v.nested)
  }

  ghost predicate DenotesEarlier(links: Links, e: ExceptionObject?, v: Option<Lomiri>)
    decreases v
  {
    if v.None? then e == null else e != null && Denotes(links, e, v.value)
  }

  ghost predicate DenotesNested(links: Links, e: ExceptionObject?, v: Option<Cause>)
    decreases v
  {
    if v.None? then e == null else e != null && DenotesCause(links, e, v.value)
  }

  ghost predicate DenotesCause(links: Links, e: ExceptionObject, c: Cause)
    decreases c
  {
    match c
    case OfLomiri(v) => Denotes(links, e, v)
    case StdNested(w, n) => e.kind == StdNestedKind && e.what == w && DenotesNested(links, e.nested, n)
    case BareNested(n) => e.kind == BareNestedKind && DenotesNested(links, e.nested, n)
    case PlainStd(w) => e.kind == PlainStdKind && e.what == w
    case Unknown => e.kind == UnknownKind
  }

  // ----- rendering -----

  method GetMargin(indentLevel: int, indent: string) returns (margin: string)
    ensures margin == Repeat(indentLevel, indent) && IsMargin(margin, indentLevel, indent)
  {
    margin := "";
    var i := 0;
    while i < indentLevel
      invariant 0 <= i && (i <= indentLevel || i == 0)
      invariant margin == Repeat(i, indent)
    {
      margin := margin + indent;
      i := i + 1;
    }
    RepeatIsMargin(indentLevel, indent);
  }

  /** std::to_string for the generation count. */
  method IntToString(n: int) returns (s: string)
    requires 0 <= n
    ensures s == Decimal(n)
  {
    s := Decimal(n);
  }

  method PrintNameAndReason(s: Text, e: ExceptionObject, ghost links: Links, ghost c: Cause)
    requires DenotesCause(links, e, c)
    requires c.OfLomiri? || c.StdNested? || c.BareNested?
    modifies s
    ensures s.s == old(s.s) + Label(c)
    ensures old(s.s) <= s.s && Says(s.s[|old(s.s)|..], c, false)
  {
    var isLomiri := e.kind == LomiriKind;
    var isStd := e.kind == LomiriKind || e.kind == StdNestedKind;
    if isLomiri {
      s.Append(e.name);
      if e.reason != "" {
        s.Append(": " + e.reason);
      }
    } else if isStd {
      s.Append(e.what);
    }
    if !isLomiri {
      if isStd {
        s.Append(STD_NESTED_NOTE);
      } else {
        s.Append(BARE_NESTED);
      }
    }
    LabelIsSaid(c);
    assert s.s[|old(s.s)|..] == Label(c);
  }

  /** Appends the cause of `e`, if it has one. */
  method FollowNested(s: Text, e: ExceptionObject, indentLevel: int, indent: string,
                      ghost objects: set<ExceptionObject>, ghost n: Option<Cause>)
    requires DenotesNested(EarlierLinks(objects), e.nested, n)
    modifies s
    ensures s.s == old(s.s) + NestedText(n, indentLevel, indent)
    decreases n, 0
  {
    if e.nested != null {
      s.Append(":\n");
      PrintCaught(s, e.nested, indentLevel, indent, objects, n.value);
      RenderCause(n.value, indentLevel, indent);
    }
  }

  /** The catch clauses of follow_nested, tried in order on the rethrown exception. */
  method PrintCaught(s: Text, caught: ExceptionObject, indentLevel: int, indent: string,
                     ghost objects: set<ExceptionObject>, ghost c: Cause)
    requires DenotesCause(EarlierLinks(objects), caught, c)
    modifies s
    ensures s.s == old(s.s) + CauseText(c, indentLevel, indent)
    decreases c, 4
  {
    if caught.kind == LomiriKind {
      var t := ToString(caught, indentLevel + 1, indent, objects, c.exc);
      s.Append(t);
    } else {
      var margin := GetMargin(indentLevel, indent);
      s.Append(margin + indent);
      PrintForeign(s, caught, indentLevel, indent, objects, c);
      Regroup(old(s.s), margin + indent, ForeignText(c, indentLevel, indent));
    }
  }

  method PrintForeign(s: Text, caught: ExceptionObject, indentLevel: int, indent: string,
                      ghost objects: set<ExceptionObject>, ghost c: Cause)
    requires DenotesCause(EarlierLinks(objects), caught, c)
    requires !c.OfLomiri?
    modifies s
    ensures s.s == old(s.s) + ForeignText(c, indentLevel, indent)
    decreases c, 3
  {
    match caught.kind {
      case StdNestedKind | BareNestedKind =>
        PrintNameAndReason(s, caught, EarlierLinks(objects), c);
        FollowNested(s, caught, indentLevel + 1, indent, objects, c.nested);
        Regroup(old(s.s), Label(c), NestedText(c.nested, indentLevel + 1, indent));
      case PlainStdKind =>
        s.Append(caught.what);
      case UnknownKind =>
        s.Append(UNKNOWN);
    }
  }

  lemma Regroup(a: string, b: string, c: string)
    ensures a + b + c == a + (b + c)
  {
  }

  ghost function CauseText(c: Cause, level: int, indent: string): string {
    if c.OfLomiri? then Render(ReportLines(c.exc), level + 1, indent)
    else (Repeat(level, indent) + indent) + ForeignText(c, level, indent)
  }

  ghost function ForeignText(c: Cause, level: int, indent: string): string {
    Label(c) + CauseOfForeign(c, level, indent)
  }

  lemma RenderCause(c: Cause, level: int, indent: string)
    ensures Render(CauseLines(c), level, indent) == CauseText(c, level, indent)
  {
    if c.OfLomiri? {
      RenderShift(ReportLines(c.exc), 1, level, indent);
    } else {
      RenderForeign(c, level, indent);
      Regroup(Repeat(level, indent) + indent, Label(c), CauseOfForeign(c, level, indent));
    }
  }

  ghost function CauseOfForeign(c: Cause, level: int, indent: string): string {
    if c.StdNested? || c.BareNested? then NestedText(c.nested, level + 1, indent) else ""
  }

  lemma RenderForeign(c: Cause, level: int, indent: string)
    requires !c.OfLomiri?
    ensures Render(CauseLines(c), level, indent)
         == Repeat(level, indent) + indent + Label(c) + CauseOfForeign(c, level, indent)
  {
    RenderExtra(Label(c), level, indent);
    if c.StdNested? || c.BareNested? {
      RenderAttach([Line(0, 1, Label(c))], c.nested, 1, level, indent);
    }
  }

  lemma RenderExtra(text: string, level: int, indent: string)
    ensures Render([Line(0, 1, text)], level, indent) == Repeat(level, indent) + indent + text
  {
  }

  lemma RenderFlush(text: string, level: int, indent: string)
    ensures Render([Line(0, 0, text)], level, indent) == Repeat(level, indent) + text
  {
  }

  /** Appends the history entries for `e` and everything before it, and leaves their number in `count`. */
  method FollowHistory(s: Text, count: Counter, e: ExceptionObject, indentLevel: int, indent: string,
                       ghost objects: set<ExceptionObject>, ghost v: Lomiri)
    requires Denotes(EarlierLinks(objects), e, v)
    modifies s, count
    ensures s.s == old(s.s) + "\n" + Render(HistoryLines(v), indentLevel, indent)
    ensures count.written && count.value == Generation(v)
    decreases v, 1
  {
    if e.earlier == null {
      count.Set(1);
    } else {
      FollowHistory(s, count, e.earlier, indentLevel, indent, objects, v.earlier.value);
      count.Increment();
    }
    AppendEntry(s, count.Get(), e, indentLevel, indent, objects, v);
    HistoryGrows(v, indentLevel, indent);
  }

  lemma HistoryGrows(v: Lomiri, level: int, indent: string)
    ensures Render(HistoryLines(v), level, indent)
         == (if v.earlier.None? then "" else Render(HistoryLines(v.earlier.value), level, indent) + "\n")
            + Render(Entry(v, Generation(v)), level, indent)
  {
    if v.earlier.Some? {
      RenderConcat(HistoryLines(v.earlier.value), Entry(v, Generation(v)), level, indent);
    } else {
      assert HistoryLines(v) == Entry(v, Generation(v));
    }
  }

  /** The last five lines of follow_history. */
  method AppendEntry(s: Text, count: int, e: ExceptionObject, indentLevel: int, indent: string,
                     ghost objects: set<ExceptionObject>, ghost v: Lomiri)
    requires Denotes(EarlierLinks(objects), e, v) && 0 <= count
    modifies s
    ensures s.s == old(s.s) + "\n" + Render(Entry(v, count), indentLevel, indent)
    decreases v, 0
  {
    var margin := GetMargin(indentLevel, indent);
    s.Append("\n" + margin + ENTRY_PREFIX);
    var number := IntToString(count);
    s.Append(number + ":\n");
    s.Append(margin + indent);
    PrintNameAndReason(s, e, EarlierLinks(objects), OfLomiri(v));
    FollowNested(s, e, indentLevel + 1, indent, objects, v.nested);
    EntryText(old(s.s), v, count, indentLevel, indent);
  }

  lemma EntryText(before: string, v: Lomiri, n: nat, level: int, indent: string)
    ensures before + "\n" + Render(Entry(v, n), level, indent)
         == before + ("\n" + Repeat(level, indent) + ENTRY_PREFIX) + (Decimal(n) + ":\n")
          + (Repeat(level, indent) + indent) + Title(v) + NestedText(v.nested, level + 1, indent)
  {
    var title := Line(0, 1, Title(v));
    var margin := Repeat(level, indent);
    RenderConcat([Line(0, 0, EntryHeading(n))], Attach([title], v.nested, 1), level, indent);
    RenderAttach([title], v.nested, 1, level, indent);
    RenderFlush(EntryHeading(n), level, indent);
    RenderExtra(Title(v), level, indent);
    RegroupEntry(before, margin, ENTRY_PREFIX, Decimal(n), indent, Title(v), NestedText(v.nested, level + 1, indent));
  }

  lemma RegroupEntry(before: string, margin: string, prefix: string, number: string,
                     indent: string, title: string, rest: string)
    ensures before + "\n" + ((margin + (prefix + number + ":")) + "\n" + ((margin + indent + title) + rest))
         == before + ("\n" + margin + prefix) + (number + ":\n") + (margin + indent) + title + rest
  {
  }

  /** Exception::to_string(int, string): the report's lines at the given level. */
  method ToString(e: ExceptionObject, indentLevel: int, indent: string,
                  ghost objects: set<ExceptionObject>, ghost v: Lomiri)
    returns (result: string)
    requires Denotes(EarlierLinks(objects), e, v)
    ensures result == Render(ReportLines(v), indentLevel, indent)
    decreases v, 2
  {
    var margin := GetMargin(indentLevel, indent);
    var s := new Text(margin);
    AppendTitle(s, e, EarlierLinks(objects), v);
    AppendHistory(s, e, margin, indentLevel, indent, objects, v);
    FollowNested(s, e, indentLevel, indent, objects, v.nested);
    ReportText(v, indentLevel, indent);
    result := s.s;
  }

  method AppendTitle(s: Text, e: ExceptionObject, ghost links: Links, ghost v: Lomiri)
    requires Denotes(links, e, v)
    modifies s
    ensures s.s == old(s.s) + Title(v)
  {
    s.Append(e.name);
    if e.reason != "" {
      s.Append(": " + e.reason);
    }
  }

  /** The part of to_string that shows the history. */
  method AppendHistory(s: Text, e: ExceptionObject, margin: string, indentLevel: int, indent: string,
                       ghost objects: set<ExceptionObject>, ghost v: Lomiri)
    requires Denotes(EarlierLinks(objects), e, v)
    requires margin == Repeat(indentLevel, indent)
    modifies s
    ensures s.s == old(s.s) + HistoryText(v.earlier, indentLevel, indent)
    decreases v, 1
  {
    if e.earlier != null {
      s.Append("\n" + margin + indent + HISTORY_HEADING);
      var count := new Counter();
      FollowHistory(s, count, e.earlier, indentLevel + 2, indent, objects, v.earlier.value);
    }
  }

  ghost function HistoryText(earlier: Option<Lomiri>, level: int, indent: string): string {
    if earlier.None? then ""
    else
      ("\n" + Repeat(level, indent) + indent + HISTORY_HEADING)
      + "\n" + Render(HistoryLines(earlier.value), level + 2, indent)
  }

  lemma ReportText(v: Lomiri, level: int, indent: string)
    ensures Render(ReportLines(v), level, indent)
         == Repeat(level, indent) + Title(v) + HistoryText(v.earlier, level, indent)
            + NestedText(v.nested, level, indent)
  {
    var head := [Line(0, 0, Title(v))] + HistorySection(v.earlier);
    HeadText(v, level, indent);
    TextBehind(head, v.nested, level, indent,
               Repeat(level, indent) + Title(v) + HistoryText(v.earlier, level, indent));
  }

  lemma TextBehind(head: seq<Line>, nested: Option<Cause>, level: int, indent: string, text: string)
    requires head != [] && Render(head, level, indent) == text
    ensures Render(Attach(head, nested, 0), level, indent) == text + NestedText(nested, level, indent)
  {
    RenderAttach(head, nested, 0, level, indent);
  }

  lemma HeadText(v: Lomiri, level: int, indent: string)
    ensures Render([Line(0, 0, Title(v))] + HistorySection(v.earlier), level, indent)
         == Repeat(level, indent) + Title(v) + HistoryText(v.earlier, level, indent)
  {
    var title := Line(0, 0, Title(v));
    RenderFlush(Title(v), level, indent);
    if v.earlier.None? {
      assert [title] + HistorySection(v.earlier) == [title];
    } else {
      RenderConcat([title], HistorySection(v.earlier), level, indent);
      SectionText(v.earlier.value, level, indent);
      RegroupHead(Repeat(level, indent), Title(v), indent, HISTORY_HEADING,
                  Render(HistoryLines(v.earlier.value), level + 2, indent));
    }
  }

  lemma SectionText(earlier: Lomiri, level: int, indent: string)
    ensures Render(HistorySection(Some(earlier)), level, indent)
         == (Repeat(level, indent) + indent + HISTORY_HEADING)
            + "\n" + Render(HistoryLines(earlier), level + 2, indent)
  {
    var history := HistoryLines(earlier);
    RenderConcat([Line(0, 1, HISTORY_HEADING)], Shift(history, 2), level, indent);
    RenderExtra(HISTORY_HEADING, level, indent);
    RenderShift(history, 2, level, indent);
  }

  lemma RegroupHead(margin: string, title: string, indent: string, heading: string, rest: string)
    ensures (margin + title) + "\n" + ((margin + indent + heading) + "\n" + rest)
         == margin + title + (("\n" + margin + indent + heading) + "\n" + rest)
  {
  }
}
