/** What every report satisfies: layout, completeness and the numbering of the history. */
module ReportProperties {
  import opened Options
  import opened Report

  // ----- one flat list of (depth, text) rows, whatever the level and the indent -----

  datatype Row = Row(depth: nat, text: string)

  function Rows(ls: seq<Line>): (r: seq<Row>)
    ensures |r| == |ls|
  {
    seq(|ls|, i requires 0 <= i < |ls| => Row(ls[i].depth + ls[i].extra, ls[i].text))
  }

  /** Each row behind `level + depth` indents. */
  function Indented(rows: seq<Row>, level: int, indent: string): (r: seq<string>)
    ensures |r| == |rows|
  {
    seq(|rows|, i requires 0 <= i < |rows| => Repeat(level + rows[i].depth, indent) + rows[i].text)
  }

  ghost predicate LaidOutFlat(e: Lomiri, level: int, indent: string) {
    Render(ReportLines(e), level, indent) == Join(Indented(Rows(ReportLines(e)), level, indent))
  }

  lemma {:induction false} RepeatAdd(a: nat, b: nat, indent: string)
    ensures Repeat(a + b, indent) == Repeat(a, indent) + Repeat(b, indent)
  {
    if b == 0 {
    } else {
      RepeatAdd(a, b - 1, indent);
    }
  }

  lemma {:induction false} RepeatEmpty(a: int)
    ensures Repeat(a, "") == ""
    decreases a
  {
    if a <= 0 {
    } else {
      RepeatEmpty(a - 1);
    }
  }

  lemma FlatLine(l: Line, level: int, indent: string)
    requires 0 <= level || indent == ""
    ensures RenderLine(l, level, indent) == Repeat(level + (l.depth + l.extra), indent) + l.text
  {
    if 0 <= level {
      RepeatAdd(level + l.depth, l.extra, indent);
    } else {
      RepeatEmpty(level + l.depth);
      RepeatEmpty(l.extra);
      RepeatEmpty(level + (l.depth + l.extra));
    }
  }

  lemma {:induction false} RepeatGrows(a: int, b: int, indent: string)
    requires a <= b
    ensures |Repeat(a, indent)| <= |Repeat(b, indent)|
    ensures indent != "" && a < b && 0 < b ==> |Repeat(a, indent)| < |Repeat(b, indent)|
    decreases b
  {
    if b <= 0 || a == b {
    } else {
      RepeatGrows(a, b - 1, indent);
    }
  }

  /** The lines that negative levels spoil: their margin is empty already, but not their extra indent. */
  ghost predicate Protrudes(l: Line, level: int) {
    0 < l.extra && level + l.depth < 0
  }

  ghost predicate NoneProtrudes(ls: seq<Line>, level: int) {
    forall i :: 0 <= i < |ls| ==> !Protrudes(ls[i], level)
  }

  lemma LineAtAnyLevel(l: Line, level: int, indent: string)
    ensures var flat := Repeat(level + (l.depth + l.extra), indent) + l.text;
            && (!Protrudes(l, level) || indent == "" ==> RenderLine(l, level, indent) == flat)
            && |flat| <= |RenderLine(l, level, indent)|
            && (Protrudes(l, level) && indent != "" ==> |flat| < |RenderLine(l, level, indent)|)
  {
    if 0 <= level + l.depth {
      RepeatAdd(level + l.depth, l.extra, indent);
    } else {
      RepeatGrows(level + l.depth + l.extra, l.extra, indent);
      if indent == "" {
        FlatLine(l, level, indent);
      }
    }
  }

  lemma {:induction false} JoinGrows(shorter: seq<string>, longer: seq<string>)
    requires |shorter| == |longer| > 0 && forall i :: 0 <= i < |shorter| ==> |shorter[i]| <= |longer[i]|
    ensures |Join(shorter)| <= |Join(longer)|
    ensures (exists i :: 0 <= i < |shorter| && |shorter[i]| < |longer[i]|) ==> |Join(shorter)| < |Join(longer)|
  {
    var n := |shorter| - 1;
    if n == 0 {
    } else {
      JoinGrows(shorter[..n], longer[..n]);
    }
  }

  lemma FlatLinesExactly(ls: seq<Line>, level: int, indent: string)
    requires ls != []
    ensures Render(ls, level, indent) == Join(Indented(Rows(ls), level, indent))
            <==> indent == "" || NoneProtrudes(ls, level)
  {
    var (ts, us) := (RenderedLines(ls, level, indent), Indented(Rows(ls), level, indent));
    forall i | 0 <= i < |ls|
      ensures |us[i]| <= |ts[i]|
      ensures !Protrudes(ls[i], level) || indent == "" ==> ts[i] == us[i]
      ensures Protrudes(ls[i], level) && indent != "" ==> |us[i]| < |ts[i]|
    {
      LineAtAnyLevel(ls[i], level, indent);
    }
    JoinGrows(us, ts);
    if indent == "" || NoneProtrudes(ls, level) {
      assert ts == us;
    } else {
      var i :| 0 <= i < |ls| && Protrudes(ls[i], level);
      assert |us[i]| < |ts[i]|;
    }
  }

  /**
   For every report there is one list of (depth, text) rows, and to_string shows each row behind `level + depth`
   indents, exactly if indents are invisible or no line protrudes: the extra indent of a heading, a history entry
   or a foreign cause is printed in full even where the level is so far below 0 that its margin is empty.
   */
  lemma FlatExactly(e: Lomiri, level: int, indent: string)
    ensures LaidOutFlat(e, level, indent) <==> indent == "" || NoneProtrudes(ReportLines(e), level)
  {
    FlatLinesExactly(ReportLines(e), level, indent);
  }

  /** So all reports are laid out flat exactly at the levels that are not negative. */
  lemma FlatForAllExactly(level: int, indent: string)
    ensures (forall e: Lomiri :: LaidOutFlat(e, level, indent)) <==> 0 <= level || indent == ""
  {
    if 0 <= level || indent == "" {
      forall e: Lomiri
        ensures LaidOutFlat(e, level, indent)
      {
        FlatExactly(e, level, indent);
      }
    } else {
      var e := Lomiri("e", "", None, Some(PlainStd("")));
      var own := [Line(0, 0, Title(e))] + HistorySection(e.earlier);
      assert ReportLines(e) == ColonLast(own) + Shift(CauseLines(PlainStd("")), 0);
      assert CauseLines(PlainStd(""))[0] == Line(0, 1, "");
      assert Protrudes(ReportLines(e)[|own|], level);
      FlatExactly(e, level, indent);
    }
  }

  function Prefixed(p: string, ts: seq<string>): (r: seq<string>)
    ensures |r| == |ts|
  {
    seq(|ts|, i requires 0 <= i < |ts| => p + ts[i])
  }

  lemma RaiseLine(l: Line, level: nat, k: nat, indent: string)
    ensures RenderLine(l, level + k, indent) == Repeat(k, indent) + RenderLine(l, level, indent)
  {
    RepeatAdd(k, level + l.depth, indent);
    Associate(Repeat(k, indent), Repeat(level + l.depth, indent), Repeat(l.extra, indent), l.text);
  }

  lemma Associate(a: string, b: string, c: string, d: string)
    ensures a + b + c + d == a + (b + c + d)
  {
  }

  /** Raising the level by k puts k more indents in front of every line and changes nothing else. */
  lemma RaiseLevel(e: Lomiri, level: nat, k: nat, indent: string)
    ensures Render(ReportLines(e), level + k, indent)
         == Join(Prefixed(Repeat(k, indent), RenderedLines(ReportLines(e), level, indent)))
  {
    var ls := ReportLines(e);
    var (low, high) := (RenderedLines(ls, level, indent), RenderedLines(ls, level + k, indent));
    forall i | 0 <= i < |ls|
      ensures high[i] == Repeat(k, indent) + low[i]
    {
      RaiseLine(ls[i], level, k, indent);
    }
    assert high == Prefixed(Repeat(k, indent), low);
  }

  // ----- nothing is dropped -----

  function CauseCount(n: Option<Cause>): nat
    decreases n, 1
  {
    if n.None? then 0
    else match n.value
      case OfLomiri(e) => LineCount(e)
      case StdNested(_, m) => 1 + CauseCount(m)
      case BareNested(m) => 1 + CauseCount(m)
      case PlainStd(_) => 1
      case Unknown => 1
  }

  /** Title, heading and entries of the history if there is one, then the causes. */
  function LineCount(e: Lomiri): nat
    decreases e, 1
  {
    1 + (if e.earlier.None? then 0 else 1 + EntriesCount(e.earlier.value)) + CauseCount(e.nested)
  }

  /** Two lines for every exception on the chain, and the lines of its causes. */
  function EntriesCount(e: Lomiri): nat
    decreases e, 0
  {
    (if e.earlier.None? then 0 else EntriesCount(e.earlier.value)) + 2 + CauseCount(e.nested)
  }

  lemma AttachLength(ls: seq<Line>, n: Option<Cause>, k: nat)
    requires ls != []
    ensures |Attach(ls, n, k)| == |ls| + (if n.None? then 0 else |CauseLines(n.value)|)
  {
  }

  lemma {:induction false} ReportLength(e: Lomiri)
    ensures |ReportLines(e)| == LineCount(e)
    decreases e, 1
  {
    if e.earlier.Some? {
      HistoryLength(e.earlier.value);
    }
    CauseLength(e.nested);
  }

  lemma {:induction false} HistoryLength(e: Lomiri)
    ensures |HistoryLines(e)| == EntriesCount(e)
    decreases e, 0
  {
    if e.earlier.Some? {
      HistoryLength(e.earlier.value);
    }
    CauseLength(e.nested);
    AttachLength([Line(0, 1, Title(e))], e.nested, 1);
    assert |Entry(e, Generation(e))| == 2 + CauseCount(e.nested);
  }

  lemma {:induction false} CauseLength(n: Option<Cause>)
    ensures n.Some? ==> |CauseLines(n.value)| == CauseCount(n)
    decreases n, 2
  {
    if n.Some? {
      match n.value
      case OfLomiri(e) => ReportLength(e);
      case StdNested(_, m) => CauseLength(m);
      case BareNested(m) => CauseLength(m);
      case PlainStd(_) =>
      case Unknown =>
    }
  }

  // ----- what stands where -----

  /** The lines of `part` are in `ls`, `k` levels deeper, with a colon behind the last if `colon`. */
  ghost predicate Stands(part: seq<Line>, ls: seq<Line>, at: int, k: nat, colon: bool) {
    && 0 <= at && at + |part| <= |ls|
    && forall i :: 0 <= i < |part| ==>
         && ls[at + i].depth == part[i].depth + k && ls[at + i].extra == part[i].extra
         && ls[at + i].text == part[i].text + (if colon && i == |part| - 1 then ":" else "")
  }

  lemma AttachLayout(ls: seq<Line>, n: Option<Cause>, k: nat)
    requires ls != []
    ensures var all := Attach(ls, n, k);
            && Stands(ls, all, 0, 0, n.Some?)
            && |all| == |ls| + (if n.Some? then |CauseLines(n.value)| else 0)
            && (n.Some? ==> Stands(CauseLines(n.value), all, |ls|, k, false))
  {
  }

  lemma StandsInside(part: seq<Line>, ls: seq<Line>, at: int, k: nat, all: seq<Line>, colon: bool)
    requires Stands(part, ls, at, k, false) && at + |part| == |ls| && Stands(ls, all, 0, 0, colon)
    ensures Stands(part, all, at, k, colon)
  {
  }

  lemma HeadLayout(e: Lomiri)
    ensures var head := [Line(0, 0, Title(e))] + HistorySection(e.earlier);
            && (e.earlier.None? ==> |head| == 1)
            && (e.earlier.Some? ==>
                  && |head| == 2 + |HistoryLines(e.earlier.value)|
                  && head[1].depth == 0 && head[1].extra == 1 && head[1].text == HISTORY_HEADING
                  && Stands(HistoryLines(e.earlier.value), head, 2, 2, false))
  {
    if e.earlier.Some? {
      var head := [Line(0, 0, Title(e))] + HistorySection(e.earlier);
      var history := HistoryLines(e.earlier.value);
      forall i | 0 <= i < |history|
        ensures head[2 + i] == history[i].(depth := history[i].depth + 2)
      {
        assert head[2 + i] == Shift(history, 2)[i];
      }
    }
  }

  /** The first line of a report is its title; the colon belongs there only if the cause follows at once. */
  lemma TitleComesFirst(e: Lomiri)
    ensures var first := ReportLines(e)[0];
            first.depth == first.extra == 0 && Titled(first.text, e, e.nested.Some? && e.earlier.None?)
  {
    var head := [Line(0, 0, Title(e))] + HistorySection(e.earlier);
    HeadLayout(e);
    AttachLayout(head, e.nested, 0);
    assert head[0].text == Title(e);
  }

  /** Then comes the history under its heading, two levels deeper, with a colon at its end if a cause follows. */
  lemma HistoryComesSecond(e: Lomiri)
    requires e.earlier.Some?
    ensures var ls := ReportLines(e);
            && 2 <= |ls| && ls[1] == Line(0, 1, "Exception history:")
            && Stands(HistoryLines(e.earlier.value), ls, 2, 2, e.nested.Some?)
  {
    var head := [Line(0, 0, Title(e))] + HistorySection(e.earlier);
    HeadLayout(e);
    AttachLayout(head, e.nested, 0);
    StandsInside(HistoryLines(e.earlier.value), head, 2, 2, ReportLines(e), e.nested.Some?);
    assert ReportLines(e)[0 + 1].text == head[1].text + "";
  }

  /** And then the lines of the cause, at their own depth, and nothing else. */
  lemma CauseComesLast(e: Lomiri)
    ensures var (ls, before) := (ReportLines(e), if e.earlier.Some? then 2 + |HistoryLines(e.earlier.value)| else 1);
            if e.nested.None? then |ls| == before
            else |ls| == before + |CauseLines(e.nested.value)|
                 && Stands(CauseLines(e.nested.value), ls, before, 0, false)
  {
    HeadLayout(e);
    AttachLayout([Line(0, 0, Title(e))] + HistorySection(e.earlier), e.nested, 0);
  }

  /** A cause: a Lomiri exception's report one level deeper, or a line of its own and its causes below that. */
  lemma CauseLayout(c: Cause)
    ensures c.OfLomiri? ==> Stands(ReportLines(c.exc), CauseLines(c), 0, 1, false)
                            && |CauseLines(c)| == |ReportLines(c.exc)|
    ensures !c.OfLomiri? ==>
              var ls := CauseLines(c);
              var deeper := if c.StdNested? || c.BareNested? then c.nested else None;
              && ls[0].depth == 0 && ls[0].extra == 1 && Says(ls[0].text, c, deeper.Some?)
              && (if deeper.None? then |ls| == 1
                  else |ls| == 1 + |CauseLines(deeper.value)| && Stands(CauseLines(deeper.value), ls, 1, 1, false))
  {
    if c.StdNested? || c.BareNested? {
      AttachLayout([Line(0, 1, Label(c))], c.nested, 1);
    }
  }

  /** A history entry: its number, and one level deeper its title and its causes. */
  lemma EntryLayout(e: Lomiri, n: nat)
    ensures var ls := Entry(e, n);
            && ls[0] == Line(0, 0, "Exception #" + Decimal(n) + ":")
            && ls[1].depth == 0 && ls[1].extra == 1 && Titled(ls[1].text, e, e.nested.Some?)
            && (if e.nested.None? then |ls| == 2
                else |ls| == 2 + |CauseLines(e.nested.value)|
                     && Stands(CauseLines(e.nested.value), ls, 2, 1, false))
  {
    AttachLayout([Line(0, 1, Title(e))], e.nested, 1);
  }

  // ----- nobody is left out -----

  /**
   All exceptions reachable from a cause shown at depth `b`, each with its own depth: one more for every level of
   nesting; three more for a remembered exception, below its number below the heading.
   */
  function Reachable(c: Cause, b: nat): set<(nat, Cause)>
    decreases c
  {
    {(b, c)} +
    match c
    case OfLomiri(e) => ReachableEarlier(e.earlier, b + 3) + ReachableNested(e.nested, b + 1)
    case StdNested(_, n) => ReachableNested(n, b + 1)
    case BareNested(n) => ReachableNested(n, b + 1)
    case PlainStd(_) => {}
    case Unknown => {}
  }

  function ReachableNested(n: Option<Cause>, b: nat): set<(nat, Cause)>
    decreases n
  {
    if n.None? then {} else Reachable(n.value, b)
  }

  function ReachableEarlier(n: Option<Lomiri>, b: nat): set<(nat, Cause)>
    decreases n
  {
    if n.None? then {}
    else
      {(b, OfLomiri(n.value))} + ReachableEarlier(n.value.earlier, b) + ReachableNested(n.value.nested, b + 1)
  }

  /** Some line at depth `d` is that of `x`, with or without a colon; the last line has none yet. */
  ghost predicate Mentions(ls: seq<Line>, d: int, x: Cause) {
    exists i :: 0 <= i < |ls| && IsLineOf(ls, i, d, x)
  }

  ghost predicate IsLineOf(ls: seq<Line>, i: nat, d: int, x: Cause)
    requires i < |ls|
  {
    && ls[i].depth + ls[i].extra == d
    && (Says(ls[i].text, x, false) || (i < |ls| - 1 && Says(ls[i].text, x, true)))
  }

  lemma ColonIsSaid(text: string, x: Cause)
    requires Says(text, x, false)
    ensures Says(text + ":", x, true)
  {
  }

  lemma MentionsIn(part: seq<Line>, ls: seq<Line>, at: int, k: nat, colon: bool, d: int, x: Cause)
    requires Mentions(part, d, x) && Stands(part, ls, at, k, colon)
    requires colon ==> at + |part| < |ls|
    ensures Mentions(ls, d + k, x)
  {
    var i :| 0 <= i < |part| && IsLineOf(part, i, d, x);
    if colon && i == |part| - 1 {
      ColonIsSaid(part[i].text, x);
    }
    assert part[i].text + "" == part[i].text;
    assert IsLineOf(ls, at + i, d + k, x);
  }

  lemma OwnLines(c: Cause, n: nat)
    ensures c.OfLomiri? ==> Mentions(ReportLines(c.exc), 0, c) && Mentions(Entry(c.exc, n), 1, c)
    ensures !c.OfLomiri? ==> Mentions(CauseLines(c), 1, c)
  {
    if c.OfLomiri? {
      TitleComesFirst(c.exc);
      CauseComesLast(c.exc);
      EntryLayout(c.exc, n);
      assert IsLineOf(ReportLines(c.exc), 0, 0, c);
      assert IsLineOf(Entry(c.exc, n), 1, 1, c);
    } else {
      CauseLayout(c);
      assert IsLineOf(CauseLines(c), 0, 1, c);
    }
  }

  lemma CausePosition(e: Lomiri) returns (at: nat)
    requires e.nested.Some?
    ensures Stands(CauseLines(e.nested.value), ReportLines(e), at, 0, false)
  {
    CauseComesLast(e);
    at := if e.earlier.Some? then 2 + |HistoryLines(e.earlier.value)| else 1;
  }

  lemma CauseInReport(e: Lomiri, d: int, x: Cause)
    requires e.nested.Some? && Mentions(CauseLines(e.nested.value), d, x)
    ensures Mentions(ReportLines(e), d, x)
  {
    var at := CausePosition(e);
    MentionsIn(CauseLines(e.nested.value), ReportLines(e), at, 0, false, d, x);
  }

  lemma HistoryInReport(e: Lomiri, d: int, x: Cause)
    requires e.earlier.Some? && Mentions(HistoryLines(e.earlier.value), d, x)
    ensures Mentions(ReportLines(e), d + 2, x)
  {
    CauseComesLast(e);
    HistoryComesSecond(e);
    MentionsIn(HistoryLines(e.earlier.value), ReportLines(e), 2, 2, e.nested.Some?, d, x);
  }

  lemma MentionsInConcat(a: seq<Line>, b: seq<Line>, d: int, x: Cause)
    requires Mentions(a, d, x) || Mentions(b, d, x)
    ensures Mentions(a + b, d, x)
  {
    if Mentions(a, d, x) {
      MentionsIn(a, a + b, 0, 0, false, d, x);
    } else {
      MentionsIn(b, a + b, |a|, 0, false, d, x);
    }
  }

  lemma InHistory(e: Lomiri, d: int, x: Cause)
    requires (e.earlier.Some? && Mentions(HistoryLines(e.earlier.value), d, x))
             || Mentions(Entry(e, Generation(e)), d, x)
    ensures Mentions(HistoryLines(e), d, x)
  {
    MentionsInConcat(if e.earlier.None? then [] else HistoryLines(e.earlier.value), Entry(e, Generation(e)), d, x);
  }

  lemma CauseInEntry(e: Lomiri, n: nat, d: int, x: Cause)
    requires e.nested.Some? && Mentions(CauseLines(e.nested.value), d, x)
    ensures Mentions(Entry(e, n), d + 1, x)
  {
    EntryLayout(e, n);
    MentionsIn(CauseLines(e.nested.value), Entry(e, n), 2, 1, false, d, x);
  }

  lemma ReportInCause(e: Lomiri, d: int, x: Cause)
    requires Mentions(ReportLines(e), d, x)
    ensures Mentions(CauseLines(OfLomiri(e)), d + 1, x)
  {
    CauseLayout(OfLomiri(e));
    MentionsIn(ReportLines(e), CauseLines(OfLomiri(e)), 0, 1, false, d, x);
  }

  lemma CausePositionInForeign(c: Cause)
    requires (c.StdNested? || c.BareNested?) && c.nested.Some?
    ensures Stands(CauseLines(c.nested.value), CauseLines(c), 1, 1, false)
  {
    CauseLayout(c);
  }

  lemma CauseInCause(c: Cause, d: int, x: Cause)
    requires (c.StdNested? || c.BareNested?) && c.nested.Some? && Mentions(CauseLines(c.nested.value), d, x)
    ensures Mentions(CauseLines(c), d + 1, x)
  {
    CausePositionInForeign(c);
    MentionsIn(CauseLines(c.nested.value), CauseLines(c), 1, 1, false, d, x);
  }

  /** Every exception reachable from a cause has a line that gives its name and reason, at the depth of its nesting. */
  lemma {:induction false} EveryCauseIsShown(c: Cause, b: nat, d: int, x: Cause)
    requires (d, x) in Reachable(c, b)
    ensures Mentions(CauseLines(c), d - b + 1, x)
    decreases c, 1
  {
    if c.OfLomiri? {
      EveryExceptionIsShown(c.exc, b, d, x);
      ReportInCause(c.exc, d - b, x);
    } else if (d, x) == (b, c) {
      OwnLines(c, 0);
    } else {
      EveryCauseIsShown(c.nested.value, b + 1, d, x);
      CauseInCause(c, d - b, x);
    }
  }

  lemma {:induction false} EveryExceptionIsShown(e: Lomiri, b: nat, d: int, x: Cause)
    requires (d, x) in Reachable(OfLomiri(e), b)
    ensures Mentions(ReportLines(e), d - b, x)
    decreases e, 1
  {
    if (d, x) in ReachableNested(e.nested, b + 1) {
      EveryCauseIsShown(e.nested.value, b + 1, d, x);
      CauseInReport(e, d - b, x);
    } else if (d, x) in ReachableEarlier(e.earlier, b + 3) {
      EveryRememberedIsShown(e.earlier.value, b + 3, d, x);
      HistoryInReport(e, d - b - 2, x);
    } else {
      OwnLines(OfLomiri(e), 0);
    }
  }

  lemma {:induction false} EveryRememberedIsShown(e: Lomiri, b: nat, d: int, x: Cause)
    requires (d, x) in ReachableEarlier(Some(e), b)
    ensures Mentions(HistoryLines(e), d - b + 1, x)
    decreases e, 0
  {
    if (d, x) in ReachableEarlier(e.earlier, b) {
      EveryRememberedIsShown(e.earlier.value, b, d, x);
    } else if (d, x) in ReachableNested(e.nested, b + 1) {
      EveryCauseIsShown(e.nested.value, b + 1, d, x);
      CauseInEntry(e, Generation(e), d - b, x);
    } else {
      OwnLines(OfLomiri(e), Generation(e));
    }
    InHistory(e, d - b + 1, x);
  }

  // ----- the lines can be read off the text -----

  function Split(text: string): (r: seq<string>)
    ensures r != []
  {
    if text == "" then [""]
    else
      var rest := Split(text[1..]);
      if text[0] == '\n' then [""] + rest else [[text[0]] + rest[0]] + rest[1..]
  }

  lemma {:induction false} SplitOffFirst(t: string, rest: string)
    requires '\n' !in t
    ensures Split(t + "\n" + rest) == [t] + Split(rest)
  {
    var text := t + "\n" + rest;
    if t == "" {
      assert text[1..] == rest;
    } else {
      SplitOffFirst(t[1..], rest);
      assert text[1..] == t[1..] + "\n" + rest;
      assert t == [t[0]] + t[1..];
    }
  }

  lemma {:induction false} SplitOneLine(t: string)
    requires '\n' !in t
    ensures Split(t) == [t]
  {
    if t == "" {
    } else {
      SplitOneLine(t[1..]);
      assert t == [t[0]] + t[1..];
    }
  }

  lemma {:induction false} NoNewlineLeft(text: string, t: string)
    requires t in Split(text)
    ensures '\n' !in t
  {
    if text == "" {
    } else {
      var rest := Split(text[1..]);
      if t in rest {
        NoNewlineLeft(text[1..], t);
      } else if text[0] != '\n' {
        NoNewlineLeft(text[1..], rest[0]);
      }
    }
  }

  lemma {:induction false} SplitJoin(ts: seq<string>)
    requires ts != [] && forall t :: t in ts ==> '\n' !in t
    ensures Split(Join(ts)) == ts
  {
    if |ts| == 1 {
      SplitOneLine(ts[0]);
    } else {
      SplitJoin(ts[1..]);
      JoinConcat([ts[0]], ts[1..]);
      assert ts == [ts[0]] + ts[1..];
      SplitOffFirst(ts[0], Join(ts[1..]));
    }
  }

  /** The lines come back when the text is cut at its newlines, exactly if none of them has a newline in it. */
  lemma TextHasTheLines(e: Lomiri, level: int, indent: string)
    ensures var ts := RenderedLines(ReportLines(e), level, indent);
            Split(Render(ReportLines(e), level, indent)) == ts <==> forall t :: t in ts ==> '\n' !in t
  {
    var ts := RenderedLines(ReportLines(e), level, indent);
    if forall t :: t in ts ==> '\n' !in t {
      SplitJoin(ts);
    } else {
      var t :| t in ts && '\n' in t;
      if t in Split(Join(ts)) {
        NoNewlineLeft(Join(ts), t);
      }
    }
  }

  /** Each of these lines is its text behind `level + depth` indents, if that is not negative, and the extra one. */
  lemma LineLayout(l: Line, level: int, indent: string) returns (margin: string, more: string)
    ensures IsMargin(margin, level + l.depth, indent) && IsMargin(more, l.extra, indent)
    ensures RenderLine(l, level, indent) == margin + more + l.text
  {
    margin, more := Repeat(level + l.depth, indent), Repeat(l.extra, indent);
    RepeatIsMargin(level + l.depth, indent);
    RepeatIsMargin(l.extra, indent);
  }

  // ----- the history is numbered 1, 2, ..., oldest first -----

  /** The exception and all it remembers, oldest first. */
  function Chain(e: Lomiri): (c: seq<Lomiri>)
    ensures c != [] && c[|c| - 1] == e
  {
    (if e.earlier.None? then [] else Chain(e.earlier.value)) + [e]
  }

  /** Its elements are linked by `earlier`, from an exception that remembers nothing. */
  lemma {:induction false} ChainIsLinked(e: Lomiri)
    ensures Chain(e)[0].earlier.None?
    ensures forall i :: 0 < i < |Chain(e)| ==> Chain(e)[i].earlier == Some(Chain(e)[i - 1])
  {
    if e.earlier.None? {
    } else {
      ChainIsLinked(e.earlier.value);
    }
  }

  function EntryStart(chain: seq<Lomiri>, i: nat): nat
    requires i <= |chain|
  {
    if i == 0 then 0 else EntryStart(chain, i - 1) + |Entry(chain[i - 1], i)|
  }

  lemma {:induction false} EntryStartOfPrefix(a: seq<Lomiri>, b: seq<Lomiri>, i: nat)
    requires i <= |a|
    ensures EntryStart(a + b, i) == EntryStart(a, i)
  {
    if i == 0 {
    } else {
      EntryStartOfPrefix(a, b, i - 1);
    }
  }

  lemma {:induction false} ChainLength(e: Lomiri)
    ensures |Chain(e)| == Generation(e)
  {
    if e.earlier.Some? {
      ChainLength(e.earlier.value);
    }
  }

  ghost predicate EntryStands(ls: seq<Line>, chain: seq<Lomiri>, i: nat)
    requires i < |chain|
  {
    var at := EntryStart(chain, i);
    at + |Entry(chain[i], i + 1)| <= |ls| && ls[at..at + |Entry(chain[i], i + 1)|] == Entry(chain[i], i + 1)
  }

  lemma StandsInLonger(older: seq<Line>, more: seq<Line>, front: seq<Lomiri>, e: Lomiri, i: nat)
    requires i < |front| && EntryStands(older, front, i)
    ensures EntryStands(older + more, front + [e], i)
  {
    EntryStartOfPrefix(front, [e], i);
    var at := EntryStart(front, i);
    var len := |Entry(front[i], i + 1)|;
    assert (front + [e])[i] == front[i];
    assert (older + more)[at..at + len] == older[at..at + len];
  }

  lemma LastStands(older: seq<Line>, front: seq<Lomiri>, e: Lomiri)
    requires |older| == EntryStart(front, |front|)
    ensures EntryStands(older + Entry(e, |front| + 1), front + [e], |front|)
    ensures EntryStart(front + [e], |front| + 1) == |older + Entry(e, |front| + 1)|
  {
    EntryStartOfPrefix(front, [e], |front|);
    var entry := Entry(e, |front| + 1);
    assert (older + entry)[|older|..|older| + |entry|] == entry;
  }

  lemma {:induction false} HistoryExtent(e: Lomiri)
    ensures EntryStart(Chain(e), |Chain(e)|) == |HistoryLines(e)|
    ensures EntryStands(HistoryLines(e), Chain(e), |Chain(e)| - 1)
  {
    ChainLength(e);
    if e.earlier.Some? {
      HistoryExtent(e.earlier.value);
      LastStands(HistoryLines(e.earlier.value), Chain(e.earlier.value), e);
    } else {
      LastStands([], [], e);
    }
  }

  lemma {:induction false} EntryStandsAt(e: Lomiri, i: nat)
    requires i < |Chain(e)|
    ensures EntryStands(HistoryLines(e), Chain(e), i)
  {
    if i == |Chain(e)| - 1 {
      HistoryExtent(e);
    } else {
      EntryStandsAt(e.earlier.value, i);
      StandsInLonger(HistoryLines(e.earlier.value), Entry(e, Generation(e)), Chain(e.earlier.value), e, i);
    }
  }

  /** The history is exactly the entries 1..n of the chain, one after the other, and nothing else. */
  lemma HistoryIsNumbered(e: Lomiri)
    ensures |Chain(e)| == Generation(e)
    ensures EntryStart(Chain(e), |Chain(e)|) == |HistoryLines(e)|
    ensures forall i :: 0 <= i < |Chain(e)| ==> EntryStands(HistoryLines(e), Chain(e), i)
  {
    ChainLength(e);
    HistoryExtent(e);
    forall i | 0 <= i < |Chain(e)|
      ensures EntryStands(HistoryLines(e), Chain(e), i)
    {
      EntryStandsAt(e, i);
    }
  }

  // ----- the numbers can be told apart -----

  function ParseDecimal(s: string): int {
    if s == "" then 0 else 10 * ParseDecimal(s[..|s| - 1]) + (s[|s| - 1] as int - '0' as int)
  }

  lemma {:induction false} DecimalRoundTrip(n: nat)
    ensures ParseDecimal(Decimal(n)) == n
  {
    var d := Decimal(n);
    if n < 10 {
      assert d[..0] == "";
    } else {
      DecimalRoundTrip(n / 10);
      assert d[..|d| - 1] == Decimal(n / 10);
    }
  }

  /** Decimal digits of that value, without leading zeros. */
  lemma {:induction false} DecimalIsPlain(n: nat)
    ensures ParseDecimal(Decimal(n)) == n
    ensures forall i :: 0 <= i < |Decimal(n)| ==> '0' <= Decimal(n)[i] <= '9'
    ensures Decimal(n) != "" && (Decimal(n)[0] == '0' <==> n == 0) && (n == 0 ==> |Decimal(n)| == 1)
  {
    DecimalRoundTrip(n);
    if n < 10 {
    } else {
      DecimalIsPlain(n / 10);
    }
  }

  lemma HeadingsDiffer(m: nat, n: nat)
    ensures EntryHeading(m) == EntryHeading(n) <==> m == n
  {
    DecimalRoundTrip(m);
    DecimalRoundTrip(n);
    var k := |ENTRY_PREFIX|;
    assert EntryHeading(m)[k..|EntryHeading(m)| - 1] == Decimal(m);
    assert EntryHeading(n)[k..|EntryHeading(n)| - 1] == Decimal(n);
  }
}
