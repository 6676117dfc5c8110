/**
 What an exception report is, independently of how Exception.cpp builds it up in a string.

 An acyclic graph of exceptions is seen through its finite unfolding: a Lomiri exception with its remembered
 history and its cause, or one of the four kinds of foreign exception the renderer can tell apart. The
 report is a list of lines; a level and an indent string only decide what is put in front of each line.
 */
module Report {
  import opened Options

  datatype Lomiri = Lomiri(name: string, reason: string, earlier: Option<Lomiri>, nested: Option<Cause>)

  /** The five kinds of exception that rethrowing a nested exception can produce. */
  datatype Cause =
    | OfLomiri(exc: Lomiri)                                  // derived from lomiri::Exception
    | StdNested(what: string, nested: Option<Cause>)         // std::exception and std::nested_exception
    | BareNested(nested: Option<Cause>)                      // std::nested_exception only
    | PlainStd(what: string)                                 // std::exception only
    | Unknown                                                // anything else

  // ----- texts -----

  function Title(e: Lomiri): string {
    if e.reason == "" then e.name else e.name + ": " + e.reason
  }

  const STD_NESTED_NOTE := " (derived from std::exception and std::nested_exception)"
  const BARE_NESTED := "std::nested_exception"
  const UNKNOWN := "unknown exception"
  const HISTORY_HEADING := "Exception history:"
  const ENTRY_PREFIX := "Exception #"

  function Label(c: Cause): string {
    match c
    case OfLomiri(e) => Title(e)
    case StdNested(w, _) => w + STD_NESTED_NOTE
    case BareNested(_) => BARE_NESTED
    case PlainStd(w) => w
    case Unknown => UNKNOWN
  }

  /** In a line: the name, the reason behind ": " if there is one, and a colon if `colon`. */
  ghost predicate Titled(text: string, e: Lomiri, colon: bool) {
    e.name <= text
    && text[|e.name|..] == (if e.reason != "" then ": " + e.reason else "") + (if colon then ":" else "")
  }

  /** The same for an exception of any kind. */
  ghost predicate Says(text: string, c: Cause, colon: bool) {
    match c
    case OfLomiri(e) => Titled(text, e, colon)
    case StdNested(what, _) =>
      what <= text && text[|what|..] == " (derived from std::exception and std::nested_exception)"
                                        + (if colon then ":" else "")
    case BareNested(_) => text == "std::nested_exception" + (if colon then ":" else "")
    case PlainStd(what) => what <= text && text[|what|..] == (if colon then ":" else "")
    case Unknown => text == "unknown exception" + (if colon then ":" else "")
  }

  lemma LabelIsSaid(c: Cause)
    ensures Says(Label(c), c, false)
  {
  }

  /** std::to_string of a non-negative number. */
  function Decimal(n: nat): string {
    if n < 10 then [DecimalDigit(n)] else Decimal(n / 10) + [DecimalDigit(n % 10)]
  }

  function DecimalDigit(d: nat): char
    requires d < 10
  {
    '0' + d as char
  }

  function EntryHeading(n: nat): string {
    ENTRY_PREFIX + Decimal(n) + ":"
  }

  // ----- lines -----

  /**
   A line of the report. `depth` counts the levels added to the caller's level, `extra` (0 or 1) is a further
   indent appended to the margin. They differ only below level 0, where a margin is empty but an extra indent
   is not.
   */
  datatype Line = Line(depth: nat, extra: nat, text: string)

  function Shift(ls: seq<Line>, k: nat): (r: seq<Line>)
    ensures |r| == |ls|
  {
    seq(|ls|, i requires 0 <= i < |ls| => ls[i].(depth := ls[i].depth + k))
  }

  /** A nested exception is announced by a colon on whatever line precedes it. */
  function ColonLast(ls: seq<Line>): seq<Line>
    requires ls != []
  {
    var n := |ls| - 1;
    ls[..n] + [ls[n].(text := ls[n].text + ":")]
  }

  function Attach(ls: seq<Line>, nested: Option<Cause>, k: nat): (r: seq<Line>)
    requires ls != []
    ensures |ls| <= |r|
    decreases nested, 0
  {
    if nested.None? then ls else ColonLast(ls) + Shift(CauseLines(nested.value), k)
  }

  /** The lines of a cause, relative to the level of the exception it is nested in. */
  function CauseLines(c: Cause): (r: seq<Line>)
    ensures r != []
    decreases c, 3
  {
    match c
    case OfLomiri(e) => Shift(ReportLines(e), 1)
    case StdNested(_, n) => Attach([Line(0, 1, Label(c))], n, 1)
    case BareNested(n) => Attach([Line(0, 1, Label(c))], n, 1)
    case PlainStd(_) => [Line(0, 1, Label(c))]
    case Unknown => [Line(0, 1, Label(c))]
  }

  function ReportLines(e: Lomiri): (r: seq<Line>)
    ensures r != []
    decreases e, 2
  {
    Attach([Line(0, 0, Title(e))] + HistorySection(e.earlier), e.nested, 0)
  }

  function HistorySection(earlier: Option<Lomiri>): seq<Line>
    decreases earlier, 2
  {
    if earlier.None? then [] else [Line(0, 1, HISTORY_HEADING)] + Shift(HistoryLines(earlier.value), 2)
  }

  /** The entries for an exception and everything it remembers, oldest first. */
  function HistoryLines(e: Lomiri): (r: seq<Line>)
    ensures r != []
    decreases e, 1
  {
    (if e.earlier.None? then [] else HistoryLines(e.earlier.value)) + Entry(e, Generation(e))
  }

  function Entry(e: Lomiri, n: nat): (r: seq<Line>)
    ensures |r| >= 2
    decreases e, 0
  {
    [Line(0, 0, EntryHeading(n))] + Attach([Line(0, 1, Title(e))], e.nested, 1)
  }

  /** The number of exceptions on a history chain. */
  function Generation(e: Lomiri): nat {
    1 + if e.earlier.None? then 0 else Generation(e.earlier.value)
  }

  // ----- rendering -----

  function Repeat(n: int, indent: string): string
    decreases n
  {
    if n <= 0 then "" else Repeat(n - 1, indent) + indent
  }

  /** `margin` is `k` times the indent, read from the front. */
  ghost predicate IsMargin(margin: string, k: int, indent: string)
    decreases k
  {
    if k <= 0 then margin == "" else indent <= margin && IsMargin(margin[|indent|..], k - 1, indent)
  }

  lemma {:induction false} RepeatFront(n: int, indent: string)
    requires 0 < n
    ensures Repeat(n, indent) == indent + Repeat(n - 1, indent)
  {
    if n == 1 {
      assert Repeat(1, indent) == Repeat(0, indent) + indent == indent;
    } else {
      RepeatFront(n - 1, indent);
    }
  }

  lemma {:induction false} RepeatIsMargin(n: int, indent: string)
    ensures IsMargin(Repeat(n, indent), n, indent)
    decreases n
  {
    if n <= 0 {
    } else {
      RepeatFront(n, indent);
      assert Repeat(n, indent)[|indent|..] == Repeat(n - 1, indent);
      RepeatIsMargin(n - 1, indent);
    }
  }

  function RenderLine(l: Line, level: int, indent: string): string {
    Repeat(level + l.depth, indent) + Repeat(l.extra, indent) + l.text
  }

  function RenderedLines(ls: seq<Line>, level: int, indent: string): seq<string> {
    seq(|ls|, i requires 0 <= i < |ls| => RenderLine(ls[i], level, indent))
  }

  function Join(ts: seq<string>): string
    requires ts != []
  {
    if |ts| == 1 then ts[0] else Join(ts[..|ts| - 1]) + "\n" + ts[|ts| - 1]
  }

  /** The lines joined by newlines, each behind its margin. */
  function Render(ls: seq<Line>, level: int, indent: string): string
    requires ls != []
  {
    Join(RenderedLines(ls, level, indent))
  }

  lemma JoinSnoc(ts: seq<string>, t: string)
    requires ts != []
    ensures Join(ts + [t]) == Join(ts) + "\n" + t
  {
  }

  lemma {:induction false} JoinConcat(a: seq<string>, b: seq<string>)
    requires a != [] && b != []
    ensures Join(a + b) == Join(a) + "\n" + Join(b)
  {
    if |b| == 1 {
      JoinSnoc(a, b[0]);
      assert b == [b[0]];
    } else {
      var (front, last) := (b[..|b| - 1], b[|b| - 1]);
      assert b == front + [last];
      JoinConcat(a, front);
      JoinSnoc(a + front, last);
      JoinSnoc(front, last);
      assert (a + front) + [last] == a + b;
    }
  }

  lemma RenderConcat(a: seq<Line>, b: seq<Line>, level: int, indent: string)
    requires a != [] && b != []
    ensures Render(a + b, level, indent) == Render(a, level, indent) + "\n" + Render(b, level, indent)
  {
    JoinConcat(RenderedLines(a, level, indent), RenderedLines(b, level, indent));
    assert RenderedLines(a + b, level, indent)
        == RenderedLines(a, level, indent) + RenderedLines(b, level, indent);
  }

  lemma RenderColonLast(ls: seq<Line>, level: int, indent: string)
    requires ls != []
    ensures Render(ColonLast(ls), level, indent) == Render(ls, level, indent) + ":"
  {
    var n := |ls| - 1;
    var (ts, cs) := (RenderedLines(ls, level, indent), RenderedLines(ColonLast(ls), level, indent));
    assert cs[n] == ts[n] + ":";
    assert cs[..n] == ts[..n];
  }

  lemma RenderShift(ls: seq<Line>, k: nat, level: int, indent: string)
    requires ls != []
    ensures Render(Shift(ls, k), level, indent) == Render(ls, level + k, indent)
  {
    assert RenderedLines(Shift(ls, k), level, indent) == RenderedLines(ls, level + k, indent);
  }

  /** What follow_nested appends. */
  function NestedText(nested: Option<Cause>, level: int, indent: string): string {
    if nested.None? then "" else ":\n" + Render(CauseLines(nested.value), level, indent)
  }

  lemma RenderAttach(ls: seq<Line>, nested: Option<Cause>, k: nat, level: int, indent: string)
    requires ls != []
    ensures Render(Attach(ls, nested, k), level, indent)
         == Render(ls, level, indent) + NestedText(nested, level + k, indent)
  {
    if nested.Some? {
      var c := CauseLines(nested.value);
      RenderConcat(ColonLast(ls), Shift(c, k), level, indent);
      RenderColonLast(ls, level, indent);
      RenderShift(c, k, level, indent);
    }
  }
}
