/**
 * The status board (class Display of SuccinctBuildLogger.java): one cell
 * per project, laid out in a grid once per project list and redrawn one cell
 * at a time as statuses change. Terminal output is an abstract list of
 * cursor moves, writes and attribute changes.
 */
module Display {
  import opened Wrappers
  import opened Utf16
  import opened Layout

  /** The Ansi.Color values the statuses use. */
  datatype Color = White | Yellow | Red | Green | Black

  /** Display.Status: the closed set of cell states, each with a label, a colour and a brightness flag. */
  datatype Status = Waiting | Building | Failed | Success | Skipped {

    /** The label drawn in the status column (U+1F504, U+274C, U+2705, U+2754; empty while waiting). */
    function Label(): Text {
      match this
      case Waiting => []
      case Building => [0xd83d, 0xdd04]
      case Failed => [0x274c]
      case Success => [0x2705]
      case Skipped => [0x2754]
    }

    function Fg(): Color {
      match this
      case Waiting => White
      case Building => Yellow
      case Failed => Red
      case Success => Green
      case Skipped => Black
    }

    predicate Bright() {
      this == Skipped
    }
  }

  /** Status.values(), in declaration order. */
  const AllStatuses: seq<Status> := [Waiting, Building, Failed, Success, Skipped]

  /** Display.ACTIVITY_WIDTH: the status column's width in verbose mode. */
  const ActivityWidth: nat := 12

  /** Every status label is valid UTF-16: empty for Waiting, two columns for the others. */
  lemma StatusLabelWidths()
    ensures Width(Waiting.Label()) == Some(0)
    ensures Width(Building.Label()) == Some(2)
    ensures Width(Failed.Label()) == Some(2)
    ensures Width(Success.Label()) == Some(2)
    ensures Width(Skipped.Label()) == Some(2)
    ensures Rfc2781Decode(0xd83d, 0xdd04) == 0x1f504
  {
    assert Building.Label()[2..] == [];
    assert Failed.Label()[1..] == [];
    assert Success.Label()[1..] == [];
    assert Skipped.Label()[1..] == [];
  }

  /** The width of each status label, as stringWidth measures it. */
  function LabelWidth(s: Status): (w: nat)
    ensures Width(s.Label()) == Some(w)
  {
    StatusLabelWidths();
    match s
    case Waiting => 0
    case _ => 2
  }

  /** The widest label among ss (0 for none), folded left to right like the constructor's loop. */
  function MaxLabelWidth(ss: seq<Status>): (m: nat)
    ensures forall i :: 0 <= i < |ss| ==> LabelWidth(ss[i]) <= m
    ensures ss == [] ==> m == 0
    ensures ss != [] ==> exists i :: 0 <= i < |ss| && LabelWidth(ss[i]) == m
  {
    if ss == [] then 0 else Max(MaxLabelWidth(ss[..|ss| - 1]), LabelWidth(ss[|ss| - 1]))
  }

  /** The status column's width given the widest label: widened to ActivityWidth in verbose mode. */
  function Widen(widest: nat, verbose: bool): nat {
    if verbose then Max(widest, ActivityWidth) else widest
  }

  /** The status column's width: the widest label, widened in verbose mode. */
  function StatusColumnWidth(verbose: bool): nat {
    Widen(MaxLabelWidth(AllStatuses), verbose)
  }

  /** The status column is 2 columns wide (12 in verbose mode), and every status label fits in it. */
  lemma StatusColumnFitsEveryLabel(verbose: bool)
    ensures StatusColumnWidth(false) == 2 && StatusColumnWidth(true) == ActivityWidth
    ensures forall s: Status :: LabelWidth(s) <= StatusColumnWidth(verbose)
  {
    var m := MaxLabelWidth(AllStatuses);
    assert LabelWidth(AllStatuses[1]) == 2;
    forall s: Status ensures LabelWidth(s) <= m {
      assert s == AllStatuses[if s == Waiting then 0 else if s == Building then 1
                              else if s == Failed then 2 else if s == Success then 3 else 4];
    }
  }

  /** Display.Project: an identity and a display name. */
  datatype Project = Project(id: Text, name: Text) {

    /** Project.equals: two projects are the same project exactly when their identities are equal. */
    predicate Equals(other: Project) {
      id == other.id
    }
  }

  /**
   * Project.equals is an equivalence that ignores the display name, so
   * projects that differ only in name reach the same cell.
   */
  lemma EqualsIsEquivalence(a: Project, b: Project, c: Project)
    ensures a.Equals(a)
    ensures a.Equals(b) == b.Equals(a)
    ensures a.Equals(b) && b.Equals(c) ==> a.Equals(c)
    ensures a.Equals(Project(a.id, c.name))
  {
  }

  /** TermSize: the terminal's size in character cells. */
  datatype TermSize = TermSize(width: nat, height: nat)

  /** Terminal output, abstracted: 1-based cursor moves, text, and attribute and mode changes. */
  datatype Cmd =
    | Goto(row: int, col: int)
    | Write(text: Text)
    | Paint(fg: Color, bright: bool)
    | ResetAttributes
    | EraseScreen
    | ShowCursor(on: bool)
    | LocalEcho(on: bool)

  /**
   * The modes last requested of the terminal: echo is the argument of the
   * latest localEcho call, cursor that of the latest showCursor call. What
   * localEcho does to the terminal flags (clear ECHO and ICANON, or restore
   * the flags saved at start-up, and nothing off a tty) is
   * Terminal.LocalEchoFlags.
   */
  datatype Modes = Modes(echo: bool, cursor: bool)

  /** The modes a command list leaves the terminal in, starting from m. */
  function ModesAfter(cmds: seq<Cmd>, m: Modes): Modes
    decreases |cmds|
  {
    if cmds == [] then m
    else if cmds[0].LocalEcho? then ModesAfter(cmds[1..], m.(echo := cmds[0].on))
    else if cmds[0].ShowCursor? then ModesAfter(cmds[1..], m.(cursor := cmds[0].on))
    else ModesAfter(cmds[1..], m)
  }

  /** What Display.start prints: erase the screen, echo off, cursor off, reset the attributes. */
  const StartCommands: seq<Cmd> := [EraseScreen, LocalEcho(false), ShowCursor(false), ResetAttributes]

  /** The exceptions a board operation can end with. */
  datatype Fault = InvalidUtf16 | StringIndexOutOfBounds | NullPointer | DivisionByZero

  /** What an operation printed before it returned or threw, and what it threw. */
  datatype Output = Output(cmds: seq<Cmd>, fault: Option<Fault>)

  /** The line stringWidth prints (println) before it throws on text. */
  function Complaint(text: Text): (r: seq<Cmd>)
    requires Width(text).None?
    ensures r == [Write(Oops1 + [0x0a])] || r == [Write(Oops2 + [0x0a])]
  {
    [Write(Diagnostic(text) + [0x0a])]
  }

  /** n space characters. */
  function Spaces(n: nat): (r: Text)
    ensures |r| == n && forall i :: 0 <= i < n ==> r[i] == 0x20
  {
    if n == 0 then [] else Spaces(n - 1) + [0x20]
  }

  /** The "..." that marks a truncated label. */
  const Ellipsis: Text := [0x2e, 0x2e, 0x2e]

  /** One write on the terminal: a row, the first and last column it covers, and the text. */
  datatype Span = Span(row: int, first: int, last: int, text: Text)

  /**
   * The writes a command list makes, in order, with the columns each one
   * covers; a write advances the cursor by its width. None when a write has
   * no cursor position to start from or cannot be measured, or when the
   * screen is erased (not an effect confined to any span).
   */
  function Spans(cmds: seq<Cmd>, cursor: Option<(int, int)>): Option<seq<Span>>
    decreases |cmds|
  {
    if cmds == [] then Some([])
    else if cmds[0].Goto? then Spans(cmds[1..], Some((cmds[0].row, cmds[0].col)))
    else if cmds[0].EraseScreen? then None
    else if !cmds[0].Write? then Spans(cmds[1..], cursor)
    else if cursor.None? || Width(cmds[0].text).None? then None
    else
      var r, c, w := cursor.value.0, cursor.value.1, Width(cmds[0].text).value;
      var rest := Spans(cmds[1..], Some((r, c + w)));
      if rest.None? then None else Some([Span(r, c, c + w - 1, cmds[0].text)] + rest.value)
  }

  /** Every span lies on the given row, between columns lo and hi. */
  predicate SpansWithin(spans: seq<Span>, row: int, lo: int, hi: int) {
    forall k :: 0 <= k < |spans| ==> spans[k].row == row && lo <= spans[k].first && spans[k].last <= hi
  }

  /** Display.Label: the mutable cell of one project. */
  class Label {
    var name: Text
    var status: Status
    var activity: Option<Text>
    var x: int
    var y: int

    /** `new Label()` followed by setting the name and the Waiting status, as showProjects does. */
    constructor (name: Text)
      ensures this.name == name && status == Waiting && activity == None && x == 0 && y == 0
    {
      this.name := name;
      status := Waiting;
      activity := None;
      x := 0;
      y := 0;
    }

    /** Label.getMinWidth: the name's width, a space and the status column; None when the name is not valid UTF-16. */
    function MinWidth(statusWidth: nat): (r: Option<nat>)
      reads this
      ensures r.Some? <==> Width(name).Some?
      ensures r.Some? ==> r.value > statusWidth
    {
      match Width(name)
      case None => None
      case Some(w) => Some(w + 1 + statusWidth)
    }

    /**
     * Label.draw. The label is the activity in verbose mode when there is one,
     * the status label otherwise. A label wider than the status column is cut
     * to `substring(1, statusWidth - 4) + "..."`, which throws unless
     * 1 <= statusWidth - 4 <= length. The cell is blanked, then the label is
     * written right-aligned against the status column and the name one column
     * after it. The blanking is printed before the cut label is measured; a
     * label that is not valid UTF-16 prints stringWidth's diagnostic line.
     */
    function Draw(labelWidth: nat, statusWidth: nat, verbose: bool): (r: Output)
      reads this
      ensures r.fault.None? ==> |r.cmds| == 8
      ensures r.fault.Some? ==> r.fault.value == InvalidUtf16 || r.fault.value == StringIndexOutOfBounds
      ensures r.fault == Some(StringIndexOutOfBounds) ==> r.cmds == []
    {
      var text := if verbose && activity.Some? then activity.value else status.Label();
      match Width(text)
      case None => Output(Complaint(text), Some(InvalidUtf16))
      case Some(w) =>
        if w <= statusWidth then Place(text, labelWidth, statusWidth)
        else if statusWidth - 4 < 1 || statusWidth - 4 > |text| then Output([], Some(StringIndexOutOfBounds))
        else Place(text[1..statusWidth - 4] + Ellipsis, labelWidth, statusWidth)
    }

    /** The printing part of Label.draw for the label text finally chosen. */
    function Place(text: Text, labelWidth: nat, statusWidth: nat): (r: Output)
      reads this
      ensures r.fault.None? <==> Width(text).Some?
    {
      var blank := [Goto(1 + y, 1 + x), Write(Spaces(labelWidth))];
      match Width(text)
      case None => Output(blank + Complaint(text), Some(InvalidUtf16))
      case Some(w) => Output(CellCommands(y, x, labelWidth, statusWidth, Paint(status.Fg(), status.Bright()), text, w, name), None)
    }
  }

  /**
   * Where a cell's three writes land: the blanking over columns
   * 1 + x .. x + labelWidth, the label ending at column x + statusWidth, and
   * the name from column x + statusWidth + 2, all on row y + 1.
   */
  function CellSpans(y: int, x: int, labelWidth: nat, statusWidth: nat, text: Text, w: nat, name: Text, nw: nat): seq<Span> {
    [Span(1 + y, 1 + x, x + labelWidth, Spaces(labelWidth))]
    + [Span(1 + y, 1 + x + statusWidth - w, x + statusWidth, text),
     Span(1 + y, x + statusWidth + 2, x + statusWidth + 1 + nw, name)]
  }

  lemma WidthOfSpaces(n: nat)
    ensures Width(Spaces(n)) == Some(n)
  {
    WidthOfAscii(Spaces(n));
  }

  /**
   * Outside verbose mode a cell is drawn without fault whenever its status
   * label fits the status column, whatever its name: draw never measures
   * the name.
   */
  lemma DrawSucceeds(l: Label, labelWidth: nat, statusWidth: nat)
    requires LabelWidth(l.status) <= statusWidth
    ensures l.Draw(labelWidth, statusWidth, false).fault.None?
    ensures |l.Draw(labelWidth, statusWidth, false).cmds| == 8
  {
  }

  /**
   * Where the writes of a cell drawn outside verbose mode land: the cell is blanked over labelWidth
   * columns, the status label ends at column x + statusWidth and the name
   * starts at column x + statusWidth + 2 (1-based), all on row y + 1.
   */
  lemma DrawPlacement(l: Label, labelWidth: nat, statusWidth: nat)
    requires LabelWidth(l.status) <= statusWidth
    requires Width(l.name).Some?
    ensures l.Draw(labelWidth, statusWidth, false).fault.None?
    ensures Spans(l.Draw(labelWidth, statusWidth, false).cmds, None)
         == Some(CellSpans(l.y, l.x, labelWidth, statusWidth, l.status.Label(), LabelWidth(l.status), l.name, Width(l.name).value))
  {
    var text, w := l.status.Label(), LabelWidth(l.status);
    var paint := Paint(l.status.Fg(), l.status.Bright());
    assert l.Draw(labelWidth, statusWidth, false) == Output(CellCommands(l.y, l.x, labelWidth, statusWidth, paint, text, w, l.name), None);
    CellCommandSpans(l.y, l.x, labelWidth, statusWidth, paint, text, w, l.name, Width(l.name).value);
  }

  /**
   * The eight commands that draw one cell at row y, column x (0-based): blank
   * it, paint, write the label of width w right-aligned in the status column,
   * write the name after it, reset.
   */
  function CellCommands(y: int, x: int, labelWidth: nat, statusWidth: nat, paint: Cmd, text: Text, w: nat, name: Text): seq<Cmd> {
    [Goto(1 + y, 1 + x), Write(Spaces(labelWidth))]
      + ([paint] + ([Goto(1 + y, 1 + x + statusWidth - w), Write(text)]
      + ([Goto(1 + y, 1 + x + statusWidth + 1), Write(name)] + [ResetAttributes])))
  }

  /** The commands that draw a cell write exactly the cell's spans. */
  lemma CellCommandSpans(y: int, x: int, labelWidth: nat, statusWidth: nat, paint: Cmd, text: Text, w: nat, name: Text, nw: nat)
    requires paint.Paint? && Width(text) == Some(w) && Width(name) == Some(nw)
    ensures Spans(CellCommands(y, x, labelWidth, statusWidth, paint, text, w, name), None)
         == Some(CellSpans(y, x, labelWidth, statusWidth, text, w, name, nw))
  {
    var r, c1, c2 := 1 + y, 1 + x + statusWidth - w, 1 + x + statusWidth + 1;
    var tail := [paint] + ([Goto(r, c1), Write(text)] + ([Goto(r, c2), Write(name)] + [ResetAttributes]));
    var more := [Span(r, c1, c1 + w - 1, text), Span(r, c2, c2 + nw - 1, name)];
    LabelSpans(r, c1, text, c2, name, paint, Some((r, 1 + x + labelWidth)));
    BlankSpans(r, 1 + x, labelWidth, tail, more);
  }

  /** The blanking of the whole cell, followed by the rest of the cell's commands. */
  lemma BlankSpans(r: int, c: int, labelWidth: nat, tail: seq<Cmd>, more: seq<Span>)
    requires Spans(tail, Some((r, c + labelWidth))) == Some(more)
    ensures Spans([Goto(r, c), Write(Spaces(labelWidth))] + tail, None)
         == Some([Span(r, c, c + labelWidth - 1, Spaces(labelWidth))] + more)
  {
    WidthOfSpaces(labelWidth);
    SpansGotoWrite(r, c, Spaces(labelWidth), tail, None, more);
  }

  /** After the blanking: the colour change, the label and the name. */
  lemma LabelSpans(r: int, c1: int, text: Text, c2: int, name: Text, paint: Cmd, cursor: Option<(int, int)>)
    requires paint.Paint?
    requires Width(text).Some? && Width(name).Some?
    ensures Spans([paint] + ([Goto(r, c1), Write(text)] + ([Goto(r, c2), Write(name)] + [ResetAttributes])), cursor)
         == Some([Span(r, c1, c1 + Width(text).value - 1, text), Span(r, c2, c2 + Width(name).value - 1, name)])
  {
    var wt, wn := Width(text).value, Width(name).value;
    var tail3 := [Goto(r, c2), Write(name)] + [ResetAttributes];
    var tail2 := [Goto(r, c1), Write(text)] + tail3;
    var sText, sName := Span(r, c1, c1 + wt - 1, text), Span(r, c2, c2 + wn - 1, name);
    NameSpans(r, c2, name, Some((r, c1 + wt)));
    SpansGotoWrite(r, c1, text, tail3, Some((r, c1 + wt)), [sName]);
    SpansSkip(paint, tail2, cursor);
    assert [sText] + [sName] == [sText, sName];
  }

  /** The name and the final reset. */
  lemma NameSpans(r: int, c2: int, name: Text, cursor: Option<(int, int)>)
    requires Width(name).Some?
    ensures Spans([Goto(r, c2), Write(name)] + [ResetAttributes], cursor) == Some([Span(r, c2, c2 + Width(name).value - 1, name)])
  {
    var wn := Width(name).value;
    SpansSkip(ResetAttributes, [], Some((r, c2 + wn)));
    assert [ResetAttributes] + [] == [ResetAttributes];
    SpansGotoWrite(r, c2, name, [ResetAttributes], cursor, []);
    assert [Span(r, c2, c2 + wn - 1, name)] + [] == [Span(r, c2, c2 + wn - 1, name)];
  }

  /** A cursor move followed by a write adds one span starting at the new position. */
  lemma SpansGotoWrite(r: int, c: int, t: Text, rest: seq<Cmd>, cursor: Option<(int, int)>, more: seq<Span>)
    requires Width(t).Some? && Spans(rest, Some((r, c + Width(t).value))) == Some(more)
    ensures Spans([Goto(r, c), Write(t)] + rest, cursor) == Some([Span(r, c, c + Width(t).value - 1, t)] + more)
  {
    var cmds := [Goto(r, c), Write(t)] + rest;
    assert cmds[1..] == [Write(t)] + rest;
    assert cmds[1..][1..] == rest;
  }

  /** Colour and attribute changes write nothing. */
  lemma SpansSkip(cmd: Cmd, rest: seq<Cmd>, cursor: Option<(int, int)>)
    requires cmd.Paint? || cmd.ResetAttributes? || cmd.ShowCursor? || cmd.LocalEcho?
    ensures Spans([cmd] + rest, cursor) == Spans(rest, cursor)
  {
    assert ([cmd] + rest)[1..] == rest;
  }

  /**
   * A cell at least as wide as its minimum width is redrawn entirely inside
   * its own columns 1 + x .. x + labelWidth of row y + 1, so a redraw never
   * touches another cell.
   */
  lemma DrawStaysInCell(l: Label, labelWidth: nat, statusWidth: nat)
    requires LabelWidth(l.status) <= statusWidth
    requires l.MinWidth(statusWidth).Some? && l.MinWidth(statusWidth).value <= labelWidth
    ensures Spans(l.Draw(labelWidth, statusWidth, false).cmds, None).Some?
    ensures SpansWithin(Spans(l.Draw(labelWidth, statusWidth, false).cmds, None).value, 1 + l.y, 1 + l.x, l.x + labelWidth)
  {
    DrawPlacement(l, labelWidth, statusWidth);
  }

  /**
   * In verbose mode an activity wider than the status column is cut as
   * written: with a status column narrower than 5, or wider than the
   * activity's length plus 4, the draw throws before printing anything;
   * otherwise the first unit is dropped and units 1 .. statusWidth - 5 are
   * kept before the "...".
   */
  lemma TruncationAsWritten(l: Label, labelWidth: nat, statusWidth: nat)
    requires l.activity.Some? && Width(l.activity.value).Some?
    requires Width(l.activity.value).value > statusWidth
    ensures statusWidth < 5 ==> l.Draw(labelWidth, statusWidth, true) == Output([], Some(StringIndexOutOfBounds))
    ensures 5 <= statusWidth <= |l.activity.value| + 4 ==>
      l.Draw(labelWidth, statusWidth, true) == l.Place(l.activity.value[1..statusWidth - 4] + Ellipsis, labelWidth, statusWidth)
    ensures statusWidth > |l.activity.value| + 4 ==> l.Draw(labelWidth, statusWidth, true) == Output([], Some(StringIndexOutOfBounds))
  {
  }

  /** One output followed by another: both command lists, and the second one's fault. */
  function Then(first: Output, second: Output): Output {
    Output(first.cmds + second.cmds, second.fault)
  }

  /** Printing a then b, then c, is printing a, then b then c. */
  lemma ThenAssociative(a: Output, b: Output, c: Output)
    ensures Then(a, Then(b, c)) == Then(Then(a, b), c)
  {
    assert a.cmds + (b.cmds + c.cmds) == (a.cmds + b.cmds) + c.cmds;
  }

  /** The draw commands of a list of cells, in order, up to and including the first that throws. */
  function DrawAll(ls: seq<Label>, labelWidth: nat, statusWidth: nat, verbose: bool): (r: Output)
    reads ls
    ensures ls == [] ==> r == Output([], None)
    ensures r.fault.None? ==> |r.cmds| == 8 * |ls|
  {
    if ls == [] then Output([], None)
    else
      var d := ls[0].Draw(labelWidth, statusWidth, verbose);
      if d.fault.Some? then d else Then(d, DrawAll(ls[1..], labelWidth, statusWidth, verbose))
  }

  /** DrawAll of a suffix, one cell at a time. */
  lemma DrawAllStep(ls: seq<Label>, j: nat, labelWidth: nat, statusWidth: nat, verbose: bool)
    requires j < |ls|
    ensures DrawAll(ls[j..], labelWidth, statusWidth, verbose)
         == (var d := ls[j].Draw(labelWidth, statusWidth, verbose);
             if d.fault.Some? then d else Then(d, DrawAll(ls[j + 1..], labelWidth, statusWidth, verbose)))
  {
    assert ls[j..][1..] == ls[j + 1..];
  }

  /** Outside verbose mode, with every status label fitting, a whole board is drawn without fault, whatever the names. */
  lemma {:induction false} DrawAllSucceeds(ls: seq<Label>, labelWidth: nat, statusWidth: nat)
    requires forall s: Status :: LabelWidth(s) <= statusWidth
    ensures DrawAll(ls, labelWidth, statusWidth, false).fault.None?
    ensures |DrawAll(ls, labelWidth, statusWidth, false).cmds| == 8 * |ls|
  {
    if ls != [] {
      DrawSucceeds(ls[0], labelWidth, statusWidth);
      DrawAllSucceeds(ls[1..], labelWidth, statusWidth);
    }
  }

  /** Every one of the first n names is valid UTF-16. */
  predicate NamesMeasurable(ps: seq<Project>, n: nat) {
    n <= |ps| && forall i :: 0 <= i < n ==> Width(ps[i].name).Some?
  }

  /** The minimum width of project i's cell: its name's width, a space and the status column. */
  function MinWidthOf(ps: seq<Project>, i: nat, statusWidth: nat): nat
    requires i < |ps| && Width(ps[i].name).Some?
  {
    Width(ps[i].name).value + 1 + statusWidth
  }

  /** The widest minimum width among the first n projects (0 for none), folded left to right. */
  function MaxMinWidth(ps: seq<Project>, n: nat, statusWidth: nat): nat
    requires NamesMeasurable(ps, n)
  {
    if n == 0 then 0 else Max(MaxMinWidth(ps, n - 1, statusWidth), MinWidthOf(ps, n - 1, statusWidth))
  }

  /** The fold is the maximum: every cell's minimum width fits in it, and some cell needs all of it. */
  lemma {:induction false} MaxMinWidthIsMax(ps: seq<Project>, n: nat, statusWidth: nat)
    requires NamesMeasurable(ps, n)
    ensures forall i :: 0 <= i < n ==> MinWidthOf(ps, i, statusWidth) <= MaxMinWidth(ps, n, statusWidth)
    ensures n == 0 ==> MaxMinWidth(ps, n, statusWidth) == 0
    ensures n > 0 ==> exists i :: 0 <= i < n && MinWidthOf(ps, i, statusWidth) == MaxMinWidth(ps, n, statusWidth)
  {
    if n > 0 {
      MaxMinWidthIsMax(ps, n - 1, statusWidth);
    }
  }

  /** The identities of the first n projects. */
  function IdsOf(ps: seq<Project>, n: nat): set<Text>
    requires n <= |ps|
  {
    set i | 0 <= i < n :: ps[i].id
  }

  /**
   * The entries showProjects puts into labelForProject for the first n
   * projects: each project's id to its cell, a later project with the same
   * id replacing an earlier one.
   */
  function IndexById(ps: seq<Project>, ls: seq<Label>, n: nat): map<Text, Label>
    requires n <= |ps| && n <= |ls|
  {
    if n == 0 then map[] else IndexById(ps, ls, n - 1)[ps[n - 1].id := ls[n - 1]]
  }

  /** The index has exactly the identities of the projects as keys. */
  lemma {:induction false} IndexByIdKeys(ps: seq<Project>, ls: seq<Label>, n: nat)
    requires n <= |ps| && n <= |ls|
    ensures IndexById(ps, ls, n).Keys == IdsOf(ps, n)
  {
    if n > 0 {
      IndexByIdKeys(ps, ls, n - 1);
      assert IdsOf(ps, n) == IdsOf(ps, n - 1) + {ps[n - 1].id};
    }
  }

  /** The index depends only on the first n cells. */
  lemma {:induction false} IndexByIdPrefix(ps: seq<Project>, ls: seq<Label>, ls': seq<Label>, n: nat)
    requires n <= |ps| && n <= |ls| && n <= |ls'|
    requires forall i :: 0 <= i < n ==> ls[i] == ls'[i]
    ensures IndexById(ps, ls, n) == IndexById(ps, ls', n)
  {
    if n > 0 {
      IndexByIdPrefix(ps, ls, ls', n - 1);
    }
  }

  /** Updating a union updates its right-hand side. */
  lemma MapUnionUpdate<K, V>(a: map<K, V>, b: map<K, V>, k: K, v: V)
    ensures (a + b)[k := v] == a + b[k := v]
  {
  }

  /** The cell of the last of the first n projects with a given identity is the one the index keeps. */
  lemma {:induction false} IndexByIdKeepsLast(ps: seq<Project>, ls: seq<Label>, n: nat, i: nat)
    requires n <= |ps| && n <= |ls| && i < n
    requires forall j :: i < j < n ==> ps[j].id != ps[i].id
    ensures ps[i].id in IndexById(ps, ls, n) && IndexById(ps, ls, n)[ps[i].id] == ls[i]
  {
    if i < n - 1 {
      IndexByIdKeepsLast(ps, ls, n - 1, i);
    }
  }

  /**
   * The second loop of showProjects: row and column counters walk the grid
   * down each column of `rows` cells, then on to the next column.
   */
  method PlaceCells(labels: seq<Label>, rows: nat, labelWidth: nat)
    requires rows > 0 || labels == []
    requires forall i, j :: 0 <= i < j < |labels| ==> labels[i] != labels[j]
    modifies labels
    ensures forall j :: 0 <= j < |labels| ==>
              labels[j].y == CellRow(j, rows) && labels[j].x == CellX(j, rows, labelWidth)
    ensures forall j :: 0 <= j < |labels| ==>
              labels[j].name == old(labels[j].name) && labels[j].status == old(labels[j].status)
              && labels[j].activity == old(labels[j].activity)
  {
    var row, col := 0, 0;
    for i := 0 to |labels|
      invariant i == col * rows + row
      invariant i < |labels| ==> row < rows
      invariant forall j :: 0 <= j < i ==> labels[j].y == CellRow(j, rows) && labels[j].x == CellX(j, rows, labelWidth)
      invariant forall j :: 0 <= j < |labels| ==>
                  labels[j].name == old(labels[j].name) && labels[j].status == old(labels[j].status)
                  && labels[j].activity == old(labels[j].activity)
    {
      CountersAreDivMod(i, rows, col, row);
      labels[i].x := col * labelWidth;
      labels[i].y := row;
      row := row + 1;
      if row == rows {
        row := 0;
        col := col + 1;
      }
    }
  }

  /** The third loop of showProjects: every cell drawn in list order, stopping at the first that throws. */
  method DrawCells(labels: seq<Label>, labelWidth: nat, statusWidth: nat, verbose: bool) returns (out: Output)
    ensures out == DrawAll(labels, labelWidth, statusWidth, verbose)
  {
    out := Output([], None);
    var j := 0;
    while j < |labels|
      invariant 0 <= j <= |labels|
      invariant out.fault.None?
      invariant DrawAll(labels, labelWidth, statusWidth, verbose) == Then(out, DrawAll(labels[j..], labelWidth, statusWidth, verbose))
    {
      DrawAllStep(labels, j, labelWidth, statusWidth, verbose);
      var d := labels[j].Draw(labelWidth, statusWidth, verbose);
      if d.fault.Some? {
        return Then(out, d);
      }
      ThenAssociative(out, d, DrawAll(labels[j + 1..], labelWidth, statusWidth, verbose));
      out := Then(out, d);
      j := j + 1;
    }
    assert out.cmds + [] == out.cmds;
  }

  /** The constructor's loop: the widest status label, measured with stringWidth. */
  method WidestLabel() returns (m: nat)
    ensures m == MaxLabelWidth(AllStatuses)
  {
    m := 0;
    for i := 0 to |AllStatuses|
      invariant m == MaxLabelWidth(AllStatuses[..i])
    {
      var w, _ := StringWidth(AllStatuses[i].Label());
      assert w == Some(LabelWidth(AllStatuses[i]));
      assert AllStatuses[..i + 1][..i] == AllStatuses[..i];
      m := Max(m, w.value);
    }
    assert AllStatuses[..|AllStatuses|] == AllStatuses;
  }

  /** Display: the board's layout and the cell of every project shown. */
  class Display {
    /** Display.verbose: false, and never changed. */
    const verbose: bool := false
    /** Display.statusWidth: set once by the constructor. */
    const statusWidth: nat
    /** The terminal size captured at construction; None when it could not be determined. */
    const size: Option<TermSize>

    /** Display.labelForProject, keyed by project identity (Project.equals compares ids). */
    var labelForProject: map<Text, Label>
    var lastRow: int
    var labelWidth: nat
    /** The cells created by the latest showProjects, in list order (the method's local `labels`). */
    ghost var board: seq<Label>

    /** Every status label fits in the status column. */
    ghost predicate Valid() {
      forall s: Status :: LabelWidth(s) <= statusWidth
    }

    /** The cells of the latest board lie inside the terminal, above the last row. */
    ghost predicate BoardFits()
      reads this, board
    {
      && size.Some?
      && forall i :: 0 <= i < |board| ==>
           0 <= board[i].y < lastRow && 0 <= board[i].x && board[i].x + labelWidth <= size.value.width
    }

    /** Cell i of the board sits in row i mod lastRow and column (i div lastRow) * labelWidth. */
    ghost predicate Placed()
      reads this, board
    {
      forall i :: 0 <= i < |board| ==>
        lastRow > 0 && board[i].y == CellRow(i, lastRow) && board[i].x == CellX(i, lastRow, labelWidth)
    }

    /**
     * What showProjects leaves once every cell exists: without a terminal
     * size it throws NullPointer and with a terminal narrower than one cell
     * DivisionByZero, lastRow unchanged in both; otherwise lastRow is the
     * number of rows, every cell is placed inside the terminal, and the whole
     * board is drawn without fault.
     */
    ghost predicate LaidOut(oldLastRow: int, out: Output)
      reads this, board
    {
      && labelWidth > 0
      && match size
         case None => lastRow == oldLastRow && out == Output([], Some(NullPointer))
         case Some(sz) =>
           if Columns(sz.width, labelWidth) == 0 then lastRow == oldLastRow && out == Output([], Some(DivisionByZero))
           else
             && lastRow == CeilDiv(|board|, Columns(sz.width, labelWidth)).value
             && Placed() && BoardFits()
             && out == DrawAll(board, labelWidth, statusWidth, verbose) && out.fault.None?
    }

    /**
     * Display(): the status column is as wide as the widest status label
     * (measured by the counting loop), the terminal size is the one given.
     */
    constructor (size: Option<TermSize>)
      ensures statusWidth == StatusColumnWidth(verbose) && Valid()
      ensures this.size == size && labelForProject == map[] && lastRow == 0 && labelWidth == 0 && board == []
    {
      var maxStatusWidth := WidestLabel();
      statusWidth := Widen(maxStatusWidth, verbose);
      StatusColumnFitsEveryLabel(verbose);
      this.size := size;
      labelForProject := map[];
      lastRow := 0;
      labelWidth := 0;
      board := [];
    }

    /** Display.start: forgets every cell, clears the screen, turns echo and the cursor off. */
    method Start() returns (cmds: seq<Cmd>)
      modifies this
      ensures labelForProject == map[]
      ensures lastRow == old(lastRow) && labelWidth == old(labelWidth) && board == old(board)
      ensures cmds == StartCommands
    {
      labelForProject := map[];
      cmds := StartCommands;
    }

    /**
     * Display.close: moves the cursor to the row after the board, ends the
     * line, turns the cursor and echo back on and resets the attributes. On a
     * board that fits, the cursor lands below every cell.
     */
    function CloseCommands(): (r: seq<Cmd>)
      reads this, board
      ensures |r| == 5 && r[0].Goto? && r[0].row == lastRow + 1
      ensures r[1..] == [Write([0x0a]), ShowCursor(true), LocalEcho(true), ResetAttributes]
      ensures BoardFits() ==> forall i :: 0 <= i < |board| ==> 1 + board[i].y < r[0].row
    {
      [Goto(lastRow + 1, 0), Write([0x0a]), ShowCursor(true), LocalEcho(true), ResetAttributes]
    }

    /**
     * Display.showProjects. Creates one Waiting cell per project and records
     * it under the project's id, keeping the entries of ids not in the list;
     * labelWidth becomes the widest minimum width plus LabelPadding; the rows
     * are ceilDiv(n, width / labelWidth) and the i-th cell goes to row
     * i mod rows, column (i div rows) * labelWidth; every cell is then drawn.
     * A name that is not valid UTF-16 throws while the cells are created; a
     * missing terminal size and too narrow a terminal throw before the layout.
     */
    method ShowProjects(projects: seq<Project>) returns (out: Output)
      requires Valid()
      modifies this`labelWidth, this`labelForProject, this`lastRow, this`board
      ensures |board| <= |projects|
      ensures forall i :: 0 <= i < |board| ==> fresh(board[i])
      ensures forall i :: 0 <= i < |board| ==>
                board[i].name == projects[i].name && board[i].status == Waiting && board[i].activity == None
      ensures NamesMeasurable(projects, |board|)
      ensures out.fault.Some? ==> forall i :: 0 <= i < |board| ==> board[i].x == 0 && board[i].y == 0
      ensures labelForProject == old(labelForProject) + IndexById(projects, board, |board|)
      ensures |board| < |projects| ==>
                && Width(projects[|board|].name).None?
                && labelWidth == MaxMinWidth(projects, |board|, statusWidth)
                && lastRow == old(lastRow)
                && out == Output(Complaint(projects[|board|].name), Some(InvalidUtf16))
      ensures |board| == |projects| ==>
                labelWidth == MaxMinWidth(projects, |projects|, statusWidth) + LabelPadding && LaidOut(old(lastRow), out)
    {
      var labels := CreateCells(projects);
      board := labels;
      assert labelForProject == old(labelForProject) + IndexById(projects, board, |board|);
      if |labels| < |projects| {
        return Output(Complaint(projects[|labels|].name), Some(InvalidUtf16));
      }
      labelWidth := labelWidth + LabelPadding;
      out := Arrange(labels);
    }

    /**
     * The rest of showProjects once every cell exists: the row count, the
     * second loop placing the cells, the third drawing them.
     */
    method Arrange(labels: seq<Label>) returns (out: Output)
      requires board == labels && labelWidth > 0
      requires Valid()
      requires forall i :: 0 <= i < |labels| ==> Width(labels[i].name).Some?
      requires forall i, j :: 0 <= i < j < |labels| ==> labels[i] != labels[j]
      modifies this`lastRow, labels
      ensures LaidOut(old(lastRow), out)
      ensures out.fault.Some? ==> forall j :: 0 <= j < |labels| ==> labels[j].x == old(labels[j].x) && labels[j].y == old(labels[j].y)
      ensures forall j :: 0 <= j < |labels| ==>
                labels[j].name == old(labels[j].name) && labels[j].status == old(labels[j].status)
                && labels[j].activity == old(labels[j].activity)
    {
      if size.None? {
        return Output([], Some(NullPointer));
      }
      var rows := CeilDiv(|labels|, Columns(size.value.width, labelWidth));
      if rows.None? {
        return Output([], Some(DivisionByZero));
      }
      lastRow := rows.value;
      if labels != [] {
        PlacementFits(|labels|, size.value.width, labelWidth, 0);
      }
      PlaceCells(labels, lastRow, labelWidth);
      forall i | 0 <= i < |labels|
        ensures 0 <= labels[i].y < lastRow && labels[i].x + labelWidth <= size.value.width
      {
        PlacementFits(|labels|, size.value.width, labelWidth, i);
      }
      assert Placed();
      assert BoardFits();
      DrawAllSucceeds(labels, labelWidth, statusWidth);
      out := DrawCells(labels, labelWidth, statusWidth, verbose);
    }

    /**
     * The start of showProjects: labelWidth reset, then the first loop, a
     * Waiting cell per project, each recorded under its project's id and
     * widening labelWidth to its minimum width, up to the first name that is
     * not valid UTF-16.
     */
    method CreateCells(projects: seq<Project>) returns (labels: seq<Label>)
      modifies this`labelWidth, this`labelForProject
      ensures |labels| <= |projects|
      ensures forall i :: 0 <= i < |labels| ==> fresh(labels[i])
      ensures forall i, j :: 0 <= i < j < |labels| ==> labels[i] != labels[j]
      ensures forall i :: 0 <= i < |labels| ==>
                labels[i].name == projects[i].name && labels[i].status == Waiting && labels[i].activity == None
      ensures forall i :: 0 <= i < |labels| ==> labels[i].x == 0 && labels[i].y == 0
      ensures NamesMeasurable(projects, |labels|)
      ensures |labels| < |projects| ==> Width(projects[|labels|].name).None?
      ensures labelWidth == MaxMinWidth(projects, |labels|, statusWidth)
      ensures labelForProject == old(labelForProject) + IndexById(projects, labels, |labels|)
    {
      labelWidth := 0;
      labels := [];
      var k := 0;
      while k < |projects|
        invariant 0 <= k <= |projects| && |labels| == k
        invariant forall i :: 0 <= i < k ==> fresh(labels[i])
        invariant forall i, j :: 0 <= i < j < k ==> labels[i] != labels[j]
        invariant forall i :: 0 <= i < k ==>
                    labels[i].name == projects[i].name && labels[i].status == Waiting && labels[i].activity == None
        invariant forall i :: 0 <= i < k ==> labels[i].x == 0 && labels[i].y == 0
        invariant NamesMeasurable(projects, k)
        invariant labelWidth == MaxMinWidth(projects, k, statusWidth)
        invariant labelForProject == old(labelForProject) + IndexById(projects, labels, k)
      {
        var l := new Label(projects[k].name);
        var minWidth := l.MinWidth(statusWidth);
        if minWidth.None? {
          return;
        }
        IndexByIdPrefix(projects, labels, labels + [l], k);
        MapUnionUpdate(old(labelForProject), IndexById(projects, labels, k), projects[k].id, l);
        labelWidth := Max(labelWidth, minWidth.value);
        labelForProject := labelForProject[projects[k].id := l];
        labels := labels + [l];
        k := k + 1;
      }
    }

    /**
     * Display.status: for a project with no cell nothing happens; otherwise
     * only that cell changes, taking the new status and losing its activity,
     * and it alone is redrawn.
     */
    method SetStatus(project: Project, status: Status) returns (out: Output)
      modifies if project.id in labelForProject then {labelForProject[project.id]} else {}
      ensures unchanged(this)
      ensures project.id !in labelForProject ==> out == Output([], None)
      ensures project.id in labelForProject ==>
                var l := labelForProject[project.id];
                && l.status == status && l.activity == None
                && l.name == old(l.name) && l.x == old(l.x) && l.y == old(l.y)
                && out == l.Draw(labelWidth, statusWidth, verbose)
      ensures Valid() ==> out.fault.None?
      ensures old(BoardFits()) ==> BoardFits()
    {
      if project.id !in labelForProject {
        return Output([], None);
      }
      var l := labelForProject[project.id];
      l.status := status;
      l.activity := None;
      if Valid() {
        DrawSucceeds(l, labelWidth, statusWidth);
      }
      out := l.Draw(labelWidth, statusWidth, verbose);
    }

    /**
     * Display.activity: for a project with no cell nothing happens; otherwise
     * only that cell's activity changes (None for a null activity) and it
     * alone is redrawn.
     */
    method SetActivity(project: Project, activity: Option<Text>) returns (out: Output)
      modifies if project.id in labelForProject then {labelForProject[project.id]} else {}
      ensures unchanged(this)
      ensures project.id !in labelForProject ==> out == Output([], None)
      ensures project.id in labelForProject ==>
                var l := labelForProject[project.id];
                && l.activity == activity
                && l.status == old(l.status) && l.name == old(l.name) && l.x == old(l.x) && l.y == old(l.y)
                && out == l.Draw(labelWidth, statusWidth, verbose)
      ensures Valid() ==> out.fault.None?
      ensures old(BoardFits()) ==> BoardFits()
    {
      if project.id !in labelForProject {
        return Output([], None);
      }
      var l := labelForProject[project.id];
      l.activity := activity;
      if Valid() {
        DrawSucceeds(l, labelWidth, statusWidth);
      }
      out := l.Draw(labelWidth, statusWidth, verbose);
    }
  }

  /**
   * close undoes start's requests: start asks for echo and the cursor off
   * whatever was asked before, and close asks for the cursor shown and echo
   * restored whatever start or anything after it asked; echo restored means
   * the saved flags put back (Terminal.LocalEchoFlags with on set).
   */
  lemma CloseRestoresStartModes(d: Display, m: Modes)
    ensures ModesAfter(StartCommands, m) == Modes(false, false)
    ensures ModesAfter(d.CloseCommands(), m) == Modes(true, true)
    ensures ModesAfter(StartCommands + d.CloseCommands(), m) == Modes(true, true)
  {
    var r := d.CloseCommands();
    var restore := [Write([0x0a]), ShowCursor(true), LocalEcho(true), ResetAttributes];
    forall m': Modes ensures ModesAfter(r, m') == Modes(true, true) {
      assert ModesAfter(r, m') == ModesAfter(restore, m');
      assert ModesAfter(restore, m') == ModesAfter(restore[2..], m'.(cursor := true));
    }
    ModesAfterAppend(StartCommands, r, m);
  }

  /** Running two command lists one after the other leaves the modes the second leaves from where the first stopped. */
  lemma {:induction false} ModesAfterAppend(a: seq<Cmd>, b: seq<Cmd>, m: Modes)
    ensures ModesAfter(a + b, m) == ModesAfter(b, ModesAfter(a, m))
    decreases |a|
  {
    if a != [] {
      assert (a + b)[1..] == a[1..] + b;
      var m' := if a[0].LocalEcho? then m.(echo := a[0].on) else if a[0].ShowCursor? then m.(cursor := a[0].on) else m;
      ModesAfterAppend(a[1..], b, m');
    } else {
      assert a + b == b;
    }
  }
}
