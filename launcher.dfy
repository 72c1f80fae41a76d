/**
 * The main loop of `launcher()` in launcher.py.  Each pass rescans the
 * process listing, rebuilds the node table from scratch, recomputes the last
 * cursor row from the node count, reads one key and dispatches it.  The
 * cursor (x, y), the bound `swin_size.max_y`, the node table and the text on
 * row 2 are the state the loop keeps from one pass to the next.
 */
module Launcher {
  import opened Wrappers
  import opened Text
  import opened ProcessScan
  import opened Navigation
  import opened Dispatch

  /** The text `print_frame` writes on row 2. */
  const Prompt: string := "Please select the node."

  /** How the program ends. */
  datatype Termination =
    | DiscoveryFailure(message: string)  // `message` on stderr, `sys.exit(-1)`
    | QuitRequested                      // `exit()`
    | HandedOff(command: string)         // terminal released, `os.system(command)`, `exit()`
    | LookupFailed                       // terminal released, `nodes['R1']` raises KeyError

  /** The status the program exits with (an uncaught exception exits with 1). */
  function ExitStatus(t: Termination): (code: int)
    ensures code == 0 <==> t.QuitRequested? || t.HandedOff?
    ensures code < 0 <==> t.DiscoveryFailure?
    ensures t.DiscoveryFailure? ==> code == -1
  {
    match t
    case DiscoveryFailure(_) => -1
    case QuitRequested => 0
    case HandedOff(_) => 0
    case LookupFailed => 1
  }

  /** What a dispatched key means for the loop: go on (None) or end. */
  function Ending(o: Outcome): (t: Option<Termination>)
    ensures t.None? <==> o.Continue?
    ensures t.Some? ==> ExitStatus(t.value) >= 0
  {
    match o
    case Continue(_, _) => None
    case Quit => Some(QuitRequested)
    case Connect(cmd) => Some(HandedOff(cmd))
    case MissingTarget => Some(LookupFailed)
  }

  /** What row 2 can show: the prompt, or the message about an invalid key. */
  predicate Row2Text(s: string) {
    s == Prompt || IsInvalidKeyMessage(s)
  }

  /**
   * The text on row 2 after a pass that went on.  A redraw puts the prompt
   * back, and row 2 never shows anything but the prompt or an invalid-key
   * message.
   */
  function StatusAfter(status: string, n: Notice): (r: string)
    ensures n.FrameRedrawn? ==> r == Prompt
    ensures Row2Text(status) && (n.Warning? ==> IsInvalidKeyMessage(n.text)) ==> Row2Text(r)
  {
    match n
    case Unchanged => status
    case FrameRedrawn => Prompt
    case Warning(text) => text
  }

  /** The variables the key loop carries from one pass to the next. */
  datatype PickerState = PickerState(x: int, y: int, maxY: int, nodes: map<string, string>, status: string)

  /** The column never leaves `min_x`, the row never goes above `min_y`, row 2 shows a known text. */
  predicate Consistent(s: PickerState) {
    s.x == MinX && s.y >= MinY && Row2Text(s.status)
  }

  /**
   * One pass of `while True` over the state `s`: scan `out` (what `ps aux`
   * printed), then handle `key` (what `getkey()` returned).  A failed scan
   * ends the program before any key is read and before the bound changes.
   */
  function Pass(s: PickerState, out: string, key: string): (r: (PickerState, Option<Termination>))
    ensures r.0.nodes == NodeTable(SplitLines(out))
    ensures r.1 == Some(DiscoveryFailure(NotFoundMessage)) <==> r.0.nodes == map[]
    ensures r.0.nodes == map[] <==> forall i :: 0 <= i < |SplitLines(out)| ==> NodeName(SplitLines(out)[i]).None?
    ensures r.0.nodes == map[] ==> r.0.maxY == s.maxY
    ensures r.0.nodes != map[] ==> r.0.maxY == MaxY(|r.0.nodes|)
    ensures r.1.Some? ==> r.0.x == s.x && r.0.y == s.y && r.0.status == s.status
    ensures Consistent(s) ==> Consistent(r.0)
    ensures r.0.nodes != map[] && MinY <= s.y <= r.0.maxY ==> MinY <= r.0.y <= r.0.maxY
  {
    var nodes := NodeTable(SplitLines(out));
    NodeTableEmpty(SplitLines(out));
    if nodes == map[] then
      (s.(nodes := nodes), Some(DiscoveryFailure(NotFoundMessage)))
    else
      var b := BoundsFor(|nodes|);
      var o := Step(nodes, Pos(s.x, s.y), b, key);
      var next := s.(maxY := b.maxY, nodes := nodes);
      match o
      case Continue(pos, notice) =>
        (next.(x := pos.x, y := pos.y, status := StatusAfter(s.status, notice)), None)
      case _ => (next, Ending(o))
  }

  /** Where a run of passes stopped: the state, how the program ended if it did, and the passes made. */
  datatype RunResult = RunResult(state: PickerState, ending: Option<Termination>, passes: nat)

  /** `r` with `n` more passes counted in front of it. */
  function After(n: nat, r: RunResult): RunResult {
    RunResult(r.state, r.ending, r.passes + n)
  }

  /** One pass of the loop as a value: `Pass` is the one the launcher makes. */
  type PassFunction = (PickerState, string, string) -> (PickerState, Option<Termination>)

  /**
   * The loop driven by the listing and the key of each pass in turn: it
   * makes passes with `pass` until one ends the program or the passes run
   * out.  `Loop(Pass, s, passes)` is the launcher's loop.
   */
  function Loop(pass: PassFunction, s: PickerState, passes: seq<(string, string)>): (r: RunResult)
    ensures r.passes <= |passes|
    ensures r.ending.None? ==> r.passes == |passes|
    ensures r.ending.Some? ==> r.passes >= 1
    decreases |passes|
  {
    if passes == [] then RunResult(s, None, 0)
    else
      var first := pass(s, passes[0].0, passes[0].1);
      if first.1.Some? then RunResult(first.0, first.1, 1)
      else After(1, Loop(pass, first.0, passes[1..]))
  }

  /**
   * The loop stops at the first pass that ends the program: the passes that
   * would have come after it change nothing.
   */
  lemma {:induction false} RunStopsAtEnding(pass: PassFunction, s: PickerState, passes: seq<(string, string)>, later: seq<(string, string)>)
    requires Loop(pass, s, passes).ending.Some?
    ensures Loop(pass, s, passes + later) == Loop(pass, s, passes)
    decreases |passes|
  {
    var all := passes + later;
    assert all[0] == passes[0];
    var first := pass(s, passes[0].0, passes[0].1);
    if first.1.None? {
      assert all[1..] == passes[1..] + later;
      RunStopsAtEnding(pass, first.0, passes[1..], later);
    }
  }

  /**
   * Passes that all go on compose: running `p + q` is running `p`, then
   * running `q` from where `p` left the state.
   */
  lemma {:induction false} RunComposes(pass: PassFunction, s: PickerState, p: seq<(string, string)>, q: seq<(string, string)>)
    requires Loop(pass, s, p).ending.None?
    ensures Loop(pass, s, p + q) == After(|p|, Loop(pass, Loop(pass, s, p).state, q))
    decreases |p|
  {
    if p == [] {
      assert p + q == q;
    } else {
      var all := p + q;
      assert all[0] == p[0];
      var first := pass(s, p[0].0, p[0].1);
      assert all[1..] == p[1..] + q;
      RunComposes(pass, first.0, p[1..], q);
    }
  }

  /** Across the launcher's passes the column stays at `min_x`, the row at or below `min_y`, and row 2 shows a known text. */
  lemma {:induction false} RunKeepsConsistent(s: PickerState, passes: seq<(string, string)>)
    requires Consistent(s)
    ensures Consistent(Loop(Pass, s, passes).state)
    decreases |passes|
  {
    if passes != [] {
      var first := Pass(s, passes[0].0, passes[0].1);
      if first.1.None? {
        RunKeepsConsistent(first.0, passes[1..]);
      }
    }
  }

  /** When the loop has made a pass, the table it holds is the one built from the last listing it scanned. */
  lemma {:induction false} RunKeepsLastTable(s: PickerState, passes: seq<(string, string)>)
    requires passes != []
    ensures var r := Loop(Pass, s, passes);
      r.passes >= 1 && r.state.nodes == NodeTable(SplitLines(passes[r.passes - 1].0))
    decreases |passes|
  {
    var first := Pass(s, passes[0].0, passes[0].1);
    var r := Loop(Pass, s, passes);
    if first.1.Some? {
      assert r == RunResult(first.0, first.1, 1);
    } else {
      var rest := Loop(Pass, first.0, passes[1..]);
      assert r == After(1, rest);
      if |passes| == 1 {
        assert passes[1..] == [];
        assert rest == RunResult(first.0, None, 0);
      } else {
        RunKeepsLastTable(first.0, passes[1..]);
        assert passes[1..][rest.passes - 1] == passes[rest.passes];
      }
    }
  }

  /** The node picker: the state the key loop updates in place. */
  class NodePicker {
    var x: int
    var y: int
    /** `swin_size.max_y`: the last cursor row as of the latest successful scan. */
    var maxY: int
    /** The table of the latest scan: node name -> handle. */
    var nodes: map<string, string>
    /** What row 2 of the screen shows. */
    var status: string

    /** The loop variables as one value. */
    ghost function State(): PickerState
      reads this
    {
      PickerState(x, y, maxY, nodes, status)
    }

    /** The column never leaves `min_x`, the row never goes above `min_y`, row 2 shows a known text. */
    ghost predicate Valid()
      reads this
    {
      Consistent(State())
    }

    /** The state on entry to the loop: cursor on the first node row, the prompt on row 2. */
    constructor ()
      ensures Valid()
      ensures x == MinX && y == MinY && nodes == map[] && status == Prompt
    {
      x, y := MinX, MinY;
      maxY := MinY;
      nodes := map[];
      status := Prompt;
    }

    /**
     * One pass of `while True`: scan `out` (what `ps aux` printed), then
     * handle `key` (what `getkey()` returned).  A failed scan ends the program
     * before any key is read and before the bound is updated.
     */
    method Iterate(out: string, key: string) returns (t: Option<Termination>)
      requires Valid()
      modifies this
      ensures Valid()
      ensures (State(), t) == Pass(old(State()), out, key)
      ensures nodes == NodeTable(SplitLines(out))
      ensures t == Some(DiscoveryFailure(NotFoundMessage)) <==> nodes == map[]
      ensures nodes == map[] ==> x == old(x) && y == old(y) && maxY == old(maxY) && status == old(status)
      ensures nodes != map[] ==>
        var o := Step(nodes, Pos(old(x), old(y)), BoundsFor(|nodes|), key);
        && maxY == MaxY(|nodes|)
        && t == Ending(o)
        && (o.Continue? ==> Pos(x, y) == o.pos && status == StatusAfter(old(status), o.notice))
        && (!o.Continue? ==> x == old(x) && y == old(y) && status == old(status))
      ensures nodes != map[] && t.None? && MinY <= old(y) <= maxY ==> MinY <= y <= maxY
    {
      ghost var s := State();
      var found := Scan(out);
      if found.NotFound? {
        nodes := map[];
        t := Some(DiscoveryFailure(NotFoundMessage));
        assert State() == s.(nodes := map[]);
        return;
      }
      nodes := found.nodes;
      maxY := MaxY(|nodes|);
      var o := Step(nodes, Pos(x, y), Bounds(MinY, maxY), key);
      t := Ending(o);
      if o.Continue? {
        x, y := o.pos.x, o.pos.y;
        status := StatusAfter(status, o.notice);
        assert State() == PickerState(o.pos.x, o.pos.y, maxY, nodes, StatusAfter(s.status, o.notice));
      } else {
        assert State() == s.(maxY := maxY, nodes := nodes);
      }
    }

    /**
     * The loop itself, driven by the listing and the key of each pass in
     * turn: it runs until a pass ends the program or the passes run out, and
     * reports how many passes it ran.
     */
    method Run(passes: seq<(string, string)>) returns (t: Option<Termination>, n: nat)
      requires Valid()
      modifies this
      ensures Valid()
      ensures Loop(Pass, old(State()), passes) == RunResult(State(), t, n)
      ensures n <= |passes|
      ensures t.None? ==> n == |passes|
      ensures t.Some? ==> n >= 1
    {
      ghost var s0 := State();
      n := 0;
      t := None;
      while n < |passes| && t.None?
        invariant Valid()
        invariant n <= |passes|
        invariant t.None? ==> Loop(Pass, s0, passes) == After(n, Loop(Pass, State(), passes[n..]))
        invariant t.Some? ==> Loop(Pass, s0, passes) == RunResult(State(), t, n)
      {
        ghost var before := State();
        assert passes[n..][0] == passes[n];
        assert passes[n..][1..] == passes[n + 1..];
        t := Iterate(passes[n].0, passes[n].1);
        n := n + 1;
      }
    }
  }

  /** A listing that holds exactly one node shell, `root 101 bash --norc -is mininet:R1`: R1 with handle 101. */
  const OneNodeListing: string := "root" + [' '] + ("101" + [' '] + (Marker + "R1"))

  /** Scanning `OneNodeListing` finds the single node R1, with handle 101. */
  lemma OneNodeTable()
    ensures NodeTable(SplitLines(OneNodeListing)) == map["R1" := "101"]
  {
    var line := OneNodeListing;
    OneNodeLine();
    OneNodeHandle();
    SplitJoinLines([line]);
    assert JoinLines([line]) == line;
    assert [line][..0] == [];
    assert NodeTable([line]) == map["R1" := Handle(line)];
  }

  /** The handle of the line `root 101 bash --norc -is mininet:R1` is its second field, 101. */
  lemma OneNodeHandle()
    ensures NodeName(OneNodeListing).Some? && Handle(OneNodeListing) == "101"
  {
    OneNodeLine();
    var tail := Marker + "R1";
    var rest := "101" + [' '] + tail;
    FieldsAcrossSpace("root", ' ', rest, []);
    FieldsAcrossSpace("101", ' ', tail, []);
    WordFields("root", []);
    WordFields("101", []);
    assert [] + "root" == "root" && [] + "101" == "101";
  }

  /** The one line of `OneNodeListing` names R1. */
  lemma OneNodeLine()
    ensures '\n' !in OneNodeListing
    ensures NodeName(OneNodeListing) == Some("R1")
  {
    var pre := "root" + [' '] + "101" + [' '];
    assert OneNodeListing == pre + Marker + "R1";
    NameAfterMarker(pre, "R1");
  }

  /**
   * The bound is recomputed on every pass but the cursor is not: when a
   * rescan finds fewer nodes, the cursor can be left below the last listed
   * node, and a key that does not move it upwards leaves it there.  Here a
   * cursor on row 6, valid with three nodes, meets a rescan of
   * `OneNodeListing` and a resize.
   */
  lemma ShrinkLeavesCursorOutside()
    ensures InBounds(6, BoundsFor(3))
    ensures var r := Pass(PickerState(MinX, 6, MaxY(3), map["R1" := "101", "R2" := "102", "R3" := "103"], Prompt),
                          OneNodeListing, ResizeKey);
      && r.1.None?
      && r.0.nodes.Keys == {"R1"}
      && r.0.maxY == 4
      && r.0.y == 6
  {
    OneNodeTable();
    var nodes := NodeTable(SplitLines(OneNodeListing));
    assert |nodes| == |nodes.Keys| == 1;
    ResizeKeepsCursor(nodes, Pos(MinX, 6), BoundsFor(1));
  }
}
