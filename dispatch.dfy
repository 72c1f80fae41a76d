/**
 * What the launcher does with one key read by `stdscr.getkey()`, once the
 * node table and the bounds of the current pass are known.  The branches are
 * tried in the order of launcher.py: the resize event, then "q", then the
 * movement table, then the daemon table, and anything else is reported as an
 * invalid key on row 2.
 */
module Dispatch {
  import opened Wrappers
  import opened Text
  import opened Navigation

  /** The key string curses delivers when the terminal is resized. */
  const ResizeKey: string := "KEY_RESIZE"
  const QuitKey: string := "q"

  /** The node whose namespace every daemon connection targets. */
  const TargetNode: string := "R1"

  /** The `daemons` table: the routing daemon each daemon key selects. */
  function DaemonOf(c: string): (r: Option<string>)
    ensures r.Some? <==> c in {"z", "r", "o", "b"}
    ensures r.Some? ==> IsWord(r.value)
  {
    if c == "z" then Some("zebra")
    else if c == "r" then Some("ripd")
    else if c == "o" then Some("ospfd")
    else if c == "b" then Some("bgpd")
    else None
  }

  /**
   * The shell command handed to `os.system`: run `telnet localhost <daemon>`
   * inside the namespace whose handle is `handle` (`'mnexec -a %s %s'`).
   * It is the six words `mnexec -a <handle> telnet localhost <daemon>`
   * joined by single spaces.
   */
  function ConnectCommand(handle: string, daemon: string): (cmd: string)
    ensures cmd == JoinSpaced(["mnexec", "-a", handle, "telnet", "localhost", daemon])
  {
    var ws := ["mnexec", "-a", handle, "telnet", "localhost", daemon];
    assert ws[3..] == ["telnet", "localhost", daemon];
    assert JoinSpaced(ws[2..]) == handle + [' '] + JoinSpaced(ws[3..]);
    assert JoinSpaced(ws[1..]) == "-a" + [' '] + JoinSpaced(ws[2..]);
    "mnexec -a " + handle + " " + TelnetCommand(daemon)
  }

  /**
   * `cmd = 'telnet localhost ' + daemons[c]`: a console session on the
   * daemon's port, the three words `telnet localhost <daemon>` joined by
   * single spaces.
   */
  function TelnetCommand(daemon: string): (cmd: string)
    ensures cmd == JoinSpaced(["telnet", "localhost", daemon])
  {
    var ws := ["telnet", "localhost", daemon];
    assert ws[2..] == [daemon];
    assert JoinSpaced(ws[1..]) == "localhost" + [' '] + daemon;
    "telnet localhost " + daemon
  }

  /** The fixed text in front of the key in the invalid-key message. */
  const InvalidKeyPrefix: string := "Invalid key: '"

  /** `s` has the shape of an invalid-key message: the prefix, a key, a closing quote. */
  predicate IsInvalidKeyMessage(s: string) {
    |s| > |InvalidKeyPrefix| && s[..|InvalidKeyPrefix|] == InvalidKeyPrefix && s[|s| - 1] == '\''
  }

  /**
   * The message written on row 2 for a key that has no meaning
   * (`'Invalid key: \'%s\'' % c`): the key appears verbatim between the quotes.
   */
  function InvalidKeyMessage(c: string): (m: string)
    ensures IsInvalidKeyMessage(m)
    ensures m[|InvalidKeyPrefix|..|m| - 1] == c
  {
    var m := InvalidKeyPrefix + c + "'";
    assert m[..|InvalidKeyPrefix|] == InvalidKeyPrefix;
    assert m[|InvalidKeyPrefix|..|m| - 1] == c;
    m
  }

  /** What happens to row 2 of the screen when the loop goes on. */
  datatype Notice =
    | Unchanged          // nothing is written
    | FrameRedrawn       // the screen was cleared and the frame drawn again
    | Warning(text: string)  // row 2 is blanked and `text` is written there

  /** The result of handling one key. */
  datatype Outcome =
    | Continue(pos: Pos, notice: Notice)   // the loop goes round again
    | Quit                                 // `exit()`
    | Connect(command: string)             // terminal released, `os.system(command)`, then `exit()`
    | MissingTarget                        // terminal released, then `nodes['R1']` raises KeyError

  /** One pass of the key dispatch. */
  function Step(nodes: map<string, string>, p: Pos, b: Bounds, c: string): (o: Outcome)
    ensures o.Continue? && MoveKeyOf(c).None? ==> o.pos == p
    ensures o.Continue? ==> o.pos.x == p.x
    ensures o.Continue? && InBounds(p.y, b) ==> InBounds(o.pos.y, b)
    ensures o.Continue? && p.y >= b.minY ==> o.pos.y >= b.minY
    ensures o.Continue? && o.notice.Warning? ==> o.notice.text == InvalidKeyMessage(c)
  {
    if c == ResizeKey then Continue(p, FrameRedrawn)
    else if c == QuitKey then Quit
    else if MoveKeyOf(c).Some? then Continue(Move(MoveKeyOf(c).value, p, b), Unchanged)
    else if DaemonOf(c).Some? then
      if TargetNode in nodes then Connect(ConnectCommand(nodes[TargetNode], DaemonOf(c).value))
      else MissingTarget
    else Continue(p, Warning(InvalidKeyMessage(c)))
  }

  /** The loop stops with "quit" on exactly one key, "q". */
  lemma QuitOnlyOnQ(nodes: map<string, string>, p: Pos, b: Bounds, c: string)
    ensures Step(nodes, p, b, c) == Quit <==> c == "q"
  {
  }

  /** A resize keeps the cursor and redraws the frame. */
  lemma ResizeKeepsCursor(nodes: map<string, string>, p: Pos, b: Bounds)
    ensures Step(nodes, p, b, "KEY_RESIZE") == Continue(p, FrameRedrawn)
  {
  }

  /** A movement key applies exactly its table entry, guarded, and writes nothing. */
  lemma MoveKeyMoves(nodes: map<string, string>, p: Pos, b: Bounds, k: MoveKey)
    ensures Step(nodes, p, b, KeyName(k)) == Continue(Move(k, p, b), Unchanged)
  {
  }

  /**
   * A daemon key connects, with the command `mnexec -a <handle of R1> telnet
   * localhost <daemon>`, exactly when R1 was discovered; otherwise the
   * lookup of R1 fails.
   */
  lemma DaemonKeyConnects(nodes: map<string, string>, p: Pos, b: Bounds, c: string)
    requires c in {"z", "r", "o", "b"}
    ensures TargetNode in nodes ==>
      Step(nodes, p, b, c) == Connect(ConnectCommand(nodes[TargetNode], DaemonOf(c).value))
    ensures TargetNode !in nodes ==> Step(nodes, p, b, c) == MissingTarget
  {
    assert c != ResizeKey && c != QuitKey && MoveKeyOf(c).None?;
  }

  /** The keys the launcher knows: the resize event, "q", the eight movement keys and the four daemon keys. */
  predicate KnownKey(c: string) {
    c == ResizeKey || c == QuitKey || MoveKeyOf(c).Some? || DaemonOf(c).Some?
  }

  /** Any other key leaves the cursor where it is and reports `Invalid key: '<c>'`. */
  lemma UnknownKeyWarns(nodes: map<string, string>, p: Pos, b: Bounds, c: string)
    ensures !KnownKey(c) <==> Step(nodes, p, b, c) == Continue(p, Warning("Invalid key: '" + c + "'"))
  {
  }

  /** The loop ends (quit, connect, or the failed lookup) exactly on "q" and the daemon keys. */
  lemma EndsOnlyOnQuitOrDaemon(nodes: map<string, string>, p: Pos, b: Bounds, c: string)
    ensures !Step(nodes, p, b, c).Continue? <==> c == QuitKey || c in {"z", "r", "o", "b"}
  {
  }

  /**
   * Given a single-word handle (every handle the scan produces is one), the
   * shell splits the connection command into exactly the six words
   * `mnexec -a <handle> telnet localhost <daemon>`.
   */
  lemma ConnectCommandWords(handle: string, daemon: string)
    requires IsWord(handle) && IsWord(daemon)
    ensures Fields(ConnectCommand(handle, daemon)) == ["mnexec", "-a", handle, "telnet", "localhost", daemon]
  {
    var ws := ["mnexec", "-a", handle, "telnet", "localhost", daemon];
    assert forall i :: 0 <= i < |ws| ==> IsWord(ws[i]) by {
      assert IsWord("mnexec") && IsWord("-a") && IsWord("telnet") && IsWord("localhost");
    }
    SpacedWords(ws);
  }

  /** With nodes R1 and R2 discovered, "b" connects to bgpd inside R1's namespace. */
  lemma ExampleBgpd(h1: string, h2: string, p: Pos, b: Bounds)
    ensures Step(map["R1" := h1, "R2" := h2], p, b, "b") == Connect(ConnectCommand(h1, "bgpd"))
  {
    DaemonKeyConnects(map["R1" := h1, "R2" := h2], p, b, "b");
    assert DaemonOf("b") == Some("bgpd");
  }

  /** An unmapped key such as "x" leaves the cursor and reports `Invalid key: 'x'`. */
  lemma ExampleInvalidX(nodes: map<string, string>, p: Pos, b: Bounds)
    ensures Step(nodes, p, b, "x") == Continue(p, Warning("Invalid key: 'x'"))
  {
    assert MoveKeyOf("x").None? && DaemonOf("x").None?;
    assert "x" != ResizeKey && "x" != QuitKey;
    assert "Invalid key: '" + "x" + "'" == "Invalid key: 'x'";
    UnknownKeyWarns(nodes, p, b, "x");
  }
}
