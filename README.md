# Mininet/Quagga node launcher: a verified model

`launcher.py` is a curses program for a Mininet lab running Quagga routers.
On every pass of its main loop it does three things. It scans the output of
`ps aux` for the namespace shells Mininet starts (`bash --norc -is
mininet:<node>`) and lists the nodes it finds. It then reads one key. The key
either moves the cursor over the node rows, quits, or hands the terminal over
to `mnexec -a <handle of R1> telnet localhost <daemon>` for one of the routing
daemons zebra, ripd, ospfd and bgpd.

This project models that decision logic in Dafny:

- `text.dfy` (module `Text`) models Python 2's `out.split('\n')` and
  `line.split()` on byte strings. A process line is cut into
  whitespace-separated fields with `line.split()`. The whitespace characters
  are space, tab, newline, carriage return, vertical tab and form feed.
- `scan.dfy` (module `ProcessScan`) models node discovery. It covers the
  pattern `.*bash --norc -is mininet:(.*)` under `re.match`. `.` never
  matches a newline, so the match is confined to the text before the first
  newline. The greedy `.*` captures what follows the last occurrence of the
  marker. The module also covers the handle (`line.split()[1]`), the node
  table built in line order (a later line overwrites an earlier one), and the
  scan loop as a method (`Scan`). That method returns either the table or the
  discovery failure.
- `navigation.dfy` (module `Navigation`) models the eight-entry `c_move`
  table. Each entry is a (guard, transform, clamp) triple. The model also
  covers the bounds `min_y = 4`, `max_y = len(nodes) + 3`, and the move as
  the loop applies it: the transform if the guard holds, otherwise nothing.
- `dispatch.dfy` (module `Dispatch`) models the `daemons` table and the
  handling of one key as a pure function `Step`. The order is: resize, `q`,
  move keys, daemon keys, then everything else (`Invalid key: '<k>'`).
- `launcher.dfy` (module `Launcher`) models the `while True` loop. The pure
  function `Pass` is one pass (scan, bound update, dispatch) over the loop's
  variables, and `Loop` makes passes until one of them ends the program. The
  class `NodePicker` holds the same variables as fields: the cursor
  `(x, y)`, `swin_size.max_y`, the node table and the text of row 2. Its
  methods `Iterate` and `Run` update them in place, and their contracts say
  that they do exactly what `Pass` and `Loop` say.

The output of `ps aux` and the key from `getkey()` are parameters. The
command for `os.system` is a result value. The exits are `Termination`
values. A scan is a function of the listing text, so rescanning an unchanged
process table yields the same table.

Three places where the code does less than its own tables or a reader
might expect. The model follows the code in each:

- **Page moves do not clamp.** The third lambda of the `^U`/`^D` entries
  clamps to the first or last row when a full 10-row step does not fit
  (launcher.py:50, 53). The loop calls only the
  guard and the transform (launcher.py:132-133), never the third lambda. With
  fewer than 10 rows to go, `^U`/`^D` therefore do nothing. `Navigation.Clamp`
  and `Navigation.TableMove` give the other reading. `PageClampUnused` and
  `PageDownClampUnused` show where the two readings differ. In the running
  program none of the four control-key entries is reached at all (see
  "Left out"), so this gap is one of the table, not of the running program.
- **The cursor can leave the bounds.** One would expect the row to always
  lie in `[min_y, max_y]`. That holds only while the node count does not shrink.
  `max_y` is recomputed on every pass (launcher.py:116), but `y` is not. What
  the model proves:
  - `y >= min_y` always holds (`Consistent`, `NodePicker.Valid`).
  - `x` never changes.
  - A pass that starts inside the new bounds stays inside them.
  - `ShrinkLeavesCursorOutside` exhibits the case where the cursor ends up
    outside.
- **The handoff target is fixed.** Every daemon key targets the node named
  `R1`, whatever row the cursor is on (launcher.py:141). If no `R1` was
  discovered, `nodes['R1']` raises `KeyError` after the terminal has been
  released. The model gives this case its own outcome (`MissingTarget`, then
  `LookupFailed`) rather than a precondition.

## Model

| member | source | states |
|---|---|---|
| `Text.FieldsFrom` | launcher.py:107 | every field `str.split()` produces is a non-empty run of non-whitespace characters |
| `Text.FieldsAcrossSpace` | launcher.py:107 | a whitespace character separates fields: the fields of `u c v` are the fields of `u` followed by the fields of `v` |
| `Text.Fields` | launcher.py:107 | `line.split()` yields only single words, and yields none exactly when the line is all whitespace |
| `Text.SpacedWords` | launcher.py:107 | splitting words joined by single spaces gives back exactly those words |
| `Text.SplitLines` | launcher.py:101 | `split('\n')` gives at least one piece, no piece contains a newline, and joining the pieces with newlines restores the text |
| `Text.SplitJoinLines` | launcher.py:101 | the other round trip: splitting the newline-join of newline-free pieces gives the pieces back |
| `ProcessScan.FirstSegment` | launcher.py:89 | the part of a line that `.` can match: a newline-free prefix, ending at the first newline or at the end |
| `ProcessScan.LastMarkerBelow` | launcher.py:89 | returns the largest position below the limit where the marker starts, and None exactly when there is none |
| `ProcessScan.NodeName` | launcher.py:102-106 | a line matches the pattern of line 89 exactly when the marker occurs before its first newline; the captured name is the text after the last such occurrence |
| `ProcessScan.MatchedLineFields` | launcher.py:102-107 | every matching line has at least four fields, so `line.split()[1]` always exists |
| `ProcessScan.Handle` | launcher.py:107 | the handle of a matching line is a single word: its second field |
| `ProcessScan.NameAfterMarker` | launcher.py:102-106 | a line `<prefix>bash --norc -is mininet:<name>` yields exactly `<name>`, for any newline-free prefix and any newline-free name that does not contain the marker |
| `ProcessScan.ExampleR7` | launcher.py:102-106 | the line `bash --norc -is mininet:R7` yields the name `R7` |
| `ProcessScan.NodeTable` | launcher.py:100-107 | the dict the scan loop builds, inserting name to handle line by line: at most one entry per line, and every handle a single word |
| `ProcessScan.KeyFromLine` | launcher.py:100-107 | every key of the table is the name some line captures |
| `ProcessScan.LineGivesKey` | launcher.py:100-107 | the name every matching line captures is a key of the table |
| `ProcessScan.NodeTableKeys` | launcher.py:100-107 | the table's keys are exactly the names captured from the matching lines |
| `ProcessScan.NodeTableLastWins` | launcher.py:100-107 | when a name occurs on several lines, the table holds the handle of the last of them |
| `ProcessScan.NodeTableEmpty` | launcher.py:100-112 | the table is empty exactly when no line matches |
| `ProcessScan.Scan` | launcher.py:100-114 | the scan loop builds exactly the node table of the split lines, and reports the discovery failure exactly when no line matches |
| `Navigation.BoundsFor` | launcher.py:116 | with `min_y = 4` and `max_y = len(nodes) + 3`, the bounds span exactly as many rows as there are nodes |
| `Navigation.MoveKeyOf` | launcher.py:35-60 | `c in c_move` exactly for the eight key strings of the table, and each string selects its own entry |
| `Navigation.Guard` | launcher.py:35-60 | the first lambda of each entry: it allows the move exactly when the transform goes strictly in the entry's direction (up for `k`, `KEY_UP`, `^U`, `^B`; down for the others) and stops at or before `min_y` or `max_y` on that side |
| `Navigation.Transform` | launcher.py:35-60 | the second lambda of each entry: it never changes the column, and from inside the bounds an upward entry never moves the row down and a downward entry never moves it up |
| `Navigation.Clamp` | launcher.py:35-60 | the third lambda of each entry, which the loop never calls: it keeps the column and, from inside the bounds, lands inside them |
| `Navigation.Move` | launcher.py:131-133 | a move never changes the column; it keeps a cursor inside the bounds inside them; it never lifts the row above `min_y`; and it never moves a cursor that is below `max_y` further down |
| `Navigation.MoveAllInBounds` | launcher.py:131-133 | under fixed bounds, any sequence of move keys keeps the column and keeps the row inside the bounds |
| `Navigation.SynonymEntries` | launcher.py:36-47 | `k`/`KEY_UP` and `j`/`KEY_DOWN` have identical guards, transforms and clamps |
| `Navigation.MoveDistances` | launcher.py:36-59 | up/down move exactly 1 row, `^U`/`^D` exactly 10 rows, `^B`/`^F` go to `min_y`/`max_y`; each move happens only when its guard allows it, otherwise the cursor stays |
| `Navigation.JumpsReachBounds` | launcher.py:54-59 | from inside the bounds, `^B` always ends on `min_y` and `^F` always ends on `max_y` |
| `Navigation.PageClampUnused` | launcher.py:48-50 | with fewer than 10 rows above the cursor, `^U` leaves it in place, although its clamp entry would have moved it to `min_y` |
| `Navigation.PageDownClampUnused` | launcher.py:51-53 | with fewer than 10 rows below the cursor, `^D` leaves it in place, although its clamp entry would have moved it to `max_y` |
| `Navigation.TableMove` | launcher.py:35-60 | the full triple (guard, else clamp) would keep the cursor inside the bounds, and a page move would always land either 10 rows away or exactly on the bound |
| `Navigation.MoveAgreesWithTableElsewhere` | launcher.py:36-59 | for every key except `^U`/`^D`, the clamp is the identity, so the two readings agree |
| `Dispatch.DaemonOf` | launcher.py:63-68 | `c in daemons` exactly for `z`, `r`, `o` and `b`, and each selects a single-word daemon name |
| `Dispatch.TelnetCommand` | launcher.py:139 | `'telnet localhost ' + daemons[c]` is the three words `telnet`, `localhost`, the daemon, joined by single spaces |
| `Dispatch.ConnectCommand` | launcher.py:141 | `'mnexec -a %s %s'` is the six words `mnexec`, `-a`, the handle, `telnet`, `localhost`, the daemon, joined by single spaces |
| `Dispatch.InvalidKeyMessage` | launcher.py:146 | the row-2 message has the shape `Invalid key: '...'`, with the key verbatim between the quotes |
| `Dispatch.Step` | launcher.py:123-146 | only a move key changes the cursor; the column never changes; a cursor inside the bounds stays inside them; the row never rises above `min_y`; a warning is always `Invalid key: '<c>'` for the key read |
| `Dispatch.QuitOnlyOnQ` | launcher.py:128-129 | a key quits exactly when it is `q` |
| `Dispatch.ResizeKeepsCursor` | launcher.py:123-126 | `KEY_RESIZE` leaves the cursor unchanged and redraws the frame |
| `Dispatch.MoveKeyMoves` | launcher.py:131-133 | a move key applies its own table entry, under its guard |
| `Dispatch.DaemonKeyConnects` | launcher.py:135-142 | a daemon key hands off to `mnexec -a <handle of R1> telnet localhost <daemon>` when `R1` is in the table, and otherwise fails on the lookup of `R1` |
| `Dispatch.UnknownKeyWarns` | launcher.py:143-146 | a key leaves the cursor and shows `Invalid key: '<k>'` exactly when it is none of the known keys |
| `Dispatch.EndsOnlyOnQuitOrDaemon` | launcher.py:123-146 | the loop ends exactly on `q` and on the daemon keys |
| `Dispatch.ConnectCommandWords` | launcher.py:139-141 | for a single-word handle, the handoff command splits into exactly `mnexec`, `-a`, the handle, `telnet`, `localhost`, the daemon |
| `Dispatch.ExampleBgpd` | launcher.py:135-142 | with nodes `R1` and `R2`, the key `b` connects to `bgpd` in R1's namespace |
| `Dispatch.ExampleInvalidX` | launcher.py:143-146 | the key `x` leaves the cursor and shows `Invalid key: 'x'` |
| `Launcher.ExitStatus` | launcher.py:112-142 | quitting and the handoff exit with 0; the discovery failure is the only negative status, and it is exactly -1 |
| `Launcher.Ending` | launcher.py:128-142 | the loop goes on exactly after a `Continue` outcome; every other outcome ends it with a non-negative status |
| `Launcher.StatusAfter` | launcher.py:123-146 | a resize puts the prompt back on row 2, and row 2 never shows anything but the prompt or an `Invalid key: '...'` message |
| `Launcher.Pass` | launcher.py:91-146 | one pass: the table is rebuilt from scratch from the listing; it ends the program with `Mininet process not found.` exactly when no line matches, before the bound or the cursor changes; otherwise `max_y = len(nodes) + 3`; a pass that ends the program leaves the cursor and row 2; the column, top-row and row-2 invariant is kept; a cursor inside the new bounds stays inside them |
| `Launcher.Loop` | launcher.py:91-146 | the loop makes passes in turn: it never makes more passes than it is given, runs out of passes only when none ended the program, and ends the program only after at least one pass |
| `Launcher.RunStopsAtEnding` | launcher.py:128-142 | the loop stops at the first pass that ends the program: passes that would come after it change nothing |
| `Launcher.RunComposes` | launcher.py:91-146 | passes that all go on compose: running `p` then `q` is running `p + q` |
| `Launcher.RunKeepsConsistent` | launcher.py:79-146 | across any number of passes the column stays at `min_x`, the row at or below `min_y`, and row 2 shows the prompt or an invalid-key message |
| `Launcher.RunKeepsLastTable` | launcher.py:100-107 | after any passes, the node table is the one built from the last listing scanned |
| `Launcher.NodePicker.constructor` | launcher.py:79-86 | the loop starts with the cursor at `(min_x, min_y) = (1, 4)` and the prompt on row 2 |
| `Launcher.NodePicker.Iterate` | launcher.py:91-146 | one pass in place: the new fields and the result are exactly `Pass` of the old fields; spelled out, the table is rebuilt from the listing, an empty table ends the program with `Mininet process not found.` before the bound or the cursor changes, and otherwise `max_y = len(nodes) + 3` and the key is dispatched with the new cursor and row 2 as `Step` says |
| `Launcher.NodePicker.Run` | launcher.py:91-146 | the loop in place: the final fields, the ending and the number of passes made are exactly `Loop(Pass, ...)` of the initial fields, so it stops at the first pass that ends the program |
| `Launcher.OneNodeLine` | launcher.py:101-106 | the process line `root 101 bash --norc -is mininet:R1` names `R1` |
| `Launcher.OneNodeHandle` | launcher.py:107 | the handle of that line, its second field, is `101` |
| `Launcher.OneNodeTable` | launcher.py:100-107 | scanning a listing made of that one line gives exactly the table `{R1: 101}` |
| `Launcher.ShrinkLeavesCursorOutside` | launcher.py:116-126 | a cursor on row 6, valid with 3 nodes, meets a rescan of the one-line listing and a resize: the pass goes on, the table holds only `R1`, `max_y = 4`, and the cursor stays on row 6 |

## Left out

- Drawing the screen is not modelled. This covers `print_frame`, `end_win`,
  `box`, `hline`, `addstr`, `move`, and listing the node names through the
  `row` counter (launcher.py:12-28, 97, 109-110, 119). Only the text that
  ends up on row 2 is kept.
- The model assumes that every curses drawing call succeeds. In the source a
  call that writes or moves outside the window raises `_curses.error`, and
  `curses.wrapper` lets it end the program with status 1. Any drawing call
  can fail this way on a small enough terminal. The model's pass goes on in
  each such case, among them these, which arise from the loop's own state or
  from a resize:
  - Listing the names (launcher.py:109) fails once the matching lines run
    past the last row of the window. The `row` counter counts lines, so a
    name repeated on several lines counts more than once.
  - `stdscr.move(y, x)` (launcher.py:119) fails when `y` is past the last
    row of the screen.
  - Blanking row 2 for an invalid key (launcher.py:144-145) runs up to
    `swin_size.max_x`. That bound is set once (launcher.py:80) and is not
    updated when a resize re-reads the size (launcher.py:125), so after a
    resize that narrows the terminal the loop writes past the right edge.
  - Redrawing the frame after a resize (launcher.py:126, which runs
    launcher.py:15-18) fails when the resized terminal has fewer than four
    rows: the rule on row 3 or the prompt on row 2 no longer fits. The model
    records the redraw as `FrameRedrawn` with the prompt on row 2.
- Terminal-mode handling is not modelled. This covers `curses.wrapper`,
  `nocbreak`, `echo` and `keypad`.
- Running `ps aux` through `Popen` (launcher.py:93-95) is left out: its output
  is the parameter `out`. The source is Python 2, so `str(out)` is the text
  itself.
- Running the handoff through `os.system` (launcher.py:141) is left out: the
  command string is a result value.
- `sys.exit(-1)` and `exit()` are modelled as `Termination` values. The model
  records the argument -1; the operating system reports it as 255. A
  discovery failure carries the text written to standard error,
  `ProcessScan.NotFoundMessage`; writing it is not modelled.
- Re-reading the terminal size and creating the sub-window are left out
  (launcher.py:71-75, 80, 125). They matter only to drawing, and the model
  assumes that drawing succeeds (see above).
- The key is the string curses returns, compared literally, as the source
  compares it. How curses turns key presses into strings is not modelled.
  CPython's `getkey()` returns a one-character string for every key code up
  to 255, so Ctrl-U, Ctrl-D, Ctrl-B and Ctrl-F arrive as `'\x15'`, `'\x04'`,
  `'\x02'` and `'\x06'`, and the source reports them as invalid keys. The
  table's `^U`/`^D`/`^B`/`^F` entries would match only the literal
  two-character strings, which no key press produces, so these four entries
  never fire in the running program. `PageClampUnused`,
  `PageDownClampUnused`, `JumpsReachBounds` and `TableMove` describe the
  table's entries, not anything a user can reach.
- `mininet-quagga-ospf.py` is not part of this model. It builds the topology
  and starts the daemons through the Mininet library and shell commands, and
  has no self-contained logic.
- The passes are a finite sequence of (listing, key) pairs that
  `Launcher.Loop` and `Launcher.NodePicker.Run` are given in advance. The source's loop runs
  until the program ends, and each listing is read from the process table at
  the moment of the pass.
