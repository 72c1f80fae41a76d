/**
 * Node discovery from the process listing (launcher.py, the body of the
 * `while True` loop up to the bounds update).
 *
 * A line names a Mininet node when `re.match(r'.*bash --norc -is mininet:(.*)', line)`
 * succeeds.  Since `.` never matches a newline, the match is confined to the
 * part of the line before its first '\n'; the greedy leading `.*` makes the
 * captured name everything after the LAST occurrence of the marker in that
 * part.  The node's handle is `line.split()[1]`, the second
 * whitespace-separated field of the whole line.
 */
module ProcessScan {
  import opened Wrappers
  import opened Text

  /** The literal text of the pattern in front of the capture group. */
  const Marker: string := "bash --norc -is mininet:"

  /** What the launcher writes to standard error before exiting with -1. */
  const NotFoundMessage: string := "Mininet process not found."

  /** The part of `s` before its first newline: the only part `.` can match. */
  function FirstSegment(s: string): (r: string)
    ensures '\n' !in r
    ensures |r| <= |s| && s[..|r|] == r
    ensures |r| < |s| ==> s[|r|] == '\n'
    decreases |s|
  {
    if s == [] || s[0] == '\n' then [] else [s[0]] + FirstSegment(s[1..])
  }

  /** The marker occurs in `s` starting at position `p`. */
  predicate MarkerAt(s: string, p: int) {
    0 <= p && p + |Marker| <= |s| && s[p..p + |Marker|] == Marker
  }

  /** The marker occurs somewhere in `s`. */
  ghost predicate HasMarker(s: string) {
    exists p :: MarkerAt(s, p)
  }

  /** The largest position below `n` at which the marker starts, if any. */
  function LastMarkerBelow(s: string, n: nat): (r: Option<nat>)
    requires n <= |s|
    ensures r.Some? ==> r.value < n && MarkerAt(s, r.value)
    ensures r.Some? ==> forall q :: r.value < q < n ==> !MarkerAt(s, q)
    ensures r.None? ==> forall q :: 0 <= q < n ==> !MarkerAt(s, q)
    decreases n
  {
    if n == 0 then None
    else if MarkerAt(s, n - 1) then Some(n - 1)
    else LastMarkerBelow(s, n - 1)
  }

  /**
   * The node name the pattern captures from `line`, or None when the line
   * does not match: a match exists exactly when the marker occurs before the
   * first newline, and the name is what follows its last such occurrence.
   */
  function NodeName(line: string): (r: Option<string>)
    ensures r.Some? <==> HasMarker(FirstSegment(line))
    ensures r.Some? ==>
      exists p :: MarkerAt(FirstSegment(line), p)
        && r.value == FirstSegment(line)[p + |Marker|..]
        && forall q :: p < q ==> !MarkerAt(FirstSegment(line), q)
  {
    var seg := FirstSegment(line);
    match LastMarkerBelow(seg, |seg|)
    case None =>
      assert forall q :: !MarkerAt(seg, q);
      None
    case Some(p) =>
      assert MarkerAt(seg, p);
      assert forall q :: p < q ==> !MarkerAt(seg, q);
      Some(seg[p + |Marker|..])
  }

  /**
   * A string holding the marker has at least four fields: the word ending in
   * "bash", "--norc", "-is" and the word starting with "mininet:".
   */
  lemma MarkerFields(s: string, p: int)
    requires MarkerAt(s, p)
    ensures |Fields(s)| >= 4
  {
    var a := s[..p] + "bash";
    var tail := s[p + |Marker|..];
    MarkerSplit(s, p);
    FourFields(a, tail);
  }

  /** Around the marker at `p`, the line reads `<..bash> --norc -is mininet:<tail>`. */
  lemma MarkerSplit(s: string, p: int)
    requires MarkerAt(s, p)
    ensures s == (s[..p] + "bash") + [' '] + ("--norc" + [' '] + ("-is" + [' '] + ("mininet:" + s[p + |Marker|..])))
  {
    MarkerWords();
    assert s == s[..p] + Marker + s[p + |Marker|..];
  }

  /** The marker is the four words `bash`, `--norc`, `-is`, `mininet:` joined by single spaces. */
  lemma MarkerWords()
    ensures Marker == "bash" + [' '] + ("--norc" + [' '] + ("-is" + [' '] + "mininet:"))
  {
  }

  /** The four space-separated parts around the marker each give at least one field. */
  lemma FourFields(a: string, tail: string)
    requires a != [] && !IsSpace(a[|a| - 1])
    ensures |Fields(a + [' '] + ("--norc" + [' '] + ("-is" + [' '] + ("mininet:" + tail))))| >= 4
  {
    var d := "mininet:" + tail;
    var c := "-is" + [' '] + d;
    var b := "--norc" + [' '] + c;
    FieldsAcrossSpace(a, ' ', b, []);
    FieldsAcrossSpace("--norc", ' ', c, []);
    FieldsAcrossSpace("-is", ' ', d, []);
    SomeField(a, []);
    assert !IsSpace("--norc"[0]);
    SomeField("--norc", []);
    assert !IsSpace("-is"[0]);
    SomeField("-is", []);
    assert !IsSpace(d[0]);
    SomeField(d, []);
  }

  /**
   * Every line the pattern matches has at least four fields, so
   * `line.split()[1]` never fails on it.
   */
  lemma MatchedLineFields(line: string)
    requires NodeName(line).Some?
    ensures |Fields(line)| >= 4
  {
    var seg := FirstSegment(line);
    var p :| MarkerAt(seg, p);
    MarkerFields(seg, p);
    if |seg| < |line| {
      var rest := line[|seg| + 1..];
      assert line == seg + ['\n'] + rest;
      FieldsAcrossSpace(seg, '\n', rest, []);
    } else {
      assert line == seg;
    }
  }

  /** The handle of a matching line: its second field, a single word. */
  function Handle(line: string): (h: string)
    requires NodeName(line).Some?
    ensures IsWord(h)
  {
    MatchedLineFields(line);
    Fields(line)[1]
  }

  /** After the marker placed at |pre|, no later position of `pre + Marker + name` starts the marker. */
  lemma NoMarkerAfter(pre: string, name: string, q: int)
    requires forall j :: !MarkerAt(name, j)
    requires |pre| < q
    ensures !MarkerAt(pre + Marker + name, q)
  {
    var line := pre + Marker + name;
    var k := |pre|;
    if q + |Marker| <= |line| {
      if q < k + |Marker| {
        assert line[q] == Marker[q - k];
        assert Marker[q - k] != Marker[0];
        assert line[q..q + |Marker|][0] != Marker[0];
      } else {
        var j := q - k - |Marker|;
        assert line[k + |Marker|..] == name;
        assert line[q..q + |Marker|] == name[j..j + |Marker|];
        assert !MarkerAt(name, j);
      }
    }
  }

  /**
   * A line made of any newline-free prefix, the marker and a newline-free
   * name that does not itself hold the marker yields exactly that name.
   */
  lemma NameAfterMarker(pre: string, name: string)
    requires '\n' !in pre && '\n' !in name
    requires forall q :: !MarkerAt(name, q)
    ensures NodeName(pre + Marker + name) == Some(name)
  {
    var line := pre + Marker + name;
    var seg := FirstSegment(line);
    assert '\n' !in line;
    assert seg == line;
    var k := |pre|;
    assert line[k..k + |Marker|] == Marker;
    assert MarkerAt(seg, k);
    forall q | k < q
      ensures !MarkerAt(seg, q)
    {
      NoMarkerAfter(pre, name, q);
    }
    var r := NodeName(line);
    var p :| MarkerAt(seg, p) && r.value == seg[p + |Marker|..] && forall q :: p < q ==> !MarkerAt(seg, q);
    assert p == k;
    assert line[k + |Marker|..] == name;
  }

  /** The process-listing line of node R7's shell yields the name "R7". */
  lemma ExampleR7()
    ensures NodeName("bash --norc -is mininet:R7") == Some("R7")
  {
    assert "bash --norc -is mininet:R7" == "" + Marker + "R7";
    NameAfterMarker("", "R7");
  }

  // ---------------------------------------------------------------------
  // The node table: `nodes[name] = line.split()[1]` for each matching line
  // ---------------------------------------------------------------------

  /**
   * The table the scan loop builds from `lines`, inserting in line order:
   * at most one entry per line, and every handle a single word.
   */
  function NodeTable(lines: seq<string>): (m: map<string, string>)
    ensures |m| <= |lines|
    ensures forall k :: k in m ==> IsWord(m[k])
    decreases |lines|
  {
    if lines == [] then map[]
    else
      var m := NodeTable(lines[..|lines| - 1]);
      var line := lines[|lines| - 1];
      match NodeName(line)
      case None => m
      case Some(name) => m[name := Handle(line)]
  }

  /** The table's keys are exactly the names of the matching lines. */
  lemma NodeTableKeys(lines: seq<string>, k: string)
    ensures k in NodeTable(lines) <==> exists i :: 0 <= i < |lines| && NodeName(lines[i]) == Some(k)
  {
    if k in NodeTable(lines) {
      KeyFromLine(lines, k);
    }
    if i :| 0 <= i < |lines| && NodeName(lines[i]) == Some(k) {
      LineGivesKey(lines, i);
    }
  }

  /** Every key of the table is the name some line captures. */
  lemma {:induction false} KeyFromLine(lines: seq<string>, k: string)
    requires k in NodeTable(lines)
    ensures exists i :: 0 <= i < |lines| && NodeName(lines[i]) == Some(k)
    decreases |lines|
  {
    var n := |lines| - 1;
    var init := lines[..n];
    if NodeName(lines[n]) != Some(k) {
      assert k in NodeTable(init);
      KeyFromLine(init, k);
      var i :| 0 <= i < |init| && NodeName(init[i]) == Some(k);
      assert lines[i] == init[i];
    }
  }

  /** The name every matching line captures is a key of the table. */
  lemma {:induction false} LineGivesKey(lines: seq<string>, i: int)
    requires 0 <= i < |lines| && NodeName(lines[i]).Some?
    ensures NodeName(lines[i]).value in NodeTable(lines)
    decreases |lines|
  {
    var n := |lines| - 1;
    if i < n {
      var init := lines[..n];
      assert init[i] == lines[i];
      LineGivesKey(init, i);
    }
  }

  /**
   * When a name occurs on several lines, the table holds the handle of the
   * last of them: a later line overwrites an earlier one.
   */
  lemma {:induction false} NodeTableLastWins(lines: seq<string>, i: int, k: string)
    requires 0 <= i < |lines| && NodeName(lines[i]) == Some(k)
    requires forall j :: i < j < |lines| ==> NodeName(lines[j]) != Some(k)
    ensures k in NodeTable(lines) && NodeTable(lines)[k] == Handle(lines[i])
    decreases |lines|
  {
    var init := lines[..|lines| - 1];
    if i < |lines| - 1 {
      forall j | i < j < |init|
        ensures NodeName(init[j]) != Some(k)
      {
        assert init[j] == lines[j];
      }
      assert init[i] == lines[i];
      NodeTableLastWins(init, i, k);
    }
  }

  /** The table is empty exactly when no line matches the pattern. */
  lemma NodeTableEmpty(lines: seq<string>)
    ensures NodeTable(lines) == map[] <==> forall i :: 0 <= i < |lines| ==> NodeName(lines[i]).None?
  {
    if NodeTable(lines) != map[] {
      var k :| k in NodeTable(lines);
      NodeTableKeys(lines, k);
    } else {
      forall i | 0 <= i < |lines|
        ensures NodeName(lines[i]).None?
      {
        if NodeName(lines[i]).Some? {
          NodeTableKeys(lines, NodeName(lines[i]).value);
        }
      }
    }
  }

  /** Scanning one more line inserts its name and handle, when it matches. */
  lemma NodeTableStep(lines: seq<string>, i: int)
    requires 0 <= i < |lines|
    ensures NodeTable(lines[..i + 1]) ==
      if NodeName(lines[i]).Some? then NodeTable(lines[..i])[NodeName(lines[i]).value := Handle(lines[i])]
      else NodeTable(lines[..i])
  {
    assert lines[..i + 1][..i] == lines[..i];
  }

  /** The outcome of one scan: the node table, or the fatal discovery failure. */
  datatype Discovery = Found(nodes: map<string, string>) | NotFound

  /**
   * One pass of the scan loop over the text the process listing printed:
   * split it into lines, keep the matching ones and insert name -> handle
   * in line order; an empty table is the discovery failure.
   */
  method Scan(out: string) returns (r: Discovery)
    ensures r.NotFound? <==> forall i :: 0 <= i < |SplitLines(out)| ==> NodeName(SplitLines(out)[i]).None?
    ensures r.Found? ==> r.nodes == NodeTable(SplitLines(out)) && r.nodes != map[]
  {
    var lines := SplitLines(out);
    var nodes: map<string, string> := map[];
    var i := 0;
    while i < |lines|
      invariant 0 <= i <= |lines|
      invariant nodes == NodeTable(lines[..i])
    {
      NodeTableStep(lines, i);
      var name := NodeName(lines[i]);
      if name.Some? {
        nodes := nodes[name.value := Handle(lines[i])];
      }
      i := i + 1;
    }
    assert lines[..i] == lines;
    assert nodes == NodeTable(lines);
    NodeTableEmpty(lines);
    if nodes == map[] {
      r := NotFound;
    } else {
      assert !forall j :: 0 <= j < |lines| ==> NodeName(lines[j]).None?;
      r := Found(nodes);
    }
  }
}
