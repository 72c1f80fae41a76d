/**
 * The two string splittings the launcher relies on, as Python 2 performs
 * them on a byte string:
 *  - `out.split('\n')`, which cuts the process listing into lines, and
 *  - `line.split()` with no argument, which cuts a line into its
 *    whitespace-separated fields (runs of whitespace are one separator,
 *    leading and trailing whitespace yields no empty field).
 */
module Text {

  /** The characters Python 2's `str.split()` treats as whitespace. */
  predicate IsSpace(c: char) {
    c == ' ' || c == '\t' || c == '\n' || c == '\r' || c == '\U{0B}' || c == '\U{0C}'
  }

  /** No character of `s` is whitespace. */
  predicate NoSpace(s: string) {
    forall i :: 0 <= i < |s| ==> !IsSpace(s[i])
  }

  /** Every character of `s` is whitespace (the empty string included). */
  predicate Blank(s: string) {
    forall i :: 0 <= i < |s| ==> IsSpace(s[i])
  }

  /** A field: a non-empty run of non-whitespace characters. */
  predicate IsWord(w: string) {
    w != [] && NoSpace(w)
  }

  // ---------------------------------------------------------------------
  // Fields: str.split() with no separator
  // ---------------------------------------------------------------------

  function Flush(cur: string): seq<string> {
    if cur == [] then [] else [cur]
  }

  /**
   * The fields of `s`, given that `cur` is the part of a field already read
   * just before `s`.  Every field produced is a word.
   */
  function FieldsFrom(s: string, cur: string): (r: seq<string>)
    requires NoSpace(cur)
    ensures forall i :: 0 <= i < |r| ==> IsWord(r[i])
    decreases |s|
  {
    if s == [] then Flush(cur)
    else if IsSpace(s[0]) then Flush(cur) + FieldsFrom(s[1..], [])
    else FieldsFrom(s[1..], cur + [s[0]])
  }

  /** `s.split()`: words only, and none exactly when `s` is all whitespace. */
  function Fields(s: string): (r: seq<string>)
    ensures forall i :: 0 <= i < |r| ==> IsWord(r[i])
    ensures r == [] <==> Blank(s)
  {
    if Blank(s) then BlankFields(s); FieldsFrom(s, [])
    else SomeField(s, []); FieldsFrom(s, [])
  }

  /** A string of whitespace only has no fields. */
  lemma {:induction false} BlankFields(s: string)
    requires Blank(s)
    ensures FieldsFrom(s, []) == []
    decreases |s|
  {
    if s != [] {
      assert IsSpace(s[0]) && Blank(s[1..]);
      BlankFields(s[1..]);
    }
  }

  /** A whitespace character separates fields: the fields of `u c v` are those of `u` followed by those of `v`. */
  lemma {:induction false} FieldsAcrossSpace(u: string, c: char, v: string, cur: string)
    requires NoSpace(cur) && IsSpace(c)
    ensures FieldsFrom(u + [c] + v, cur) == FieldsFrom(u, cur) + Fields(v)
    decreases |u|
  {
    var s := u + [c] + v;
    if u == [] {
      assert s[0] == c && s[1..] == v;
    } else {
      assert s[0] == u[0] && s[1..] == u[1..] + [c] + v;
      if IsSpace(u[0]) {
        FieldsAcrossSpace(u[1..], c, v, []);
      } else {
        FieldsAcrossSpace(u[1..], c, v, cur + [u[0]]);
      }
    }
  }

  /** A string that holds a non-whitespace character (or follows a started field) has at least one field. */
  lemma {:induction false} SomeField(u: string, cur: string)
    requires NoSpace(cur)
    requires cur != [] || !Blank(u)
    ensures |FieldsFrom(u, cur)| >= 1
    decreases |u|
  {
    if u != [] {
      if IsSpace(u[0]) {
        if cur == [] {
          var i :| 0 <= i < |u| && !IsSpace(u[i]);
          assert !IsSpace(u[1..][i - 1]);
          SomeField(u[1..], []);
        }
      } else {
        SomeField(u[1..], cur + [u[0]]);
      }
    }
  }

  /** Splitting a single word gives back exactly that word. */
  lemma {:induction false} WordFields(w: string, cur: string)
    requires NoSpace(cur) && NoSpace(w) && cur + w != []
    ensures FieldsFrom(w, cur) == [cur + w]
    decreases |w|
  {
    if w == [] {
      assert cur + w == cur;
    } else {
      assert !IsSpace(w[0]) && NoSpace(w[1..]);
      assert cur + w == (cur + [w[0]]) + w[1..];
      WordFields(w[1..], cur + [w[0]]);
    }
  }

  /** The fields of words joined by single spaces are those words. */
  lemma {:induction false} SpacedWords(ws: seq<string>)
    requires |ws| >= 1
    requires forall i :: 0 <= i < |ws| ==> IsWord(ws[i])
    ensures Fields(JoinSpaced(ws)) == ws
    decreases |ws|
  {
    if |ws| == 1 {
      WordFields(ws[0], []);
      assert [] + ws[0] == ws[0];
    } else {
      FieldsAcrossSpace(ws[0], ' ', JoinSpaced(ws[1..]), []);
      WordFields(ws[0], []);
      assert [] + ws[0] == ws[0];
      SpacedWords(ws[1..]);
    }
  }

  /** `' '.join(ws)` */
  function JoinSpaced(ws: seq<string>): string
    requires |ws| >= 1
  {
    if |ws| == 1 then ws[0] else ws[0] + [' '] + JoinSpaced(ws[1..])
  }

  // ---------------------------------------------------------------------
  // Lines: str.split('\n')
  // ---------------------------------------------------------------------

  /** `'\n'.join(ls)` */
  function JoinLines(ls: seq<string>): string
    requires |ls| >= 1
  {
    if |ls| == 1 then ls[0] else ls[0] + ['\n'] + JoinLines(ls[1..])
  }

  /**
   * `s.split('\n')`: always at least one piece, no piece holds a newline,
   * and joining the pieces with newlines gives `s` back.
   */
  function SplitLines(s: string): (r: seq<string>)
    ensures |r| >= 1
    ensures forall i :: 0 <= i < |r| ==> '\n' !in r[i]
    ensures JoinLines(r) == s
    decreases |s|
  {
    if s == [] then [""]
    else
      var rest := SplitLines(s[1..]);
      if s[0] == '\n' then
        assert s == [] + ['\n'] + JoinLines(rest);
        [""] + rest
      else
        var r := [[s[0]] + rest[0]] + rest[1..];
        assert r[1..] == rest[1..];
        assert JoinLines(r) == [s[0]] + JoinLines(rest);
        r
  }

  /** Splitting a string with a newline-free head lengthens only the first piece. */
  lemma {:induction false} SplitAfterHead(w: string, t: string)
    requires '\n' !in w
    ensures SplitLines(w + t) == [w + SplitLines(t)[0]] + SplitLines(t)[1..]
    decreases |w|
  {
    var st := SplitLines(t);
    if w == [] {
      assert w + t == t && w + st[0] == st[0];
      assert st == [st[0]] + st[1..];
    } else {
      assert (w + t)[0] == w[0] && (w + t)[1..] == w[1..] + t;
      SplitAfterHead(w[1..], t);
      var rest := SplitLines(w[1..] + t);
      assert rest == [w[1..] + st[0]] + st[1..];
      assert rest[0] == w[1..] + st[0] && rest[1..] == st[1..];
      assert [w[0]] + (w[1..] + st[0]) == w + st[0];
    }
  }

  /** Joining newline-free pieces and splitting again gives the pieces back. */
  lemma {:induction false} SplitJoinLines(ls: seq<string>)
    requires |ls| >= 1
    requires forall i :: 0 <= i < |ls| ==> '\n' !in ls[i]
    ensures SplitLines(JoinLines(ls)) == ls
    decreases |ls|
  {
    if |ls| == 1 {
      SplitAfterHead(ls[0], "");
      assert ls[0] + "" == ls[0];
    } else {
      var j := JoinLines(ls[1..]);
      SplitJoinLines(ls[1..]);
      assert ls[0] + ['\n'] + j == ls[0] + (['\n'] + j);
      SplitAfterHead(ls[0], ['\n'] + j);
      assert (['\n'] + j)[1..] == j;
      var sj := SplitLines(['\n'] + j);
      assert sj == [""] + ls[1..];
      assert sj[0] == "" && sj[1..] == ls[1..];
      assert ls[0] + sj[0] == ls[0];
      assert ls == [ls[0]] + ls[1..];
    }
  }
}
