/**
 Newline-separated text: `"\n".join(lines)` and its inverse `text.split("\n")`.
 */
module Lines {

  predicate NoNewline(s: string) {
    '\n' !in s
  }

  /** `"\n".join(lines)`: the text starts with the first line, and holds a
      newline exactly when there are two lines or more or a line holds one. */
  function JoinLines(lines: seq<string>): (r: string)
    ensures |lines| >= 1 ==> |r| >= |lines[0]| && r[..|lines[0]|] == lines[0]
    ensures NoNewline(r) <==> |lines| <= 1 && forall i :: 0 <= i < |lines| ==> NoNewline(lines[i])
  {
    if |lines| == 0 then ""
    else if |lines| == 1 then lines[0]
    else lines[0] + "\n" + JoinLines(lines[1..])
  }

  /** `s.split("\n")`: the pieces between newlines, at least one. */
  function SplitLines(s: string): (r: seq<string>)
    ensures |r| >= 1
    ensures forall i :: 0 <= i < |r| ==> NoNewline(r[i])
  {
    if s == [] then [""]
    else
      var rest := SplitLines(s[1..]);
      if s[0] == '\n' then [""] + rest
      else [[s[0]] + rest[0]] + rest[1..]
  }

  /** Joining the pieces of a split gives back the text. */
  lemma {:induction false} JoinSplit(s: string)
    ensures JoinLines(SplitLines(s)) == s
  {
    if s != [] {
      var rest := SplitLines(s[1..]);
      JoinSplit(s[1..]);
      if s[0] == '\n' {
        assert SplitLines(s) == [""] + rest;
        assert JoinLines([""] + rest) == "" + "\n" + JoinLines(rest);
      } else {
        assert SplitLines(s) == [[s[0]] + rest[0]] + rest[1..];
        if |rest| > 1 {
          assert JoinLines(rest) == rest[0] + "\n" + JoinLines(rest[1..]);
        }
      }
    }
  }

  /** A line without a newline splits into itself. */
  lemma {:induction false} SplitOneLine(a: string)
    requires NoNewline(a)
    ensures SplitLines(a) == [a]
  {
    if a != [] {
      assert a[0] != '\n' && NoNewline(a[1..]);
      SplitOneLine(a[1..]);
      assert a == [a[0]] + a[1..];
    }
  }

  /** A leading line without a newline splits off as the first piece. */
  lemma {:induction false} SplitFirstLine(a: string, t: string)
    requires NoNewline(a)
    ensures SplitLines(a + "\n" + t) == [a] + SplitLines(t)
  {
    var s := a + "\n" + t;
    if a == [] {
      assert s[0] == '\n' && s[1..] == t;
    } else {
      assert s[0] == a[0] != '\n' && s[1..] == a[1..] + "\n" + t;
      assert NoNewline(a[1..]);
      SplitFirstLine(a[1..], t);
      assert a == [a[0]] + a[1..];
    }
  }

  /** Splitting what was joined gives back the lines, provided there is at
      least one and none holds a newline. */
  lemma {:induction false} SplitJoin(lines: seq<string>)
    requires |lines| >= 1
    requires forall i :: 0 <= i < |lines| ==> NoNewline(lines[i])
    ensures SplitLines(JoinLines(lines)) == lines
  {
    if |lines| == 1 {
      SplitOneLine(lines[0]);
    } else {
      SplitJoin(lines[1..]);
      SplitFirstLine(lines[0], JoinLines(lines[1..]));
    }
  }
}
