/**
 Splitting a string into lines at every line break, and joining lines again.
 A line break is "\r\n", "\r" or "\n", the longest match first.
 */
module Newlines {
  import opened Lines

  predicate IsNewLine(s: string) {
    s == "\r\n" || s == "\r" || s == "\n"
  }

  predicate BreakFree(line: string) {
    '\r' !in line && '\n' !in line
  }

  /** The length of the line break `s` starts with; 0 if it starts with none. */
  function BreakLength(s: string): (n: nat)
    ensures n <= |s|
    ensures n > 0 ==> IsNewLine(s[..n])
  {
    if |s| >= 2 && s[0] == '\r' && s[1] == '\n' then 2
    else if |s| >= 1 && (s[0] == '\r' || s[0] == '\n') then 1
    else 0
  }

  /** `Document.$split`: the host's `text.split(/\r\n|\r|\n/)`. */
  function Split(s: string): (lines: Text)
    decreases |s|
  {
    if s == "" then [""]
    else if BreakLength(s) > 0 then [""] + Split(s[BreakLength(s)..])
    else
      var rest := Split(s[1..]);
      [[s[0]] + rest[0]] + rest[1..]
  }

  /** The line breaks of a string in order. */
  function Breaks(s: string): (breaks: seq<string>)
    ensures forall b :: b in breaks ==> IsNewLine(b)
    decreases |s|
  {
    if s == "" then []
    else if BreakLength(s) > 0 then [s[..BreakLength(s)]] + Breaks(s[BreakLength(s)..])
    else Breaks(s[1..])
  }

  lemma {:induction false} SplitCounts(s: string)
    ensures |Split(s)| == |Breaks(s)| + 1
    ensures forall line :: line in Split(s) ==> BreakFree(line)
    decreases |s|
  {
    if s == "" {
    } else {
      var n := if BreakLength(s) > 0 then BreakLength(s) else 1;
      var rest := Split(s[n..]);
      SplitCounts(s[n..]);
      assert rest[0] in rest && BreakFree(rest[0]);
      forall line | line in Split(s)
        ensures BreakFree(line)
      {
        if BreakLength(s) == 0 {
          assert line == [s[0]] + rest[0] || line in rest[1..];
        }
      }
    }
  }

  /** Splitting never lengthens: a newline of one character gives at most the characters of `s`. */
  lemma {:induction false} JoinSplitLength(s: string, nl: string)
    requires |nl| == 1
    ensures |Join(Split(s), nl)| <= |s|
    decreases |s|
  {
    if s == "" {
    } else {
      if BreakLength(s) > 0 {
        JoinSplitLength(s[BreakLength(s)..], nl);
        assert Split(s)[1..] == Split(s[BreakLength(s)..]);
      } else {
        JoinSplitLength(s[1..], nl);
        JoinMergeHead([s[0]], Split(s[1..]), nl);
      }
    }
  }

  /**
   Splitting a string and joining it with a newline gives the string back exactly
   when every line break in it is that newline.
   */
  lemma {:induction false} SplitJoin(s: string, nl: string)
    requires IsNewLine(nl)
    ensures Join(Split(s), nl) == s <==> forall b :: b in Breaks(s) ==> b == nl
    decreases |s|
  {
    if s == "" {
    } else {
      if BreakLength(s) > 0 {
        SplitJoin(s[BreakLength(s)..], nl);
        SplitJoinBreak(s, nl);
      } else {
        SplitJoin(s[1..], nl);
        JoinMergeHead([s[0]], Split(s[1..]), nl);
        assert s == [s[0]] + s[1..];
        var rest := Split(s[1..]);
        assert Split(s) == [[s[0]] + rest[0]] + rest[1..];
        assert Join(Split(s), nl) == [s[0]] + Join(rest, nl);
        assert ([s[0]] + Join(rest, nl))[1..] == Join(rest, nl);
        assert ([s[0]] + s[1..])[1..] == s[1..];
        assert Breaks(s) == Breaks(s[1..]);
      }
    }
  }

  lemma PrefixCancel(a: string, x: string, y: string)
    ensures a + x == a + y <==> x == y
  {
    assert (a + x)[|a|..] == x && (a + y)[|a|..] == y;
  }

  lemma BreakUnfold(s: string, nl: string)
    requires BreakLength(s) > 0
    ensures var rest := s[BreakLength(s)..];
            && Split(s) == [""] + Split(rest)
            && Breaks(s) == [s[..BreakLength(s)]] + Breaks(rest)
            && Join(Split(s), nl) == nl + Join(Split(rest), nl)
  {
    var tail := Split(s[BreakLength(s)..]);
    assert ([""] + tail)[1..] == tail;
    assert "" + nl + Join(tail, nl) == nl + Join(tail, nl);
  }

  lemma SplitJoinBreak(s: string, nl: string)
    requires IsNewLine(nl) && BreakLength(s) > 0
    requires var rest := s[BreakLength(s)..];
             Join(Split(rest), nl) == rest <==> forall b :: b in Breaks(rest) ==> b == nl
    ensures Join(Split(s), nl) == s <==> forall b :: b in Breaks(s) ==> b == nl
  {
    hide Split, Breaks, Join;
    var first, rest := s[..BreakLength(s)], s[BreakLength(s)..];
    var joined := Join(Split(rest), nl);
    BreakUnfold(s, nl);
    assert s == first + rest;
    var breaks := Breaks(rest);
    assert forall b :: b in Breaks(s) <==> b == first || b in breaks;
    if first == nl {
      PrefixCancel(nl, joined, rest);
    } else {
      BreakMismatch(s, nl, joined);
      assert first in Breaks(s);
    }
  }

  lemma BreakMismatch(s: string, nl: string, joined: string)
    requires IsNewLine(nl) && BreakLength(s) > 0 && s[..BreakLength(s)] != nl
    requires joined == Join(Split(s[BreakLength(s)..]), nl)
    ensures nl + joined != s
  {
    var n := BreakLength(s);
    if nl == "\r" && n == 2 {
      JoinSplitLength(s[n..], nl);
      assert |nl + joined| < |s|;
    } else if nl == "\r\n" && n == 1 {
      assert (nl + joined)[1] == '\n';
      assert (nl + joined)[0] == '\r';
    } else {
      assert (nl + joined)[0] == nl[0];
      assert s[..n][0] == s[0];
    }
  }

  lemma SplitCharacter(c: char, s: string)
    requires c != '\r' && c != '\n'
    ensures Split([c] + s) == [[c] + Split(s)[0]] + Split(s)[1..]
  {
    assert ([c] + s)[1..] == s;
  }

  lemma {:induction false} SplitLine(line: string, rest: string)
    requires BreakFree(line)
    ensures Split(line + rest) == [line + Split(rest)[0]] + Split(rest)[1..]
    decreases |line|
  {
    hide Split;
    if line == "" {
      assert line + rest == rest;
      assert line + Split(rest)[0] == Split(rest)[0];
    } else {
      SplitLine(line[1..], rest);
      assert line + rest == [line[0]] + (line[1..] + rest);
      assert line[0] in line;
      SplitCharacter(line[0], line[1..] + rest);
      assert [line[0]] + (line[1..] + Split(rest)[0]) == line + Split(rest)[0];
    }
  }

  /** A newline is read back as one line break, as long as no "\n" follows a "\r". */
  lemma SplitNewLine(nl: string, rest: string)
    requires IsNewLine(nl) && !(nl == "\r" && |rest| > 0 && rest[0] == '\n')
    ensures Split(nl + rest) == [""] + Split(rest)
  {
    var s := nl + rest;
    assert BreakLength(s) == |nl|;
    assert s[|nl|..] == rest;
  }

  /** Joining lines and splitting again gives the lines back exactly when none of them contains a line break. */
  lemma JoinSplit(lines: Text, nl: string)
    requires IsNewLine(nl)
    ensures Split(Join(lines, nl)) == lines <==> forall line :: line in lines ==> BreakFree(line)
  {
    SplitCounts(Join(lines, nl));
    if forall line :: line in lines ==> BreakFree(line) {
      assert forall i :: 0 <= i < |lines| ==> lines[i] in lines;
      JoinSplitFree(lines, nl);
    }
  }

  lemma {:induction false} JoinSplitFree(lines: Text, nl: string)
    requires IsNewLine(nl) && forall i :: 0 <= i < |lines| ==> BreakFree(lines[i])
    ensures Split(Join(lines, nl)) == lines
  {
    hide Split, BreakFree, IsNewLine;
    var first := lines[0];
    if |lines| == 1 {
      SplitLine(first, "");
      assert Split("") == [""] by { SplitEmpty(); }
      assert first + "" == first;
    } else {
      var tail := lines[1..];
      var rest := Join(tail, nl);
      JoinSplitFree(tail, nl);
      NoLeadingNewLine(tail, nl);
      SplitNewLine(nl, rest);
      assert Join(lines, nl) == first + (nl + rest);
      SplitLine(first, nl + rest);
      assert first + "" == first;
      assert [first] + tail == lines;
    }
  }

  lemma SplitEmpty()
    ensures Split("") == [""]
  {
  }

  lemma NoLeadingNewLine(lines: Text, nl: string)
    requires IsNewLine(nl) && BreakFree(lines[0])
    ensures !(nl == "\r" && |Join(lines, nl)| > 0 && Join(lines, nl)[0] == '\n')
  {
    if |lines[0]| > 0 {
      assert Join(lines, nl)[0] == lines[0][0];
      assert lines[0][0] in lines[0];
    }
  }

  /** The first line break begins at the first "\r" or "\n", and takes both when they follow each other. */
  lemma {:induction false} FirstBreakAt(s: string, i: nat)
    requires i <= |s| && '\r' !in s[..i] && '\n' !in s[..i]
    ensures i == |s| ==> Breaks(s) == []
    ensures i < |s| && s[i] == '\n' ==> Breaks(s) != [] && Breaks(s)[0] == "\n"
    ensures i < |s| && s[i] == '\r' ==>
              Breaks(s) != [] && Breaks(s)[0] == if i + 1 < |s| && s[i + 1] == '\n' then "\r\n" else "\r"
    decreases i
  {
    if i == 0 {
    } else {
      assert s[0] == s[..i][0] && s[0] in s[..i];
      assert s[1..][..i - 1] == s[..i][1..];
      assert forall c :: c in s[..i][1..] ==> c in s[..i];
      FirstBreakAt(s[1..], i - 1);
    }
  }
}
