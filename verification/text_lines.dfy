/** Splitting text into lines the way Rust's `str::lines` does, and joining
    lines back the way `writeln!` emits them. */
module TextLines {
  import opened CharClass

  predicate NotNewline(c: char) {
    c != '\n'
  }

  /** A string that can stand as one line: no line feed inside. */
  predicate IsLine(s: string) {
    All(s, NotNewline)
  }

  /** A line that `str::lines` gives back unchanged: no line feed, and no
      carriage return at the end that would be taken for a `\r\n` ending. */
  predicate IsPlainLine(s: string) {
    IsLine(s) && (|s| == 0 || s[|s| - 1] != '\r')
  }

  /** Each line followed by a line feed, as a sequence of `writeln!` calls
      writes them. */
  function Unlines(ls: seq<string>): string
  {
    if |ls| == 0 then [] else ls[0] + "\n" + Unlines(ls[1..])
  }

  lemma {:induction false} UnlinesConcat(a: seq<string>, b: seq<string>)
    ensures Unlines(a + b) == Unlines(a) + Unlines(b)
  {
    if |a| == 0 {
      assert a + b == b;
    } else {
      assert (a + b)[1..] == a[1..] + b;
      UnlinesConcat(a[1..], b);
    }
  }

  lemma UnlinesSingle(l: string)
    ensures Unlines([l]) == l + "\n"
  {
  }

  /** Drops one trailing carriage return, turning a `\r\n` ending into `\n`. */
  function StripCR(piece: string): (r: string)
    ensures r == piece || (|piece| > 0 && piece[|piece| - 1] == '\r' && r == piece[..|piece| - 1])
  {
    if |piece| > 0 && piece[|piece| - 1] == '\r' then piece[..|piece| - 1] else piece
  }

  /** `str::lines`: split at every line feed, strip one carriage return
      just before each line feed, keep a last piece with no line feed as it
      is, and yield no empty piece after a final line feed. */
  function Lines(s: string): (ls: seq<string>)
    ensures forall i :: 0 <= i < |ls| ==> IsLine(ls[i])
    ensures |s| > 0 ==> |ls| > 0
    decreases |s|
  {
    if |s| == 0 then []
    else
      var i := PrefixLen(s, NotNewline);
      if i == |s| then [s]
      else [StripCR(s[..i])] + Lines(s[i + 1..])
  }

  /** Joining the lines of a text without carriage returns that is empty or
      ends in a line feed gives the text back. */
  lemma {:induction false} UnlinesLines(s: string)
    requires '\r' !in s
    requires |s| == 0 || s[|s| - 1] == '\n'
    ensures Unlines(Lines(s)) == s
    decreases |s|
  {
    if |s| > 0 {
      var i := PrefixLen(s, NotNewline);
      PrefixLenStops(s, NotNewline, |s| - 1);
      var head, rest := s[..i], s[i + 1..];
      forall j | 0 <= j < |head| ensures head[j] != '\r' {
        assert head[j] == s[j];
      }
      forall j | 0 <= j < |rest| ensures rest[j] != '\r' {
        assert rest[j] == s[i + 1 + j];
      }
      assert StripCR(head) == head;
      assert |rest| == 0 || rest[|rest| - 1] == s[|s| - 1];
      UnlinesLines(rest);
      assert Lines(s) == [head] + Lines(rest);
      UnlinesCons(head, Lines(rest));
      SplitAtNewline(s, i);
    }
  }

  lemma UnlinesCons(l: string, ls: seq<string>)
    ensures Unlines([l] + ls) == l + "\n" + Unlines(ls)
  {
    assert ([l] + ls)[1..] == ls;
  }

  lemma SplitAtNewline(s: string, i: nat)
    requires i < |s| && s[i] == '\n'
    ensures s == s[..i] + "\n" + s[i + 1..]
  {
  }

  /** Splitting joined plain lines gives the lines back. */
  lemma {:induction false} LinesUnlines(ls: seq<string>)
    requires forall i :: 0 <= i < |ls| ==> IsPlainLine(ls[i])
    ensures Lines(Unlines(ls)) == ls
  {
    if |ls| > 0 {
      var l, tail := ls[0], Unlines(ls[1..]);
      assert IsPlainLine(l);
      LinesOfLine(l, tail);
      LinesUnlines(ls[1..]);
      assert ls == [l] + ls[1..];
    }
  }

  /** A plain line, a line feed and more text split into that line and the
      lines of the text. */
  lemma LinesOfLine(l: string, tail: string)
    requires IsPlainLine(l)
    ensures Lines(l + "\n" + tail) == [l] + Lines(tail)
  {
    var s := l + "\n" + tail;
    assert s == l + ("\n" + tail);
    PrefixLenConcat(l, "\n" + tail, NotNewline);
    assert s[..|l|] == l;
    assert s[|l| + 1..] == tail;
    assert StripCR(l) == l;
  }

  /** Text with no line feed is one line, kept whole: a carriage return at
      its end stays, as `"x\r"` gives `["x\r"]`. */
  lemma LastLineKept(l: string)
    requires |l| > 0 && IsLine(l)
    ensures Lines(l) == [l]
  {
  }

  lemma LastCarriageReturnKept()
    ensures Lines("x\r") == ["x\r"]
  {
    var l := "x\r";
    assert NotNewline(l[0]) && NotNewline(l[1]);
    LastLineKept(l);
  }

  /** The text `[A]`, `a=1`, `[A]`, each line ended by a line feed, splits
      back into those three lines. */
  lemma LinesExample()
    ensures Lines(Unlines(["[A]", "a=1", "[A]"])) == ["[A]", "a=1", "[A]"]
  {
    var h, e := "[A]", "a=1";
    assert forall i :: 0 <= i < |h| ==> NotNewline(h[i]);
    assert forall i :: 0 <= i < |e| ==> NotNewline(e[i]);
    var ls := [h, e, h];
    assert ls[1..] == [e, h] && ls[1..][1..] == [h] && ls[1..][1..][1..] == [];
    LinesUnlines(ls);
  }
}
