/**
 Lines of text, and the reader of `utils/iptables/save_restore.go`.
 */
module Lines {
  import opened Strings

  /** Each line followed by a newline. */
  function Unlines(lines: seq<string>): string {
    if lines == [] then "" else lines[0] + "\n" + Unlines(lines[1..])
  }

  /** The newline-terminated lines of `text`; an unterminated rest is dropped. */
  function LinesOf(text: string): seq<string>
    decreases |text|
  {
    var i := IndexOf(text, '\n');
    if i == |text| then [] else [text[..i]] + LinesOf(text[i + 1..])
  }

  lemma LinesOne(text: string)
    ensures var i := IndexOf(text, '\n');
            if '\n' in text then i < |text| && LinesOf(text) == [text[..i]] + LinesOf(text[i + 1..])
            else LinesOf(text) == []
  {
    hide IndexOf;
    IndexOfFound(text, '\n');
  }

  lemma {:induction false} LinesUnlines(lines: seq<string>)
    requires FreeOf(lines, '\n')
    ensures LinesOf(Unlines(lines)) == lines
  {
    if lines == [] {
      IndexOfUnique("", '\n', 0);
    } else {
      var text, first, rest := Unlines(lines), lines[0], Unlines(lines[1..]);
      assert text == first + "\n" + rest;
      assert first in lines;
      assert text[..|first|] == first && text[|first| + 1..] == rest;
      IndexOfUnique(text, '\n', |first|);
      LinesUnlines(lines[1..]);
      assert lines == [first] + lines[1..];
    }
  }

  lemma UnlinesCons(line: string, rest: seq<string>)
    ensures Unlines([line] + rest) == line + "\n" + Unlines(rest)
  {
    assert ([line] + rest)[1..] == rest;
  }

  lemma {:induction false} UnlinesAppend(a: seq<string>, b: seq<string>)
    ensures Unlines(a + b) == Unlines(a) + Unlines(b)
  {
    if a == [] {
      assert a + b == b;
    } else {
      UnlinesAppend(a[1..], b);
      assert (a + b)[1..] == a[1..] + b;
    }
  }

  /** The lines of any text as the reader meets them, an unterminated last one as it reads it. */
  function RawLines(text: string): seq<string>
    decreases |text|
  {
    var i := IndexOf(text, '\n');
    if text == "" then [] else if i == |text| then [LastLine(text)] else [text[..i]] + RawLines(text[i + 1..])
  }

  lemma {:induction false} UnlinesEnd(lines: seq<string>)
    requires lines != []
    ensures |Unlines(lines)| >= |lines| && Unlines(lines)[|Unlines(lines)| - 1] == '\n'
  {
    if |lines| > 1 { UnlinesEnd(lines[1..]); }
  }

  /** The reader meets the lines that were written. */
  lemma RawUnlines(lines: seq<string>)
    requires FreeOf(lines, '\n')
    ensures RawLines(Unlines(lines)) == lines
  {
    hide LinesOf;
    hide RawLines;
    if lines != [] { UnlinesEnd(lines); }
    RawTerminated(Unlines(lines));
    LinesUnlines(lines);
  }

  lemma {:induction false} RawTerminated(text: string)
    requires text == "" || text[|text| - 1] == '\n'
    ensures RawLines(text) == LinesOf(text)
    decreases |text|
  {
    LinesOne(text);
    hide LastLine;
    hide LinesOf;
    hide IndexOf;
    if text != "" {
      assert text[|text| - 1] in text;
      var i := IndexOf(text, '\n');
      RawTerminated(text[i + 1..]);
    }
  }

  // ------------------------------------------------- trimming spaces

  predicate AllSpaces(s: string) { forall i | 0 <= i < |s| :: s[i] == ' ' }

  predicate SpacesIn(s: string, i: nat, j: nat)
    requires j <= |s|
  {
    forall k | i <= k < j :: s[k] == ' '
  }

  function TrimRight(s: string): string {
    if s != "" && s[|s| - 1] == ' ' then TrimRight(s[..|s| - 1]) else s
  }

  function TrimLeft(s: string): string {
    if s != "" && s[0] == ' ' then TrimLeft(s[1..]) else s
  }

  /** The line without the spaces around it. */
  function Trim(s: string): string { TrimLeft(TrimRight(s)) }

  lemma {:induction false} TrimRightSpaces(s: string, spaces: string)
    requires AllSpaces(spaces) && (s == "" || s[|s| - 1] != ' ')
    ensures TrimRight(s + spaces) == s
  {
    if spaces == "" {
      assert s + spaces == s;
    } else {
      assert (s + spaces)[..|s + spaces| - 1] == s + spaces[..|spaces| - 1];
      TrimRightSpaces(s, spaces[..|spaces| - 1]);
    }
  }

  lemma {:induction false} TrimLeftSpaces(spaces: string, s: string)
    requires AllSpaces(spaces) && (s == "" || s[0] != ' ')
    ensures TrimLeft(spaces + s) == s
  {
    if spaces == "" {
      assert spaces + s == s;
    } else {
      assert (spaces + s)[1..] == spaces[1..] + s;
      TrimLeftSpaces(spaces[1..], s);
    }
  }

  /** `Trim` is characterised by what it leaves. */
  lemma TrimUnique(left: string, r: string, right: string)
    requires AllSpaces(left) && AllSpaces(right)
    requires r == "" || (r[0] != ' ' && r[|r| - 1] != ' ')
    ensures Trim(left + r + right) == r
  {
    if r == "" {
      assert left + r + right == "" + (left + right);
      TrimRightSpaces("", left + right);
    } else {
      TrimRightSpaces(left + r, right);
      TrimLeftSpaces(left, r);
    }
  }

  // ------------------------------------------------- ReadLine

  /** There is a newline at or after `i`. */
  predicate NewlineAhead(buf: string, i: nat) { i <= |buf| && '\n' in buf[i..] }

  /** Where the line that starts at `i` ends. */
  function LineEnd(buf: string, i: nat): (e: nat)
    requires NewlineAhead(buf, i)
    ensures i <= e < |buf| && buf[e] == '\n' && forall j | i <= j < e :: buf[j] != '\n'
  {
    var k := IndexOf(buf[i..], '\n');
    assert buf[i..][..|buf[i..]|] == buf[i..];
    assert forall j | i <= j < i + k :: buf[j] == buf[i..][..k][j - i];
    i + k
  }

  /**
   What is read of a last line without a newline: nothing if it ends in a space or is a single character, and
   if the last character follows a space that character is lost.
   */
  function LastLine(u: string): string {
    var s := TrimLeft(u);
    if |s| <= 1 || s[|s| - 1] == ' ' then ""
    else if s[|s| - 2] == ' ' then TrimRight(s[..|s| - 1])
    else s
  }

  lemma LastLineTrimmed(u: string)
    ensures Trim(LastLine(u)) == LastLine(u)
  {
    var s := TrimLeft(u);
    TrimLeftEnds(u);
    TrimRightEnds(s[..if |s| == 0 then 0 else |s| - 1]);
    LastLineIs(u, s);
    var r := LastLine(u);
    hide TrimLeft;
    hide TrimRight;
    hide LastLine;
    if r != "" { TrimUnique("", r, ""); } else { TrimUnique("", "", ""); }
    assert "" + r + "" == r;
  }

  /** Behind any spaces, a last line of one character, or one that ends in a space, is read as nothing. */
  lemma LastLineLost(left: string, core: string, last: char)
    requires AllSpaces(left) && core != "" && core[0] != ' ' && core[|core| - 1] == ' ' && last != ' '
    ensures LastLine(left) == "" && LastLine(left + [last]) == "" && LastLine(left + core) == ""
  {
    TrimLeftSpaces(left, "");
    assert left + "" == left;
    TrimLeftSpaces(left, [last]);
    TrimLeftSpaces(left, core);
    hide TrimLeft;
    hide TrimRight;
  }

  /** A last line is read whole unless its last character follows a space; then it is read up to that space. */
  lemma LastLineKept(left: string, core: string, middle: string, last: char)
    requires AllSpaces(left) && core != "" && core[0] != ' ' && core[|core| - 1] != ' '
    requires AllSpaces(middle) && middle != "" && last != ' '
    ensures |core| >= 2 && core[|core| - 2] != ' ' ==> LastLine(left + core) == core
    ensures LastLine(left + (core + middle + [last])) == core
  {
    TrimLeftSpaces(left, core);
    LastLineIs(left + core, core);
    var s := core + middle + [last];
    TrimLeftSpaces(left, s);
    LastLineIs(left + s, s);
    TrimRightSpaces(core, middle);
    hide *;
    SpacedEnd(core, middle, last);
  }

  lemma SpacedEnd(core: string, middle: string, last: char)
    requires core != "" && AllSpaces(middle) && middle != ""
    ensures var s := core + middle + [last];
            |s| >= 3 && s[|s| - 1] == last && s[|s| - 2] == ' ' && s[..|s| - 1] == core + middle
  {
    assert middle[|middle| - 1] == ' ';
  }

  lemma {:induction false} TrimLeftEnds(s: string)
    ensures TrimLeft(s) == "" || TrimLeft(s)[0] != ' '
  {
    if s != "" && s[0] == ' ' { TrimLeftEnds(s[1..]); }
  }

  lemma {:induction false} TrimRightEnds(s: string)
    ensures TrimRight(s) <= s && (TrimRight(s) == "" || TrimRight(s)[|TrimRight(s)| - 1] != ' ')
    decreases |s|
  {
    if s != "" && s[|s| - 1] == ' ' { TrimRightEnds(s[..|s| - 1]); }
  }

  lemma LeftOf(buf: string, i: nat, left: nat)
    requires i <= left <= |buf| && SpacesIn(buf, i, left) && (left == |buf| || buf[left] != ' ')
    ensures TrimLeft(buf[i..]) == buf[left..]
  {
    assert buf[i..] == buf[i..left] + buf[left..];
    TrimLeftSpaces(buf[i..left], buf[left..]);
  }

  lemma LastLineIs(u: string, s: string)
    requires TrimLeft(u) == s
    ensures LastLine(u) ==
              if |s| <= 1 || s[|s| - 1] == ' ' then ""
              else if s[|s| - 2] == ' ' then TrimRight(s[..|s| - 1]) else s
  {
    hide TrimLeft;
    hide TrimRight;
  }

  lemma NothingRead(buf: string, i: nat, left: nat)
    requires i <= left <= |buf| && SpacesIn(buf, i, left) && (left == |buf| || buf[left] != ' ')
    requires left >= |buf| - 1 || buf[|buf| - 1] == ' '
    ensures LastLine(buf[i..]) == ""
  {
    hide TrimLeft;
    LeftOf(buf, i, left);
  }

  lemma BeforeLast(buf: string, left: nat, right: nat)
    requires left < right < |buf| - 1 && SpacesIn(buf, right, |buf| - 1) && buf[right - 1] != ' '
    ensures TrimRight(buf[left..][..|buf| - 1 - left]) == buf[left..right]
  {
    hide TrimRight;
    assert buf[left..][..|buf| - 1 - left] == buf[left..right] + buf[right..|buf| - 1];
    TrimRightSpaces(buf[left..right], buf[right..|buf| - 1]);
  }

  /** `right` is where the spaces before the last character start, if there are any. */
  lemma LastRead(buf: string, i: nat, left: nat, right: nat)
    requires i <= left < right <= |buf| && left < |buf| - 1 && SpacesIn(buf, i, left) && buf[left] != ' '
    requires buf[|buf| - 1] != ' '
    requires if buf[|buf| - 2] == ' ' then right < |buf| - 1 && SpacesIn(buf, right, |buf| - 1) && buf[right - 1] != ' '
             else right == |buf|
    ensures LastLine(buf[i..]) == buf[left..right]
  {
    LeftOf(buf, i, left);
    var s := buf[left..];
    LastLineIs(buf[i..], s);
    hide *;
    assert |s| >= 2 && s[|s| - 1] == buf[|buf| - 1] && s[|s| - 2] == buf[|buf| - 2];
    if buf[|buf| - 2] == ' ' {
      BeforeLast(buf, left, right);
    } else {
      assert buf[left..|buf|] == buf[left..];
    }
  }

  /** `ReadLine`. */
  method ReadLine(readIndex: nat, buf: string) returns (line: string, n: nat)
    requires readIndex <= |buf|
    ensures readIndex < |buf| ==> readIndex < n <= |buf|
    ensures NewlineAhead(buf, readIndex) ==>
              n == LineEnd(buf, readIndex) + 1 && line == Trim(buf[readIndex..LineEnd(buf, readIndex)])
    ensures !NewlineAhead(buf, readIndex) ==> n == |buf| && line == LastLine(buf[readIndex..])
  {
    NoneAhead(buf, readIndex);
    SpacesAhead(buf);
    hide Trim;
    hide LastLine;
    hide SpacesIn;
    ghost var ahead := NewlineAhead(buf, readIndex);
    ghost var e := if ahead then LineEnd(buf, readIndex) else |buf|;
    hide LineEnd;
    hide NewlineAhead;
    var cur := readIndex;
    while cur < |buf|
      invariant readIndex <= cur <= e && SpacesIn(buf, readIndex, cur)
    {
      if buf[cur] == ' ' {
        cur := cur + 1;
      } else {
        break;
      }
    }
    var left := cur;
    assert left == |buf| || buf[left] != ' ';
    var right := -1;
    while cur < |buf|
      invariant readIndex <= left <= cur <= e
      invariant right == -1 ==> cur == left || (buf[cur - 1] != ' ' && cur < |buf|)
      invariant right != -1 ==> left < right < cur && buf[right - 1] != ' ' && SpacesIn(buf, right, cur)
      decreases |buf| - cur
    {
      if buf[cur] == ' ' {
        if right == -1 { right := cur; }
      } else if buf[cur] == '\n' || cur == |buf| - 1 {
        if cur <= left {
          if ahead { EmptyLine(buf, readIndex, cur); } else { NothingRead(buf, readIndex, left); }
          return "", cur + 1;
        }
        if right == -1 {
          right := cur;
          if cur == |buf| - 1 && buf[cur] != '\n' {
            right := cur + 1;
          }
        }
        if ahead { TrimmedLine(buf, readIndex, left, right, cur); } else { LastRead(buf, readIndex, left, right); }
        return buf[left..right], cur + 1;
      } else {
        right := -1;
      }
      cur := cur + 1;
    }
    NothingRead(buf, readIndex, left);
    return "", cur;
  }

  lemma SpacesAhead(s: string)
    ensures forall i: nat | i <= |s| :: SpacesIn(s, i, i)
    ensures forall i: nat, j: nat | j < |s| && SpacesIn(s, i, j) && s[j] == ' ' :: SpacesIn(s, i, j + 1)
  {
  }

  lemma NoneAhead(buf: string, i: nat)
    requires i <= |buf|
    ensures !NewlineAhead(buf, i) ==> forall j | i <= j < |buf| :: buf[j] != '\n'
  {
    assert forall j | i <= j < |buf| :: buf[j] == buf[i..][j - i] && buf[i..][j - i] in buf[i..];
  }

  lemma EmptyLine(buf: string, i: nat, cur: nat)
    requires i <= cur <= |buf| && SpacesIn(buf, i, cur)
    ensures Trim(buf[i..cur]) == ""
  {
    assert buf[i..cur] + "" + "" == buf[i..cur];
    TrimUnique(buf[i..cur], "", "");
  }

  lemma TrimmedLine(buf: string, i: nat, left: nat, right: nat, cur: nat)
    requires i <= left < right <= cur <= |buf| && SpacesIn(buf, i, left) && SpacesIn(buf, right, cur)
    requires buf[left] != ' ' && buf[right - 1] != ' '
    ensures Trim(buf[i..cur]) == buf[left..right]
  {
    assert buf[i..cur] == buf[i..left] + buf[left..right] + buf[right..cur];
    TrimUnique(buf[i..left], buf[left..right], buf[right..cur]);
  }
}
