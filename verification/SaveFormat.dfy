/**
 The iptables-save format: what `SaveInto` writes and what `GetChainLines` reads back.
 */
module SaveFormat {
  import opened Strings
  import opened Lines

  type Chains = map<string, seq<string>>

  function MakeChainLine(chain: string): string { ":" + chain + " - [0:0]" }

  function RuleLine(chain: string, rule: string): string { "-A " + chain + " " + rule }

  function ChainLines(names: seq<string>): (lines: seq<string>)
    ensures |lines| == |names|
  {
    if names == [] then [] else [MakeChainLine(names[0])] + ChainLines(names[1..])
  }

  function RuleLines(chain: string, rules: seq<string>): seq<string> {
    if rules == [] then [] else [RuleLine(chain, rules[0])] + RuleLines(chain, rules[1..])
  }

  function AllRuleLines(names: seq<string>, chains: Chains): seq<string>
    requires forall c | c in names :: c in chains
  {
    if names == [] then [] else RuleLines(names[0], chains[names[0]]) + AllRuleLines(names[1..], chains)
  }

  function SaveLines(table: string, names: seq<string>, chains: Chains): seq<string>
    requires forall c | c in names :: c in chains
  {
    ["*" + table] + (ChainLines(names) + (AllRuleLines(names, chains) + ["COMMIT"]))
  }

  /** The chains' names in the order `SaveInto` writes them. */
  ghost function Names(chains: Chains): (names: seq<string>)
    ensures Lists(names, chains.Keys)
    ensures forall c | c in names :: c in chains
  {
    SortedOfLists(chains.Keys);
    SortedOf(chains.Keys)
  }

  ghost function SaveText(table: string, chains: Chains): string { Unlines(SaveLines(table, Names(chains), chains)) }

  // ------------------------------------------------- GetChainLines

  /** The lines after the first one that starts the table. */
  function SkipTo(lines: seq<string>, prefix: string): seq<string> {
    if lines == [] then [] else if prefix <= Trim(lines[0]) then lines[1..] else SkipTo(lines[1..], prefix)
  }

  /** Lines 44-60; None where the slice expression of line 57 panics. */
  function Collect(lines: seq<string>, found: map<string, string>): Option<map<string, string>>
    decreases |lines|
  {
    if lines == [] then Some(found)
    else
      var line := Trim(lines[0]);
      if line == "" then Collect(lines[1..], found)
      else if "COMMIT" <= line || "*" <= line then Some(found)
      else if "#" <= line then Collect(lines[1..], found)
      else if ":" <= line && |line| > 1 then
        if ' ' !in line then None else Collect(lines[1..], found[ChainOf(line) := line])
      else Collect(lines[1..], found)
  }

  function ChainOf(line: string): string
    requires ":" <= line && ' ' in line
  {
    var i := IndexOf(line, ' ');
    assert i < |line| by { assert line[..|line|] == line; }
    assert i > 0 by { assert line[0] == ':'; }
    line[1..i]
  }

  /** The next line of a text, by position and by `RawLines`. */
  lemma NextLine(text: string, i: nat)
    requires i < |text|
    ensures if NewlineAhead(text, i)
            then RawLines(text[i..]) == [text[i..LineEnd(text, i)]] + RawLines(text[LineEnd(text, i) + 1..])
            else RawLines(text[i..]) == [LastLine(text[i..])] && Trim(LastLine(text[i..])) == LastLine(text[i..])
  {
    hide RawLines;
    hide LastLine;
    hide Trim;
    hide LineEnd;
    hide IndexOf;
    if NewlineAhead(text, i) {
      LineEndIs(text, i);
      assert '\n' in text[i..];
      NextTerminated(text, i, LineEnd(text, i));
    } else {
      hide *;
      RawLast(text, i);
      LastLineTrimmed(text[i..]);
    }
  }

  lemma RawLast(text: string, i: nat)
    requires i < |text| && !NewlineAhead(text, i)
    ensures RawLines(text[i..]) == [LastLine(text[i..])]
  {
    hide LastLine;
    hide RawLines;
    RawOne(text[i..]);
  }

  lemma NextTerminated(text: string, i: nat, e: nat)
    requires i < |text| && '\n' in text[i..] && e == i + IndexOf(text[i..], '\n') < |text|
    ensures RawLines(text[i..]) == [text[i..e]] + RawLines(text[e + 1..])
  {
    hide *;
    RawOne(text[i..]);
    RawAt(text, i, e - i);
  }

  lemma RawAt(text: string, i: nat, k: nat)
    requires i + k < |text| && RawLines(text[i..]) == [text[i..][..k]] + RawLines(text[i..][k + 1..])
    ensures RawLines(text[i..]) == [text[i..i + k]] + RawLines(text[i + k + 1..])
  {
    hide *;
    Slices(text, i, k);
  }

  lemma RawOne(text: string)
    requires text != ""
    ensures var i := IndexOf(text, '\n');
            if '\n' in text then i < |text| && RawLines(text) == [text[..i]] + RawLines(text[i + 1..])
            else RawLines(text) == [LastLine(text)]
  {
    IndexOfFound(text, '\n');
    hide IndexOf;
    hide LastLine;
  }

  lemma LineEndIs(text: string, i: nat)
    requires NewlineAhead(text, i)
    ensures LineEnd(text, i) == i + IndexOf(text[i..], '\n')
  {
    hide IndexOf;
  }

  lemma NoLines()
    ensures RawLines("") == []
  {
  }

  /** `GetChainLines`. */
  method GetChainLines(table: string, save: string) returns (r: Option<map<string, string>>)
    ensures r == Collect(SkipTo(RawLines(save), "*" + table), map[])
  {
    hide RawLines;
    hide Trim;
    hide LastLine;
    hide LineEnd;
    NoLines();
    var tablePrefix := "*" + table;
    var readIndex := 0;
    ghost var started := false;
    assert save[0..] == save;
    while readIndex < |save|
      invariant readIndex <= |save| && !started
      invariant SkipTo(RawLines(save), tablePrefix) == SkipTo(RawLines(save[readIndex..]), tablePrefix)
      decreases |save| - readIndex
    {
      NextLine(save, readIndex);
      var line, n := ReadLine(readIndex, save);
      RestAfter(save, readIndex, n);
      readIndex := n;
      if tablePrefix <= line {
        started := true;
        break;
      }
    }
    if !started { assert save[readIndex..] == ""; }
    r := ParseTable(save, readIndex, SkipTo(RawLines(save), tablePrefix));
  }

  /** After an unterminated last line nothing is left. */
  lemma RestAfter(save: string, i: nat, n: nat)
    requires i < |save| && n == if NewlineAhead(save, i) then LineEnd(save, i) + 1 else |save|
    ensures !NewlineAhead(save, i) ==> RawLines(save[n..]) == []
  {
    hide LineEnd;
    if !NewlineAhead(save, i) {
      assert save[n..] == "";
      NoLines();
    }
  }

  /** Lines 44-61. */
  method ParseTable(save: string, start: nat, ghost lines: seq<string>) returns (r: Option<map<string, string>>)
    requires start <= |save| && lines == RawLines(save[start..])
    ensures r == Collect(lines, map[])
  {
    hide RawLines;
    hide Trim;
    hide LastLine;
    hide LineEnd;
    NoLines();
    var chainsMap: map<string, string> := map[];
    var readIndex := start;
    while readIndex < |save|
      invariant readIndex <= |save|
      invariant Collect(lines, map[]) == Collect(RawLines(save[readIndex..]), chainsMap)
      decreases |save| - readIndex
    {
      NextLine(save, readIndex);
      var line, n := ReadLine(readIndex, save);
      RestAfter(save, readIndex, n);
      readIndex := n;
      if line == "" { continue; }
      if "COMMIT" <= line || "*" <= line {
        return Some(chainsMap);
      } else if "#" <= line {
        continue;
      } else if ":" <= line && |line| > 1 {
        if ' ' !in line { return None; }
        chainsMap := chainsMap[ChainOf(line) := line];
      }
    }
    assert save[readIndex..] == "";
    return Some(chainsMap);
  }

  // ------------------------------------------------- reading what was written

  lemma TrimFirst(s: string)
    requires s != "" && s[0] != ' '
    ensures Trim(s) != "" && Trim(s)[0] == s[0]
    decreases |s|
  {
    if s[|s| - 1] == ' ' {
      TrimFirst(s[..|s| - 1]);
    }
  }

  lemma TrimNone(s: string)
    requires s != "" && s[0] != ' ' && s[|s| - 1] != ' '
    ensures Trim(s) == s
  {
  }

  /** What is read of a chain's name: the part before its first space. */
  function FirstWord(c: string): string { c[..IndexOf(c, ' ')] }

  lemma ChainLineShape(c: string)
    ensures var line := MakeChainLine(c);
            Trim(line) == line && ":" <= line && |line| > 1 && ' ' in line && ChainOf(line) == FirstWord(c)
  {
    var line, i := MakeChainLine(c), IndexOf(c, ' ');
    TrimNone(line);
    hide Trim;
    assert line[1 + |c|] == ' ' && (i < |c| ==> line[1 + i] == c[i]);
    assert line[..1 + i] == ":" + c[..i];
    IndexOfUnique(line, ' ', 1 + i);
  }

  function ChainMap(names: seq<string>, found: map<string, string>): map<string, string> {
    if names == [] then found else ChainMap(names[1..], found[FirstWord(names[0]) := MakeChainLine(names[0])])
  }

  lemma CollectChainLine(c: string, rest: seq<string>, found: map<string, string>)
    ensures Collect([MakeChainLine(c)] + rest, found) == Collect(rest, found[FirstWord(c) := MakeChainLine(c)])
  {
    ChainLineShape(c);
    NotSpecial(MakeChainLine(c), ':');
    hide MakeChainLine;
    hide Trim;
    hide ChainOf;
    hide FirstWord;
    assert ([MakeChainLine(c)] + rest)[1..] == rest;
  }

  lemma {:induction false} CollectChains(names: seq<string>, rest: seq<string>, found: map<string, string>)
    ensures Collect(ChainLines(names) + rest, found) == Collect(rest, ChainMap(names, found))
    decreases |names|
  {
    hide Collect;
    hide MakeChainLine;
    hide FirstWord;
    if names == [] {
      assert ChainLines(names) + rest == rest;
    } else {
      var c, line := names[0], MakeChainLine(names[0]);
      var more := ChainLines(names[1..]) + rest;
      assert ChainLines(names) + rest == [line] + more;
      CollectChainLine(c, more, found);
      CollectChains(names[1..], rest, found[FirstWord(c) := line]);
    }
  }

  // ------------------------------------------------- when the map is the one of the chains

  lemma {:induction false} ChainMapKeys(names: seq<string>, found: map<string, string>)
    ensures forall w :: w in ChainMap(names, found) <==> w in found || exists c | c in names :: FirstWord(c) == w
    decreases |names|
  {
    hide MakeChainLine;
    hide FirstWord;
    if names != [] {
      ChainMapKeys(names[1..], found[FirstWord(names[0]) := MakeChainLine(names[0])]);
      assert names == [names[0]] + names[1..];
      assert names[0] in names;
    }
  }

  lemma {:induction false} ChainMapElsewhere(names: seq<string>, found: map<string, string>, w: string)
    requires w in found && forall c | c in names :: FirstWord(c) != w
    ensures w in ChainMap(names, found) && ChainMap(names, found)[w] == found[w]
    decreases |names|
  {
    hide MakeChainLine;
    hide FirstWord;
    if names != [] {
      assert names[0] in names && forall c | c in names[1..] :: c in names;
      ChainMapElsewhere(names[1..], found[FirstWord(names[0]) := MakeChainLine(names[0])], w);
    }
  }

  /** Of several names with the same first word the last one counts. */
  lemma {:induction false} LastNamed(names: seq<string>, found: map<string, string>, c: string) returns (d: string)
    requires Sorted(names) && c in names
    ensures d in names && FirstWord(d) == FirstWord(c) && Compare(c, d) <= 0
    ensures FirstWord(c) in ChainMap(names, found) && ChainMap(names, found)[FirstWord(c)] == MakeChainLine(d)
    decreases |names|
  {
    hide MakeChainLine;
    hide FirstWord;
    hide Compare;
    var x, rest := names[0], names[1..];
    var found' := found[FirstWord(x) := MakeChainLine(x)];
    assert names == [x] + rest;
    SortedRest(names);
    if c in rest {
      d := LastNamed(rest, found', c);
    } else if e :| e in rest && FirstWord(e) == FirstWord(c) {
      d := LastNamed(rest, found', e);
      HeadLeast(names, e);
      CompareTransitive(c, e, d);
    } else {
      d := c;
      ChainMapElsewhere(rest, found', FirstWord(c));
      CompareSame(c);
    }
  }

  lemma CompareSame(c: string)
    ensures Compare(c, c) == 0
  {
  }

  lemma FirstWordOf(c: string)
    ensures FirstWord(c) <= c && ' ' !in FirstWord(c) && (FirstWord(c) == c <==> ' ' !in c)
  {
    IndexOfFound(c, ' ');
    hide IndexOf;
    assert c[..|c|] == c;
  }

  lemma {:induction false} PrefixBelow(w: string, c: string)
    requires w <= c && w != c
    ensures Compare(w, c) < 0
  {
    if w != "" { PrefixBelow(w[1..], c[1..]); }
  }

  lemma ChainLineInjective(c: string, d: string)
    requires MakeChainLine(c) == MakeChainLine(d)
    ensures c == d
  {
    var line := MakeChainLine(c);
    assert |c| == |d| && line[1..1 + |c|] == c && line[1..1 + |d|] == d;
  }

  lemma ReadShown(read: Chains, chains: Chains, c: string)
    requires ChainMap(Names(read), map[]) == ChainsShown(chains) && c in read
    ensures ' ' !in c && c in chains
  {
    var names := Names(read);
    assert c in names;
    NamesSorted(read);
    hide *;
    var d := LastNamed(names, map[], c);
    FirstWordOf(c);
    SameShown(chains, FirstWord(c), MakeChainLine(d));
    ChainLineInjective(FirstWord(c), d);
    if FirstWord(c) != c {
      PrefixBelow(FirstWord(c), c);
      CompareAntisymmetric(FirstWord(c), c);
    }
  }

  lemma ShownRead(read: Chains, chains: Chains, c: string)
    requires ChainMap(Names(read), map[]) == ChainsShown(chains) && c in chains
    requires forall d | d in read :: ' ' !in d
    ensures c in read
  {
    hide Names;
    hide MakeChainLine;
    assert c in ChainsShown(chains);
    hide ChainsShown;
    ChainMapKeys(Names(read), map[]);
    hide ChainMap;
    hide FirstWord;
    var d :| d in Names(read) && FirstWord(d) == c;
    FirstWordOf(d);
  }

  /** The chains read from `read` are those of `chains` exactly when the names are the same and none has a space. */
  lemma ShownExactly(read: Chains, chains: Chains)
    ensures ChainMap(Names(read), map[]) == ChainsShown(chains)
            <==> read.Keys == chains.Keys && forall c | c in read :: ' ' !in c
  {
    hide Names;
    hide ChainMap;
    hide MakeChainLine;
    if ChainMap(Names(read), map[]) == ChainsShown(chains) {
      hide ChainsShown;
      forall c | c in read ensures ' ' !in c && c in chains { ReadShown(read, chains, c); }
      forall c | c in chains ensures c in read { ShownRead(read, chains, c); }
      assert forall c :: c in read.Keys <==> c in chains.Keys;
    }
    if read.Keys == chains.Keys && forall c | c in read :: ' ' !in c {
      PlainShown(Names(read), map[]);
      assert forall c :: c in Names(read) <==> c in chains.Keys;
    }
  }

  lemma SameShown(chains: Chains, w: string, line: string)
    requires w in ChainsShown(chains) && ChainsShown(chains)[w] == line
    ensures w in chains && line == MakeChainLine(w)
  {
    hide MakeChainLine;
  }

  lemma NamesSorted(chains: Chains)
    ensures Sorted(Names(chains))
  {
  }

  lemma {:induction false} PlainShown(names: seq<string>, found: map<string, string>)
    requires FreeOf(names, ' ')
    ensures ChainMap(names, found) == found + map c | c in names :: MakeChainLine(c)
    decreases |names|
  {
    if names != [] {
      var c := names[0];
      assert c in names && names == [c] + names[1..];
      FirstWordOf(c);
      hide FirstWord;
      hide MakeChainLine;
      PlainShown(names[1..], found[c := MakeChainLine(c)]);
    }
  }

  lemma NotSpecial(line: string, first: char)
    requires line != "" && line[0] == first && first in {':', '-'}
    ensures !("COMMIT" <= line) && !("*" <= line) && !("#" <= line)
    ensures first == '-' ==> !(":" <= line)
  {
    assert "COMMIT"[0] == 'C' && "*"[0] == '*' && "#"[0] == '#' && ":"[0] == ':';
  }

  /** Lines that start with a dash are skipped. */
  lemma {:induction false} CollectSkips(lines: seq<string>, rest: seq<string>, found: map<string, string>)
    requires forall l | l in lines :: l != "" && l[0] == '-'
    ensures Collect(lines + rest, found) == Collect(rest, found)
    decreases |lines|
  {
    if lines == [] {
      assert lines + rest == rest;
    } else {
      var l := lines[0];
      assert l in lines;
      TrimFirst(l);
      NotSpecial(Trim(l), '-');
      hide Trim;
      assert (lines + rest)[1..] == lines[1..] + rest;
      assert forall k | k in lines[1..] :: k in lines;
      CollectSkips(lines[1..], rest, found);
    }
  }

  lemma {:induction false} RuleLinesDashed(chain: string, rules: seq<string>)
    ensures forall l | l in RuleLines(chain, rules) :: l != "" && l[0] == '-'
  {
    if rules != [] { RuleLinesDashed(chain, rules[1..]); }
  }

  lemma {:induction false} AllRuleLinesDashed(names: seq<string>, chains: Chains)
    requires forall c | c in names :: c in chains
    ensures forall l | l in AllRuleLines(names, chains) :: l != "" && l[0] == '-'
  {
    if names != [] {
      RuleLinesDashed(names[0], chains[names[0]]);
      AllRuleLinesDashed(names[1..], chains);
    }
  }

  lemma CollectCommit(found: map<string, string>, rest: seq<string>)
    ensures Collect(["COMMIT"] + rest, found) == Some(found)
  {
    TrimNone("COMMIT");
  }

  ghost predicate OneLine(chains: Chains) {
    forall c | c in chains :: '\n' !in c && forall r | r in chains[c] :: '\n' !in r
  }

  lemma {:induction false} SaveLinesFree(names: seq<string>, chains: Chains)
    requires (forall c | c in names :: c in chains) && OneLine(chains)
    ensures FreeOf(ChainLines(names), '\n') && FreeOf(AllRuleLines(names, chains), '\n')
    decreases |names|
  {
    if names != [] {
      assert names[0] in names;
      RuleLinesFree(names[0], chains[names[0]]);
      SaveLinesFree(names[1..], chains);
    }
  }

  lemma {:induction false} RuleLinesFree(chain: string, rules: seq<string>)
    requires '\n' !in chain && forall r | r in rules :: '\n' !in r
    ensures FreeOf(RuleLines(chain, rules), '\n')
  {
    if rules != [] {
      assert rules[0] in rules;
      RuleLinesFree(chain, rules[1..]);
    }
  }

  // ------------------------------------------------- several tables in one buffer

  type Saved = map<string, Chains>

  /** What saving the tables of `tabs` one after another into one buffer writes. */
  ghost function SaveAllText(tabs: seq<string>, ts: Saved): string
    requires forall t | t in tabs :: t in ts
  {
    if tabs == [] then "" else SaveText(tabs[0], ts[tabs[0]]) + SaveAllText(tabs[1..], ts)
  }

  ghost function SaveAllLines(tabs: seq<string>, ts: Saved): seq<string>
    requires forall t | t in tabs :: t in ts
  {
    if tabs == [] then [] else SaveLines(tabs[0], Names(ts[tabs[0]]), ts[tabs[0]]) + SaveAllLines(tabs[1..], ts)
  }

  lemma {:induction false} SavedAllLines(tabs: seq<string>, ts: Saved)
    requires forall t | t in tabs :: t in ts && OneLine(ts[t]) && '\n' !in t
    ensures LinesOf(SaveAllText(tabs, ts)) == SaveAllLines(tabs, ts)
    ensures RawLines(SaveAllText(tabs, ts)) == SaveAllLines(tabs, ts)
  {
    hide Names;
    hide LinesOf;
    hide RawLines;
    AllLinesFree(tabs, ts);
    AllTextLines(tabs, ts);
    LinesUnlines(SaveAllLines(tabs, ts));
    RawUnlines(SaveAllLines(tabs, ts));
  }

  lemma {:induction false} AllTextLines(tabs: seq<string>, ts: Saved)
    requires forall t | t in tabs :: t in ts
    ensures SaveAllText(tabs, ts) == Unlines(SaveAllLines(tabs, ts))
  {
    hide Names;
    hide SaveLines;
    if tabs != [] {
      AllTextLines(tabs[1..], ts);
      UnlinesAppend(SaveLines(tabs[0], Names(ts[tabs[0]]), ts[tabs[0]]), SaveAllLines(tabs[1..], ts));
    }
  }

  lemma {:induction false} AllLinesFree(tabs: seq<string>, ts: Saved)
    requires forall t | t in tabs :: t in ts && OneLine(ts[t]) && '\n' !in t
    ensures FreeOf(SaveAllLines(tabs, ts), '\n')
  {
    hide Names;
    hide OneLine;
    if tabs != [] {
      assert tabs[0] in tabs;
      SaveLinesFree(Names(ts[tabs[0]]), ts[tabs[0]]);
      AllLinesFree(tabs[1..], ts);
    }
  }

  function ChainsShown(chains: Chains): map<string, string> { map c | c in chains :: MakeChainLine(c) }

  /** One table's lines, once its first line has been found; whatever follows is not read. */
  lemma CollectTable(chains: Chains, rest: seq<string>)
    ensures var names := Names(chains);
            Collect(ChainLines(names) + (AllRuleLines(names, chains) + ["COMMIT"]) + rest, map[])
            == Some(ChainMap(names, map[]))
  {
    hide Names;
    hide Collect;
    hide MakeChainLine;
    hide ChainMap;
    var names := Names(chains);
    var last := ["COMMIT"] + rest;
    var tail := AllRuleLines(names, chains) + last;
    assert ChainLines(names) + (AllRuleLines(names, chains) + ["COMMIT"]) + rest == ChainLines(names) + tail;
    CollectChains(names, tail, map[]);
    AllRuleLinesDashed(names, chains);
    hide AllRuleLines;
    CollectSkips(AllRuleLines(names, chains), last, ChainMap(names, map[]));
    CollectCommit(ChainMap(names, map[]), rest);
  }

  /** The line of table `t` is taken for that of `table`: its name, without the spaces behind it, starts with that. */
  predicate Begins(table: string, t: string) { table <= TrimRight(t) }

  lemma {:induction false} TrimStar(t: string)
    ensures Trim("*" + t) == "*" + TrimRight(t)
    decreases |t|
  {
    if t != "" && t[|t| - 1] == ' ' {
      assert ("*" + t)[..|t|] == "*" + t[..|t| - 1];
      TrimStar(t[..|t| - 1]);
    }
  }

  /** The lines of another table are passed over, unless its name starts with the wanted one. */
  lemma SkipTable(table: string, t: string, chains: Chains, rest: seq<string>)
    ensures var names := Names(chains);
            SkipTo(SaveLines(t, names, chains) + rest, "*" + table) ==
              if Begins(table, t) then ChainLines(names) + (AllRuleLines(names, chains) + ["COMMIT"]) + rest
              else SkipTo(rest, "*" + table)
  {
    hide Names;
    hide Trim;
    hide TrimRight;
    hide ChainLines;
    hide AllRuleLines;
    var names := Names(chains);
    var body := ChainLines(names) + (AllRuleLines(names, chains) + ["COMMIT"]);
    assert SaveLines(t, names, chains) + rest == ["*" + t] + (body + rest);
    SkipOne(table, "*" + t, body + rest);
    TrimStar(t);
    StarPrefix(table, TrimRight(t));
    if !Begins(table, t) {
      BodyUnstarred(names, chains);
      SkipBody(table, body, rest);
    }
  }

  lemma StarPrefix(table: string, t: string)
    ensures "*" + table <= "*" + t <==> table <= t
  {
    if table <= t { assert t == table + t[|table|..]; assert "*" + t == "*" + table + t[|table|..]; }
    if "*" + table <= "*" + t {
      assert ("*" + t)[1..][..|table|] == ("*" + table)[1..];
      assert t[..|table|] == table;
    }
  }

  lemma SkipOne(table: string, line: string, rest: seq<string>)
    ensures SkipTo([line] + rest, "*" + table) == if "*" + table <= Trim(line) then rest else SkipTo(rest, "*" + table)
  {
    hide Trim;
    assert ([line] + rest)[1..] == rest;
  }

  ghost predicate Unstarred(line: string) { line != "" && line[0] != ' ' && line[0] != '*' }

  lemma BodyUnstarred(names: seq<string>, chains: Chains)
    requires forall c | c in names :: c in chains
    ensures forall l | l in ChainLines(names) + (AllRuleLines(names, chains) + ["COMMIT"]) :: Unstarred(l)
  {
    ChainLinesColons(names);
    AllRuleLinesDashed(names, chains);
    assert "COMMIT"[0] == 'C';
  }

  lemma {:induction false} ChainLinesColons(names: seq<string>)
    ensures forall l | l in ChainLines(names) :: l != "" && l[0] == ':'
  {
    if names != [] { ChainLinesColons(names[1..]); }
  }

  lemma {:induction false} SkipBody(table: string, body: seq<string>, rest: seq<string>)
    requires forall l | l in body :: Unstarred(l)
    ensures SkipTo(body + rest, "*" + table) == SkipTo(rest, "*" + table)
    decreases |body|
  {
    hide Trim;
    if body == [] {
      assert body + rest == rest;
    } else {
      var l := body[0];
      assert l in body && forall k | k in body[1..] :: k in body;
      TrimFirst(l);
      assert ("*" + table)[0] == '*';
      assert body + rest == [l] + (body[1..] + rest);
      SkipOne(table, l, body[1..] + rest);
      SkipBody(table, body[1..], rest);
    }
  }

  /**
   Read back by `GetChainLines` from a buffer of several saved tables: the chains, each under the first word of
   its name, of the first table whose name starts with the wanted one.
   */
  lemma {:induction false} ReadBackFirst(table: string, tabs: seq<string>, ts: Saved, k: nat)
    requires (forall t | t in tabs :: t in ts) && k <= |tabs|
    requires (forall j | 0 <= j < k :: !Begins(table, tabs[j])) && (k < |tabs| ==> Begins(table, tabs[k]))
    ensures Collect(SkipTo(SaveAllLines(tabs, ts), "*" + table), map[]) ==
              Some(if k < |tabs| then ChainMap(Names(ts[tabs[k]]), map[]) else map[])
    decreases |tabs|
  {
    hide Collect;
    hide Names;
    hide SaveLines;
    hide ChainMap;
    hide Begins;
    if tabs == [] {
      NothingSaved(table);
    } else {
      var t := tabs[0];
      assert t in tabs && forall u | u in tabs[1..] :: u in tabs;
      SkipTable(table, t, ts[t], SaveAllLines(tabs[1..], ts));
      if k == 0 {
        CollectTable(ts[t], SaveAllLines(tabs[1..], ts));
      } else {
        ReadBackFirst(table, tabs[1..], ts, k - 1);
      }
    }
  }

  lemma NothingSaved(table: string)
    ensures Collect(SkipTo([], "*" + table), map[]) == Some(map[])
  {
  }

  /**
   So the wanted table's own chains come back exactly when the first table whose name starts with its own, itself
   or another, has chains of the same names and none of them has a space; or, if there is no such table, when it
   has no chains.
   */
  lemma ReadBackExactly(table: string, tabs: seq<string>, ts: Saved, k: nat)
    requires forall t | t in tabs :: t in ts && OneLine(ts[t]) && '\n' !in t
    requires table in tabs && k <= |tabs| && (forall j | 0 <= j < k :: !Begins(table, tabs[j]))
    requires k < |tabs| ==> Begins(table, tabs[k])
    ensures Collect(SkipTo(RawLines(SaveAllText(tabs, ts)), "*" + table), map[]) == Some(ChainsShown(ts[table]))
            <==> if k < |tabs| then ts[tabs[k]].Keys == ts[table].Keys && forall c | c in ts[tabs[k]] :: ' ' !in c
                 else ts[table] == map[]
  {
    hide Collect;
    hide RawLines;
    hide LinesOf;
    hide SaveAllText;
    hide SaveAllLines;
    hide MakeChainLine;
    hide OneLine;
    hide Begins;
    hide Names;
    hide ChainMap;
    SavedAllLines(tabs, ts);
    ReadBackFirst(table, tabs, ts, k);
    if k < |tabs| {
      ShownExactly(ts[tabs[k]], ts[table]);
    } else {
      NothingShown(ts[table]);
    }
  }

  lemma NothingShown(chains: Chains)
    ensures ChainsShown(chains) == map[] <==> chains == map[]
  {
    hide MakeChainLine;
    assert ChainsShown(chains).Keys == chains.Keys;
  }

  /** Of a single saved table the whole map comes back, exactly when no name has a space where it does harm. */
  lemma ReadBack(table: string, chains: Chains)
    requires OneLine(chains) && '\n' !in table
    ensures Collect(SkipTo(RawLines(SaveText(table, chains)), "*" + table), map[]) == Some(ChainsShown(chains))
            <==> if TrimRight(table) == table then forall c | c in chains :: ' ' !in c else chains == map[]
  {
    hide Collect;
    hide RawLines;
    hide SaveText;
    var ts: Saved := map[table := chains];
    assert SaveAllText([table], ts) == SaveText(table, chains) + SaveAllText([], ts);
    assert SaveAllText([table], ts) == SaveText(table, chains);
    TrimRightEnds(table);
    ReadBackExactly(table, [table], ts, if TrimRight(table) == table then 0 else 1);
  }
}
