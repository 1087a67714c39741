/** What the normaliser of `utils/iptables/testing/fake_iptables.go` makes of a rule, argument by argument. */
module NormalForms {
  import opened Strings
  import opened Rules
  import opened FixedPoints
  import opened FakeClass

  /** In quotes, or without spaces; and not a destination to be split. */
  ghost predicate Argument(a: string) {
    && ((|a| >= 2 && a[0] == '"' && a[|a| - 1] == '"' && '"' !in a[1..|a| - 1])
        || (' ' !in a && (a == "" || a[0] != '"')))
    && !("--to-destination=" <= a)
  }

  ghost predicate Arguments(args: seq<string>) { args != [] && forall a | a in args :: Argument(a) }

  /** An address gets its prefix length, anything else loses the white space around it. */
  ghost predicate Becomes(args: seq<string>, out: seq<string>, isIP: string -> bool) {
    && |out| == |args|
    && forall i | 0 <= i < |args| :: out[i] == if isIP(args[i]) then args[i] + "/32" else TrimSpace(args[i])
  }

  lemma WidenIs(a: string, isIP: string -> bool)
    requires LooksRight(isIP)
    ensures TrimSpace(Widen(a, isIP)) == if isIP(a) then a + "/32" else TrimSpace(a)
  {
    if isIP(a) {
      var wide := a + "/32";
      assert a[0] in a && !IsWhite(a[0]) && wide[|wide| - 1] == '2';
      TrimNothing(wide);
    }
  }

  /** The scanner cuts off an argument in front of a space and goes on behind it. */
  lemma ScanArgument(a: string, rest: string, isIP: string -> bool)
    requires Argument(a) && LooksRight(isIP)
    ensures var more := Scan(rest, isIP);
            var out := if isIP(a) then a + "/32" else TrimSpace(a);
            Scan(a + " " + rest, isIP) == if more.Args? then Args([out] + more.list) else more
  {
    var s := a + " " + rest;
    assert s == a + (" " + rest);
    NotDestination(a, " " + rest);
    TokenEnd(a, " " + rest);
    WidenIs(a, isIP);
    hide *;
    LoosenNothing(s);
    assert s[..|a|] == a && s[|a| + 1..] == rest;
    ScanOne(s, isIP, s, |a|);
  }

  lemma LoosenNothing(s: string)
    requires !(DESTINATION <= s)
    ensures Loosen(s) == s
  {
  }

  lemma ScanLast(a: string, isIP: string -> bool)
    requires Argument(a) && a != "" && LooksRight(isIP)
    ensures Scan(a, isIP) == Args([if isIP(a) then a + "/32" else TrimSpace(a)])
  {
    assert a + "" == a;
    TokenEnd(a, "");
    WidenIs(a, isIP);
    LoosenNothing(a);
    hide *;
    assert a[..|a|] == a;
    ScanOne(a, isIP, a, |a|);
  }

  lemma {:induction false} ScanArguments(args: seq<string>, isIP: string -> bool) returns (out: seq<string>)
    requires Arguments(args) && args[|args| - 1] != "" && LooksRight(isIP)
    ensures Becomes(args, out, isIP) && Scan(Join(args, ' '), isIP) == Args(out)
    decreases |args|
  {
    hide Scan;
    hide TrimSpace;
    hide LooksRight;
    hide Argument;
    var first := args[0];
    assert Argument(first);
    if |args| == 1 {
      ScanLast(first, isIP);
      out := [if isIP(first) then first + "/32" else TrimSpace(first)];
    } else {
      ScanArgument(first, Join(args[1..], ' '), isIP);
      out := ScanArguments(args[1..], isIP);
      out := [if isIP(first) then first + "/32" else TrimSpace(first)] + out;
    }
  }

  /**
   A rule of quoted or plain arguments becomes those arguments with single spaces between them, each address `a`
   as `a/32`.
   */
  lemma NormalizesEach(rule: string, args: seq<string>, isIP: string -> bool) returns (out: seq<string>)
    requires LooksRight(isIP) && Arguments(args) && TrimSpace(rule) == Join(args, ' ') != ""
    ensures Becomes(args, out, isIP) && out != [] && Normalize(rule, isIP) == Normal(Join(out, ' '))
  {
    var n := TrimSpace(rule);
    FirstOf(args);
    LastOf(args);
    out := ScanArguments(args, isIP);
    hide Scan;
    hide Glue;
    hide Join;
    TrimmedHead(args[0], isIP);
    hide TrimSpace;
    GlueJoin("", out);
    assert "" + Join(out, ' ') == Join(out, ' ');
  }

  lemma FirstOf(args: seq<string>)
    requires args != [] && Join(args, ' ') != "" && Join(args, ' ')[0] != ' '
    ensures args[0] != "" && args[0][0] == Join(args, ' ')[0]
  {
  }

  lemma {:induction false} LastOf(args: seq<string>)
    requires args != [] && Join(args, ' ') != "" && Join(args, ' ')[|Join(args, ' ')| - 1] != ' '
    ensures args[|args| - 1] != ""
    decreases |args|
  {
    if |args| > 1 { LastOf(args[1..]); }
  }

  lemma TrimmedHead(a: string, isIP: string -> bool)
    requires a != "" && !IsWhite(a[0])
    ensures TrimSpace(a) != "" && a + "/32" != ""
  {
    TrimHead(a);
  }

  /** Behind any arguments, a destination is split at its `=`. */
  lemma DestinationSplit(args: seq<string>, rest: string, isIP: string -> bool)
    requires LooksRight(isIP) && Arguments(args) && args[0] != "" && !IsWhite(args[0][0])
    requires rest != "" && !IsWhite(rest[|rest| - 1])
    ensures Normalize(Join(args, ' ') + " " + ("--to-destination=" + rest), isIP) ==
              Normalize(Join(args, ' ') + " " + ("--to-destination " + rest), isIP)
  {
    SplitHere(rest, isIP);
    Behind(args, "--to-destination=" + rest, "--to-destination " + rest, isIP);
    JoinStarts(args);
    EndsTrimmed(Join(args, ' '), "--to-destination=", rest);
    EndsTrimmed(Join(args, ' '), "--to-destination ", rest);
    hide Scan;
    hide Finish;
    hide TrimSpace;
    hide Join;
  }

  lemma JoinStarts(args: seq<string>)
    requires args != [] && args[0] != ""
    ensures Join(args, ' ') != "" && Join(args, ' ')[0] == args[0][0]
  {
  }

  lemma EndsTrimmed(front: string, word: string, rest: string)
    requires front != "" && !IsWhite(front[0]) && rest != "" && !IsWhite(rest[|rest| - 1])
    ensures TrimSpace(front + " " + (word + rest)) == front + " " + (word + rest)
  {
    var s := front + " " + (word + rest);
    assert s[0] == front[0] && s[|s| - 1] == rest[|rest| - 1];
    TrimNothing(s);
  }

  lemma SplitHere(rest: string, isIP: string -> bool)
    ensures Scan("--to-destination=" + rest, isIP) == Scan("--to-destination " + rest, isIP)
  {
    var s, r := "--to-destination=" + rest, "--to-destination " + rest;
    assert r[16] == ' ' && DESTINATION[16] == '=';
    assert Loosen(r) == r;
    assert s[16 := ' '] == r;
    assert Loosen(s) == r;
    hide Loosen;
    hide ArgEnd;
    hide Widen;
    hide TrimSpace;
  }

  /** The same is found behind any arguments when the same is found without them. */
  lemma {:induction false} Behind(args: seq<string>, x: string, y: string, isIP: string -> bool)
    requires LooksRight(isIP) && Arguments(args) && Scan(x, isIP) == Scan(y, isIP)
    ensures Scan(Join(args, ' ') + " " + x, isIP) == Scan(Join(args, ' ') + " " + y, isIP)
    decreases |args|
  {
    hide Scan;
    hide TrimSpace;
    hide LooksRight;
    hide Argument;
    var first := args[0];
    assert Argument(first);
    if |args| == 1 {
      ScanArgument(first, x, isIP);
      ScanArgument(first, y, isIP);
    } else {
      var rest := Join(args[1..], ' ');
      Behind(args[1..], x, y, isIP);
      ScanArgument(first, rest + " " + x, isIP);
      ScanArgument(first, rest + " " + y, isIP);
      assert Join(args, ' ') + " " + x == first + " " + (rest + " " + x);
      assert Join(args, ' ') + " " + y == first + " " + (rest + " " + y);
    }
  }

  // ------------------------------------------------- the rules that fail

  lemma {:induction false} FailsBehind(args: seq<string>, x: string, isIP: string -> bool)
    requires LooksRight(isIP) && Arguments(args) && !Scan(x, isIP).Args?
    ensures Scan(Join(args, ' ') + " " + x, isIP) == Scan(x, isIP)
    decreases |args|
  {
    hide Scan;
    hide TrimSpace;
    hide LooksRight;
    hide Argument;
    var first := args[0];
    assert Argument(first);
    if |args| == 1 {
      ScanArgument(first, x, isIP);
    } else {
      var rest := Join(args[1..], ' ');
      FailsBehind(args[1..], x, isIP);
      ScanArgument(first, rest + " " + x, isIP);
      assert Join(args, ' ') + " " + x == first + " " + (rest + " " + x);
    }
  }

  /** Nothing but white space makes the normaliser index out of range. */
  lemma NothingPanics(rule: string, isIP: string -> bool)
    requires TrimSpace(rule) == ""
    ensures Normalize(rule, isIP) == Panic
  {
    ScanEmpty(isIP);
  }

  /** At the front of a rule or behind any arguments, a quote without its mate is an error. */
  lemma OpenQuoteRefused(args: seq<string>, open: string, rule: string, isIP: string -> bool)
    requires LooksRight(isIP) && '"' !in open && (args != [] ==> Arguments(args))
    requires TrimSpace(rule) == (if args == [] then "" else Join(args, ' ') + " ") + ("\"" + open)
    ensures Normalize(rule, isIP) == BadQuotes
  {
    hide TrimSpace;
    var x := "\"" + open;
    ScanOpen(open, isIP);
    if args != [] { FailsBehind(args, x, isIP); } else { assert "" + x == x; }
    hide Scan;
  }

  lemma ScanOpen(open: string, isIP: string -> bool)
    requires '"' !in open
    ensures Scan("\"" + open, isIP) == Mismatched
  {
    var x := "\"" + open;
    assert x[0] == '"' && DESTINATION[0] == '-';
    LoosenNothing(x);
    hide Loosen;
    assert x[1..] == open;
    IndexOfFound(open, '"');
    hide IndexOf;
  }

  /** A single character behind the closing quote that ends a rule makes it index out of range. */
  lemma StrayPanics(args: seq<string>, quoted: string, c: char, rule: string, isIP: string -> bool)
    requires LooksRight(isIP) && '"' !in quoted && (args != [] ==> Arguments(args))
    requires TrimSpace(rule) == (if args == [] then "" else Join(args, ' ') + " ") + ("\"" + quoted + "\"" + [c])
    ensures Normalize(rule, isIP) == Panic
  {
    hide TrimSpace;
    var x := "\"" + quoted + "\"" + [c];
    ScanStray(quoted, c, isIP);
    if args != [] { FailsBehind(args, x, isIP); } else { assert "" + x == x; }
    hide Scan;
  }

  lemma ScanStray(quoted: string, c: char, isIP: string -> bool)
    requires '"' !in quoted
    ensures Scan("\"" + quoted + "\"" + [c], isIP) == Panics
  {
    var x := "\"" + quoted + "\"" + [c];
    var end := |quoted| + 2;
    assert x[0] == '"' && DESTINATION[0] == '-';
    LoosenNothing(x);
    hide Loosen;
    assert x[1..][|quoted|] == '"' && x[1..][..|quoted|] == quoted;
    IndexOfUnique(x[1..], '"', |quoted|);
    hide IndexOf;
    assert ArgEnd(x) == Some(end) && x[end + 1..] == "";
    ScanOne(x, isIP, x, end);
    ScanEmpty(isIP);
  }

  // ------------------------------------------------- the arguments of a request

  /** What a requested argument is stored as: quoted if it has a space. */
  ghost predicate StoredAs(args: seq<string>, out: seq<string>, isIP: string -> bool) {
    && |out| == |args|
    && forall i | 0 <= i < |args| ::
      out[i] == if ' ' in args[i] then "\"" + args[i] + "\""
                else if isIP(args[i]) then args[i] + "/32" else TrimSpace(args[i])
  }

  /** No quotes of its own, and not a destination to be split. */
  ghost predicate Requested(a: string) { '"' !in a && !("--to-destination=" <= a && ' ' !in a) }

  lemma QuotedArgument(a: string, isIP: string -> bool)
    requires Requested(a) && LooksRight(isIP)
    ensures Argument(Quote(a))
    ensures ' ' in a ==> !isIP(Quote(a)) && TrimSpace(Quote(a)) == Quote(a)
  {
    if ' ' in a {
      var q := "\"" + a + "\"";
      assert q[1..|q| - 1] == a && q[0] == '"' && q[0] in q;
      assert "--to-destination="[0] == '-';
      TrimNothing(q);
    }
  }

  /** The rule that `EnsureRule` stores, from its arguments. */
  lemma RequestStored(args: seq<string>, isIP: string -> bool) returns (out: seq<string>)
    requires LooksRight(isIP) && args != [] && forall a | a in args :: Requested(a)
    requires RuleText(args) != "" && TrimSpace(RuleText(args)) == RuleText(args)
    ensures StoredAs(args, out, isIP) && Normalize(RuleText(args), isIP) == Normal(Join(out, ' '))
  {
    var quoted := QuoteAll(args);
    assert Arguments(quoted) by {
      hide Argument;
      forall q | q in quoted ensures Argument(q) {
        var i :| 0 <= i < |args| && q == Quote(args[i]);
        assert args[i] in args;
        QuotedArgument(args[i], isIP);
      }
    }
    out := NormalizesEach(RuleText(args), quoted, isIP);
    hide Argument;
    hide TrimSpace;
    hide Normalize;
    hide Join;
    forall i | 0 <= i < |args|
      ensures out[i] == if ' ' in args[i] then "\"" + args[i] + "\""
                        else if isIP(args[i]) then args[i] + "/32" else TrimSpace(args[i])
    {
      assert args[i] in args;
      QuotedArgument(args[i], isIP);
    }
  }
}
