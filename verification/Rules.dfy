/** The rule normaliser of `utils/iptables/testing/fake_iptables.go`. */
module Rules {
  import opened Strings

  /** `unicode.IsSpace`. */
  predicate IsWhite(c: char) {
    c in {' ', '\t', '\n', '\r', '\U{000B}', '\U{000C}', '\U{0085}', '\U{00A0}', '\U{1680}', '\U{2028}', '\U{2029}',
          '\U{202F}', '\U{205F}', '\U{3000}'}
    || '\U{2000}' <= c <= '\U{200A}'
  }

  /** `strings.TrimSpace`. */
  function TrimSpace(s: string): (r: string)
    ensures |r| <= |s|
    ensures r != "" ==> !IsWhite(r[0]) && !IsWhite(r[|r| - 1])
    ensures forall c | c in r :: c in s
    decreases |s|
  {
    if s == "" then s
    else if IsWhite(s[0]) then TrimSpace(s[1..])
    else if IsWhite(s[|s| - 1]) then TrimSpace(s[..|s| - 1])
    else s
  }

  /** The only white space in the text is the space. */
  ghost predicate SpacesOnly(s: string) { forall c | c in s && IsWhite(c) :: c == ' ' }

  /** The one thing the model asks of `net.ParseIP`: what it accepts looks like an address. */
  predicate IPChar(c: char) { '0' <= c <= '9' || 'a' <= c <= 'f' || 'A' <= c <= 'F' || c == '.' || c == ':' }

  ghost predicate LooksRight(isIP: string -> bool) {
    forall t | isIP(t) :: t != "" && forall c | c in t :: IPChar(c)
  }

  const DESTINATION := "--to-destination="

  /** Line 176: the first `=` of a leading `--to-destination=` becomes a space. */
  function Loosen(remaining: string): (r: string)
    ensures |r| == |remaining|
  {
    if DESTINATION <= remaining then remaining[16 := ' '] else remaining
  }

  datatype Scanned = Args(list: seq<string>) | Mismatched | Panics

  /** Where the first argument ends; None on a quote without its mate. */
  function ArgEnd(r: string): (end: Option<nat>)
    requires r != ""
    ensures end.Some? ==> end.value <= |r|
  {
    if r[0] == '"' then
      var i := IndexOf(r[1..], '"');
      if i == |r| - 1 then None else Some(i + 2)
    else Some(IndexOf(r, ' '))
  }

  function Widen(arg: string, isIP: string -> bool): string { if isIP(arg) then arg + "/32" else arg }

  /** The arguments the loop of lines 173-207 finds; on an empty rest it indexes out of range. */
  function Scan(remaining: string, isIP: string -> bool): Scanned
    decreases |remaining|
  {
    if remaining == "" then Panics
    else
      var r := Loosen(remaining);
      var end := ArgEnd(r);
      if end.None? then Mismatched
      else
        var arg := TrimSpace(Widen(r[..end.value], isIP));
        if end.value == |r| then Args([arg])
        else
          var rest := Scan(r[end.value + 1..], isIP);
          if rest.Args? then Args([arg] + rest.list) else rest
  }

  /** Lines 199-202: a space between arguments, once there is something to separate. */
  function Glue(acc: string, args: seq<string>): string
    decreases |args|
  {
    if args == [] then acc else Glue((if acc == "" then "" else acc + " ") + args[0], args[1..])
  }

  datatype Outcome = Normal(rule: string) | BadQuotes | Panic

  function Finish(acc: string, scanned: Scanned): Outcome {
    match scanned
    case Args(list) => Normal(Glue(acc, list))
    case Mismatched => BadQuotes
    case Panics => Panic
  }

  function Normalize(rule: string, isIP: string -> bool): Outcome { Finish("", Scan(TrimSpace(rule), isIP)) }

  function Extend(acc: string, arg: string): string { (if acc == "" then "" else acc + " ") + arg }

  lemma GlueOne(acc: string, arg: string, args: seq<string>)
    ensures Glue(acc, [arg] + args) == Glue(Extend(acc, arg), args)
    ensures args == [] ==> [arg] + args == [arg] && Glue(Extend(acc, arg), args) == Extend(acc, arg)
  {
    assert ([arg] + args)[1..] == args;
  }

  /** One turn of the loop. */
  lemma Turn(acc: string, remaining: string, isIP: string -> bool)
    requires remaining != ""
    ensures var r := Loosen(remaining);
            var end := ArgEnd(r);
            Finish(acc, Scan(remaining, isIP)) ==
              if end.None? then BadQuotes
              else
                var acc' := Extend(acc, TrimSpace(Widen(r[..end.value], isIP)));
                if end.value == |r| then Normal(acc') else Finish(acc', Scan(r[end.value + 1..], isIP))
  {
    hide Loosen;
    hide ArgEnd;
    hide Widen;
    hide TrimSpace;
    var r := Loosen(remaining);
    var end := ArgEnd(r);
    if end.Some? {
      var arg := TrimSpace(Widen(r[..end.value], isIP));
      GlueOne(acc, arg, []);
      if end.value < |r| {
        var rest := Scan(r[end.value + 1..], isIP);
        if rest.Args? { GlueOne(acc, arg, rest.list); }
      }
    }
  }

  /** `normalizeRule`. */
  method NormalizeRule(rule: string, isIP: string -> bool) returns (r: Outcome)
    ensures r == Normalize(rule, isIP)
  {
    hide Loosen;
    hide ArgEnd;
    hide Widen;
    hide Scan;
    hide Finish;
    var normalized, remaining := "", TrimSpace(rule);
    hide TrimSpace;
    ScanEmpty(isIP);
    while true
      invariant Finish(normalized, Scan(remaining, isIP)) == Normalize(rule, isIP)
      decreases |remaining|
    {
      if remaining == "" {
        FinishPanics(normalized);
        return Panic;
      }
      Turn(normalized, remaining, isIP);
      remaining := Loosen(remaining);
      var end := ArgEnd(remaining);
      if end.None? { return BadQuotes; }
      var arg := Widen(remaining[..end.value], isIP);
      if normalized != "" {
        normalized := normalized + " ";
      }
      normalized := normalized + TrimSpace(arg);
      if end.value == |remaining| { break; }
      remaining := remaining[end.value + 1..];
    }
    r := Normal(normalized);
  }

  lemma ScanEmpty(isIP: string -> bool)
    ensures Scan("", isIP) == Panics
  {
  }

  lemma FinishPanics(acc: string)
    ensures Finish(acc, Panics) == Panic
  {
  }

  // ------------------------------------------------- idempotence

  predicate Quoted(arg: string) {
    |arg| >= 2 && arg[0] == '"' && arg[|arg| - 1] == '"' && '"' !in arg[1..|arg| - 1]
  }

  predicate Plain(arg: string) { ' ' !in arg && (arg == "" || arg[0] != '"') }

  /** An argument as it stands in a normalised rule. */
  ghost predicate Settled(arg: string, isIP: string -> bool) {
    (Quoted(arg) || Plain(arg)) && !isIP(arg) && !(DESTINATION <= arg) && TrimSpace(arg) == arg
  }

  ghost predicate AllSettled(args: seq<string>, isIP: string -> bool) {
    && args != [] && args[|args| - 1] != ""
    && forall a | a in args :: Settled(a, isIP)
  }

  lemma TrimSettled(arg: string, isIP: string -> bool)
    requires Settled(arg, isIP)
    ensures TrimSpace(arg) == arg
  {
  }

  lemma NotDestination(arg: string, rest: string)
    requires !(DESTINATION <= arg) && (rest == "" || rest[0] == ' ')
    ensures !(DESTINATION <= arg + rest)
  {
    assert forall i | 0 <= i < 17 :: DESTINATION[i] != ' ';
    assert |arg| >= 17 ==> (arg + rest)[..17] == arg[..17];
    assert rest != "" ==> (arg + rest)[|arg|] == ' ';
    assert rest == "" ==> arg + rest == arg;
  }

  /** The scanner cuts off a quoted or plain argument where it ends, whatever follows the space. */
  lemma TokenEnd(arg: string, rest: string)
    requires (Quoted(arg) || Plain(arg)) && (rest != "" ==> rest[0] == ' ') && arg + rest != ""
    ensures ArgEnd(arg + rest) == Some(|arg|)
  {
    var s := arg + rest;
    if Quoted(arg) {
      assert s[1..][..|arg| - 2] == arg[1..|arg| - 1];
      IndexOfUnique(s[1..], '"', |arg| - 2);
    } else {
      assert s[..|arg|] == arg;
      IndexOfUnique(s, ' ', |arg|);
    }
  }

  lemma EndSettled(arg: string, rest: string, isIP: string -> bool)
    requires Settled(arg, isIP) && (rest != "" ==> rest[0] == ' ') && arg + rest != ""
    ensures Loosen(arg + rest) == arg + rest
    ensures ArgEnd(arg + rest) == Some(|arg|)
  {
    hide ArgEnd;
    NotDestination(arg, rest);
    TokenEnd(arg, rest);
  }

  /** The scanner, one argument at a time. */
  lemma ScanOne(remaining: string, isIP: string -> bool, r: string, end: nat)
    requires remaining != "" && r == Loosen(remaining) && ArgEnd(r) == Some(end)
    ensures var arg := TrimSpace(Widen(r[..end], isIP));
            if end == |r| then Scan(remaining, isIP) == Args([arg])
            else
              var rest := Scan(r[end + 1..], isIP);
              Scan(remaining, isIP) == if rest.Args? then Args([arg] + rest.list) else rest
  {
    hide Loosen;
    hide ArgEnd;
    hide Widen;
    hide TrimSpace;
  }

  lemma {:induction false} ScanSettled(args: seq<string>, isIP: string -> bool)
    requires AllSettled(args, isIP)
    ensures Join(args, ' ') != "" && Scan(Join(args, ' '), isIP) == Args(args)
    decreases |args|
  {
    hide Scan;
    hide TrimSpace;
    hide Widen;
    hide Settled;
    hide Loosen;
    hide ArgEnd;
    var first := args[0];
    assert first in args;
    TrimSettled(first, isIP);
    SettledNotIP(first, isIP);
    if |args| == 1 {
      assert args == [first] && first + "" == first;
      EndSettled(first, "", isIP);
      ScanOne(first, isIP, first, |first|);
      assert first[..|first|] == first;
    } else {
      var s, rest := Join(args, ' '), Join(args[1..], ' ');
      assert s == first + (" " + rest);
      EndSettled(first, " " + rest, isIP);
      ScanOne(s, isIP, s, |first|);
      assert s[..|first|] == first && s[|first| + 1..] == rest;
      ScanSettled(args[1..], isIP);
      assert args == [first] + args[1..];
    }
  }

  lemma SettledNotIP(arg: string, isIP: string -> bool)
    requires Settled(arg, isIP)
    ensures Widen(arg, isIP) == arg
  {
  }

  lemma NoWhite(s: string)
    requires forall c | c in s :: !IsWhite(c)
    ensures TrimSpace(s) == s
  {
    if s != "" {
      assert s[0] in s && s[|s| - 1] in s;
      TrimNothing(s);
    }
  }

  lemma TrimQuoted(s: string)
    requires Quoted(s)
    ensures TrimSpace(s) == s
  {
    TrimNothing(s);
  }

  /** What the scanner cuts off is settled, when the only white space is the space. */
  lemma CutSettled(r: string, end: nat, isIP: string -> bool)
    requires LooksRight(isIP) && SpacesOnly(r) && r != "" && ArgEnd(r) == Some(end) && !(DESTINATION <= r)
    ensures Settled(Widen(r[..end], isIP), isIP) && '\n' !in Widen(r[..end], isIP)
    ensures r[0] != ' ' ==> end > 0
  {
    var arg := r[..end];
    hide TrimSpace;
    assert !(DESTINATION <= arg);
    assert '\n' !in arg by { assert IsWhite('\n') && forall c | c in arg :: c in r; }
    if r[0] == '"' {
      var i := end - 2;
      assert arg[1..|arg| - 1] == r[1..][..i];
      assert Quoted(arg);
      TrimQuoted(arg);
      assert !IPChar('"') && arg[0] in arg;
    } else {
      assert Plain(arg);
      assert forall c | c in arg :: !IsWhite(c) by {
        forall c | c in arg ensures !IsWhite(c) { assert c in r && c != ' '; }
      }
      NoWhite(arg);
      if isIP(arg) { IPSettled(arg, isIP); }
    }
  }

  lemma IPSettled(arg: string, isIP: string -> bool)
    requires LooksRight(isIP) && isIP(arg)
    ensures Settled(arg + "/32", isIP) && '\n' !in arg + "/32" && Plain(arg)
  {
    var wide := arg + "/32";
    hide TrimSpace;
    assert wide[|arg|] == '/' && wide[|arg|] in wide && !IPChar('/');
    assert wide[0] == arg[0] && arg[0] in arg && IPChar(arg[0]) && !IPChar(DESTINATION[0]);
    forall c | c in wide ensures !IsWhite(c) {
      assert c in arg || c in "/32";
    }
    assert !IPChar(' ') && !IPChar('"') && !IPChar('\n');
    NoWhite(wide);
  }

  lemma LoosenKeeps(remaining: string)
    requires SpacesOnly(remaining)
    ensures SpacesOnly(Loosen(remaining)) && !(DESTINATION <= Loosen(remaining))
    ensures remaining != "" ==> Loosen(remaining)[0] == remaining[0]
    ensures remaining != "" && Loosen(remaining)[|remaining| - 1] != remaining[|remaining| - 1] ==>
              |remaining| == 17 && ArgEnd(Loosen(remaining)) == Some(16)
  {
    var r := Loosen(remaining);
    forall c | c in r && IsWhite(c) ensures c == ' ' {
      var i :| 0 <= i < |r| && r[i] == c;
      assert i != 16 ==> r[i] == remaining[i] && remaining[i] in remaining;
    }
    if DESTINATION <= remaining {
      assert r[16] == ' ' && DESTINATION[16] == '=';
      if |remaining| == 17 {
        assert forall i | 0 <= i < 16 :: r[i] == DESTINATION[i] != ' ';
        IndexOfUnique(r, ' ', 16);
      }
    }
  }

  lemma {:induction false} ScanMakesSettled(remaining: string, isIP: string -> bool)
    requires LooksRight(isIP) && SpacesOnly(remaining)
    requires remaining != "" ==> remaining[|remaining| - 1] != ' '
    requires Scan(remaining, isIP).Args?
    ensures AllSettled(Scan(remaining, isIP).list, isIP) && FreeOf(Scan(remaining, isIP).list, '\n')
    ensures remaining[0] != ' ' ==> Scan(remaining, isIP).list[0] != ""
    decreases |remaining|
  {
    hide Settled;
    hide ArgEnd;
    hide SpacesOnly;
    hide Scan;
    hide TrimSpace;
    hide Loosen;
    hide LooksRight;
    ScanEmpty(isIP);
    var r := Loosen(remaining);
    LoosenKeeps(remaining);
    ScanNone(remaining, isIP);
    var end := ArgEnd(r).value;
    ScanOne(remaining, isIP, r, end);
    CutSettled(r, end, isIP);
    TrimSettled(Widen(r[..end], isIP), isIP);
    if end < |r| {
      var rest := r[end + 1..];
      SpacesOnlySuffix(r, end + 1);
      ScanMakesSettled(rest, isIP);
    }
  }

  lemma ScanNone(remaining: string, isIP: string -> bool)
    requires Scan(remaining, isIP).Args?
    ensures remaining != "" && ArgEnd(Loosen(remaining)).Some?
  {
    hide Loosen;
    hide ArgEnd;
  }

  lemma SpacesOnlySuffix(s: string, i: nat)
    requires SpacesOnly(s) && i <= |s|
    ensures SpacesOnly(s[i..])
  {
  }

  lemma {:induction false} GlueJoin(acc: string, args: seq<string>)
    requires args != [] && (acc == "" ==> args[0] != "")
    ensures Glue(acc, args) == (if acc == "" then "" else acc + " ") + Join(args, ' ')
    decreases |args|
  {
    var acc' := (if acc == "" then "" else acc + " ") + args[0];
    if |args| > 1 {
      GlueJoin(acc', args[1..]);
      assert Join(args, ' ') == args[0] + " " + Join(args[1..], ' ');
    }
  }

  /** A rule as it is stored: normalising it again changes nothing, and it fits on one line. */
  ghost predicate Stored(rule: string, isIP: string -> bool) {
    Normalize(rule, isIP) == Normal(rule) && '\n' !in rule
  }

  /** Settled arguments, joined, are left alone. */
  lemma SettledFixed(args: seq<string>, isIP: string -> bool)
    requires AllSettled(args, isIP) && args[0] != ""
    ensures Normalize(Join(args, ' '), isIP) == Normal(Join(args, ' '))
  {
    hide Scan;
    hide Glue;
    hide IsWhite;
    hide TrimSpace;
    var n := Join(args, ' ');
    GlueJoin("", args);
    ScanSettled(args, isIP);
    JoinEnds(args, isIP);
    hide Settled;
    TrimNothing(n);
    assert "" + n == n;
  }

  /** Normalising is idempotent on the rules it accepts, as long as spaces are their only white space. */
  lemma NormalizeIdempotent(rule: string, isIP: string -> bool)
    requires LooksRight(isIP) && SpacesOnly(rule) && Normalize(rule, isIP).Normal?
    ensures Stored(Normalize(rule, isIP).rule, isIP)
  {
    hide Scan;
    hide Glue;
    hide IsWhite;
    hide LooksRight;
    hide AllSettled;
    var trimmed := TrimSpace(rule);
    TrimKeeps(rule);
    hide TrimSpace;
    hide SpacesOnly;
    var args := Scan(trimmed, isIP).list;
    ScanEmpty(isIP);
    ScanMakesSettled(trimmed, isIP);
    SettledNonEmpty(args, isIP);
    GlueJoin("", args);
    SettledFixed(args, isIP);
    JoinNewline(args);
    assert "" + Join(args, ' ') == Join(args, ' ');
  }

  /** A tab can hide `--to-destination=` from the first pass and not from the second. */
  lemma TabBreaks(isIP: string -> bool)
    requires LooksRight(isIP)
    ensures Normalize("-d" + (" " + "\t--to-destination=x"), isIP) == Normal("-d" + " " + "--to-destination=x")
    ensures Normalize("-d" + (" " + "--to-destination=x"), isIP) == Normal("-d" + " " + "--to-destination" + " " + "x")
  {
    TabbedPass(isIP);
    PlainPass(isIP);
    hide *;
  }

  lemma TabbedPass(isIP: string -> bool)
    requires LooksRight(isIP)
    ensures Normalize("-d" + (" " + "\t--to-destination=x"), isIP) == Normal("-d" + " " + "--to-destination=x")
  {
    SettledD(isIP);
    ScanTabbed(isIP);
    hide *;
    var rest, arg := "\t--to-destination=x", "--to-destination=x";
    EndsInX(rest);
    AfterD(rest, [arg], isIP);
    GlueTwo("-d", arg);
  }

  lemma PlainPass(isIP: string -> bool)
    requires LooksRight(isIP)
    ensures Normalize("-d" + (" " + "--to-destination=x"), isIP) == Normal("-d" + " " + "--to-destination" + " " + "x")
  {
    SettledD(isIP);
    ScanDestination(isIP);
    hide *;
    var rest, arg := "--to-destination=x", "--to-destination";
    EndsInX(rest);
    AfterD(rest, [arg, "x"], isIP);
    GlueThree("-d", arg, "x");
  }

  lemma EndsInX(s: string)
    requires s != "" && s[|s| - 1] == 'x'
    ensures !IsWhite(s[|s| - 1])
  {
  }

  /** A settled argument in front of others. */
  lemma ScanAfter(arg: string, rest: string, isIP: string -> bool)
    requires Settled(arg, isIP) && arg != "" && rest != ""
    ensures var more := Scan(rest, isIP);
            Scan(arg + (" " + rest), isIP) == if more.Args? then Args([arg] + more.list) else more
  {
    hide *;
    var s := arg + (" " + rest);
    EndSettled(arg, " " + rest, isIP);
    TrimSettled(arg, isIP);
    SettledNotIP(arg, isIP);
    assert s[..|arg|] == arg && s[|arg| + 1..] == rest;
    ScanOne(s, isIP, s, |arg|);
  }

  lemma TrimAfterD(rest: string)
    requires rest != "" && !IsWhite(rest[|rest| - 1])
    ensures TrimSpace("-d" + (" " + rest)) == "-d" + (" " + rest)
  {
    hide TrimSpace;
    var s := "-d" + (" " + rest);
    assert s[0] == '-' && s[|s| - 1] == rest[|rest| - 1];
    TrimNothing(s);
  }

  lemma AfterD(rest: string, args: seq<string>, isIP: string -> bool)
    requires Settled("-d", isIP) && rest != "" && !IsWhite(rest[|rest| - 1]) && Scan(rest, isIP) == Args(args)
    ensures Normalize("-d" + (" " + rest), isIP) == Normal(Glue("", ["-d"] + args))
  {
    hide *;
    TrimAfterD(rest);
    ScanAfter("-d", rest, isIP);
    NormalizeIs("-d" + (" " + rest), ["-d"] + args, isIP);
  }

  lemma NormalizeIs(s: string, args: seq<string>, isIP: string -> bool)
    requires TrimSpace(s) == s && Scan(s, isIP) == Args(args)
    ensures Normalize(s, isIP) == Normal(Glue("", args))
  {
    hide Scan;
    hide TrimSpace;
  }

  lemma GlueTwo(x: string, y: string)
    requires x != ""
    ensures Glue("", [x] + [y]) == x + " " + y
  {
    GlueOne("", x, [y]);
    GlueOne(x, y, []);
    assert "" + x == x;
  }

  lemma GlueThree(x: string, y: string, z: string)
    requires x != ""
    ensures Glue("", [x] + [y, z]) == x + " " + y + " " + z
  {
    GlueOne("", x, [y, z]);
    GlueOne(x, y, [z]);
    GlueOne(x + " " + y, z, []);
    assert [y] + [z] == [y, z] && "" + x == x;
  }

  lemma DashNotIP(arg: string, c: char, isIP: string -> bool)
    requires LooksRight(isIP) && c in arg && !IPChar(c)
    ensures !isIP(arg)
  {
  }

  lemma SettledD(isIP: string -> bool)
    requires LooksRight(isIP)
    ensures Settled("-d", isIP)
  {
    assert "-d"[0] == '-' && '-' in "-d";
    DashNotIP("-d", '-', isIP);
    assert "-d"[0] == '-' && DESTINATION[1] == '-' && "-d"[1] == 'd';
  }

  lemma TrimTab(s: string)
    requires |s| >= 2 && s[0] == '\t' && !IsWhite(s[1]) && !IsWhite(s[|s| - 1])
    ensures TrimSpace(s) == s[1..]
  {
    TrimNothing(s[1..]);
  }

  lemma ScanTabbed(isIP: string -> bool)
    requires LooksRight(isIP)
    ensures Scan("\t--to-destination=x", isIP) == Args(["--to-destination=x"])
  {
    hide Scan;
    hide TrimSpace;
    hide IndexOf;
    hide LooksRight;
    var s := "\t--to-destination=x";
    assert s[0] == '\t' && s[1] == '-' && s[18] == 'x' && DESTINATION[0] == '-';
    assert forall i | 0 <= i < |s| :: s[i] != ' ';
    assert s[..|s|] == s;
    IndexOfUnique(s, ' ', |s|);
    assert s[1] in s;
    DashNotIP(s, '-', isIP);
    TrimTab(s);
    assert s[1..] == "--to-destination=x";
    assert Loosen(s) == s && ArgEnd(s) == Some(|s|) && Widen(s, isIP) == s;
    hide Loosen;
    hide ArgEnd;
    hide Widen;
    ScanOne(s, isIP, s, |s|);
  }

  lemma ScanDestination(isIP: string -> bool)
    requires LooksRight(isIP)
    ensures Scan("--to-destination=x", isIP) == Args(["--to-destination", "x"])
  {
    hide Scan;
    hide TrimSpace;
    hide IndexOf;
    var s, r, arg := "--to-destination=x", "--to-destination x", "--to-destination";
    LetterX(isIP);
    hide LooksRight;
    assert s[..17] == DESTINATION;
    assert Loosen(s) == r;
    assert r[..16] == arg && r[17..] == "x" && r[0] == '-' && r[16] == ' ';
    assert forall i | 0 <= i < 16 :: arg[i] != ' ';
    IndexOfUnique(r, ' ', 16);
    assert arg[0] == '-' && arg[15] == 'n' && arg[0] in arg;
    DashNotIP(arg, '-', isIP);
    TrimNothing(arg);
    assert ArgEnd(r) == Some(16) && Widen(arg, isIP) == arg;
    hide Loosen;
    hide ArgEnd;
    hide Widen;
    ScanOne(s, isIP, r, 16);
  }

  lemma LetterX(isIP: string -> bool)
    requires LooksRight(isIP)
    ensures Scan("x", isIP) == Args(["x"])
  {
    assert 'x' in "x" && !IPChar('x');
    DashNotIP("x", 'x', isIP);
    assert Settled("x", isIP);
    assert AllSettled(["x"], isIP);
    ScanSettled(["x"], isIP);
  }

  lemma SettledNonEmpty(args: seq<string>, isIP: string -> bool)
    requires AllSettled(args, isIP)
    ensures args != []
  {
  }

  lemma TrimKeeps(s: string)
    requires SpacesOnly(s)
    ensures SpacesOnly(TrimSpace(s))
    ensures TrimSpace(s) != "" ==> TrimSpace(s)[0] != ' ' && TrimSpace(s)[|TrimSpace(s)| - 1] != ' '
  {
  }

  lemma TrimNothing(s: string)
    requires s != "" && !IsWhite(s[0]) && !IsWhite(s[|s| - 1])
    ensures TrimSpace(s) == s
  {
  }

  lemma {:induction false} JoinEnds(args: seq<string>, isIP: string -> bool)
    requires AllSettled(args, isIP)
    ensures var n := Join(args, ' ');
            n != "" && !IsWhite(n[|n| - 1]) && (args[0] != "" ==> !IsWhite(n[0]))
    decreases |args|
  {
    hide Settled;
    var first := args[0];
    assert first in args;
    if first != "" { SettledEnds(first, isIP); }
    if |args| > 1 {
      JoinEnds(args[1..], isIP);
    }
  }

  lemma SettledEnds(arg: string, isIP: string -> bool)
    requires Settled(arg, isIP) && arg != ""
    ensures !IsWhite(arg[0]) && !IsWhite(arg[|arg| - 1])
  {
  }

  lemma {:induction false} JoinNewline(args: seq<string>)
    requires args != []
    ensures '\n' in Join(args, ' ') <==> !FreeOf(args, '\n')
    decreases |args|
  {
    assert args[0] in args;
    if |args| > 1 {
      JoinNewline(args[1..]);
      assert args == [args[0]] + args[1..];
    }
  }
}
