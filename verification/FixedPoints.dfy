/**
 Exactly which rules the normaliser of `utils/iptables/testing/fake_iptables.go` leaves alone, and when
 normalising twice is the same as normalising once.
 */
module FixedPoints {
  import opened Strings
  import opened Rules

  // ------------------------------------------------- trimming

  lemma {:induction false} TrimShortens(s: string)
    ensures TrimSpace(s) == s || |TrimSpace(s)| < |s|
    ensures TrimSpace(TrimSpace(s)) == TrimSpace(s)
    decreases |s|
  {
    if s != "" && IsWhite(s[0]) {
      TrimShortens(s[1..]);
    } else if s != "" && IsWhite(s[|s| - 1]) {
      TrimShortens(s[..|s| - 1]);
    }
  }

  lemma {:induction false} TrimHead(s: string)
    requires s != "" && !IsWhite(s[0])
    ensures TrimSpace(s) != "" && TrimSpace(s)[0] == s[0]
    decreases |s|
  {
    if IsWhite(s[|s| - 1]) { TrimHead(s[..|s| - 1]); }
  }

  lemma {:induction false} TrimTail(s: string)
    requires s != "" && !IsWhite(s[|s| - 1])
    ensures TrimSpace(s) != ""
    decreases |s|
  {
    if IsWhite(s[0]) { TrimTail(s[1..]); }
  }

  // ------------------------------------------------- what the scanner finds

  function Cut(r: string): string
    requires r != "" && ArgEnd(Loosen(r)).Some?
  {
    Loosen(r)[..ArgEnd(Loosen(r)).value]
  }

  function After(r: string): string
    requires r != "" && ArgEnd(Loosen(r)).Some?
  {
    var end := ArgEnd(Loosen(r)).value;
    if end == |r| then "" else Loosen(r)[end + 1..]
  }

  /** The arguments found in `r`: the first one cut off, then those of what comes after. */
  lemma Found(r: string, isIP: string -> bool)
    requires Scan(r, isIP).Args?
    ensures r != "" && ArgEnd(Loosen(r)).Some?
    ensures Scan(r, isIP).list == [TrimSpace(Widen(Cut(r), isIP))] +
              if |Cut(r)| == |r| then [] else (var more := Scan(After(r), isIP); if more.Args? then more.list else [])
    ensures |Cut(r)| < |r| ==> Scan(After(r), isIP).Args? && After(r) != "" && |After(r)| < |r|
  {
    hide Loosen;
    hide ArgEnd;
    hide TrimSpace;
    hide Widen;
    ScanEmpty(isIP);
  }

  lemma CutShape(r: string)
    requires r != "" && ArgEnd(Loosen(r)).Some?
    ensures Quoted(Cut(r)) || Plain(Cut(r))
  {
    var s, end := Loosen(r), ArgEnd(Loosen(r)).value;
    hide Loosen;
    if s[0] == '"' {
      assert s[..end][1..end - 1] == s[1..][..end - 2];
    }
  }

  lemma LoosenFirst(r: string)
    requires r != ""
    ensures Loosen(r)[0] == r[0]
  {
  }

  /** A leading `--to-destination=` is cut before its `=`. */
  lemma Destination(r: string)
    requires DESTINATION <= r
    ensures ArgEnd(Loosen(r)) == Some(16) && Cut(r) == DESTINATION[..16] && |r| > 16 && r[16] == '='
  {
    var s := Loosen(r);
    assert r[..17] == DESTINATION;
    assert forall i | 0 <= i < 16 :: s[i] == DESTINATION[i] != ' ';
    assert s[..16] == DESTINATION[..16];
    IndexOfUnique(s, ' ', 16);
  }

  lemma DestinationWord(isIP: string -> bool)
    requires LooksRight(isIP)
    ensures TrimSpace(Widen(DESTINATION[..16], isIP)) == DESTINATION[..16]
  {
    var word := DESTINATION[..16];
    assert word[0] == '-' && word[15] == 'n' && word[0] in word && !IPChar('-');
    TrimNothing(word);
  }

  predicate EndsSolid(r: string) { r != "" && !IsWhite(r[|r| - 1]) }

  predicate EndsFull(list: seq<string>) { list != [] && list[|list| - 1] != "" }

  lemma FoundLast(r: string, isIP: string -> bool)
    requires Scan(r, isIP).Args?
    ensures r != "" && ArgEnd(Loosen(r)).Some? && |Cut(r)| <= |r|
    ensures |Cut(r)| < |r| ==> Scan(After(r), isIP).Args? && After(r) != "" && |After(r)| < |r|
    ensures |Cut(r)| < |r| && EndsFull(Scan(After(r), isIP).list) ==> EndsFull(Scan(r, isIP).list)
    ensures |Cut(r)| == |r| && TrimSpace(Widen(Cut(r), isIP)) != "" ==> EndsFull(Scan(r, isIP).list)
  {
    Found(r, isIP);
    CutShort(r);
    hide Scan;
    hide Cut;
    hide After;
    hide TrimSpace;
    hide Widen;
  }

  lemma CutShort(r: string)
    requires r != "" && ArgEnd(Loosen(r)).Some?
    ensures |Cut(r)| <= |r|
  {
    hide Loosen;
    hide ArgEnd;
  }

  /** The last argument is not empty when the rule ends in something that is not white space. */
  lemma {:induction false} LastFound(r: string, isIP: string -> bool)
    requires LooksRight(isIP) && Scan(r, isIP).Args? && EndsSolid(r)
    ensures EndsFull(Scan(r, isIP).list)
    decreases |r|
  {
    hide *;
    FoundLast(r, isIP);
    if |Cut(r)| < |r| {
      LastAfter(r);
      LastFound(After(r), isIP);
    } else {
      WholeCut(r, isIP);
    }
  }

  lemma LastAfter(r: string)
    requires EndsSolid(r) && r != "" && ArgEnd(Loosen(r)).Some? && |Cut(r)| < |r| && After(r) != ""
    ensures EndsSolid(After(r))
  {
    LastChar(r);
    hide Loosen;
    hide ArgEnd;
    hide IsWhite;
    LastOfRest(Loosen(r), ArgEnd(Loosen(r)).value + 1);
  }

  lemma LastOfRest(s: string, k: nat)
    requires k < |s|
    ensures s[k..][|s[k..]| - 1] == s[|s| - 1]
  {
  }

  lemma WholeCut(r: string, isIP: string -> bool)
    requires EndsSolid(r) && r != "" && ArgEnd(Loosen(r)).Some? && |Cut(r)| == |r|
    ensures TrimSpace(Widen(Cut(r), isIP)) != ""
  {
    LastChar(r);
    hide Loosen;
    hide ArgEnd;
    hide IsWhite;
    assert Cut(r) == Loosen(r);
    WidenTail(Cut(r), isIP);
  }

  lemma LastChar(r: string)
    requires r != "" && ArgEnd(Loosen(r)).Some?
    ensures Loosen(r)[|r| - 1] == r[|r| - 1] || (|Cut(r)| < |r| && After(r) == "")
  {
    if DESTINATION <= r { Destination(r); }
  }

  lemma WidenTail(cut: string, isIP: string -> bool)
    requires cut != "" && !IsWhite(cut[|cut| - 1])
    ensures TrimSpace(Widen(cut, isIP)) != ""
  {
    var wide := Widen(cut, isIP);
    assert wide[|wide| - 1] == '2' || wide == cut;
    TrimTail(wide);
  }

  /** Nor is the first one when the rule starts with something that is not white space. */
  lemma FirstFound(r: string, isIP: string -> bool)
    requires Scan(r, isIP).Args? && r != "" && !IsWhite(r[0])
    ensures Scan(r, isIP).list[0] != "" && !IsWhite(Scan(r, isIP).list[0][0])
  {
    Found(r, isIP);
    LoosenFirst(r);
    CutNonEmpty(r);
    var wide := Widen(Cut(r), isIP);
    assert wide[0] == r[0];
    TrimHead(wide);
  }

  lemma CutNonEmpty(r: string)
    requires r != "" && ArgEnd(Loosen(r)).Some? && r[0] != ' '
    ensures Cut(r) != "" && Cut(r)[0] == r[0]
  {
    LoosenFirst(r);
    hide Loosen;
  }

  /** Every argument found is trimmed, and quoted or free of spaces. */
  lemma {:induction false} ShapesFound(r: string, isIP: string -> bool)
    requires LooksRight(isIP) && Scan(r, isIP).Args?
    ensures forall a | a in Scan(r, isIP).list :: TrimSpace(a) == a && (Quoted(a) || ' ' !in a)
    decreases |r|
  {
    Found(r, isIP);
    CutShape(r);
    WidenShape(Cut(r), isIP);
    hide Scan;
    hide Cut;
    hide After;
    hide TrimSpace;
    hide Widen;
    hide Quoted;
    if |Cut(r)| < |r| { ShapesFound(After(r), isIP); }
  }

  lemma WidenShape(cut: string, isIP: string -> bool)
    requires LooksRight(isIP) && (Quoted(cut) || Plain(cut))
    ensures var a := TrimSpace(Widen(cut, isIP)); TrimSpace(a) == a && (Quoted(a) || ' ' !in a)
  {
    hide TrimSpace;
    TrimShortens(Widen(cut, isIP));
    if isIP(cut) {
      IPSettled(cut, isIP);
    } else if Quoted(cut) {
      TrimQuoted(cut);
    }
  }

  // ------------------------------------------------- a text the scanner gives back

  lemma JoinHead(arg: string, more: seq<string>)
    ensures Join([arg] + more, ' ') == if more == [] then arg else arg + " " + Join(more, ' ')
  {
    assert more == [] ==> [arg] + more == [arg];
    assert ([arg] + more)[1..] == more;
  }

  lemma WidenedDiffers(cut: string, rest: string, more: seq<string>)
    requires rest == "" || rest[0] == ' '
    ensures Join([cut + "/32"] + more, ' ') != cut + rest
  {
    JoinHead(cut + "/32", more);
    var j := Join([cut + "/32"] + more, ' ');
    assert |j| > |cut| && j[|cut|] == '/';
    assert rest != "" ==> (cut + rest)[|cut|] == ' ';
  }

  lemma ShortenedDiffers(arg: string, cut: string, rest: string, more: seq<string>)
    requires ' ' !in cut && |arg| < |cut|
    ensures Join([arg] + more, ' ') != cut + rest
  {
    JoinHead(arg, more);
    var j := Join([arg] + more, ' ');
    assert (cut + rest)[|arg|] == cut[|arg|] && cut[|arg|] in cut;
    assert more != [] ==> j[|arg|] == ' ';
  }

  /** What is found in a text that starts with `--to-destination=` has a space where it has the `=`. */
  lemma DestinationCut(r: string, isIP: string -> bool)
    requires LooksRight(isIP) && Scan(r, isIP).Args? && DESTINATION <= r
    ensures Scan(r, isIP).list != [] && r[16] == '='
    ensures var n := Join(Scan(r, isIP).list, ' '); |n| > 16 && n[16] == ' '
  {
    hide Scan;
    hide TrimSpace;
    hide Widen;
    Found(r, isIP);
    Destination(r);
    DestinationWord(isIP);
    hide Loosen;
    hide ArgEnd;
    SomeFound(After(r), isIP);
    JoinHead(DESTINATION[..16], Scan(After(r), isIP).list);
  }

  /** When the arguments found spell `r` again, it was not loosened. */
  lemma Unloosened(r: string, isIP: string -> bool)
    requires LooksRight(isIP) && Scan(r, isIP).Args? && Join(Scan(r, isIP).list, ' ') == r
    ensures !(DESTINATION <= r)
  {
    hide Scan;
    if DESTINATION <= r { DestinationCut(r, isIP); }
  }

  lemma SomeFound(r: string, isIP: string -> bool)
    requires Scan(r, isIP).Args?
    ensures Scan(r, isIP).list != []
  {
  }

  lemma AsIs(r: string)
    requires r != "" && !(DESTINATION <= r) && ArgEnd(Loosen(r)).Some?
    ensures r == Cut(r) + r[|Cut(r)|..] && (|Cut(r)| < |r| ==> After(r) == r[|Cut(r)| + 1..])
    ensures !Quoted(Cut(r)) && |Cut(r)| < |r| ==> r[|Cut(r)|] == ' '
  {
    CutShape(r);
  }

  /** Then the first argument stands in `r` as it was cut off, and is settled. */
  lemma FirstAsCut(r: string, isIP: string -> bool)
    requires LooksRight(isIP) && Scan(r, isIP).Args? && Join(Scan(r, isIP).list, ' ') == r
    ensures var list := Scan(r, isIP).list;
            Settled(list[0], isIP) && |list[0]| <= |r| && r[..|list[0]|] == list[0]
    ensures r != "" && ArgEnd(Loosen(r)).Some? && Scan(r, isIP).list[0] == Cut(r) && !(DESTINATION <= r)
  {
    Found(r, isIP);
    Unloosened(r, isIP);
    CutShape(r);
    AsIs(r);
    hide Scan;
    hide Loosen;
    hide ArgEnd;
    hide After;
    var cut := Cut(r);
    hide Cut;
    var list := Scan(r, isIP).list;
    var more := list[1..];
    assert list == [list[0]] + more;
    TrimShortens(cut);
    if isIP(cut) {
      IPSettled(cut, isIP);
      hide TrimSpace;
      WidenedDiffers(cut, r[|cut|..], more);
    } else if Quoted(cut) {
      hide TrimSpace;
      TrimQuoted(cut);
    } else if |TrimSpace(cut)| < |cut| {
      hide TrimSpace;
      ShortenedDiffers(TrimSpace(cut), cut, r[|cut|..], more);
    }
  }

  lemma {:induction false} ScanFixed(r: string, isIP: string -> bool)
    requires LooksRight(isIP) && Scan(r, isIP).Args? && Join(Scan(r, isIP).list, ' ') == r
    ensures forall a | a in Scan(r, isIP).list :: Settled(a, isIP)
    decreases |r|
  {
    Found(r, isIP);
    FirstAsCut(r, isIP);
    AsIs(r);
    hide Scan;
    hide Settled;
    hide Loosen;
    hide ArgEnd;
    hide TrimSpace;
    hide Widen;
    var cut := Cut(r);
    hide Cut;
    if |cut| < |r| {
      var rest := After(r);
      hide After;
      SomeFound(rest, isIP);
      JoinHead(cut, Scan(rest, isIP).list);
      assert r[|cut| + 1..] == Join(Scan(rest, isIP).list, ' ');
      ScanFixed(rest, isIP);
    }
  }

  // ------------------------------------------------- fixed points

  /** Settled arguments with single spaces between them, starting and ending with one that is not empty. */
  ghost predicate SettledText(n: string, isIP: string -> bool) {
    exists args: seq<string> | args != [] :: args[0] != "" && AllSettled(args, isIP) && n == Join(args, ' ')
  }

  /** An accepted rule's normal form is the arguments found in it, joined. */
  lemma NormalForm(rule: string, isIP: string -> bool)
    requires LooksRight(isIP) && Normalize(rule, isIP).Normal?
    ensures var trimmed := TrimSpace(rule);
            && Scan(trimmed, isIP).Args?
            && var list := Scan(trimmed, isIP).list;
               && list != [] && list[0] != "" && !IsWhite(list[0][0]) && list[|list| - 1] != ""
               && Normalize(rule, isIP) == Normal(Join(list, ' '))
  {
    hide Scan;
    hide Glue;
    hide TrimSpace;
    hide IsWhite;
    var trimmed := TrimSpace(rule);
    ScanEmpty(isIP);
    SomeFound(trimmed, isIP);
    FirstFound(trimmed, isIP);
    LastFound(trimmed, isIP);
    var list := Scan(trimmed, isIP).list;
    GlueJoin("", list);
    assert "" + Join(list, ' ') == Join(list, ' ');
  }

  /** The rules the normaliser leaves alone are exactly the texts made of settled arguments. */
  lemma FixedPointsAre(n: string, isIP: string -> bool)
    requires LooksRight(isIP)
    ensures Normalize(n, isIP) == Normal(n) <==> SettledText(n, isIP)
  {
    hide Scan;
    hide TrimSpace;
    hide Normalize;
    hide IsWhite;
    if SettledText(n, isIP) {
      var args: seq<string> :| args != [] && args[0] != "" && AllSettled(args, isIP) && n == Join(args, ' ');
      SettledFixed(args, isIP);
    }
    if Normalize(n, isIP) == Normal(n) {
      NormalForm(n, isIP);
      var list := Scan(TrimSpace(n), isIP).list;
      ShapesFound(TrimSpace(n), isIP);
      FoundEnds(list);
      TrimNothing(n);
      ScanFixed(n, isIP);
    }
  }

  lemma {:induction false} FoundEnds(list: seq<string>)
    requires list != [] && list[|list| - 1] != "" && forall a | a in list :: TrimSpace(a) == a
    ensures var n := Join(list, ' '); n != "" && !IsWhite(n[|n| - 1]) && (list[0] != "" ==> n[0] == list[0][0])
    decreases |list|
  {
    hide TrimSpace;
    hide IsWhite;
    assert list[0] in list;
    if |list| == 1 {
      assert Join(list, ' ') == TrimSpace(list[0]);
    } else {
      FoundEnds(list[1..]);
    }
  }

  // ------------------------------------------------- normalising twice

  /** No argument found starts with a quote that white space had kept out of sight. */
  ghost predicate NoHiddenQuote(list: seq<string>) {
    forall a | a in list && a != "" && a[0] == '"' :: Quoted(a)
  }

  lemma SameToken(a: string, x: string, b: string, y: string)
    requires (Quoted(a) || Plain(a)) && (Quoted(b) || Plain(b)) && a + x == b + y
    requires (x == "" || x[0] == ' ') && (y == "" || y[0] == ' ')
    ensures a == b
  {
    hide ArgEnd;
    hide Quoted;
    hide Plain;
    if a + x != "" {
      TokenEnd(a, x);
      TokenEnd(b, y);
      assert (a + x)[..|a|] == a && (b + y)[..|b|] == b;
    }
  }

  /** A text is made of quoted or plain arguments in one way only. */
  lemma {:induction false} JoinUnique(a: seq<string>, b: seq<string>)
    requires a != [] && b != [] && Join(a, ' ') == Join(b, ' ')
    requires forall x | x in a + b :: Quoted(x) || Plain(x)
    ensures a == b
    decreases |a|
  {
    hide Quoted;
    hide Plain;
    assert a == [a[0]] + a[1..] && b == [b[0]] + b[1..];
    JoinHead(a[0], a[1..]);
    JoinHead(b[0], b[1..]);
    assert a[0] in a + b && b[0] in a + b;
    var x := if a[1..] == [] then "" else " " + Join(a[1..], ' ');
    var y := if b[1..] == [] then "" else " " + Join(b[1..], ' ');
    assert Join(a, ' ') == a[0] + x && Join(b, ' ') == b[0] + y;
    SameToken(a[0], x, b[0], y);
    assert x == (a[0] + x)[|a[0]|..] && y == (b[0] + y)[|b[0]|..];
    if a[1..] != [] && b[1..] != [] {
      assert Join(a[1..], ' ') == x[1..] && Join(b[1..], ' ') == y[1..];
      assert forall z | z in a[1..] + b[1..] :: z in a + b;
      JoinUnique(a[1..], b[1..]);
    }
  }

  /**
   Normalising an accepted rule again changes nothing exactly when none of the arguments found is an address or
   starts with `--to-destination=`; and the result is one line exactly when each of them is.
   */
  lemma IdempotentExactly(rule: string, isIP: string -> bool)
    requires LooksRight(isIP) && Normalize(rule, isIP).Normal?
    requires NoHiddenQuote(Scan(TrimSpace(rule), isIP).list)
    ensures var list, n := Scan(TrimSpace(rule), isIP).list, Normalize(rule, isIP).rule;
            && (Normalize(n, isIP) == Normal(n) <==> forall a | a in list :: !isIP(a) && !(DESTINATION <= a))
            && ('\n' !in n <==> FreeOf(list, '\n'))
  {
    hide Scan;
    hide TrimSpace;
    NormalForm(rule, isIP);
    hide Normalize;
    hide LooksRight;
    var list, n := Scan(TrimSpace(rule), isIP).list, Normalize(rule, isIP).rule;
    JoinNewline(list);
    ShapesFound(TrimSpace(rule), isIP);
    assert forall a | a in list :: Quoted(a) || Plain(a);
    if forall a | a in list :: !isIP(a) && !(DESTINATION <= a) {
      SettledFixed(list, isIP);
    }
    if Normalize(n, isIP) == Normal(n) {
      FixedPointsAre(n, isIP);
      var args: seq<string> :| args != [] && args[0] != "" && AllSettled(args, isIP) && n == Join(args, ' ');
      JoinUnique(list, args);
    }
  }

  /** A rule without a double quote hides none. */
  lemma QuoteFree(rule: string, isIP: string -> bool)
    requires LooksRight(isIP) && Normalize(rule, isIP).Normal? && '"' !in rule
    ensures NoHiddenQuote(Scan(TrimSpace(rule), isIP).list)
  {
    hide Scan;
    NormalForm(rule, isIP);
    hide TrimSpace;
    NoQuoteFound(TrimSpace(rule), isIP);
  }

  lemma {:induction false} NoQuoteFound(r: string, isIP: string -> bool)
    requires Scan(r, isIP).Args? && '"' !in r
    ensures FreeOf(Scan(r, isIP).list, '"')
    decreases |r|
  {
    Found(r, isIP);
    assert '"' !in Loosen(r) by {
      assert forall i | 0 <= i < |r| && i != 16 :: Loosen(r)[i] == r[i];
      assert forall i | 0 <= i < |r| :: r[i] in r;
    }
    hide Scan;
    hide Loosen;
    hide ArgEnd;
    assert '"' !in Widen(Cut(r), isIP);
    if |Cut(r)| < |r| {
      NoQuoteFound(After(r), isIP);
    }
  }

  // ------------------------------------------------- rules that hide a quote

  /**
   The scanner would cut `r` into the same arguments again: none is an address, loosened or trimmed, a quote
   finds its mate, and what is skipped after each argument is a space.
   */
  predicate Steady(r: string, isIP: string -> bool)
    decreases |r|
  {
    r != "" && !(DESTINATION <= r) && ArgEnd(r).Some? &&
    var end := ArgEnd(r).value;
    !isIP(r[..end]) && TrimSpace(r[..end]) == r[..end] && (end == |r| || (r[end] == ' ' && Steady(r[end + 1..], isIP)))
  }

  lemma CutToken(r: string)
    requires r != "" && ArgEnd(r).Some?
    ensures Quoted(r[..ArgEnd(r).value]) || Plain(r[..ArgEnd(r).value])
  {
    var end := ArgEnd(r).value;
    if r[0] == '"' {
      assert r[..end][1..end - 1] == r[1..][..end - 2];
    }
  }

  lemma SteadyCut(r: string, isIP: string -> bool)
    requires Steady(r, isIP)
    ensures ArgEnd(r).Some? && var end := ArgEnd(r).value;
            Settled(r[..end], isIP) && (end == |r| || (end < |r| && r[end] == ' ' && Steady(r[end + 1..], isIP)))
  {
    CutToken(r);
    hide ArgEnd;
    hide TrimSpace;
    hide Quoted;
    hide Plain;
    NotStarted(r, ArgEnd(r).value);
  }

  lemma NotStarted(r: string, end: nat)
    requires end <= |r| && !(DESTINATION <= r)
    ensures !(DESTINATION <= r[..end])
  {
  }

  lemma {:induction false} SteadySettled(r: string, isIP: string -> bool) returns (args: seq<string>)
    requires Steady(r, isIP)
    ensures AllSettled(args, isIP) && r == Join(args, ' ')
    decreases |r|
  {
    SteadyCut(r, isIP);
    var end := ArgEnd(r).value;
    assert r != "";
    hide ArgEnd;
    hide Settled;
    hide Steady;
    if end == |r| {
      args := [r];
      assert r[..end] == r;
    } else {
      var more := SteadySettled(r[end + 1..], isIP);
      args := [r[..end]] + more;
      InFrontOf(r, end, more, isIP);
    }
  }

  lemma InFrontOf(r: string, end: nat, more: seq<string>, isIP: string -> bool)
    requires end < |r| && r[end] == ' ' && Settled(r[..end], isIP)
    requires AllSettled(more, isIP) && r[end + 1..] == Join(more, ' ')
    ensures AllSettled([r[..end]] + more, isIP) && r == Join([r[..end]] + more, ' ')
  {
    hide Settled;
    JoinHead(r[..end], more);
    assert r == r[..end] + " " + r[end + 1..];
  }

  lemma SteadyOne(arg: string, rest: string, isIP: string -> bool)
    requires Settled(arg, isIP) && (rest == "" || rest[0] == ' ') && arg + rest != ""
    requires rest != "" ==> Steady(rest[1..], isIP)
    ensures Steady(arg + rest, isIP)
  {
    var r := arg + rest;
    NotDestination(arg, rest);
    TokenEnd(arg, rest);
    hide ArgEnd;
    hide TrimSpace;
    assert r[..|arg|] == arg;
    assert rest != "" ==> r[|arg|] == ' ' && r[|arg| + 1..] == rest[1..];
  }

  lemma {:induction false} SettledSteady(args: seq<string>, isIP: string -> bool)
    requires AllSettled(args, isIP)
    ensures Steady(Join(args, ' '), isIP)
    decreases |args|
  {
    hide Steady;
    hide Settled;
    assert args[0] in args && args == [args[0]] + args[1..];
    JoinHead(args[0], args[1..]);
    if |args| == 1 {
      SteadyOne(args[0], "", isIP);
      assert args[0] + "" == args[0];
    } else {
      SettledSteady(args[1..], isIP);
      var rest := " " + Join(args[1..], ' ');
      assert rest[1..] == Join(args[1..], ' ') && args[0] + rest == args[0] + " " + Join(args[1..], ' ');
      SteadyOne(args[0], rest, isIP);
    }
  }

  lemma SteadyIs(n: string, isIP: string -> bool)
    requires n != "" && n[0] != ' '
    ensures Steady(n, isIP) <==> SettledText(n, isIP)
  {
    hide Steady;
    hide AllSettled;
    if SettledText(n, isIP) {
      var args: seq<string> :| args != [] && args[0] != "" && AllSettled(args, isIP) && n == Join(args, ' ');
      SettledSteady(args, isIP);
    }
    if Steady(n, isIP) {
      var args := SteadySettled(n, isIP);
      SettledNonEmpty(args, isIP);
      FirstFull(args, isIP);
    }
  }

  /**
   For every accepted rule, quotes hidden or not: normalising it again changes nothing exactly when the scanner
   would cut the arguments found, joined, into the same arguments.
   */
  lemma IdempotentAlways(rule: string, isIP: string -> bool)
    requires LooksRight(isIP) && Normalize(rule, isIP).Normal?
    ensures Scan(TrimSpace(rule), isIP).Args? && Scan(TrimSpace(rule), isIP).list != []
    ensures var joined := Join(Scan(TrimSpace(rule), isIP).list, ' ');
            && Normalize(rule, isIP) == Normal(joined)
            && (Normalize(joined, isIP) == Normal(joined) <==> Steady(joined, isIP))
  {
    hide *;
    NormalForm(rule, isIP);
    var list := Scan(TrimSpace(rule), isIP).list;
    StartsSolid(list);
    FixedPointsAre(Join(list, ' '), isIP);
    SteadyIs(Join(list, ' '), isIP);
  }

  lemma StartsSolid(list: seq<string>)
    requires list != [] && list[0] != "" && !IsWhite(list[0][0])
    ensures Join(list, ' ') != "" && Join(list, ' ')[0] != ' '
  {
    assert list == [list[0]] + list[1..];
    JoinHead(list[0], list[1..]);
    assert IsWhite(' ');
  }

  /** Settled arguments whose text does not start with a space start with one that is not empty. */
  lemma FirstFull(args: seq<string>, isIP: string -> bool)
    requires AllSettled(args, isIP) && Join(args, ' ') != "" && Join(args, ' ')[0] != ' '
    ensures args[0] != ""
  {
    assert args == [args[0]] + args[1..];
    JoinHead(args[0], args[1..]);
  }

  /** A rule whose normal form is refused: the tab hides a quote that has no mate. */
  lemma HiddenQuoteBreaks(isIP: string -> bool)
    requires LooksRight(isIP)
    ensures Normalize("-d" + (" " + "\t\"x y"), isIP) == Normal("-d" + " " + "\"x" + " " + "y")
    ensures Normalize("-d" + (" " + "\"x y"), isIP) == BadQuotes
  {
    SettledD(isIP);
    HiddenPass(isIP);
    ShownPass(isIP);
  }

  lemma HiddenPass(isIP: string -> bool)
    requires LooksRight(isIP) && Settled("-d", isIP)
    ensures Normalize("-d" + (" " + "\t\"x y"), isIP) == Normal("-d" + " " + "\"x" + " " + "y")
  {
    hide *;
    ScanHidden(isIP);
    WhiteY("\t\"x y");
    AfterD("\t\"x y", ["\"x", "y"], isIP);
    GlueThree("-d", "\"x", "y");
  }

  lemma WhiteY(s: string)
    requires s != "" && s[|s| - 1] == 'y'
    ensures !IsWhite(s[|s| - 1])
  {
  }

  lemma ScanHidden(isIP: string -> bool)
    requires LooksRight(isIP)
    ensures Scan("\t\"x y", isIP) == Args(["\"x", "y"])
  {
    var s, cut := "\t\"x y", "\t\"x";
    assert s[0] == '\t' && DESTINATION[0] == '-' && s[..3] == cut && s[3] == ' ' && s[4..] == "y";
    IndexOfUnique(s, ' ', 3);
    assert Loosen(s) == s && ArgEnd(s) == Some(3);
    assert cut[1] == '"' && cut[1] in cut;
    DashNotIP(cut, '"', isIP);
    assert Widen(cut, isIP) == cut;
    TrimTab(cut);
    assert cut[1..] == "\"x";
    LetterY(isIP);
    hide *;
    ScanOne(s, isIP, s, 3);
  }

  lemma LetterY(isIP: string -> bool)
    requires LooksRight(isIP)
    ensures Scan("y", isIP) == Args(["y"])
  {
    assert 'y' in "y" && !IPChar('y');
    DashNotIP("y", 'y', isIP);
    NoWhite("y");
    assert Settled("y", isIP);
    assert AllSettled(["y"], isIP);
    hide *;
    ScanSettled(["y"], isIP);
    JoinOneY();
  }

  lemma JoinOneY()
    ensures Join(["y"], ' ') == "y"
  {
  }

  lemma ShownPass(isIP: string -> bool)
    requires LooksRight(isIP) && Settled("-d", isIP)
    ensures Normalize("-d" + (" " + "\"x y"), isIP) == BadQuotes
  {
    ScanShown(isIP);
    WhiteY("\"x y");
    AfterDRefused("\"x y", isIP);
  }

  lemma ScanShown(isIP: string -> bool)
    ensures Scan("\"x y", isIP) == Mismatched
  {
    var s := "\"x y";
    assert s[0] == '"' && DESTINATION[0] == '-' && s[1..] == "x y";
    assert "x y"[..3] == "x y";
    IndexOfUnique("x y", '"', 3);
    assert Loosen(s) == s && ArgEnd(s) == None;
  }

  lemma AfterDRefused(rest: string, isIP: string -> bool)
    requires Settled("-d", isIP) && rest != "" && !IsWhite(rest[|rest| - 1]) && Scan(rest, isIP) == Mismatched
    ensures Normalize("-d" + (" " + rest), isIP) == BadQuotes
  {
    hide Scan;
    hide TrimSpace;
    hide Settled;
    TrimAfterD(rest);
    ScanAfter("-d", rest, isIP);
  }
}
