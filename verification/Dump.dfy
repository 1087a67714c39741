/** `Dump` (`lvs/lvs.go`): the IPVS table as text. */
module Dump {
  import opened Strings
  import opened Decimal
  import opened Lines
  import opened Cluster
  import opened Ipvs

  // ------------------------------------------------- one server

  /** `net.JoinHostPort`, with the port already in decimal. */
  function HostPort(host: string, port: string): string {
    (if ':' in host || '%' in host then "[" + host + "]" else host) + ":" + port
  }

  function ProtocolName(p: Protocol): string { if p == UDP then "UDP" else "TCP" }

  /** `VirtualServer.String`. */
  function ServerText(addr: AddrText, vs: VirtualServer): string {
    HostPort(addr.show(vs.address), Digits(vs.port)) + "/" + ProtocolName(vs.protocol)
  }

  /** `RealServer.String`. */
  function RealText(addr: AddrText, rs: RealServer): string { HostPort(addr.show(rs.address), Digits(rs.port)) }

  lemma HostPortInjective(host: string, port: nat, host': string, port': nat)
    requires HostPort(host, Digits(port)) == HostPort(host', Digits(port'))
    ensures port == port'
    ensures (':' in host || '%' in host) == (':' in host' || '%' in host') ==> host == host'
    ensures (if ':' in host || '%' in host then "[" + host + "]" else host)
            == if ':' in host' || '%' in host' then "[" + host' + "]" else host'
  {
    DigitsFreeOf(port, ':');
    DigitsFreeOf(port', ':');
    var a := if ':' in host || '%' in host then "[" + host + "]" else host;
    var b := if ':' in host' || '%' in host' then "[" + host' + "]" else host';
    LastSeparator(a, Digits(port), b, Digits(port'), ':');
    DigitsInjective(port, port');
    hide Digits;
    if (':' in host || '%' in host) && (':' in host' || '%' in host') {
      assert host == a[1..|a| - 1] && host' == b[1..|b| - 1];
    }
  }

  /** Brackets go exactly where they can be told apart. */
  lemma SameHost(host: string, port: nat, host': string, port': nat)
    requires HostPort(host, Digits(port)) == HostPort(host', Digits(port'))
    ensures host == host' && port == port'
  {
    HostPortInjective(host, port, host', port');
    Bracketed(host);
    Bracketed(host');
  }

  lemma Bracketed(host: string)
    ensures var shown := "[" + host + "]"; (':' in host ==> ':' in shown) && ('%' in host ==> '%' in shown)
  {
  }

  lemma RealTextInjective(addr: AddrText, a: RealServer, b: RealServer)
    requires addr.Lawful() && RealText(addr, a) == RealText(addr, b)
    ensures a == b
  {
    hide HostPort;
    hide Digits;
    SameHost(addr.show(a.address), a.port, addr.show(b.address), b.port);
    assert addr.parse(addr.show(a.address)) == addr.parse(addr.show(b.address));
  }

  /** The same for what a listing shows; a stranger has no protocol name. */
  function ItemText(addr: AddrText, item: Listed): string {
    match item
    case Known(vs) => ServerText(addr, vs)
    case Strange(s) => HostPort(addr.show(s.address), Digits(s.port)) + "/" + ""
  }

  lemma ItemTextInjective(addr: AddrText, a: Listed, b: Listed)
    requires addr.Lawful() && ItemText(addr, a) == ItemText(addr, b)
    ensures a == b
  {
    hide HostPort;
    hide Digits;
    var (x, p) := ItemPorts(a);
    var (y, q) := ItemPorts(b);
    LastSeparator(HostPort(addr.show(x), Digits(p)), ItemProtocol(a), HostPort(addr.show(y), Digits(q)),
      ItemProtocol(b), '/');
    SameHost(addr.show(x), p, addr.show(y), q);
    assert addr.parse(addr.show(x)) == addr.parse(addr.show(y));
    assert "TCP"[0] != "UDP"[0];
  }

  lemma ServerTextInjective(addr: AddrText, a: VirtualServer, b: VirtualServer)
    requires addr.Lawful() && ServerText(addr, a) == ServerText(addr, b)
    ensures a == b
  {
    ItemTextInjective(addr, Known(a), Known(b));
  }

  function ItemPorts(item: Listed): (IP, Port) {
    match item
    case Known(vs) => (vs.address, vs.port)
    case Strange(s) => (s.address, s.port)
  }

  function ItemProtocol(item: Listed): string { if item.Known? then ProtocolName(item.vs.protocol) else "" }

  // ------------------------------------------------- the text of a table

  /** A virtual server's line with the texts of its real servers. */
  datatype Block = Block(head: string, reals: seq<string>)

  function Arrows(reals: seq<string>): seq<string> {
    if reals == [] then [] else ["  -> " + reals[0]] + Arrows(reals[1..])
  }

  function BlockLines(b: Block): seq<string> { [b.head] + (Arrows(b.reals) + [""]) }

  function AllLines(blocks: seq<Block>): seq<string> {
    if blocks == [] then [] else BlockLines(blocks[0]) + AllLines(blocks[1..])
  }

  /** Line 365: the last newline is cut off. */
  function Chop(text: string): string { if text == "" then "" else text[..|text| - 1] }

  function RealTexts(addr: AddrText, rss: set<RealServer>): set<string> { set rs | rs in rss :: RealText(addr, rs) }

  function Texts(addr: AddrText, listing: seq<Listed>): (texts: seq<string>)
    ensures |texts| == |listing| && forall i | 0 <= i < |listing| :: texts[i] == ItemText(addr, listing[i])
  {
    if listing == [] then [] else [ItemText(addr, listing[0])] + Texts(addr, listing[1..])
  }

  ghost function SomeListing(t: Table, strangers: seq<Stranger>): (listing: seq<Listed>)
    ensures Listing(listing, t, strangers)
  {
    StrangersThen(t, strangers, strangers, SomeOrder(set vs | vs in t :: Known(vs)));
    AllStrange(strangers) + SomeOrder(set vs | vs in t :: Known(vs))
  }

  ghost predicate IsShown(t: Table, strangers: seq<Stranger>, item: Listed) {
    match item
    case Known(vs) => vs in t
    case Strange(s) => s in strangers
  }

  ghost predicate TextShown(addr: AddrText, t: Table, strangers: seq<Stranger>, text: string) {
    exists item | IsShown(t, strangers, item) :: ItemText(addr, item) == text
  }

  ghost function ItemOf(addr: AddrText, t: Table, strangers: seq<Stranger>, text: string): (item: Listed)
    requires TextShown(addr, t, strangers, text)
    ensures IsShown(t, strangers, item) && ItemText(addr, item) == text
  {
    var item :| IsShown(t, strangers, item) && ItemText(addr, item) == text;
    item
  }

  /** What is listed behind a server; nothing behind a stranger. */
  function RealsOf(t: Table, item: Listed): set<RealServer> { if item.Known? && item.vs in t then t[item.vs] else {} }

  ghost function BlockOf(addr: AddrText, t: Table, strangers: seq<Stranger>, text: string): Block {
    var reals := if TextShown(addr, t, strangers, text) then RealsOf(t, ItemOf(addr, t, strangers, text)) else {};
    Block(text, SortedOf(RealTexts(addr, reals)))
  }

  /** The texts of all servers in order, those of strangers as often as they are listed. */
  ghost function Heads(addr: AddrText, t: Table, strangers: seq<Stranger>): (heads: seq<string>)
    ensures forall h | h in heads :: TextShown(addr, t, strangers, h)
  {
    var listing := SomeListing(t, strangers);
    SortedTexts(addr, listing, t, strangers);
    Sort(Texts(addr, listing))
  }

  lemma SortedTexts(addr: AddrText, listing: seq<Listed>, t: Table, strangers: seq<Stranger>)
    requires Listing(listing, t, strangers)
    ensures forall h :: h in Sort(Texts(addr, listing)) <==> TextShown(addr, t, strangers, h)
  {
    hide ItemText;
    SortMembers(Texts(addr, listing));
    forall h ensures h in Texts(addr, listing) <==> TextShown(addr, t, strangers, h) {
      if h in Texts(addr, listing) {
        var i :| 0 <= i < |listing| && Texts(addr, listing)[i] == h;
        ListedShown(listing, t, strangers, listing[i]);
      }
      if TextShown(addr, t, strangers, h) {
        var item :| IsShown(t, strangers, item) && ItemText(addr, item) == h;
        ListedShown(listing, t, strangers, item);
        var i :| 0 <= i < |listing| && listing[i] == item;
        assert Texts(addr, listing)[i] == h;
      }
    }
  }

  lemma ListedShown(listing: seq<Listed>, t: Table, strangers: seq<Stranger>, item: Listed)
    requires Listing(listing, t, strangers)
    ensures item in listing <==> IsShown(t, strangers, item)
  {
    match item
    case Known(vs) =>
    case Strange(s) =>
  }

  ghost function BlocksFrom(addr: AddrText, t: Table, strangers: seq<Stranger>, heads: seq<string>): seq<Block> {
    if heads == [] then []
    else [BlockOf(addr, t, strangers, heads[0])] + BlocksFrom(addr, t, strangers, heads[1..])
  }

  lemma {:induction false} BlocksFromAt(addr: AddrText, t: Table, strangers: seq<Stranger>, heads: seq<string>)
    ensures var blocks := BlocksFrom(addr, t, strangers, heads);
            |blocks| == |heads| && forall i | 0 <= i < |heads| :: blocks[i] == BlockOf(addr, t, strangers, heads[i])
  {
    hide BlockOf;
    if heads != [] {
      BlocksFromAt(addr, t, strangers, heads[1..]);
    }
  }

  ghost function BlocksOf(addr: AddrText, t: Table, strangers: seq<Stranger>): seq<Block> {
    BlocksFrom(addr, t, strangers, Heads(addr, t, strangers))
  }

  lemma BlockAt(addr: AddrText, t: Table, strangers: seq<Stranger>)
    ensures var blocks, heads := BlocksOf(addr, t, strangers), Heads(addr, t, strangers);
            |blocks| == |heads| && forall i | 0 <= i < |heads| :: blocks[i] == BlockOf(addr, t, strangers, heads[i])
  {
    hide Heads;
    hide TextShown;
    hide BlockOf;
    hide BlocksFrom;
    BlocksFromAt(addr, t, strangers, Heads(addr, t, strangers));
  }

  /** Servers in the order of their texts, each with its real servers in the order of theirs. */
  ghost function DumpText(addr: AddrText, t: Table, strangers: seq<Stranger>): string {
    Chop(Unlines(AllLines(BlocksOf(addr, t, strangers))))
  }

  // ------------------------------------------------- the same text from every listing

  lemma {:induction false} CountTexts(addr: AddrText, listing: seq<Listed>, item: Listed)
    requires addr.Lawful()
    ensures multiset(Texts(addr, listing))[ItemText(addr, item)] == multiset(listing)[item]
    decreases |listing|
  {
    hide ItemText;
    if listing != [] {
      CountTexts(addr, listing[1..], item);
      MultisetRest(listing);
      MultisetRest(Texts(addr, listing));
      assert Texts(addr, listing)[1..] == Texts(addr, listing[1..]);
      if listing[0] != item { TextsDiffer(addr, listing[0], item); }
    }
  }

  lemma TextsDiffer(addr: AddrText, a: Listed, b: Listed)
    requires addr.Lawful() && a != b
    ensures ItemText(addr, a) != ItemText(addr, b)
  {
    hide ItemText;
    if ItemText(addr, a) == ItemText(addr, b) { ItemTextInjective(addr, a, b); }
  }

  lemma CountIn(addr: AddrText, a: seq<Listed>, b: seq<Listed>, x: string)
    requires addr.Lawful() && multiset(a) == multiset(b) && x in Texts(addr, a)
    ensures multiset(Texts(addr, a))[x] == multiset(Texts(addr, b))[x]
  {
    hide ItemText;
    var i :| 0 <= i < |a| && Texts(addr, a)[i] == x;
    hide *;
    CountTexts(addr, a, a[i]);
    CountTexts(addr, b, a[i]);
  }

  lemma TextsMultiset(addr: AddrText, a: seq<Listed>, b: seq<Listed>)
    requires addr.Lawful() && multiset(a) == multiset(b)
    ensures multiset(Texts(addr, a)) == multiset(Texts(addr, b))
  {
    hide *;
    forall x ensures multiset(Texts(addr, a))[x] == multiset(Texts(addr, b))[x] {
      if x in Texts(addr, a) {
        CountIn(addr, a, b, x);
      } else if x in Texts(addr, b) {
        CountIn(addr, b, a, x);
      } else {
        assert x !in multiset(Texts(addr, a)) && x !in multiset(Texts(addr, b));
      }
    }
  }

  lemma HeadsAre(addr: AddrText, listing: seq<Listed>, t: Table, strangers: seq<Stranger>)
    requires addr.Lawful() && Listing(listing, t, strangers)
    ensures Sort(Texts(addr, listing)) == Heads(addr, t, strangers)
  {
    hide Sorted;
    hide Sort;
    hide Texts;
    hide SomeListing;
    SameListings(listing, SomeListing(t, strangers), t, strangers);
    hide Listing;
    TextsMultiset(addr, listing, SomeListing(t, strangers));
    SortedUnique(Sort(Texts(addr, listing)), Sort(Texts(addr, SomeListing(t, strangers))));
  }

  lemma ShownItem(addr: AddrText, t: Table, strangers: seq<Stranger>, item: Listed)
    requires addr.Lawful() && IsShown(t, strangers, item)
    ensures TextShown(addr, t, strangers, ItemText(addr, item))
    ensures ItemOf(addr, t, strangers, ItemText(addr, item)) == item
    ensures BlockOf(addr, t, strangers, ItemText(addr, item)) ==
              Block(ItemText(addr, item), SortedOf(RealTexts(addr, RealsOf(t, item))))
  {
    hide ItemText;
    hide SortedOf;
    assert TextShown(addr, t, strangers, ItemText(addr, item));
    ItemTextInjective(addr, ItemOf(addr, t, strangers, ItemText(addr, item)), item);
  }

  // ------------------------------------------------- the text determines the table

  lemma FirstBlank(x: seq<string>, r: seq<string>, y: seq<string>, s: seq<string>)
    requires x + ([""] + r) == y + ([""] + s) && "" !in x && "" !in y
    ensures x == y && r == s
  {
    var all := x + ([""] + r);
    assert all[|x|] == "" && all[|y|] == "";
    assert forall i | 0 <= i < |x| :: all[i] == x[i] != "";
    assert forall i | 0 <= i < |y| :: all[i] == y[i] != "";
    assert all[..|x|] == x && all[..|y|] == y;
    assert all[|x| + 1..] == r && all[|y| + 1..] == s;
  }

  lemma {:induction false} ArrowsAt(reals: seq<string>)
    ensures |Arrows(reals)| == |reals| && forall i | 0 <= i < |reals| :: Arrows(reals)[i] == "  -> " + reals[i]
  {
    if reals != [] { ArrowsAt(reals[1..]); }
  }

  lemma ArrowsInjective(a: seq<string>, b: seq<string>)
    requires Arrows(a) == Arrows(b)
    ensures a == b
  {
    ArrowsAt(a);
    ArrowsAt(b);
    forall i | 0 <= i < |a| ensures a[i] == b[i] {
      assert a[i] == Arrows(a)[i][5..] && b[i] == Arrows(b)[i][5..];
    }
  }

  lemma BlockSplit(blocks: seq<Block>)
    requires blocks != []
    ensures AllLines(blocks) == [blocks[0].head] + (Arrows(blocks[0].reals) + ([""] + AllLines(blocks[1..])))
    ensures "" !in Arrows(blocks[0].reals)
  {
    ArrowsAt(blocks[0].reals);
  }

  lemma {:induction false} AllLinesInjective(a: seq<Block>, b: seq<Block>)
    requires AllLines(a) == AllLines(b)
    ensures a == b
    decreases |a|
  {
    hide Arrows;
    if a != [] { BlockSplit(a); }
    if b != [] { BlockSplit(b); }
    assert a == [] <==> b == [];
    if a != [] {
      var restA := Arrows(a[0].reals) + ([""] + AllLines(a[1..]));
      var restB := Arrows(b[0].reals) + ([""] + AllLines(b[1..]));
      assert AllLines(a)[0] == AllLines(b)[0] && AllLines(a)[1..] == restA && AllLines(b)[1..] == restB;
      FirstBlank(Arrows(a[0].reals), AllLines(a[1..]), Arrows(b[0].reals), AllLines(b[1..]));
      ArrowsInjective(a[0].reals, b[0].reals);
      AllLinesInjective(a[1..], b[1..]);
      assert a == [a[0]] + a[1..] && b == [b[0]] + b[1..];
    }
  }

  /** Printed addresses fit on one line. */
  ghost predicate Printable(addr: AddrText) { forall ip :: '\n' !in addr.show(ip) }

  ghost predicate OneLineBlock(b: Block) { '\n' !in b.head && FreeOf(b.reals, '\n') }

  lemma HostPortOneLine(host: string, port: nat)
    requires '\n' !in host
    ensures '\n' !in HostPort(host, Digits(port))
  {
    DigitsFreeOf(port, '\n');
    hide Digits;
  }

  lemma ItemOneLine(addr: AddrText, item: Listed)
    requires Printable(addr)
    ensures '\n' !in ItemText(addr, item)
  {
    hide HostPort;
    hide Digits;
    var (ip, port) := ItemPorts(item);
    HostPortOneLine(addr.show(ip), port);
    assert '\n' !in ItemProtocol(item);
  }

  lemma BlockOfOneLine(addr: AddrText, t: Table, strangers: seq<Stranger>, text: string)
    requires Printable(addr) && TextShown(addr, t, strangers, text)
    ensures OneLineBlock(BlockOf(addr, t, strangers, text))
  {
    hide HostPort;
    hide Digits;
    hide ItemText;
    hide SortedOf;
    var item := ItemOf(addr, t, strangers, text);
    ItemOneLine(addr, item);
    var all := RealTexts(addr, RealsOf(t, item));
    SortedOfLists(all);
    forall r | r in SortedOf(all) ensures '\n' !in r {
      var rs :| rs in RealsOf(t, item) && RealText(addr, rs) == r;
      HostPortOneLine(addr.show(rs.address), rs.port);
    }
  }

  lemma {:induction false} LinesFree(blocks: seq<Block>)
    requires forall b | b in blocks :: OneLineBlock(b)
    ensures FreeOf(AllLines(blocks), '\n')
  {
    if blocks != [] {
      var b := blocks[0];
      assert b in blocks && forall c | c in blocks[1..] :: c in blocks;
      ArrowsAt(b.reals);
      ArrowsFree(b.reals);
      LinesFree(blocks[1..]);
    }
  }

  lemma ArrowsFree(reals: seq<string>)
    requires FreeOf(reals, '\n')
    ensures FreeOf(Arrows(reals), '\n')
  {
    ArrowsAt(reals);
    forall l | l in Arrows(reals) ensures '\n' !in l {
      var i :| 0 <= i < |reals| && l == Arrows(reals)[i];
      assert reals[i] in reals;
    }
  }

  lemma ChopInjective(a: seq<Block>, b: seq<Block>)
    requires Chop(Unlines(AllLines(a))) == Chop(Unlines(AllLines(b)))
    ensures Unlines(AllLines(a)) == Unlines(AllLines(b))
  {
    EndsInNewline(a);
    EndsInNewline(b);
    hide Unlines;
    hide AllLines;
    var x, y := Unlines(AllLines(a)), Unlines(AllLines(b));
    if x != "" { assert x == Chop(x) + "\n"; }
    if y != "" { assert y == Chop(y) + "\n"; }
  }

  /** A dump that is not empty has at least its server's line before the newline that is cut. */
  lemma EndsInNewline(blocks: seq<Block>)
    ensures var text := Unlines(AllLines(blocks));
            text == "" || (|text| >= 2 && text[|text| - 1] == '\n')
  {
    if blocks != [] {
      BlockSplit(blocks);
      var lines := AllLines(blocks);
      assert |lines| >= 2;
      UnlinesEnd(lines);
    }
  }

  lemma SortedOfInjective(a: set<string>, b: set<string>)
    requires SortedOf(a) == SortedOf(b)
    ensures a == b
  {
    SortedOfLists(a);
    SortedOfLists(b);
    assert forall x :: x in a <==> x in SortedOf(a);
    assert forall x :: x in b <==> x in SortedOf(b);
  }

  lemma SameReals(addr: AddrText, a: set<RealServer>, b: set<RealServer>)
    requires addr.Lawful() && RealTexts(addr, a) == RealTexts(addr, b)
    ensures a == b
  {
    hide RealText;
    forall rs ensures rs in a <==> rs in b {
      if rs in a {
        assert RealText(addr, rs) in RealTexts(addr, a);
        var r :| r in b && RealText(addr, r) == RealText(addr, rs);
        RealTextInjective(addr, r, rs);
      }
      if rs in b {
        assert RealText(addr, rs) in RealTexts(addr, b);
        var r :| r in a && RealText(addr, r) == RealText(addr, rs);
        RealTextInjective(addr, r, rs);
      }
    }
  }

  lemma HeadCounts(addr: AddrText, t: Table, strangers: seq<Stranger>, item: Listed)
    requires addr.Lawful()
    ensures multiset(Heads(addr, t, strangers))[ItemText(addr, item)] ==
              match item case Known(vs) => (if vs in t then 1 else 0) case Strange(s) => multiset(strangers)[s]
  {
    hide ItemText;
    hide Sorted;
    var listing := SomeListing(t, strangers);
    assert multiset(Heads(addr, t, strangers)) == multiset(Texts(addr, listing));
    hide SomeListing;
    hide Heads;
    hide Texts;
    ListingCounts(listing, t, strangers);
    CountTexts(addr, listing, item);
  }

  /** The heads tell which servers there are, and how many strangers of each kind. */
  lemma HeadsInjective(addr: AddrText, a: Table, sa: seq<Stranger>, b: Table, sb: seq<Stranger>)
    requires addr.Lawful() && Heads(addr, a, sa) == Heads(addr, b, sb)
    ensures a.Keys == b.Keys && multiset(sa) == multiset(sb)
  {
    hide *;
    forall vs ensures vs in a <==> vs in b {
      HeadCounts(addr, a, sa, Known(vs));
      HeadCounts(addr, b, sb, Known(vs));
    }
    forall s ensures multiset(sa)[s] == multiset(sb)[s] {
      HeadCounts(addr, a, sa, Strange(s));
      HeadCounts(addr, b, sb, Strange(s));
    }
  }

  lemma BlockHead(addr: AddrText, t: Table, strangers: seq<Stranger>, text: string)
    ensures BlockOf(addr, t, strangers, text).head == text
  {
    hide TextShown;
    hide RealTexts;
    hide SortedOf;
  }

  lemma SameHeads(addr: AddrText, a: Table, sa: seq<Stranger>, b: Table, sb: seq<Stranger>)
    requires BlocksOf(addr, a, sa) == BlocksOf(addr, b, sb)
    ensures Heads(addr, a, sa) == Heads(addr, b, sb)
    ensures forall h | h in Heads(addr, a, sa) :: BlockOf(addr, a, sa, h) == BlockOf(addr, b, sb, h)
  {
    hide TextShown;
    hide Heads;
    hide BlocksOf;
    hide BlockOf;
    var x, y := Heads(addr, a, sa), Heads(addr, b, sb);
    var p, q := BlocksOf(addr, a, sa), BlocksOf(addr, b, sb);
    BlockAt(addr, a, sa);
    BlockAt(addr, b, sb);
    assert |x| == |p| == |q| == |y|;
    forall i | 0 <= i < |x| ensures x[i] == y[i] {
      assert p[i] == q[i];
      BlockHead(addr, a, sa, x[i]);
      BlockHead(addr, b, sb, y[i]);
    }
    assert x == y;
    forall h | h in x ensures BlockOf(addr, a, sa, h) == BlockOf(addr, b, sb, h) {
      var i :| 0 <= i < |x| && x[i] == h;
      assert p[i] == q[i];
    }
  }

  lemma HeadShown(addr: AddrText, t: Table, strangers: seq<Stranger>, item: Listed)
    requires IsShown(t, strangers, item)
    ensures ItemText(addr, item) in Heads(addr, t, strangers)
  {
    hide ItemText;
    hide SomeListing;
    SortedTexts(addr, SomeListing(t, strangers), t, strangers);
    assert TextShown(addr, t, strangers, ItemText(addr, item));
  }

  lemma SameBlocks(addr: AddrText, a: Table, sa: seq<Stranger>, b: Table, sb: seq<Stranger>)
    requires addr.Lawful() && BlocksOf(addr, a, sa) == BlocksOf(addr, b, sb)
    ensures a == b && multiset(sa) == multiset(sb)
  {
    hide ItemText;
    hide RealTexts;
    hide SortedOf;
    hide Heads;
    hide BlocksOf;
    hide BlockOf;
    hide ItemOf;
    hide TextShown;
    SameHeads(addr, a, sa, b, sb);
    HeadsInjective(addr, a, sa, b, sb);
    forall vs | vs in a ensures vs in b && a[vs] == b[vs] {
      assert vs in a.Keys && vs in b.Keys;
      HeadShown(addr, a, sa, Known(vs));
      ShownItem(addr, a, sa, Known(vs));
      ShownItem(addr, b, sb, Known(vs));
      SortedOfInjective(RealTexts(addr, a[vs]), RealTexts(addr, b[vs]));
      SameReals(addr, a[vs], b[vs]);
    }
  }

  lemma DumpLines(addr: AddrText, t: Table, strangers: seq<Stranger>)
    requires Printable(addr)
    ensures var lines := AllLines(BlocksOf(addr, t, strangers)); LinesOf(Unlines(lines)) == lines
  {
    hide Unlines;
    hide AllLines;
    hide Printable;
    hide OneLineBlock;
    hide BlockOf;
    hide LinesOf;
    hide TextShown;
    hide Heads;
    hide BlocksOf;
    var heads := Heads(addr, t, strangers);
    var blocks := BlocksOf(addr, t, strangers);
    BlockAt(addr, t, strangers);
    forall c | c in blocks ensures OneLineBlock(c) {
      var i :| 0 <= i < |blocks| && blocks[i] == c;
      assert heads[i] in heads;
      BlockOfOneLine(addr, t, strangers, heads[i]);
    }
    LinesFree(blocks);
    LinesUnlines(AllLines(blocks));
  }

  /** Only the same table with the same strangers prints the same text. */
  lemma DumpFaithful(addr: AddrText, a: Table, sa: seq<Stranger>, b: Table, sb: seq<Stranger>)
    requires addr.Lawful() && Printable(addr) && DumpText(addr, a, sa) == DumpText(addr, b, sb)
    ensures a == b && multiset(sa) == multiset(sb)
  {
    hide Unlines;
    hide LinesOf;
    hide AllLines;
    hide Printable;
    hide BlocksOf;
    hide Chop;
    var x, y := BlocksOf(addr, a, sa), BlocksOf(addr, b, sb);
    ChopInjective(x, y);
    DumpLines(addr, a, sa);
    DumpLines(addr, b, sb);
    AllLinesInjective(x, y);
    SameBlocks(addr, a, sa, b, sb);
  }

  // ------------------------------------------------- Dump

  lemma SortOfTexts(texts: seq<string>, all: set<string>)
    requires Lists(texts, all)
    ensures Sort(texts) == SortedOf(all) && forall x :: x in Sort(texts) <==> x in all
  {
    hide Sort;
    SortMembers(texts);
    ListsMultiset(texts, all);
    SortedUnique(Sort(texts), SortedOf(all));
  }

  /** Lines 348-363, once the real servers have been listed. */
  method WriteBlock(b: Block) returns (text: string)
    ensures text == Unlines(BlockLines(b))
  {
    text := b.head + "\n";
    assert b.reals[0..] == b.reals;
    UnlinesCons(b.head, Arrows(b.reals) + [""]);
    for i := 0 to |b.reals|
      invariant text + Unlines(Arrows(b.reals[i..]) + [""]) == Unlines(BlockLines(b))
    {
      hide Unlines;
      var rest := b.reals[i..];
      assert rest[0] == b.reals[i] && rest[1..] == b.reals[i + 1..];
      assert Arrows(rest) + [""] == ["  -> " + rest[0]] + (Arrows(rest[1..]) + [""]);
      UnlinesCons("  -> " + rest[0], Arrows(rest[1..]) + [""]);
      text := text + ("  -> " + b.reals[i] + "\n");
    }
    assert b.reals[|b.reals|..] == [];
    assert Arrows([]) + [""] == [""] + [];
    UnlinesCons("", []);
    text := text + "\n";
  }

  /** The texts of listed servers, and the map back from text to server. */
  method Index(addr: AddrText, listing: seq<Listed>) returns (texts: seq<string>, items: map<string, Listed>)
    requires addr.Lawful()
    ensures texts == Texts(addr, listing)
    ensures Mapped(addr, listing, items)
  {
    hide ItemText;
    texts, items := [], map[];
    for i := 0 to |listing|
      invariant |texts| == i && forall k | 0 <= k < i :: texts[k] == ItemText(addr, listing[k])
      invariant forall k | 0 <= k < i :: texts[k] in items && items[texts[k]] == listing[k]
    {
      forall k | 0 <= k < i ensures texts[k] == ItemText(addr, listing[i]) ==> listing[k] == listing[i] {
        if listing[k] != listing[i] { TextsDiffer(addr, listing[k], listing[i]); }
      }
      items := items[ItemText(addr, listing[i]) := listing[i]];
      texts := texts + [ItemText(addr, listing[i])];
    }
    assert forall item | item in listing :: exists k | 0 <= k < |listing| :: listing[k] == item;
  }

  method RealLines(addr: AddrText, rss: seq<RealServer>, ghost all: set<RealServer>) returns (texts: seq<string>)
    requires addr.Lawful() && Lists(rss, all)
    ensures texts == SortedOf(RealTexts(addr, all))
  {
    hide RealText;
    var unsorted: seq<string> := [];
    for i := 0 to |rss|
      invariant |unsorted| == i && forall k | 0 <= k < i :: unsorted[k] == RealText(addr, rss[k])
    {
      unsorted := unsorted + [RealText(addr, rss[i])];
    }
    RealsList(addr, rss, all, unsorted);
    SortOfTexts(unsorted, RealTexts(addr, all));
    texts := Sort(unsorted);
  }

  lemma RealsList(addr: AddrText, rss: seq<RealServer>, all: set<RealServer>, texts: seq<string>)
    requires addr.Lawful() && Lists(rss, all)
    requires |texts| == |rss| && forall k | 0 <= k < |rss| :: texts[k] == RealText(addr, rss[k])
    ensures Lists(texts, RealTexts(addr, all))
  {
    hide RealText;
    forall i, j | 0 <= i < j < |texts| ensures texts[i] != texts[j] {
      if texts[i] == texts[j] { RealTextInjective(addr, rss[i], rss[j]); }
    }
    forall x ensures x in texts <==> x in RealTexts(addr, all) {
      if x in texts {
        var k :| 0 <= k < |texts| && texts[k] == x;
        assert rss[k] in rss;
      }
      if x in RealTexts(addr, all) {
        var rs :| rs in all && RealText(addr, rs) == x;
        assert rs in rss;
        var k :| 0 <= k < |rss| && rss[k] == rs;
        assert texts[k] == x;
      }
    }
  }

  lemma NextBlock(blocks: seq<Block>, i: nat)
    requires i < |blocks|
    ensures Unlines(AllLines(blocks[i..])) == Unlines(BlockLines(blocks[i])) + Unlines(AllLines(blocks[i + 1..]))
  {
    assert blocks[i..][0] == blocks[i] && blocks[i..][1..] == blocks[i + 1..];
    UnlinesAppend(BlockLines(blocks[i]), AllLines(blocks[i + 1..]));
  }

  /**
   `Dump`: the text depends on the table and the strangers alone, whatever order the handler lists them in. It
   fails only when a call does, the listing of a stranger's real servers included.
   */
  method Dump(addr: AddrText, ipvs: Handler) returns (text: string, ok: bool)
    requires addr.Lawful() && ipvs.Valid()
    modifies ipvs`faults, ipvs`refused
    ensures ipvs.Valid() && ipvs.faults >= old(ipvs.faults) && ipvs.refused >= old(ipvs.refused)
    ensures ok ==> text == DumpText(addr, ipvs.table, ipvs.strangers)
    ensures !ok ==> text == "" && (ipvs.faults > old(ipvs.faults) || ipvs.refused > old(ipvs.refused))
    ensures ipvs.strangers == [] ==> ipvs.refused == old(ipvs.refused)
  {
    hide *;
    var listing, listed := ipvs.GetVirtualServers();
    if !listed { return "", false; }
    var texts, items := Index(addr, listing);
    HeadsAre(addr, listing, ipvs.table, ipvs.strangers);
    DumpTextIs(addr, ipvs.table, ipvs.strangers);
    var buf, printed := PrintBlocks(addr, ipvs, listing, items, Sort(texts));
    if !printed { return "", false; }
    if |buf| > 0 { buf := buf[..|buf| - 1]; }
    return buf, true;
  }

  /** Lines 345-364. */
  method PrintBlocks(addr: AddrText, ipvs: Handler, ghost listing: seq<Listed>, items: map<string, Listed>,
                     sorted: seq<string>)
    returns (buf: string, ok: bool)
    requires addr.Lawful() && ipvs.Valid() && Listing(listing, ipvs.table, ipvs.strangers)
    requires Mapped(addr, listing, items) && sorted == Heads(addr, ipvs.table, ipvs.strangers)
    modifies ipvs`faults, ipvs`refused
    ensures ipvs.Valid() && ipvs.faults >= old(ipvs.faults) && ipvs.refused >= old(ipvs.refused)
    ensures ok ==> buf == Unlines(AllLines(BlocksOf(addr, ipvs.table, ipvs.strangers)))
    ensures !ok ==> ipvs.faults > old(ipvs.faults) || ipvs.refused > old(ipvs.refused)
    ensures ipvs.strangers == [] ==> ipvs.refused == old(ipvs.refused)
  {
    hide *;
    ghost var t, strangers := ipvs.table, ipvs.strangers;
    ghost var blocks := BlocksOf(addr, t, strangers);
    BlockAt(addr, t, strangers);
    NoBlocks();
    buf := "";
    assert blocks[0..] == blocks;
    for i := 0 to |sorted|
      invariant ipvs.Valid() && ipvs.table == t && ipvs.faults >= old(ipvs.faults) && ipvs.refused >= old(ipvs.refused)
      invariant strangers == [] ==> ipvs.refused == old(ipvs.refused)
      invariant buf + Unlines(AllLines(blocks[i..])) == Unlines(AllLines(blocks))
    {
      ItemAt(addr, listing, t, strangers, items, sorted, i);
      var item := items[sorted[i]];
      var rss, got := ipvs.GetRealServers(item);
      if !got { return "", false; }
      ListedReals(t, item, rss);
      var reals := RealLines(addr, rss, RealsOf(t, item));
      NextBlock(blocks, i);
      var lines := WriteBlock(Block(sorted[i], reals));
      buf := buf + lines;
    }
    assert blocks[|sorted|..] == [];
    ok := true;
  }

  /** The map leads from each listed text to its server. */
  ghost predicate Mapped(addr: AddrText, listing: seq<Listed>, items: map<string, Listed>) {
    forall item | item in listing :: ItemText(addr, item) in items && items[ItemText(addr, item)] == item
  }

  lemma ItemAt(addr: AddrText, listing: seq<Listed>, t: Table, strangers: seq<Stranger>, items: map<string, Listed>,
               heads: seq<string>, i: nat)
    requires addr.Lawful() && Listing(listing, t, strangers) && heads == Heads(addr, t, strangers) && i < |heads|
    requires Mapped(addr, listing, items)
    ensures heads[i] in items
    ensures var item := items[heads[i]]; (item.Known? && item.vs in t) || (item.Strange? && strangers != [])
    ensures BlockOf(addr, t, strangers, heads[i]) ==
              Block(heads[i], SortedOf(RealTexts(addr, RealsOf(t, items[heads[i]]))))
  {
    hide ItemText;
    hide Listing;
    hide TextShown;
    hide BlockOf;
    hide Heads;
    hide SortedOf;
    hide RealTexts;
    assert heads[i] in heads;
    var item := ItemOf(addr, t, strangers, heads[i]);
    ListedShown(listing, t, strangers, item);
    ShownItem(addr, t, strangers, item);
  }

  lemma DumpTextIs(addr: AddrText, t: Table, strangers: seq<Stranger>)
    ensures var text := Unlines(AllLines(BlocksOf(addr, t, strangers)));
            DumpText(addr, t, strangers) == if |text| > 0 then text[..|text| - 1] else text
  {
    hide Unlines;
    hide AllLines;
    hide BlocksOf;
  }

  lemma ListedReals(t: Table, item: Listed, rss: seq<RealServer>)
    requires if item.Known? && item.vs in t then Lists(rss, t[item.vs]) else rss == []
    ensures Lists(rss, RealsOf(t, item))
  {
  }

  lemma NoBlocks()
    ensures Unlines(AllLines([])) == ""
  {
  }

  // ------------------------------------------------- what is found in the text

  /** An address with its port, in brackets when the address could be taken for more than one. */
  ghost predicate IsHostPort(text: string, host: string, port: nat) {
    text == (if ':' in host || '%' in host then "[" + host + "]" else host) + ":" + Digits(port)
  }

  /** The line of a listed server. */
  ghost predicate IsHead(addr: AddrText, item: Listed, line: string) {
    match item
    case Known(vs) => exists text ::
      IsHostPort(text, addr.show(vs.address), vs.port) && line == text + if vs.protocol == TCP then "/TCP" else "/UDP"
    case Strange(s) => exists text :: IsHostPort(text, addr.show(s.address), s.port) && line == text + "/"
  }

  /** The texts of the real servers in order, each once. */
  ghost predicate AreReals(addr: AddrText, rss: set<RealServer>, texts: seq<string>) {
    && Sorted(texts) && NoDuplicates(texts)
    && (forall x | x in texts :: exists rs | rs in rss :: IsHostPort(x, addr.show(rs.address), rs.port))
    && (forall rs | rs in rss :: exists x | x in texts :: IsHostPort(x, addr.show(rs.address), rs.port))
  }

  /** The server's line, its real servers' lines, and a blank line, somewhere in the text. */
  ghost predicate BlockIn(text: string, before: string, head: string, reals: seq<string>, after: string) {
    exists lines :: IsBlock(lines, head, reals) && text == before + (Unlines(lines) + after)
  }

  ghost predicate IsBlock(lines: seq<string>, head: string, reals: seq<string>) {
    && |lines| == |reals| + 2 && lines[0] == head && lines[|lines| - 1] == ""
    && forall i | 0 <= i < |reals| :: lines[i + 1] == "  -> " + reals[i]
  }

  /** Every listed server is in the dump with its own real servers, a stranger with none. */
  lemma ServerShown(addr: AddrText, t: Table, strangers: seq<Stranger>, item: Listed)
    requires addr.Lawful() && IsShown(t, strangers, item)
    ensures exists before, head, reals, after ::
              && BlockIn(DumpText(addr, t, strangers) + "\n", before, head, reals, after) && IsHead(addr, item, head)
              && AreReals(addr, if item.Known? then t[item.vs] else {}, reals)
  {
    var heads, blocks := Heads(addr, t, strangers), BlocksOf(addr, t, strangers);
    HeadShown(addr, t, strangers, item);
    ShownItem(addr, t, strangers, item);
    BlockAt(addr, t, strangers);
    HeadIs(addr, item);
    RealsAre(addr, RealsOf(t, item));
    var head, reals := ItemText(addr, item), SortedOf(RealTexts(addr, RealsOf(t, item)));
    assert RealsOf(t, item) == if item.Known? then t[item.vs] else {};
    hide *;
    var i :| 0 <= i < |heads| && heads[i] == head;
    assert blocks[i] == Block(head, reals);
    var before, after := BlockFound(addr, t, strangers, i);
  }

  lemma BlockFound(addr: AddrText, t: Table, strangers: seq<Stranger>, i: nat) returns (before: string, after: string)
    requires i < |BlocksOf(addr, t, strangers)|
    ensures var b := BlocksOf(addr, t, strangers)[i];
            BlockIn(DumpText(addr, t, strangers) + "\n", before, b.head, b.reals, after)
  {
    hide BlocksOf;
    var blocks := BlocksOf(addr, t, strangers);
    var b := blocks[i];
    NotCut(addr, t, strangers);
    AllLinesAppend(blocks[..i], blocks[i..]);
    NextBlock(blocks, i);
    ArrowsAt(b.reals);
    hide *;
    assert blocks == blocks[..i] + blocks[i..];
    UnlinesAppend(AllLines(blocks[..i]), AllLines(blocks[i..]));
    before, after := Unlines(AllLines(blocks[..i])), Unlines(AllLines(blocks[i + 1..]));
    BlockInWhen(DumpText(addr, t, strangers) + "\n", before, b, after);
  }

  lemma BlockInWhen(text: string, before: string, b: Block, after: string)
    requires text == before + (Unlines(BlockLines(b)) + after)
    ensures BlockIn(text, before, b.head, b.reals, after)
  {
    ArrowsAt(b.reals);
    hide Unlines;
    assert IsBlock(BlockLines(b), b.head, b.reals);
  }

  /** The newline that is cut is there, for a table with a server. */
  lemma NotCut(addr: AddrText, t: Table, strangers: seq<Stranger>)
    requires BlocksOf(addr, t, strangers) != []
    ensures DumpText(addr, t, strangers) + "\n" == Unlines(AllLines(BlocksOf(addr, t, strangers)))
  {
    hide BlocksOf;
    var blocks := BlocksOf(addr, t, strangers);
    EndsInNewline(blocks);
    BlockSplit(blocks);
    NotEmpty(AllLines(blocks));
    hide AllLines;
    hide Unlines;
  }

  lemma NotEmpty(lines: seq<string>)
    requires lines != []
    ensures Unlines(lines) != ""
  {
  }

  lemma {:induction false} AllLinesAppend(a: seq<Block>, b: seq<Block>)
    ensures AllLines(a + b) == AllLines(a) + AllLines(b)
  {
    hide BlockLines;
    if a == [] {
      assert a + b == b;
    } else {
      AllLinesAppend(a[1..], b);
      assert (a + b)[0] == a[0] && (a + b)[1..] == a[1..] + b;
      assert AllLines(a + b) == BlockLines(a[0]) + AllLines(a[1..] + b);
    }
  }

  lemma HeadIs(addr: AddrText, item: Listed)
    ensures IsHead(addr, item, ItemText(addr, item))
  {
    var (ip, port) := ItemPorts(item);
    assert IsHostPort(HostPort(addr.show(ip), Digits(port)), addr.show(ip), port);
  }

  lemma RealsAre(addr: AddrText, rss: set<RealServer>)
    ensures AreReals(addr, rss, SortedOf(RealTexts(addr, rss)))
  {
    var keys := RealTexts(addr, rss);
    var texts := SortedOf(keys);
    SortedOfLists(keys);
    hide SortedOf;
    hide Sorted;
    hide Digits;
    forall x | x in texts ensures exists rs | rs in rss :: IsHostPort(x, addr.show(rs.address), rs.port) {
      var rs :| rs in rss && x == RealText(addr, rs);
      assert IsHostPort(x, addr.show(rs.address), rs.port);
    }
    forall rs | rs in rss ensures exists x | x in texts :: IsHostPort(x, addr.show(rs.address), rs.port) {
      var x := RealText(addr, rs);
      assert x in keys;
      assert IsHostPort(x, addr.show(rs.address), rs.port);
    }
  }
}
