/**
 Version numbers: the parser and the printer of `utils/version/version.go`.
 The two regular expressions are written as scanners.
 */
module Version {
  import opened Strings
  import opened Decimal

  datatype Version = Version(components: seq<nat>, semver: bool, preRelease: string, buildMetadata: string)

  // ------------------------------------------------- scanners

  predicate IsSpace(c: char) { c == ' ' || c == '\t' || c == '\n' || c == '\r' || c == '\U{000C}' }

  predicate IsIdChar(c: char) { IsDigit(c) || 'A' <= c <= 'Z' || 'a' <= c <= 'z' || c == '-' }

  predicate IsIdOrDot(c: char) { IsIdChar(c) || c == '.' }

  /** Length of the longest prefix whose characters all satisfy `p`. */
  function Span(s: string, p: char -> bool): (n: nat)
    ensures n <= |s| && (forall i | 0 <= i < n :: p(s[i]))
    ensures n < |s| ==> !p(s[n])
  {
    if s == "" || !p(s[0]) then 0
    else
      var n := 1 + Span(s[1..], p);
      assert forall i | 1 <= i < n :: s[i] == s[1..][i - 1];
      n
  }

  lemma SpanUnique(s: string, p: char -> bool, n: nat)
    requires n <= |s| && (forall i | 0 <= i < n :: p(s[i])) && (n < |s| ==> !p(s[n]))
    ensures Span(s, p) == n
  {
  }

  /** Length of the longest prefix of the form `[0-9]+(\.[0-9]+)*`; 0 when there is none. */
  function ScanNumbers(s: string): (n: nat)
    ensures n <= |s|
    decreases |s|
  {
    var d := Span(s, IsDigit);
    if d == 0 then 0
    else if d + 1 < |s| && s[d] == '.' && IsDigit(s[d + 1]) then d + 1 + ScanNumbers(s[d + 1..])
    else d
  }

  /** Dot-separated, none empty. */
  predicate NonEmptyFields(text: string) { forall f | f in Split(text, '.') :: f != "" }

  /** The run of identifier characters after `mark`, if `s` starts with it, and what follows. */
  function Section(s: string, mark: char): (Option<string>, string) {
    if s == "" || s[0] != mark then (None, s)
    else
      var n := Span(s[1..], IsIdOrDot);
      (Some(s[1..][..n]), s[1..][n..])
  }

  predicate GoodSection(text: Option<string>) { text.Some? ==> NonEmptyFields(text.value) }

  function OrEmpty(text: Option<string>): string { if text.Some? then text.value else "" }

  /** `extraMatchRE`: pre-release and build metadata. */
  function ParseExtra(extra: string): Option<(string, string)> {
    var (pre, rest) := Section(extra, '-');
    var (meta, tail) := Section(rest, '+');
    if GoodSection(pre) && GoodSection(meta) && Span(tail, IsSpace) == |tail| then Some((OrEmpty(pre), OrEmpty(meta)))
    else None
  }

  // ------------------------------------------------- parsing

  predicate ZeroPrefixed(text: string) { text != "" && text[0] == '0' && text != "0" }

  predicate GoodComponent(texts: seq<string>, i: nat, semver: bool)
    requires i < |texts|
  {
    !((i == 0 || semver) && ZeroPrefixed(texts[i])) && ParseUint(texts[i]).Some?
  }

  /** No identifier that reads as a number starts with a spare zero. */
  predicate GoodPreRelease(pre: string) {
    forall id | id in Split(pre, '.') :: !(ParseUint(id).Some? && ZeroPrefixed(id))
  }

  function ComponentValue(text: string): nat { var num := ParseUint(text); if num.Some? then num.value else 0 }

  function ParseComponents(texts: seq<string>, semver: bool): (r: Option<seq<nat>>)
    ensures r.Some? <==> forall i | 0 <= i < |texts| :: GoodComponent(texts, i, semver)
    ensures r.Some? ==>
            |r.value| == |texts| && forall i | 0 <= i < |texts| ::
              GoodComponent(texts, i, semver) && r.value[i] == ParseUint(texts[i]).value
  {
    if forall i | 0 <= i < |texts| :: GoodComponent(texts, i, semver) then
      assert forall i | 0 <= i < |texts| ::
        GoodComponent(texts, i, semver) && Values(texts)[i] == ComponentValue(texts[i]);
      assert forall i | 0 <= i < |texts| ::
        GoodComponent(texts, i, semver) && Values(texts)[i] == ParseUint(texts[i]).value;
      Some(Values(texts))
    else None
  }

  function Values(texts: seq<string>): (values: seq<nat>)
    ensures |values| == |texts| && forall i | 0 <= i < |texts| :: values[i] == ComponentValue(texts[i])
  {
    if texts == [] then [] else [ComponentValue(texts[0])] + Values(texts[1..])
  }

  /** The part of `str` that starts with the first number. */
  function Body(str: string): string {
    var trimmed := str[Span(str, IsSpace)..];
    if trimmed != "" && trimmed[0] == 'v' then trimmed[1..] else trimmed
  }

  /** Lines 69-83: what follows the numbers. */
  function WithExtra(components: seq<nat>, semver: bool, extra: string): Option<Version> {
    if !semver || extra == "" then Some(Version(components, semver, "", ""))
    else
      var parts := ParseExtra(extra);
      if parts.None? || !GoodPreRelease(parts.value.0) then None
      else Some(Version(components, semver, parts.value.0, parts.value.1))
  }

  predicate GoodCount(n: nat, semver: bool) { if semver then n == 3 else n >= 2 }

  function ParseVersion(str: string, semver: bool): Option<Version> {
    var s := Body(str);
    var n := ScanNumbers(s);
    var texts, extra := Split(s[..n], '.'), s[n..];
    if n == 0 || '\n' in extra || !GoodCount(|texts|, semver) then None
    else
      var components := ParseComponents(texts, semver);
      if components.None? then None else WithExtra(components.value, semver, extra)
  }

  /** `parse`. */
  method Parse(str: string, semver: bool) returns (r: Option<Version>)
    ensures r == ParseVersion(str, semver)
  {
    var s := Body(str);
    var n := ScanNumbers(s);
    var texts, extra := Split(s[..n], '.'), s[n..];
    if n == 0 || '\n' in extra { return None; }
    if !GoodCount(|texts|, semver) { return None; }
    var components := ReadComponents(texts, semver);
    if components.None? { return None; }
    r := ReadExtra(components.value, semver, extra);
  }

  /** Lines 54-67: fill the component slice. */
  method ReadComponents(texts: seq<string>, semver: bool) returns (r: Option<seq<nat>>)
    ensures r == ParseComponents(texts, semver)
  {
    var components: seq<nat> := [];
    for i := 0 to |texts|
      invariant |components| == i
      invariant forall j | 0 <= j < i :: GoodComponent(texts, j, semver) && components[j] == ParseUint(texts[j]).value
    {
      if (i == 0 || semver) && ZeroPrefixed(texts[i]) {
        assert !GoodComponent(texts, i, semver);
        return None;
      }
      var num := ParseUint(texts[i]);
      if num.None? {
        assert !GoodComponent(texts, i, semver);
        return None;
      }
      components := components + [num.value];
    }
    r := Some(components);
    assert ParseComponents(texts, semver).Some?;
    assert components == ParseComponents(texts, semver).value;
  }

  method ReadExtra(components: seq<nat>, semver: bool, extra: string) returns (r: Option<Version>)
    ensures r == WithExtra(components, semver, extra)
  {
    if !semver || extra == "" { return Some(Version(components, semver, "", "")); }
    var parts := ParseExtra(extra);
    if parts.None? { return None; }
    var pre := parts.value.0;
    var ids := Split(pre, '.');
    for i := 0 to |ids|
      invariant forall j | 0 <= j < i :: !(ParseUint(ids[j]).Some? && ZeroPrefixed(ids[j]))
    {
      if ParseUint(ids[i]).Some? && ZeroPrefixed(ids[i]) {
        assert !GoodPreRelease(pre) by { assert ids[i] in Split(pre, '.'); }
        return None;
      }
    }
    r := Some(Version(components, semver, pre, parts.value.1));
  }

  // ------------------------------------------------- printing

  function Texts(components: seq<nat>): (texts: seq<string>)
    ensures |texts| == |components|
  {
    seq(|components|, i requires 0 <= i < |components| => Digits(components[i]))
  }

  function Tail(pre: string, meta: string): string {
    (if pre == "" then "" else "-" + pre) + (if meta == "" then "" else "+" + meta)
  }

  function Show(v: Version): string
    requires |v.components| >= 1
  {
    Join(Texts(v.components), '.') + Tail(v.preRelease, v.buildMetadata)
  }

  /** `String`, with its loop. */
  method Print(v: Version) returns (s: string)
    requires |v.components| >= 1
    ensures s == Show(v)
  {
    hide Join;
    hide Digits;
    s := "";
    ghost var texts := Texts(v.components);
    for i := 0 to |v.components|
      invariant s == if i == 0 then "" else Join(texts[..i], '.')
    {
      if i > 0 {
        s := s + ".";
        JoinSnoc(texts[..i], texts[i], '.');
      } else {
        JoinOne(texts[0], '.');
        assert texts[..1] == [texts[0]];
      }
      assert texts[..i + 1] == texts[..i] + [texts[i]];
      s := s + Digits(v.components[i]);
    }
    assert texts[..|texts|] == texts;
    if v.preRelease != "" {
      s := s + "-" + v.preRelease;
    }
    if v.buildMetadata != "" {
      s := s + "+" + v.buildMetadata;
    }
  }

  lemma JoinOne(f: string, sep: char)
    ensures Join([f], sep) == f
  {
  }

  lemma {:induction false} JoinSnoc(fields: seq<string>, f: string, sep: char)
    requires |fields| >= 1
    ensures Join(fields + [f], sep) == Join(fields, sep) + [sep] + f
  {
    if |fields| == 1 {
      assert (fields + [f])[1..] == [f];
    } else {
      JoinSnoc(fields[1..], f, sep);
      assert (fields + [f])[1..] == fields[1..] + [f];
    }
  }

  // ------------------------------------------------- round trip

  /** Dot-separated fields of letters, digits and hyphens, none empty. */
  predicate Identifiers(text: string) {
    && (forall c | c in text :: '0' <= c <= '9' || 'A' <= c <= 'Z' || 'a' <= c <= 'z' || c == '-' || c == '.')
    && forall f | f in Split(text, '.') :: f != ""
  }

  lemma IdentifierChars(text: string)
    ensures Identifiers(text) <==> (forall i | 0 <= i < |text| :: IsIdOrDot(text[i])) && NonEmptyFields(text)
  {
    if Identifiers(text) {
      forall i | 0 <= i < |text| ensures IsIdOrDot(text[i]) { assert text[i] in text; }
    }
  }

  /** What every parsed version looks like. */
  predicate WellFormed(v: Version) {
    && (if v.semver then |v.components| == 3 else |v.components| >= 2)
    && (!v.semver ==> v.preRelease == "" && v.buildMetadata == "")
    && (forall c | c in v.components :: c < 0x1_0000_0000_0000_0000)
    && (v.preRelease == "" || (Identifiers(v.preRelease) && GoodPreRelease(v.preRelease)))
    && (v.buildMetadata == "" || Identifiers(v.buildMetadata))
  }

  lemma ParseWellFormed(str: string, semver: bool)
    ensures ParseVersion(str, semver).Some? ==>
              WellFormed(ParseVersion(str, semver).value) && ParseVersion(str, semver).value.semver == semver
  {
    hide Split;
    hide ScanNumbers;
    hide ParseExtra;
    hide Body;
    var s := Body(str);
    var texts, extra := Split(s[..ScanNumbers(s)], '.'), s[ScanNumbers(s)..];
    var components := ParseComponents(texts, semver);
    if components.Some? {
      forall c | c in components.value ensures c < UINT_LIMIT {
        var i :| 0 <= i < |components.value| && components.value[i] == c;
        assert c == ParseUint(texts[i]).value;
      }
    }
    if ParseExtra(extra).Some? {
      ParseExtraIdentifiers(extra);
    }
  }

  lemma ParseExtraIdentifiers(extra: string)
    requires ParseExtra(extra).Some?
    ensures var (pre, meta) := ParseExtra(extra).value;
            (pre == "" || Identifiers(pre)) && (meta == "" || Identifiers(meta))
  {
    var (pre, rest) := Section(extra, '-');
    var (meta, tail) := Section(rest, '+');
    SectionIdentifiers(extra, '-');
    SectionIdentifiers(rest, '+');
    IdentifierChars(OrEmpty(pre));
    IdentifierChars(OrEmpty(meta));
  }

  lemma SectionIdentifiers(s: string, mark: char)
    ensures var text := Section(s, mark).0; text.Some? ==> forall i | 0 <= i < |text.value| :: IsIdOrDot(text.value[i])
  {
  }

  /** `tail` does not carry the numbers in front of it on. */
  predicate Ends(tail: string) {
    && (tail != "" ==> !('0' <= tail[0] <= '9'))
    && (|tail| >= 2 && tail[0] == '.' ==> !('0' <= tail[1] <= '9'))
  }

  ghost predicate Numerals(texts: seq<string>) { forall t | t in texts :: AllDigits(t) }

  lemma {:induction false} ScanPrinted(texts: seq<string>, tail: string)
    requires |texts| >= 1 && Numerals(texts) && Ends(tail)
    ensures ScanNumbers(Join(texts, '.') + tail) == |Join(texts, '.')| > 0
    decreases |texts|
  {
    var first := texts[0];
    var s := Join(texts, '.') + tail;
    assert AllDigits(first);
    if |texts| == 1 {
      assert s == first + tail;
      SpanUnique(s, IsDigit, |first|);
    } else {
      var rest := texts[1..];
      var r := Join(rest, '.') + tail;
      assert AllDigits(rest[0]);
      assert s == first + "." + r;
      SpanUnique(s, IsDigit, |first|);
      JoinStart(rest, '.');
      assert r[0] == rest[0][0] && IsDigit(r[0]);
      assert s[|first| + 1..] == r;
      ScanPrinted(rest, tail);
    }
  }

  lemma JoinStart(fields: seq<string>, sep: char)
    requires |fields| >= 1 && fields[0] != ""
    ensures Join(fields, sep) != "" && Join(fields, sep)[0] == fields[0][0]
  {
  }

  lemma SectionPrinted(mark: char, text: string, back: string)
    requires (forall i | 0 <= i < |text| :: IsIdOrDot(text[i])) && (back == "" || !IsIdOrDot(back[0]))
    ensures Section([mark] + text + back, mark) == (Some(text), back)
  {
    var s := [mark] + text + back;
    assert s[1..] == text + back;
    SpanUnique(text + back, IsIdOrDot, |text|);
  }

  /** What `\s` matches. */
  ghost predicate AllSpace(s: string) { forall c | c in s :: c in " \t\n\r\U{000C}" }

  lemma ExtraPrinted(pre: string, meta: string, trail: string)
    requires (pre == "" || Identifiers(pre)) && (meta == "" || Identifiers(meta)) && AllSpace(trail)
    ensures ParseExtra(Tail(pre, meta) + trail) == Some((pre, meta))
  {
    hide NonEmptyFields;
    hide Section;
    hide Identifiers;
    forall i | 0 <= i < |trail| ensures IsSpace(trail[i]) { assert trail[i] in trail; }
    SpanUnique(trail, IsSpace, |trail|);
    var back := (if meta == "" then "" else "+" + meta) + trail;
    BackStart(meta, trail);
    hide IsIdOrDot;
    hide AllSpace;
    TailSection('-', pre, back);
    TailSection('+', meta, trail);
    assert Tail(pre, meta) + trail == (if pre == "" then "" else "-" + pre) + back;
  }

  lemma BackStart(meta: string, trail: string)
    requires AllSpace(trail)
    ensures trail == "" || (!IsIdOrDot(trail[0]) && trail[0] != '+')
    ensures var back := (if meta == "" then "" else "+" + meta) + trail;
            back == "" || (!IsIdOrDot(back[0]) && back[0] != '-')
  {
    assert trail != "" ==> trail[0] in trail && IsSpace(trail[0]);
  }

  lemma TailSection(mark: char, text: string, back: string)
    requires back == "" || (!IsIdOrDot(back[0]) && back[0] != mark)
    requires text == "" || Identifiers(text)
    ensures var s := (if text == "" then "" else [mark] + text) + back;
            var (found, rest) := Section(s, mark);
            OrEmpty(found) == text && rest == back && GoodSection(found)
  {
    hide NonEmptyFields;
    IdentifierChars(text);
    if text != "" {
      SectionPrinted(mark, text, back);
    } else {
      assert "" + back == back;
    }
  }

  lemma ComponentsPrinted(components: seq<nat>, semver: bool)
    requires forall c | c in components :: c < UINT_LIMIT
    ensures ParseComponents(Texts(components), semver) == Some(components)
  {
    var texts := Texts(components);
    forall i | 0 <= i < |texts| ensures GoodComponent(texts, i, semver) && ParseUint(texts[i]).value == components[i] {
      assert components[i] in components;
    }
    assert ParseComponents(texts, semver).value == components;
  }

  /** Spaces and a `v` in front, spaces behind: none of them is part of the version. */
  lemma PaddedParts(lead: string, vee: string, v: Version, trail: string)
    requires |v.components| >= 1 && AllSpace(lead) && AllSpace(trail) && vee in {"", "v"}
    ensures var head, text := Join(Texts(v.components), '.'), Show(v) + trail;
            && Body(lead + vee + text) == text && ScanNumbers(text) == |head| > 0
            && text[..|head|] == head && text[|head|..] == Tail(v.preRelease, v.buildMetadata) + trail
  {
    var texts := Texts(v.components);
    var head, extra := Join(texts, '.'), Tail(v.preRelease, v.buildMetadata);
    var text := Show(v) + trail;
    assert text == head + (extra + trail);
    JoinStart(texts, '.');
    hide Join;
    hide Digits;
    assert IsDigit(text[0]);
    BodyOf(lead, vee, text);
    TailEnds(v.preRelease, v.buildMetadata, trail);
    ScanPrinted(texts, extra + trail);
  }

  lemma TailEnds(pre: string, meta: string, trail: string)
    requires AllSpace(trail)
    ensures Ends(Tail(pre, meta) + trail)
  {
    assert trail != "" ==> trail[0] in trail;
  }

  lemma BodyOf(lead: string, vee: string, text: string)
    requires AllSpace(lead) && vee in {"", "v"} && text != "" && IsDigit(text[0])
    ensures Body(lead + vee + text) == text
  {
    var str := lead + vee + text;
    forall i | 0 <= i < |lead| ensures IsSpace(str[i]) { assert lead[i] in lead; }
    SpanUnique(str, IsSpace, |lead|);
    hide AllSpace;
    hide Span;
    hide IsSpace;
    assert str[|lead|..] == vee + text;
    assert vee == "" ==> vee + text == text;
    assert vee == "v" ==> (vee + text)[1..] == text;
  }

  lemma NoNewline(text: string)
    requires text == "" || Identifiers(text)
    ensures '\n' !in text
  {
  }

  /**
   Parsing what is printed, with spaces and a `v` in front of it and spaces behind, gives the version
   back in either mode, exactly when there is no newline behind it.
   */
  lemma PaddedRoundTrip(lead: string, vee: string, v: Version, trail: string)
    requires WellFormed(v) && AllSpace(lead) && AllSpace(trail) && vee in {"", "v"}
    ensures ParseVersion(lead + vee + (Show(v) + trail), v.semver) == if '\n' in trail then None else Some(v)
  {
    hide ScanNumbers;
    hide Body;
    hide Join;
    hide Split;
    hide ParseExtra;
    hide ParseComponents;
    hide Show;
    var texts := Texts(v.components);
    var extra := Tail(v.preRelease, v.buildMetadata) + trail;
    PaddedParts(lead, vee, v, trail);
    assert FreeOf(texts, '.');
    SplitJoin(texts, '.');
    ComponentsPrinted(v.components, v.semver);
    NoNewline(v.preRelease);
    NoNewline(v.buildMetadata);
    assert '\n' in extra <==> '\n' in trail;
    if v.semver {
      ExtraPrinted(v.preRelease, v.buildMetadata, trail);
      EmptyPreRelease();
    }
  }

  /** Parsing what is printed gives the version back, in either mode. */
  lemma RoundTrip(v: Version)
    requires WellFormed(v)
    ensures ParseVersion(Show(v), v.semver) == Some(v)
  {
    hide ParseVersion;
    hide Show;
    PaddedRoundTrip("", "", v, "");
    assert "" + "" + (Show(v) + "") == Show(v);
  }

  lemma EmptyPreRelease()
    ensures GoodPreRelease("")
  {
    SplitNone("", '.');
  }

  /** The round trip as the package's callers see it. */
  lemma ReparsePrinted(str: string, semver: bool)
    requires ParseVersion(str, semver).Some?
    ensures WellFormed(ParseVersion(str, semver).value)
    ensures ParseVersion(Show(ParseVersion(str, semver).value), semver) == ParseVersion(str, semver)
  {
    ParseWellFormed(str, semver);
    RoundTrip(ParseVersion(str, semver).value);
  }

  // ------------------------------------------------- exactly what is parsed

  /** A text in parts: spaces, perhaps a `v`, numerals with dots between, and what does not carry them on. */
  ghost predicate Reads(str: string, lead: string, vee: string, texts: seq<string>, extra: string) {
    && |texts| >= 1 && Numerals(texts) && Ends(extra) && AllSpace(lead) && vee in {"", "v"}
    && str == lead + vee + (Join(texts, '.') + extra)
  }

  /** `components` are the values of the numerals, and fit. */
  ghost predicate ValuesOf(texts: seq<string>, components: seq<nat>) {
    && |components| == |texts|
    && forall i | 0 <= i < |texts| ::
      AllDigits(texts[i]) && components[i] == Value(texts[i]) < 0x1_0000_0000_0000_0000
  }

  /** No component that counts starts with a zero that it could do without. */
  ghost predicate NoSpareZero(texts: seq<string>, semver: bool) {
    forall i | 0 <= i < |texts| && (i == 0 || semver) :: !(|texts[i]| > 1 && texts[i][0] == '0')
  }

  lemma ReadsParts(str: string, lead: string, vee: string, texts: seq<string>, extra: string)
    requires Reads(str, lead, vee, texts, extra)
    ensures var s, n := Body(str), ScanNumbers(Body(str)); n > 0 && Split(s[..n], '.') == texts && s[n..] == extra
  {
    var head := Join(texts, '.');
    assert AllDigits(texts[0]);
    JoinStart(texts, '.');
    ScanPrinted(texts, extra);
    assert FreeOf(texts, '.') by {
      forall t | t in texts ensures '.' !in t { assert AllDigits(t); }
    }
    SplitJoin(texts, '.');
    hide Join;
    hide Split;
    hide ScanNumbers;
    var text := head + extra;
    assert text[0] == head[0];
    BodyOf(lead, vee, text);
    assert text[..|head|] == head && text[|head|..] == extra;
  }

  lemma {:induction false} ScanEnds(s: string)
    requires ScanNumbers(s) > 0
    ensures Ends(s[ScanNumbers(s)..])
    decreases |s|
  {
    var d, n := Span(s, IsDigit), ScanNumbers(s);
    if n != d {
      ScanEnds(s[d + 1..]);
      assert s[d + 1..][n - d - 1..] == s[n..];
    }
  }

  lemma BodyParts(str: string)
    ensures exists lead, vee :: AllSpace(lead) && vee in {"", "v"} && str == lead + vee + Body(str)
  {
    var n := Span(str, IsSpace);
    var lead, trimmed := str[..n], str[n..];
    assert AllSpace(lead);
    hide AllSpace;
    hide Span;
    hide IsSpace;
    var vee := if trimmed != "" && trimmed[0] == 'v' then "v" else "";
    assert trimmed == vee + Body(str);
    assert str == lead + vee + Body(str);
  }

  lemma ComponentsExactly(texts: seq<string>, semver: bool, components: seq<nat>)
    ensures ParseComponents(texts, semver) == Some(components) <==>
              ValuesOf(texts, components) && NoSpareZero(texts, semver)
  {
    if ValuesOf(texts, components) && NoSpareZero(texts, semver) {
      forall i | 0 <= i < |texts|
        ensures GoodComponent(texts, i, semver) && ParseUint(texts[i]).value == components[i]
      {
      }
      assert ParseComponents(texts, semver).value == components;
    }
  }

  /** What the parser makes of a text in parts. */
  lemma ReadsParsed(str: string, lead: string, vee: string, texts: seq<string>, extra: string, semver: bool)
    requires Reads(str, lead, vee, texts, extra)
    ensures ParseVersion(str, semver) ==
              if '\n' in extra || !GoodCount(|texts|, semver) || ParseComponents(texts, semver).None? then None
              else WithExtra(ParseComponents(texts, semver).value, semver, extra)
  {
    ReadsParts(str, lead, vee, texts, extra);
    hide Split;
    hide Body;
    hide ScanNumbers;
    hide WithExtra;
    hide ParseComponents;
    hide GoodCount;
  }

  lemma ParsedNumerals(str: string, semver: bool)
    requires ParseVersion(str, semver).Some?
    ensures var s, n := Body(str), ScanNumbers(Body(str)); n > 0 && Numerals(Split(s[..n], '.'))
  {
    hide Split;
    hide Body;
    hide ScanNumbers;
    hide WithExtra;
    var texts := Split(Body(str)[..ScanNumbers(Body(str))], '.');
    assert ParseComponents(texts, semver).Some?;
    hide ParseVersion;
    forall t | t in texts ensures AllDigits(t) {
      var i :| 0 <= i < |texts| && texts[i] == t;
      assert GoodComponent(texts, i, semver);
    }
  }

  lemma ReadsWhen(str: string, lead: string, vee: string, texts: seq<string>, extra: string)
    requires |texts| >= 1 && Numerals(texts) && Ends(extra) && AllSpace(lead) && vee in {"", "v"}
    requires str == lead + vee + (Join(texts, '.') + extra)
    ensures Reads(str, lead, vee, texts, extra)
  {
  }

  lemma {:induction false} ScanParts(s: string)
    requires ScanNumbers(s) > 0
    ensures var n := ScanNumbers(s); Ends(s[n..]) && s == Join(Split(s[..n], '.'), '.') + s[n..]
  {
    var n := ScanNumbers(s);
    ScanEnds(s);
    JoinSplit(s[..n], '.');
    hide *;
    assert s == s[..n] + s[n..];
  }

  /** Every accepted text is one in parts. */
  lemma ParsedReads(str: string, semver: bool)
    requires ParseVersion(str, semver).Some?
    ensures exists lead, vee, texts, extra :: Reads(str, lead, vee, texts, extra)
  {
    var s := Body(str);
    var n := ScanNumbers(s);
    ParsedNumerals(str, semver);
    ScanParts(s);
    BodyParts(str);
    hide *;
    var lead, vee :| AllSpace(lead) && vee in {"", "v"} && str == lead + vee + s;
    ReadsWhen(str, lead, vee, Split(s[..n], '.'), s[n..]);
  }

  /** A spare zero in front of a component that counts makes the parser refuse the text. */
  lemma SpareZeroRefused(str: string, lead: string, vee: string, texts: seq<string>, extra: string, semver: bool,
                         i: nat)
    requires Reads(str, lead, vee, texts, extra) && i < |texts|
    requires |texts[i]| > 1 && texts[i][0] == '0' && (i == 0 || semver)
    ensures ParseVersion(str, semver) == None
  {
    ReadsParsed(str, lead, vee, texts, extra, semver);
    var components := ParseComponents(texts, semver);
    if components.Some? { ComponentsExactly(texts, semver, components.value); }
  }

  /** A generic version: at least two numerals, the first without a spare zero, then anything on the same line. */
  ghost predicate GenericText(str: string, lead: string, vee: string, texts: seq<string>, extra: string,
                              components: seq<nat>) {
    && Reads(str, lead, vee, texts, extra) && |texts| >= 2 && '\n' !in extra
    && ValuesOf(texts, components) && NoSpareZero(texts, false)
  }

  /** Exactly what `ParseGeneric` accepts, and as what. */
  lemma GenericExactly(str: string, v: Version)
    ensures ParseVersion(str, false) == Some(v) <==>
              && !v.semver && v.preRelease == "" && v.buildMetadata == ""
              && exists lead, vee, texts, extra :: GenericText(str, lead, vee, texts, extra, v.components)
  {
    hide ParseVersion;
    hide Reads;
    hide ParseComponents;
    hide ValuesOf;
    hide NoSpareZero;
    if ParseVersion(str, false) == Some(v) {
      ParsedReads(str, false);
      var lead, vee, texts, extra :| Reads(str, lead, vee, texts, extra);
      ReadsParsed(str, lead, vee, texts, extra, false);
      ComponentsExactly(texts, false, v.components);
      assert GenericText(str, lead, vee, texts, extra, v.components);
    }
    if lead, vee, texts, extra :| GenericText(str, lead, vee, texts, extra, v.components) {
      ReadsParsed(str, lead, vee, texts, extra, false);
      ComponentsExactly(texts, false, v.components);
    }
  }

  /** The text of a semantic version, with spaces and a `v` in front and spaces behind. */
  ghost predicate SemanticText(str: string, lead: string, vee: string, v: Version, trail: string) {
    && |v.components| >= 1 && AllSpace(lead) && AllSpace(trail) && vee in {"", "v"} && '\n' !in trail
    && str == lead + vee + (Join(Texts(v.components), '.') + (if v.preRelease == "" then "" else "-" + v.preRelease)
                            + (if v.buildMetadata == "" then "" else "+" + v.buildMetadata) + trail)
  }

  lemma SemanticTextIs(str: string, lead: string, vee: string, v: Version, trail: string)
    requires |v.components| >= 1
    ensures SemanticText(str, lead, vee, v, trail) <==>
              && AllSpace(lead) && AllSpace(trail) && vee in {"", "v"} && '\n' !in trail
              && str == lead + vee + (Show(v) + trail)
  {
    hide Join;
    hide Texts;
    hide AllSpace;
    var a := Join(Texts(v.components), '.');
    var b := if v.preRelease == "" then "" else "-" + v.preRelease;
    var c := if v.buildMetadata == "" then "" else "+" + v.buildMetadata;
    assert a + b + c == a + (b + c);
  }

  lemma SpanAll(s: string)
    requires Span(s, IsSpace) == |s|
    ensures AllSpace(s)
  {
  }

  /** An accepted tail is the pre-release, the build metadata and spaces. */
  lemma ExtraParts(extra: string)
    requires ParseExtra(extra).Some?
    ensures exists trail ::
              AllSpace(trail) && extra == Tail(ParseExtra(extra).value.0, ParseExtra(extra).value.1) + trail
  {
    var (pre, rest) := Section(extra, '-');
    var (meta, trail) := Section(rest, '+');
    SectionParts(extra, '-');
    SectionParts(rest, '+');
    hide Section;
    hide NonEmptyFields;
    assert AllSpace(trail) by { SpanAll(trail); }
    hide Span;
    hide AllSpace;
    TailJoined(OrEmpty(pre), OrEmpty(meta), rest, trail);
  }

  lemma TailJoined(pre: string, meta: string, rest: string, trail: string)
    requires rest == (if meta == "" then "" else "+" + meta) + trail
    ensures (if pre == "" then "" else "-" + pre) + rest == Tail(pre, meta) + trail
  {
    var a := if pre == "" then "" else "-" + pre;
    var b := if meta == "" then "" else "+" + meta;
    assert a + (b + trail) == (a + b) + trail;
  }

  lemma NotEmptyField(text: string)
    requires NonEmptyFields(text)
    ensures text != ""
  {
    SplitNone("", '.');
    assert Split(text, '.')[0] in Split(text, '.');
  }

  lemma SectionParts(s: string, mark: char)
    requires GoodSection(Section(s, mark).0)
    ensures var (text, rest) := Section(s, mark);
            s == (if OrEmpty(text) == "" then "" else [mark] + OrEmpty(text)) + rest
  {
    if s != "" && s[0] == mark {
      var n := Span(s[1..], IsIdOrDot);
      assert s == [mark] + s[1..][..n] + s[1..][n..];
      NotEmptyField(s[1..][..n]);
    }
  }

  /** Exactly what `ParseSemantic` accepts, and as what: the printed well-formed versions, padded. */
  lemma SemanticExactly(str: string, v: Version)
    ensures ParseVersion(str, true) == Some(v) <==>
              v.semver && WellFormed(v) && exists lead, vee, trail :: SemanticText(str, lead, vee, v, trail)
  {
    hide ParseVersion;
    hide Reads;
    hide Show;
    hide SemanticText;
    if ParseVersion(str, true) == Some(v) {
      ParseWellFormed(str, true);
      ParsedReads(str, true);
      var lead, vee, texts, extra :| Reads(str, lead, vee, texts, extra);
      ReadsSemantic(str, lead, vee, texts, extra, v);
    }
    if lead, vee, trail :| SemanticText(str, lead, vee, v, trail) && v.semver && WellFormed(v) {
      SemanticTextIs(str, lead, vee, v, trail);
      PaddedRoundTrip(lead, vee, v, trail);
    }
  }

  lemma ReadsSemantic(str: string, lead: string, vee: string, texts: seq<string>, extra: string, v: Version)
    requires Reads(str, lead, vee, texts, extra) && ParseVersion(str, true) == Some(v)
    ensures exists trail :: SemanticText(str, lead, vee, v, trail)
  {
    SemanticParts(str, lead, vee, texts, extra, v);
    var trail :| AllSpace(trail) && extra == Tail(v.preRelease, v.buildMetadata) + trail;
    hide ParseVersion;
    hide Join;
    hide Texts;
    hide AllSpace;
    hide Ends;
    hide Numerals;
    hide SemanticText;
    hide Tail;
    var head, tail := Join(texts, '.'), Tail(v.preRelease, v.buildMetadata);
    assert head + (tail + trail) == (head + tail) + trail;
    SemanticTextIs(str, lead, vee, v, trail);
  }

  lemma SemanticParts(str: string, lead: string, vee: string, texts: seq<string>, extra: string, v: Version)
    requires Reads(str, lead, vee, texts, extra) && ParseVersion(str, true) == Some(v)
    ensures Texts(v.components) == texts && |v.components| >= 1 && '\n' !in extra
    ensures exists trail :: AllSpace(trail) && extra == Tail(v.preRelease, v.buildMetadata) + trail
  {
    ReadsParsed(str, lead, vee, texts, extra, true);
    ComponentsExactly(texts, true, v.components);
    NumeralsPrinted(texts, v.components);
    hide ParseVersion;
    hide ParseComponents;
    hide Reads;
    hide Texts;
    hide ValuesOf;
    hide NoSpareZero;
    hide GoodPreRelease;
    if extra != "" {
      ExtraParts(extra);
    } else {
      assert AllSpace("") && extra == Tail(v.preRelease, v.buildMetadata) + "";
    }
  }

  lemma NumeralsPrinted(texts: seq<string>, components: seq<nat>)
    requires ValuesOf(texts, components) && NoSpareZero(texts, true)
    ensures Texts(components) == texts
  {
    forall i | 0 <= i < |texts| ensures Digits(components[i]) == texts[i] { DigitsOfValue(texts[i]); }
  }
}
