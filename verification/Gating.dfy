/** The version gates of `utils/iptables/iptables.go`: the check command and the wait flag. */
module Gating {
  import opened Strings
  import opened Decimal
  import opened Version
  import opened Precedence

  const MIN_CHECK_VERSION := "1.4.11"
  const WAIT_MIN_VERSION := "1.4.20"
  const WAIT_SECONDS_MIN_VERSION := "1.4.22"
  const WAIT_STRING := "-w"
  const WAIT_SECONDS_STRING := "-w5"

  function Generic(components: seq<nat>): Version { Version(components, false, "", "") }

  lemma JoinThree(x: string, y: string, z: string)
    ensures Join([x, y, z], '.') == x + "." + y + "." + z
  {
    JoinOne(z, '.');
    JoinCons(y, [z], '.');
    JoinCons(x, [y, z], '.');
    assert [y] + [z] == [y, z] && [x] + [y, z] == [x, y, z];
  }

  lemma ThreeComponents(a: nat, b: nat, c: nat)
    requires a < UINT_LIMIT && b < UINT_LIMIT && c < UINT_LIMIT
    ensures ParseVersion(Digits(a) + "." + Digits(b) + "." + Digits(c), false) == Some(Generic([a, b, c]))
  {
    hide ParseVersion;
    hide Join;
    hide Digits;
    var v := Generic([a, b, c]);
    assert Texts(v.components) == [Digits(a), Digits(b), Digits(c)];
    JoinThree(Digits(a), Digits(b), Digits(c));
    assert Show(v) == Join(Texts(v.components), '.');
    RoundTrip(v);
  }

  /** The three constants parse, so the error branches for them are never taken. */
  lemma ConstantsParse()
    ensures ParseVersion(MIN_CHECK_VERSION, false) == Some(Generic([1, 4, 11]))
    ensures ParseVersion(WAIT_MIN_VERSION, false) == Some(Generic([1, 4, 20]))
    ensures ParseVersion(WAIT_SECONDS_MIN_VERSION, false) == Some(Generic([1, 4, 22]))
  {
    hide ParseVersion;
    assert Digits(1) == "1" && Digits(4) == "4" && Digits(2) == "2";
    assert Digits(11) == "11" && Digits(20) == "20" && Digits(22) == "22";
    ThreeComponents(1, 4, 11);
    ThreeComponents(1, 4, 20);
    ThreeComponents(1, 4, 22);
    assert "1" + "." + "4" + "." + "11" == MIN_CHECK_VERSION;
    assert "1" + "." + "4" + "." + "20" == WAIT_MIN_VERSION;
    assert "1" + "." + "4" + "." + "22" == WAIT_SECONDS_MIN_VERSION;
  }

  /** `AtLeast` on generic versions, as an order on components. */
  ghost predicate AtLeast(c: seq<nat>, min: seq<nat>) { !Below(c, min) }

  /** Text that is no version is taken to be recent enough. */
  ghost predicate Checks(vstring: string) {
    var v := ParseVersion(vstring, false);
    v.None? || AtLeast(v.value.components, [1, 4, 11])
  }

  /** Text that is no version is granted no wait flag. */
  ghost function Waits(vstring: string): seq<string> {
    var v := ParseVersion(vstring, false);
    if v.None? || Below(v.value.components, [1, 4, 20]) then []
    else if Below(v.value.components, [1, 4, 22]) then [WAIT_STRING]
    else [WAIT_SECONDS_STRING]
  }

  /** `getIPTablesHasCheckCommand`. */
  method HasCheckCommand(vstring: string) returns (has: bool)
    ensures has <==> Checks(vstring)
    ensures var v := ParseVersion(vstring, false); has <==> v.None? || !Below(v.value.components, [1, 4, 11])
  {
    ConstantsParse();
    var minVersion := Parse(MIN_CHECK_VERSION, false);
    if minVersion.None? { return true; }
    var version := Parse(vstring, false);
    if version.None? { return true; }
    ParseWellFormed(vstring, false);
    var r := CompareInternal(version.value, minVersion.value);
    Trichotomy(version.value.components, [1, 4, 11]);
    return r != -1;
  }

  /** `getIPTablesWaitFlag`. */
  method WaitFlag(vstring: string) returns (flags: seq<string>)
    ensures flags == Waits(vstring)
    ensures var v := ParseVersion(vstring, false);
            && (flags == [] <==> v.None? || Below(v.value.components, [1, 4, 20]))
            && (flags == ["-w"] <==>
                v.Some? && !Below(v.value.components, [1, 4, 20]) && Below(v.value.components, [1, 4, 22]))
            && (flags == ["-w5"] <==>
                v.Some? && !Below(v.value.components, [1, 4, 20]) && !Below(v.value.components, [1, 4, 22]))
  {
    ConstantsParse();
    var version := Parse(vstring, false);
    if version.None? { return []; }
    ParseWellFormed(vstring, false);
    var minVersion := Parse(WAIT_MIN_VERSION, false);
    if minVersion.None? { return []; }
    var r := CompareInternal(version.value, minVersion.value);
    Trichotomy(version.value.components, [1, 4, 20]);
    if r == -1 { return []; }
    minVersion := Parse(WAIT_SECONDS_MIN_VERSION, false);
    if minVersion.None? { return []; }
    r := CompareInternal(version.value, minVersion.value);
    Trichotomy(version.value.components, [1, 4, 22]);
    return if r == -1 then [WAIT_STRING] else [WAIT_SECONDS_STRING];
  }

  /** How much of the wait feature a flag list grants: none, `-w`, `-w5`. */
  function Granted(flags: seq<string>): nat {
    if flags == [] then 0 else if flags == [WAIT_STRING] then 1 else 2
  }

  /** A newer iptables is granted every feature an older one is, and waiting implies checking. */
  lemma GatesMonotone(v: string, w: string)
    requires ParseVersion(v, false).Some? && ParseVersion(w, false).Some?
    requires CompareVersions(ParseVersion(v, false).value, ParseVersion(w, false).value) <= 0
    ensures Checks(v) ==> Checks(w)
    ensures Granted(Waits(v)) <= Granted(Waits(w))
    ensures Waits(v) != [] ==> Checks(v)
  {
    ParseWellFormed(v, false);
    hide ParseVersion;
    var a, b := ParseVersion(v, false).value.components, ParseVersion(w, false).value.components;
    AtLeastMonotone(a, b, [1, 4, 11]);
    AtLeastMonotone(a, b, [1, 4, 20]);
    AtLeastMonotone(a, b, [1, 4, 22]);
    assert FirstBelow([1, 4, 11], [1, 4, 20], 2);
    if Below(a, [1, 4, 11]) { BelowTransitive(a, [1, 4, 11], [1, 4, 20]); }
    assert WAIT_STRING != WAIT_SECONDS_STRING;
  }

  lemma AtLeastMonotone(a: seq<nat>, b: seq<nat>, min: seq<nat>)
    requires CompareComponents(a, b) <= 0
    ensures AtLeast(a, min) ==> AtLeast(b, min)
  {
    Trichotomy(a, b);
    if Below(b, min) {
      if Below(a, b) { BelowTransitive(a, b, min); } else { BelowSame(a, b, min); }
    }
  }
}
