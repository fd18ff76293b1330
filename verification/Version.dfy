/** pkg/health/rule_version.go: numeric version ranges. */
module Version {
  import opened Strconv
  import opened DottedPaths

  datatype Version = Version(major: int, minor: int, patch: int)

  datatype Maybe = Unparsable | Parsed(version: Version)

  /** The white space strings.TrimSpace drops. */
  predicate IsSpace(c: char) {
    || 9 <= c as int <= 13 || c == ' '
    || c as int in {0x85, 0xA0, 0x1680, 0x2028, 0x2029, 0x202F, 0x205F, 0x3000}
    || 0x2000 <= c as int <= 0x200A
  }

  function TrimLeft(s: string): string {
    if s != "" && IsSpace(s[0]) then TrimLeft(s[1..]) else s
  }

  function TrimRight(s: string): string {
    if s != "" && IsSpace(s[|s| - 1]) then TrimRight(s[..|s| - 1]) else s
  }

  predicate IsMark(c: char) { c == '-' || c == '+' }

  /** The text before the first '-' or '+'. */
  function Core(s: string): string {
    if s == "" || IsMark(s[0]) then "" else [s[0]] + Core(s[1..])
  }

  function WithoutV(s: string): string { if s != "" && s[0] == 'v' then s[1..] else s }

  /** One component: digits alone, since a sign is refused before Atoi sees it. */
  function Component(part: string): Strconv.Parsed {
    if part == "" || exists i :: 0 <= i < |part| && IsMark(part[i]) then Bad else Atoi(part)
  }

  function Parse(text: string): Maybe {
    var s := WithoutV(TrimRight(TrimLeft(text)));
    if s == "" then Unparsable
    else
      var parts := Split(Core(s));
      if |parts| > 3 then Unparsable
      else
        var at := (i: nat) => if i < |parts| then Component(parts[i]) else Num(0);
        if at(0).Num? && at(1).Num? && at(2).Num? then Parsed(Version(at(0).value, at(1).value, at(2).value))
        else Unparsable
  }

  method ParseVersion(text: string) returns (v: Maybe)
    ensures v == Parse(text)
  {
    var s := WithoutV(TrimRight(TrimLeft(text)));
    if s == "" { return Unparsable; }
    s := Core(s);
    var parts := Split(s);
    if |parts| > 3 { return Unparsable; }
    var out: seq<int> := [0, 0, 0];
    for i := 0 to |parts|
      invariant |out| == 3
      invariant forall k :: 0 <= k < i ==> Component(parts[k]) == Num(out[k])
      invariant forall k :: i <= k < 3 ==> out[k] == 0
    {
      if parts[i] == "" || exists k :: 0 <= k < |parts[i]| && IsMark(parts[i][k]) { return Unparsable; }
      var n := Atoi(parts[i]);
      if n.Bad? { return Unparsable; }
      out := out[i := n.value];
    }
    return Parsed(Version(out[0], out[1], out[2]));
  }

  /** -1, 0 or 1, by the first component that differs. */
  function Compare(a: Version, b: Version): int {
    if a.major < b.major then -1 else if a.major > b.major then 1
    else if a.minor < b.minor then -1 else if a.minor > b.minor then 1
    else if a.patch < b.patch then -1 else if a.patch > b.patch then 1
    else 0
  }

  predicate InRange(v: string, min: string, maxExclusive: string) {
    var version := Parse(v);
    if version.Unparsable? then true
    else
      var lower, upper := Parse(min), Parse(maxExclusive);
      && !(lower.Parsed? && Compare(version.version, lower.version) < 0)
      && !(upper.Parsed? && Compare(version.version, upper.version) >= 0)
  }

  lemma CompareIsTotalOrder(a: Version, b: Version, c: Version)
    ensures Compare(a, b) == -Compare(b, a)
    ensures Compare(a, b) == 0 <==> a == b
    ensures Compare(a, b) <= 0 && Compare(b, c) <= 0 ==> Compare(a, c) <= 0
    ensures Compare(a, b) < 0 && Compare(b, c) <= 0 ==> Compare(a, c) < 0
  {}

  /** Adjacent ranges are disjoint and leave no gap. */
  lemma RangesPartition(v: string, a: string, b: string, c: string)
    requires Parse(v).Parsed? && Parse(a).Parsed? && Parse(b).Parsed? && Parse(c).Parsed?
    requires Compare(Parse(a).version, Parse(b).version) <= 0 && Compare(Parse(b).version, Parse(c).version) <= 0
    ensures !(InRange(v, a, b) && InRange(v, b, c))
    ensures InRange(v, a, b) || InRange(v, b, c) <==> InRange(v, a, c)
  {
    var x, l, m, u := Parse(v).version, Parse(a).version, Parse(b).version, Parse(c).version;
    CompareIsTotalOrder(x, m, u);
    CompareIsTotalOrder(l, m, x);
    CompareIsTotalOrder(x, l, m);
  }

  // ----- what a range takes, in numbers -----

  /** At most, component by component. */
  predicate AtMost(a: Version, b: Version) {
    a.major < b.major || (a.major == b.major && (a.minor < b.minor || (a.minor == b.minor && a.patch <= b.patch)))
  }

  /** A version that cannot be read is in every range; a bound that cannot be read is no
      bound; and the others are numeric, the lower one taken in and the upper one left
      out. */
  lemma RangeInNumbers(v: string, min: string, maxExclusive: string)
    ensures Parse(v).Unparsable? ==> InRange(v, min, maxExclusive)
    ensures Parse(v).Parsed? ==>
      (InRange(v, min, maxExclusive) <==>
        && (Parse(min).Unparsable? || AtMost(Parse(min).version, Parse(v).version))
        && (Parse(maxExclusive).Unparsable? || !AtMost(Parse(maxExclusive).version, Parse(v).version)))
  {}

  /** The empty text, and with it a rule without bounds. */
  lemma NoBoundsNoLimit(v: string)
    ensures Parse("").Unparsable? && InRange(v, "", "")
  {}

  lemma Reads(v: Version)
    requires 0 <= v.major <= MAX_INT && 0 <= v.minor <= MAX_INT && 0 <= v.patch <= MAX_INT
    ensures Parse(Render(v)) == Parsed(v) && Parse("v" + Render(v)) == Parsed(v)
  {
    ParseReadsBack(v, "", "");
    ParseReadsBack(v, "v", "");
    assert "" + Render(v) + "" == Render(v) && "v" + Render(v) + "" == "v" + Render(v);
  }

  /** Of written versions, in the components they were written from. */
  lemma RangeOfWritten(v: Version, min: Version, max: Version)
    requires 0 <= v.major <= MAX_INT && 0 <= v.minor <= MAX_INT && 0 <= v.patch <= MAX_INT
    requires 0 <= min.major <= MAX_INT && 0 <= min.minor <= MAX_INT && 0 <= min.patch <= MAX_INT
    requires 0 <= max.major <= MAX_INT && 0 <= max.minor <= MAX_INT && 0 <= max.patch <= MAX_INT
    ensures InRange("v" + Render(v), Render(min), Render(max)) <==> AtMost(min, v) && !AtMost(max, v)
    ensures InRange("v" + Render(v), Render(min), "") <==> AtMost(min, v)
    ensures InRange("v" + Render(v), "", Render(max)) <==> !AtMost(max, v)
  {
    Reads(v);
    Reads(min);
    Reads(max);
    NoBoundsNoLimit("");
    RangeInNumbers("v" + Render(v), Render(min), Render(max));
    RangeInNumbers("v" + Render(v), Render(min), "");
    RangeInNumbers("v" + Render(v), "", Render(max));
  }

  /** A missing component reads as zero. */
  lemma MajorAlone(major: nat)
    requires major <= MAX_INT
    ensures Parse("v" + Decimal(major)) == Parsed(Version(major, 0, 0))
  {
    OneComponent(major, Decimal(major));
  }

  lemma MajorAndMinor(major: nat, minor: nat)
    requires major <= MAX_INT && minor <= MAX_INT
    ensures Parse("v" + (Decimal(major) + "." + Decimal(minor))) == Parsed(Version(major, minor, 0))
  {
    TwoComponents(major, minor, Decimal(major) + "." + Decimal(minor));
  }

  lemma OneComponent(major: nat, r: string)
    requires major <= MAX_INT && r == Decimal(major)
    ensures Parse("v" + r) == Parsed(Version(major, 0, 0))
  {
    ComponentReadsBack(major);
    ShortText(r);
    NoDots(r);
  }

  lemma TwoComponents(major: nat, minor: nat, r: string)
    requires major <= MAX_INT && minor <= MAX_INT && r == Decimal(major) + "." + Decimal(minor)
    ensures Parse("v" + r) == Parsed(Version(major, minor, 0))
  {
    ComponentReadsBack(major);
    ComponentReadsBack(minor);
    ShortText(r);
    SplitAtDot(Decimal(major), Decimal(minor));
    NoDots(Decimal(major));
    NoDots(Decimal(minor));
    ParseTwo("v" + r, r, Decimal(major), Decimal(minor), major, minor);
  }

  lemma ParseTwo(text: string, s: string, x: string, y: string, major: nat, minor: nat)
    requires s != "" && s == WithoutV(TrimRight(TrimLeft(text))) && Split(Core(s)) == [x, y]
    requires Component(x) == Num(major) && Component(y) == Num(minor)
    ensures Parse(text) == Parsed(Version(major, minor, 0))
  {}

  lemma ShortText(r: string)
    requires Plain(r) && r != "" && IsDigit(r[0]) && IsDigit(r[|r| - 1])
    ensures WithoutV(TrimRight(TrimLeft("v" + r))) == r && Core(r) == r
  {
    var rest := TrimmedText(r, "v", "");
    assert "v" + r + "" == "v" + r && r + rest == r;
    CoreStopsAtMark(r, "");
    assert r + "" == r;
  }

  /** What is no version: more than three components, one that is empty, one that is no
      number. */
  lemma NoVersions()
    ensures Parse("1.2.3.4").Unparsable? && Parse("1..2").Unparsable? && Parse("latest").Unparsable? && Parse("v").Unparsable?
  {
    PlainText("1.2.3.4");
    SplitFour();
    BadParts("1.2.3.4", 0);
    PlainText("1..2");
    SplitEmpty();
    BadParts("1..2", 1);
    Latest();
    OnlyV();
  }

  lemma BadParts(text: string, i: nat)
    requires text != "" && WithoutV(TrimRight(TrimLeft(text))) == text && Core(text) == text
    requires i < |Split(text)| && (|Split(text)| > 3 || Component(Split(text)[i]).Bad?)
    ensures Parse(text).Unparsable?
  {}

  lemma OnlyV()
    ensures Parse("v").Unparsable?
  {
    assert TrimLeft("v") == "v" && TrimRight("v") == "v" && WithoutV("v") == "";
  }

  lemma PlainText(r: string)
    requires Plain(r) && r != "" && IsDigit(r[0]) && IsDigit(r[|r| - 1])
    ensures WithoutV(TrimRight(TrimLeft(r))) == r && Core(r) == r
  {
    CoreStopsAtMark(r, "");
    assert r + "" == r;
  }

  lemma SplitFour()
    ensures |Split("1.2.3.4")| == 4
  {
    assert "1.2.3.4" == "1" + "." + ("2" + "." + ("3" + "." + "4"));
    SplitAtDot("1", "2" + "." + ("3" + "." + "4"));
    SplitAtDot("2", "3" + "." + "4");
    SplitAtDot("3", "4");
    NoDots("1");
    NoDots("2");
    NoDots("3");
    NoDots("4");
  }

  lemma SplitEmpty()
    ensures |Split("1..2")| == 3 && Split("1..2")[1] == ""
  {
    assert "1..2" == "1" + "." + ("" + "." + "2");
    SplitAtDot("1", "" + "." + "2");
    SplitAtDot("", "2");
    NoDots("1");
    NoDots("");
    NoDots("2");
  }

  lemma Latest()
    ensures Parse("latest").Unparsable?
  {
    var s := "latest";
    assert !IsSpace(s[0]) && !IsSpace(s[|s| - 1]) && s[0] != 'v';
    CoreOfText(s);
    FirstOfSplit(s);
    BadParts(s, 0);
  }

  lemma {:induction false} CoreOfText(s: string)
    requires forall i :: 0 <= i < |s| ==> !IsMark(s[i])
    ensures Core(s) == s
  {
    if s != "" {
      CoreOfText(s[1..]);
      assert s == [s[0]] + s[1..];
    }
  }

  lemma FirstOfSplit(s: string)
    requires s != "" && s[0] != '.'
    ensures Split(s)[0] != "" && Split(s)[0][0] == s[0]
  {
    SplitCons(s[0], s[1..]);
    assert [s[0]] + s[1..] == s;
  }

  // ----- reading back what was written -----

  function Render(v: Version): string
    requires v.major >= 0 && v.minor >= 0 && v.patch >= 0
  {
    Decimal(v.major) + "." + Decimal(v.minor) + "." + Decimal(v.patch)
  }

  predicate Plain(s: string) { forall i :: 0 <= i < |s| ==> IsDigit(s[i]) || s[i] == '.' }

  lemma {:induction false} CoreStopsAtMark(core: string, suffix: string)
    requires Plain(core) && (suffix == "" || IsMark(suffix[0]))
    ensures Core(core + suffix) == core
  {
    if core == "" {
      assert core + suffix == suffix;
    } else {
      CoreStopsAtMark(core[1..], suffix);
      assert (core + suffix)[1..] == core[1..] + suffix;
    }
  }

  /** Trimming the right end never reaches into text that ends in no space. */
  lemma {:induction false} TrimRightKeeps(core: string, suffix: string)
    requires core != "" && !IsSpace(core[|core| - 1])
    ensures exists rest :: rest <= suffix && TrimRight(core + suffix) == core + rest
  {
    if suffix == "" {
      assert core + suffix == core;
      assert suffix <= suffix && TrimRight(core + suffix) == core + suffix;
    } else if IsSpace(suffix[|suffix| - 1]) {
      assert (core + suffix)[..|core + suffix| - 1] == core + suffix[..|suffix| - 1];
      TrimRightKeeps(core, suffix[..|suffix| - 1]);
      var rest :| rest <= suffix[..|suffix| - 1] && TrimRight(core + suffix[..|suffix| - 1]) == core + rest;
      assert rest <= suffix;
    } else {
      assert suffix <= suffix && TrimRight(core + suffix) == core + suffix;
    }
  }

  lemma ComponentReadsBack(n: nat)
    requires n <= MAX_INT
    ensures Component(Decimal(n)) == Num(n)
  {
    AtoiDecimal(n);
    forall i | 0 <= i < |Decimal(n)| ensures !IsMark(Decimal(n)[i]) { assert IsDigit(Decimal(n)[i]); }
  }

  lemma SplitRendered(v: Version)
    requires v.major >= 0 && v.minor >= 0 && v.patch >= 0
    ensures Split(Render(v)) == [Decimal(v.major), Decimal(v.minor), Decimal(v.patch)]
  {
    var x, y, z := Decimal(v.major), Decimal(v.minor), Decimal(v.patch);
    assert Render(v) == x + "." + (y + "." + z);
    SplitAtDot(x, y + "." + z);
    SplitAtDot(y, z);
    NoDots(x);
    NoDots(y);
    NoDots(z);
  }

  lemma TrimmedText(r: string, prefix: string, suffix: string) returns (rest: string)
    requires r != "" && IsDigit(r[0]) && IsDigit(r[|r| - 1])
    requires prefix == "" || prefix == "v"
    ensures rest <= suffix && WithoutV(TrimRight(TrimLeft(prefix + r + suffix))) == r + rest
  {
    var text := prefix + r + suffix;
    assert text[0] == if prefix == "" then r[0] else 'v';
    assert TrimLeft(text) == text;
    assert (prefix + r)[|prefix + r| - 1] == r[|r| - 1];
    TrimRightKeeps(prefix + r, suffix);
    rest :| rest <= suffix && TrimRight(text) == prefix + r + rest;
    assert (prefix + r + rest)[0] == text[0];
  }

  lemma ParseOfCore(s: string, text: string, v: Version)
    requires s != "" && s == WithoutV(TrimRight(TrimLeft(text)))
    requires 0 <= v.major <= MAX_INT && 0 <= v.minor <= MAX_INT && 0 <= v.patch <= MAX_INT
    requires Split(Core(s)) == [Decimal(v.major), Decimal(v.minor), Decimal(v.patch)]
    ensures Parse(text) == Parsed(v)
  {
    ComponentReadsBack(v.major);
    ComponentReadsBack(v.minor);
    ComponentReadsBack(v.patch);
  }

  /** A rendered version reads back as itself, with or without a leading v, and
      with any pre-release or build suffix behind it. */
  lemma ParseReadsBack(v: Version, prefix: string, suffix: string)
    requires 0 <= v.major <= MAX_INT && 0 <= v.minor <= MAX_INT && 0 <= v.patch <= MAX_INT
    requires prefix == "" || prefix == "v"
    requires suffix == "" || IsMark(suffix[0])
    ensures Parse(prefix + Render(v) + suffix) == Parsed(v)
  {
    RenderedIsPlain(v);
    var rest := TrimmedText(Render(v), prefix, suffix);
    CoreStopsAtMark(Render(v), rest);
    SplitRendered(v);
    ParseOfCore(Render(v) + rest, prefix + Render(v) + suffix, v);
  }

  lemma RenderedIsPlain(v: Version)
    requires v.major >= 0 && v.minor >= 0 && v.patch >= 0
    ensures Plain(Render(v)) && Render(v) != ""
    ensures IsDigit(Render(v)[0]) && IsDigit(Render(v)[|Render(v)| - 1])
  {
    var x, y, z := Decimal(v.major), Decimal(v.minor), Decimal(v.patch);
    assert Render(v)[0] == x[0] && Render(v)[|Render(v)| - 1] == z[|z| - 1];
  }
}
