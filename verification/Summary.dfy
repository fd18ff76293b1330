/** pkg/cmd/debug/summary.go: the one-screen summary of a node and its bundle. */
module Summary {
  import opened Prefixes
  import opened Strconv
  import opened Wrappers

  const SUMMARY_LINE_BUDGET: nat := 30
  const MAX_OPERAND_LINES: nat := 8
  const MAX_OUTCOME_LINES: nat := 8
  const MAX_LINE_WIDTH: nat := 96
  const MAX_REASON_WIDTH: nat := 60
  const KEY_WIDTH: nat := 16
  const OPERAND_COLUMN: nat := 34
  const NONE := "<none>"
  const ELLIPSIS := "..."
  const FOLDED_SKIP_LABEL := "  skipped (nothing to collect): "

  datatype Operand = Operand(component: string, phase: string, ready: bool, restarts: int)

  datatype Node = Node(
    name: string, product: string, requestedKnown: bool, requested: int, allocatable: int, capacity: int,
    driver: string, cuda: string, mode: string, migStrategy: string, migConfig: string, migState: string,
    upgradeState: string, ready: bool, unschedulable: bool, operands: seq<Operand>)

  datatype CollectorOutcome = CollectorOutcome(name: string, reason: string)

  datatype Bundle = Bundle(
    directory: string, manifest: string, ok: int, skippedCount: int, errorCount: int, files: int, bytes: int64,
    skipped: seq<CollectorOutcome>, errored: seq<CollectorOutcome>)

  datatype Report = Report(node: Node, bundle: Bundle, partial: bool)

  // ----- sizes -----

  newtype int64 = x: int | -0x8000_0000_0000_0000 <= x < 0x8000_0000_0000_0000

  const UNITS := "KMGTPE"

  function Power(exp: nat): nat { if exp == 0 then 1 else 1024 * Power(exp - 1) }

  /** A size as it is shown: plain bytes, or so many of a unit. */
  datatype Size = Plain(bytes: int64) | Scaled(bytes: int64, div: int64, unit: char)

  lemma {:induction false} PowerGrows(exp: nat)
    ensures exp >= 7 ==> Power(exp) >= 0x8000_0000_0000_0000
  {
    if exp > 7 {
      PowerGrows(exp - 1);
    } else {
      assert Power(2) == 0x10_0000 && Power(4) == 0x100_0000_0000;
    }
  }

  /** From 1024 bytes up, the unit is one there is, nothing overflows on the way to
      it, and the number in front of it is at least 1 and under 1024. */
  method HumanBytes(n: int64) returns (s: Size)
    ensures n < 1024 ==> s == Plain(n)
    ensures n >= 1024 ==>
      && s.Scaled? && s.bytes == n && s.div > 0
      && (exists exp :: 0 <= exp < |UNITS| && s.unit == UNITS[exp] && s.div as int == Power(exp + 1))
      && s.div as int <= n as int < 1024 * s.div as int
    ensures n >= 1024 ==> ScaledRight(s, n)
  {
    if n < 1024 { return Plain(n); }
    var div: int64, exp := 1024, 0;
    var size := n / 1024;
    while size >= 1024
      invariant 0 <= exp < 6 && div as int == Power(exp + 1)
      invariant size >= 1 && size as int * div as int <= n as int < (size as int + 1) * div as int
      decreases size
    {
      var next := size / 1024;
      assert size as int == next as int * 1024 + size as int % 1024;
      ScaleStep(size as int, next as int, div as int, n as int);
      PowerGrows(exp + 2);
      div := div * 1024;
      exp := exp + 1;
      size := next;
    }
    OneUnit(size as int, div as int, n as int);
    return Scaled(n, div, UNITS[exp]);
  }

  lemma ScaleStep(size: int, next: int, div: int, n: int)
    requires div > 0 && size >= 1024 && next == size / 1024
    requires size * div <= n < (size + 1) * div
    ensures next >= 1 && next * (div * 1024) <= n < (next + 1) * (div * 1024)
    ensures div * 1024 <= n
  {
    TimesKeepsOrder(next * 1024, size, div);
    TimesKeepsOrder(size + 1, (next + 1) * 1024, div);
    TimesKeepsOrder(1024, size, div);
    assert next * 1024 * div == next * (div * 1024) && (next + 1) * 1024 * div == (next + 1) * (div * 1024);
  }

  lemma TimesKeepsOrder(a: int, b: int, c: int)
    requires a <= b && c > 0
    ensures a * c <= b * c
  {}

  lemma OneUnit(size: int, div: int, n: int)
    requires div > 0 && 1 <= size < 1024 && size * div <= n < (size + 1) * div
    ensures div <= n < 1024 * div
  {
    TimesKeepsOrder(1, size, div);
    TimesKeepsOrder(size + 1, 1024, div);
  }

  /** The number in tenths that stands in front of the unit: n over div, rounded to the
      nearest tenth, a tie to the even one. */
  ghost predicate PrintedTenths(tenths: int, n: int, div: int) { Nearest(tenths, tenths * div, n, div) }

  ghost predicate Nearest(tenths: int, whole: int, n: int, div: int) {
    var off := if 10 * n >= whole then 10 * n - whole else whole - 10 * n;
    2 * off <= div && (2 * off == div ==> tenths % 2 == 0)
  }

  /** What is printed is at least 1.0, and reaches 1024.0, one step short of the next
      unit, exactly in the last twentieth below it. */
  lemma PrintedWithin(tenths: int, n: int, div: int)
    requires 0 < div <= n < 1024 * div && PrintedTenths(tenths, n, div)
    ensures 10 <= tenths <= 10240
    ensures tenths == 10240 <==> 20 * n >= 20479 * div
  {
    if tenths <= 9 { TimesKeepsOrder(tenths, 9, div); }
    if tenths <= 10238 { TimesKeepsOrder(tenths, 10238, div); }
    if tenths >= 10241 { TimesKeepsOrder(10241, tenths, div); }
    NearestWithin(tenths, tenths * div, n, div);
  }

  lemma NearestWithin(tenths: int, whole: int, n: int, div: int)
    requires 0 < div <= n < 1024 * div && Nearest(tenths, whole, n, div)
    requires tenths <= 9 ==> whole <= 9 * div
    requires tenths <= 10238 ==> whole <= 10238 * div
    requires tenths == 10239 ==> whole == 10239 * div
    requires tenths == 10240 ==> whole == 10240 * div
    requires tenths >= 10241 ==> whole >= 10241 * div
    ensures 10 <= tenths <= 10240
    ensures tenths == 10240 <==> 20 * n >= 20479 * div
  {}

  /** One byte short of a MiB is printed as 1024.0 KiB. */
  lemma LastByteBelowUnit()
    ensures PrintedTenths(10240, 1048575, 1024)
  {}

  /** What HumanBytes promises of a size of 1024 bytes or more. */
  ghost predicate ScaledRight(s: Size, n: int64) {
    && s.Scaled? && s.bytes == n && s.div > 0
    && (exists exp :: 0 <= exp < |UNITS| && s.unit == UNITS[exp] && s.div as int == Power(exp + 1))
    && s.div as int <= n as int < 1024 * s.div as int
  }

  /** The unit of every size, in bytes. */
  lemma UnitsInBytes(s: Size, n: int64)
    requires ScaledRight(s, n)
    ensures 1024 <= n as int
    ensures n as int < 1048576 <==> s.unit == 'K' && s.div == 1024
    ensures 1048576 <= n as int < 1073741824 <==> s.unit == 'M' && s.div == 1048576
    ensures 1073741824 <= n as int < 1099511627776 <==> s.unit == 'G' && s.div == 1073741824
    ensures 1099511627776 <= n as int < 1125899906842624 <==> s.unit == 'T' && s.div == 1099511627776
    ensures 1125899906842624 <= n as int < 1152921504606846976 <==> s.unit == 'P' && s.div == 1125899906842624
    ensures 1152921504606846976 <= n as int <==> s.unit == 'E' && s.div == 1152921504606846976
  {
    PowersOf1024();
    var exp :| 0 <= exp < |UNITS| && s.unit == UNITS[exp] && s.div as int == Power(exp + 1);
    assert exp == 0 || exp == 1 || exp == 2 || exp == 3 || exp == 4 || exp == 5;
  }

  lemma PowersOf1024()
    ensures Power(1) == 1024 && Power(2) == 1048576 && Power(3) == 1073741824
    ensures Power(4) == 1099511627776 && Power(5) == 1125899906842624 && Power(6) == 1152921504606846976
  {}

  // ----- composing lines -----

  function ValueOr(value: string, fallback: string): string { if value == "" then fallback else value }

  function Int(n: int): string { if n < 0 then "-" + Decimal(-n) else Decimal(n) }

  function Pad(s: string, width: nat): string
    decreases width - |s|
  {
    if |s| >= width then s else Pad(s + " ", width)
  }

  /** Cut to a width of at least the ellipsis, which marks the cut. */
  function Truncate(value: string, width: nat): (r: string)
    requires width >= |ELLIPSIS|
    ensures |r| <= width
    ensures |value| <= width ==> r == value
    ensures |value| > width ==> r == value[..width - |ELLIPSIS|] + ELLIPSIS
  {
    if |value| <= width then value else value[..width - |ELLIPSIS|] + ELLIPSIS
  }

  function OutcomeLine(what: string, o: CollectorOutcome): (line: string)
    ensures |line| <= MAX_LINE_WIDTH
  {
    Truncate("  " + what + " " + o.name + ": " + Truncate(o.reason, MAX_REASON_WIDTH), MAX_LINE_WIDTH)
  }

  function More(left: nat, what: string): string {
    "  " + Decimal(left) + " more" + (if what == "" then "" else " " + what) + ", see -o json"
  }

  /** At most limit lines: every one, or all but the last of them and a count of what
      is left out. */
  function Bounded(lines: seq<string>, limit: nat, what: string): (out: seq<string>)
    requires limit > 0
    ensures |out| <= limit
    ensures |lines| <= limit ==> out == lines
    ensures |lines| > limit ==> exists shown: nat, left: nat ::
      shown + left == |lines| && |out| == shown + 1 && out[..shown] == lines[..shown] && out[shown] == More(left, what)
  {
    if |lines| <= limit then lines
    else
      var out := lines[..limit - 1] + [More(|lines| - (limit - 1), what)];
      assert out[..limit - 1] == lines[..limit - 1];
      assert (limit - 1) + (|lines| - (limit - 1)) == |lines| && |out| == (limit - 1) + 1;
      out
  }

  function JoinNames(names: seq<string>): string {
    if names == [] then "" else if |names| == 1 then names[0] else names[0] + ", " + JoinNames(names[1..])
  }

  lemma {:induction false} JoinSnoc(names: seq<string>, x: string)
    ensures JoinNames(names + [x]) == if names == [] then x else JoinNames(names) + ", " + x
  {
    if names != [] {
      JoinSnoc(names[1..], x);
      assert (names + [x])[1..] == names[1..] + [x];
    }
  }

  /** A list of names shows each of them, a comma between it and its neighbours. */
  lemma {:induction false} EachNameShows(names: seq<string>, i: nat) returns (before: string, behind: string)
    requires i < |names|
    ensures JoinNames(names) == before + names[i] + behind
    ensures if i == 0 then before == "" else |before| >= 2 && before[|before| - 2..] == ", "
    ensures if i + 1 == |names| then behind == "" else ", " <= behind
  {
    if i == 0 {
      before, behind := "", if |names| == 1 then "" else ", " + JoinNames(names[1..]);
    } else {
      var b, a := EachNameShows(names[1..], i - 1);
      before, behind := names[0] + ", " + b, a;
      assert names[0] + ", " + (b + names[i] + a) == names[0] + ", " + b + names[i] + a;
    }
  }

  /** The first kept names and the number of the others. */
  function FoldedTo(names: seq<string>, kept: nat): string
    requires kept <= |names|
  {
    FOLDED_SKIP_LABEL + JoinNames(names[..kept]) + " (+" + Decimal(|names| - kept) + " more)"
  }

  /** One line within the width: all the names, or as many as fit with the rest
      counted, or the count alone. */
  method FoldedLine(names: seq<string>) returns (line: string)
    ensures line == Folded(names)
    ensures |line| <= MAX_LINE_WIDTH
  {
    line := FOLDED_SKIP_LABEL + JoinNames(names);
    if |line| <= MAX_LINE_WIDTH { return; }
    var kept := |names| - 1;
    while kept > 0
      invariant kept < |names|
      invariant Folded(names) == FoldedBelow(names, kept)
    {
      line := FoldedTo(names, kept);
      if |line| <= MAX_LINE_WIDTH { return; }
      kept := kept - 1;
    }
    return Truncate(FOLDED_SKIP_LABEL + Decimal(|names|) + " collectors", MAX_LINE_WIDTH);
  }

  function Folded(names: seq<string>): string {
    var whole := FOLDED_SKIP_LABEL + JoinNames(names);
    if |whole| <= MAX_LINE_WIDTH then whole else FoldedBelow(names, |names| - 1)
  }

  function FoldedBelow(names: seq<string>, kept: int): string
    requires kept <= |names|
    decreases kept
  {
    if kept <= 0 then Truncate(FOLDED_SKIP_LABEL + Decimal(|names|) + " collectors", MAX_LINE_WIDTH)
    else if |FoldedTo(names, kept)| <= MAX_LINE_WIDTH then FoldedTo(names, kept)
    else FoldedBelow(names, kept - 1)
  }

  /** What is shown is k names and a count, and no more names would have fitted. */
  ghost predicate ShowsTheMost(names: seq<string>, kept: nat, line: string, k: nat)
    requires kept <= |names|
  {
    0 < k <= kept && line == FoldedTo(names, k) && forall j :: k < j <= kept ==> |FoldedTo(names, j)| > MAX_LINE_WIDTH
  }

  /** The folded line fits, and it shows as many of the names as any line that counts
      the rest could. */
  lemma {:induction false} FoldedShowsTheMost(names: seq<string>, kept: nat)
    requires kept <= |names|
    ensures |FoldedBelow(names, kept)| <= MAX_LINE_WIDTH
    ensures (forall k :: 0 < k <= kept ==> |FoldedTo(names, k)| > MAX_LINE_WIDTH)
      || exists k :: ShowsTheMost(names, kept, FoldedBelow(names, kept), k)
  {
    if kept > 0 {
      if |FoldedTo(names, kept)| <= MAX_LINE_WIDTH {
        assert ShowsTheMost(names, kept, FoldedBelow(names, kept), kept);
      } else {
        FoldedShowsTheMost(names, kept - 1);
        if !forall k :: 0 < k <= kept - 1 ==> |FoldedTo(names, k)| > MAX_LINE_WIDTH {
          var shown :| ShowsTheMost(names, kept - 1, FoldedBelow(names, kept - 1), shown);
          assert ShowsTheMost(names, kept, FoldedBelow(names, kept), shown);
        }
      }
    }
  }

  predicate Contains(s: string, part: string) { exists i :: 0 <= i <= |s| && part <= s[i..] }

  predicate Actionable(reason: string) { "forbidden" <= reason || Contains(reason, "timeout") }

  /** A skip can be acted on when its reason begins with "forbidden" or says "timeout". */
  lemma ActionableInWords(reason: string)
    ensures Actionable(reason) <==>
      (exists rest :: reason == "forbidden" + rest) || exists before, behind :: reason == before + "timeout" + behind
  {
    if "forbidden" <= reason { assert reason == "forbidden" + reason[|"forbidden"|..]; }
    if rest :| reason == "forbidden" + rest { assert "forbidden" <= reason; }
    ContainsInWords(reason, "timeout");
  }

  lemma ContainsInWords(s: string, part: string)
    ensures Contains(s, part) <==> exists before, behind :: s == before + part + behind
  {
    if i :| 0 <= i <= |s| && part <= s[i..] {
      assert s == s[..i] + part + s[i + |part|..] by { assert s[i..] == part + s[i..][|part|..] && s[i..][|part|..] == s[i + |part|..]; }
    }
    if before, behind :| s == before + part + behind { assert s[|before|..] == part + behind; }
  }

  // ----- the screen -----

  function KeyLine(key: string, value: string): string {
    Pad(Sanitize(key) + ":", KEY_WIDTH) + " " + Sanitize(value)
  }

  function OperandLine(o: Operand): string {
    "  " + Pad(ValueOr(o.component, NONE), OPERAND_COLUMN) + " " + Pad(o.phase, 9) + " ready=" +
    Pad(if o.ready then "true" else "false", 5) + " restarts=" + Int(o.restarts)
  }

  function OperandLines(operands: seq<Operand>): seq<string> {
    if operands == [] then ["  " + NONE]
    else Bounded(seq(|operands|, i requires 0 <= i < |operands| => OperandLine(operands[i])), MAX_OPERAND_LINES, "operands")
  }

  function Named(b: Bundle): seq<string> {
    seq(|b.errored|, i requires 0 <= i < |b.errored| => OutcomeLine("error  ", b.errored[i])) + NamedSkips(b.skipped)
  }

  function NamedSkips(skipped: seq<CollectorOutcome>): seq<string> {
    if skipped == [] then []
    else if Actionable(skipped[|skipped| - 1].reason)
    then NamedSkips(skipped[..|skipped| - 1]) + [OutcomeLine("skipped", skipped[|skipped| - 1])]
    else NamedSkips(skipped[..|skipped| - 1])
  }

  function FoldedSkips(skipped: seq<CollectorOutcome>): seq<string> {
    if skipped == [] then []
    else if Actionable(skipped[|skipped| - 1].reason) then FoldedSkips(skipped[..|skipped| - 1])
    else FoldedSkips(skipped[..|skipped| - 1]) + [skipped[|skipped| - 1].name]
  }

  function OutcomeLines(b: Bundle): seq<string> {
    var folded := FoldedSkips(b.skipped);
    if folded == [] then Bounded(Named(b), MAX_OUTCOME_LINES, "")
    else Bounded(Named(b), MAX_OUTCOME_LINES - 1, "") + [Folded(folded)]
  }

  function GpuCounts(n: Node): string {
    (if n.requestedKnown then Int(n.requested) else "?") + "/" + Int(n.allocatable) + "/" + Int(n.capacity) +
    "  (requested/allocatable/capacity)"
  }

  function MigLine(n: Node): string {
    ValueOr(n.migStrategy, NONE) + (if n.migConfig != "" then "  config=" + n.migConfig else "") +
    (if n.migState != "" then " (" + n.migState + ")" else "")
  }

  function StatusLine(r: Report): string {
    (if r.node.ready then "Ready" else "NotReady") + (if r.node.unschedulable then ",SchedulingDisabled" else "") +
    (if r.partial then "  (partial: see status.unreachable at -o json)" else "")
  }

  function NodeLines(r: Report): seq<string> {
    var n := r.node;
    [KeyLine("Node", n.name), KeyLine("Product", ValueOr(n.product, NONE)), KeyLine("GPUs", GpuCounts(n)),
     KeyLine("Driver", ValueOr(n.driver, NONE) + "  (CUDA " + ValueOr(n.cuda, NONE) + ")"),
     KeyLine("Mode", ValueOr(n.mode, NONE)), KeyLine("MIG", MigLine(n)),
     KeyLine("Upgrade state", ValueOr(n.upgradeState, NONE)), KeyLine("Status", StatusLine(r))]
  }

  function CountsLine(b: Bundle, size: string): string {
    Int(b.ok) + " ok, " + Int(b.skippedCount) + " skipped, " + Int(b.errorCount) + " error  (" + Int(b.files) + " files, " + size + ")"
  }

  function NextLines(r: Report): seq<string> {
    ["Next:", "  kubectl nv health --node " + r.node.name] +
    if r.bundle.manifest != "" then ["  kubectl nv health --from-bundle " + r.bundle.directory] else []
  }

  /** The lines of the screen; `size` is how the bundle's size is written out. */
  function Screen(r: Report, size: string): seq<string> {
    NodeLines(r) + OperandPart(r.node.operands) + BundlePart(r.bundle, size) + NextLines(r)
  }

  function OperandPart(operands: seq<Operand>): seq<string> { ["Operands:"] + OperandLines(operands) }

  function BundlePart(b: Bundle, size: string): seq<string> {
    [KeyLine("Bundle", b.directory), KeyLine("Collectors", CountsLine(b, size))] + OutcomeLines(b)
  }

  /** The screen stays within its budget, whatever the report. */
  lemma ScreenWithinBudget(r: Report, size: string)
    ensures |Screen(r, size)| <= SUMMARY_LINE_BUDGET && |Screen(r, size)| <= 30
  {
    assert |OperandLines(r.node.operands)| <= MAX_OPERAND_LINES;
    assert |OutcomeLines(r.bundle)| <= MAX_OUTCOME_LINES;
    assert |NodeLines(r)| == 8 && |NextLines(r)| <= 3;
  }

  /** Every collector that failed and every skip a reader can act on has its line among
      the named ones, failures first; every other skip is named on the folded line; and
      there is nothing else on either. */
  lemma EveryOutcomeHasAPlace(b: Bundle)
    ensures |Named(b)| + |FoldedSkips(b.skipped)| == |b.errored| + |b.skipped|
    ensures forall i :: 0 <= i < |b.errored| ==> Named(b)[i] == OutcomeLine("error  ", b.errored[i])
    ensures forall s :: s in b.skipped && Actionable(s.reason) ==> OutcomeLine("skipped", s) in Named(b)[|b.errored|..]
    ensures forall s :: s in b.skipped && !Actionable(s.reason) ==> s.name in FoldedSkips(b.skipped)
    ensures forall line :: line in Named(b)[|b.errored|..] ==> exists s :: s in b.skipped && Actionable(s.reason) && line == OutcomeLine("skipped", s)
    ensures forall name :: name in FoldedSkips(b.skipped) ==> exists s :: s in b.skipped && !Actionable(s.reason) && name == s.name
  {
    SkipsAreSplit(b.skipped);
    SkipsArePlaced(b.skipped);
    assert Named(b)[|b.errored|..] == NamedSkips(b.skipped);
  }

  lemma {:induction false} SkipsAreSplit(skipped: seq<CollectorOutcome>)
    ensures |NamedSkips(skipped)| + |FoldedSkips(skipped)| == |skipped|
  {
    if skipped != [] { SkipsAreSplit(skipped[..|skipped| - 1]); }
  }

  lemma {:induction false} SkipsArePlaced(skipped: seq<CollectorOutcome>)
    ensures forall s :: s in skipped && Actionable(s.reason) ==> OutcomeLine("skipped", s) in NamedSkips(skipped)
    ensures forall s :: s in skipped && !Actionable(s.reason) ==> s.name in FoldedSkips(skipped)
    ensures forall line :: line in NamedSkips(skipped) ==> exists s :: s in skipped && Actionable(s.reason) && line == OutcomeLine("skipped", s)
    ensures forall name :: name in FoldedSkips(skipped) ==> exists s :: s in skipped && !Actionable(s.reason) && name == s.name
  {
    if skipped != [] {
      var init, last := skipped[..|skipped| - 1], skipped[|skipped| - 1];
      SkipsArePlaced(init);
      assert skipped == init + [last];
      assert last in skipped && forall s :: s in init ==> s in skipped;
    }
  }

  // ----- printing it -----

  predicate IsControl(c: char) { c as int < 0x20 || c as int == 0x7F || 0x80 <= c as int <= 0x9F }

  function SanitizeChar(c: char): string {
    if c == '\n' || c == '\t' then " " else if IsControl(c) then "" else [c]
  }

  function Sanitize(s: string): string {
    if s == "" then "" else Sanitize(s[..|s| - 1]) + SanitizeChar(s[|s| - 1])
  }

  /** Text is printed character by character. */
  lemma SanitizeSnoc(s: string, c: char)
    ensures Sanitize(s + [c]) == Sanitize(s) + SanitizeChar(c)
  {
    assert (s + [c])[..|s|] == s;
  }

  /** Of a character, what is printed: a newline or a tab as a space, no other control
      character at all, everything else as it is. */
  lemma SanitizeEach(c: char)
    ensures Sanitize([c]) ==
      if c == '\n' || c == '\t' then " "
      else if c as int < 32 || 127 <= c as int <= 159 then ""
      else [c]
  {
    assert [c][..0] == "";
  }

  /** Text without control characters is printed as it is. */
  lemma {:induction false} SanitizeKeeps(s: string)
    requires forall i :: 0 <= i < |s| ==> 32 <= s[i] as int < 127 || s[i] as int > 159
    ensures Sanitize(s) == s
  {
    if s != "" { SanitizeKeeps(s[..|s| - 1]); }
  }

  lemma {:induction false} PadInWords(s: string, width: nat)
    ensures s <= Pad(s, width) && |Pad(s, width)| == if |s| < width then width else |s|
    ensures forall i :: |s| <= i < |Pad(s, width)| ==> Pad(s, width)[i] == ' '
    decreases width - |s|
  {
    if |s| < width { PadInWords(s + " ", width); }
  }

  /** A key line: the key and a colon, spaces up to the seventeenth column, the value. */
  lemma KeyLineInWords(key: string, value: string)
    requires |key| < 16
    requires forall i :: 0 <= i < |key| ==> 32 <= key[i] as int < 127
    requires forall i :: 0 <= i < |value| ==> 32 <= value[i] as int < 127
    ensures var line := KeyLine(key, value);
      && |line| == 17 + |value| && key + ":" <= line && line[17..] == value
      && forall i :: |key| < i < 17 ==> line[i] == ' '
  {
    SanitizeKeeps(key);
    SanitizeKeeps(value);
    PadInWords(key + ":", KEY_WIDTH);
    Columns(key, Pad(key + ":", KEY_WIDTH), value);
  }

  lemma Columns(key: string, padded: string, value: string)
    requires |padded| == 16 && key + ":" <= padded && forall i :: |key| < i < 16 ==> padded[i] == ' '
    ensures var line := padded + " " + value;
      && |line| == 17 + |value| && key + ":" <= line && line[17..] == value
      && forall i :: |key| < i < 17 ==> line[i] == ' '
  {}

  /** What the status line says. */
  lemma StatusInWords(r: Report)
    ensures !r.partial && r.node.ready && !r.node.unschedulable ==> StatusLine(r) == "Ready"
    ensures !r.partial && !r.node.ready && !r.node.unschedulable ==> StatusLine(r) == "NotReady"
    ensures !r.partial && r.node.ready && r.node.unschedulable ==> StatusLine(r) == "Ready,SchedulingDisabled"
    ensures !r.partial && !r.node.ready && r.node.unschedulable ==> StatusLine(r) == "NotReady,SchedulingDisabled"
  {}

  lemma PartialInWords(r: Report)
    requires r.partial
    ensures StatusLine(r) == StatusLine(r.(partial := false)) + "  (partial: see status.unreachable at -o json)"
  {}

  /** What the line about GPUs says: requested, allocatable, capacity. */
  lemma CountsInWords(n: Node)
    requires n.requested == 2 && n.allocatable == 6 && n.capacity == 8
    ensures GpuCounts(n) == (if n.requestedKnown then "2" else "?") + "/6/8" + "  (requested/allocatable/capacity)"
  {
    DecimalIsBaseTen(2);
    DecimalIsBaseTen(6);
    DecimalIsBaseTen(8);
    Slashes(if n.requestedKnown then Int(2) else "?", Int(6), Int(8), "  (requested/allocatable/capacity)");
  }

  lemma Slashes(a: string, b: string, c: string, tail: string)
    requires b == "6" && c == "8"
    ensures a + "/" + b + "/" + c + tail == a + "/6/8" + tail
  {
    assert a + "/" + b + "/" + c == a + "/6/8";
  }

  /** What a list of operands says when it is too long for the screen. */
  lemma OperandsInNumbers(operands: seq<Operand>)
    ensures |operands| <= 8 ==> |OperandLines(operands)| == if operands == [] then 1 else |operands|
    ensures |operands| > 8 ==> |OperandLines(operands)| == 8 && OperandLines(operands)[7] == More(|operands| - 7, "operands")
  {}

  /** What the line that counts the others says. */
  lemma MoreInWords(what: string)
    requires what != ""
    ensures More(7, what) == "  7 more " + what + ", see -o json" && More(7, "") == "  7 more, see -o json"
  {
    DecimalIsBaseTen(7);
    assert "  " + "7" + " more" == "  7 more";
    assert " " + what == [' '] + what;
    Spaced("  7 more", what, ", see -o json");
  }

  lemma Spaced(a: string, b: string, c: string)
    ensures a + (" " + b) + c == a + " " + b + c
  {}

  /** No line about a collector is wider than 96 columns, and one that fits says what it is
      about, the collector and its reason, of which 60 columns are shown. */
  lemma OutcomesInWords(what: string, o: CollectorOutcome, names: seq<string>)
    ensures |OutcomeLine(what, o)| <= 96
    ensures |o.reason| <= 60 && |what| + |o.name| + |o.reason| <= 91 ==> OutcomeLine(what, o) == "  " + what + " " + o.name + ": " + o.reason
    ensures |JoinNames(names)| <= 64 ==> Folded(names) == "  skipped (nothing to collect): " + JoinNames(names)
  {}

  /** The folded line that does not name them all counts exactly those it leaves out. */
  lemma FoldedInWords(names: seq<string>, kept: nat)
    requires kept + 3 == |names|
    ensures FoldedTo(names, kept) == "  skipped (nothing to collect): " + JoinNames(names[..kept]) + " (+3 more)"
  {
    DecimalIsBaseTen(3);
    var shown := FOLDED_SKIP_LABEL + JoinNames(names[..kept]);
    assert " (+" + "3" + " more)" == " (+3 more)";
    assert shown + " (+" + "3" + " more)" == shown + " (+3 more)";
  }

  /** The eight lines about the node, in their order. */
  lemma NodeLinesInWords(r: Report)
    ensures NodeLines(r) == [
      KeyLine("Node", r.node.name),
      KeyLine("Product", if r.node.product == "" then "<none>" else r.node.product),
      KeyLine("GPUs", GpuCounts(r.node)),
      KeyLine("Driver", (if r.node.driver == "" then "<none>" else r.node.driver) + "  (CUDA " + (if r.node.cuda == "" then "<none>" else r.node.cuda) + ")"),
      KeyLine("Mode", if r.node.mode == "" then "<none>" else r.node.mode),
      KeyLine("MIG", MigLine(r.node)),
      KeyLine("Upgrade state", if r.node.upgradeState == "" then "<none>" else r.node.upgradeState),
      KeyLine("Status", StatusLine(r))]
  {}

  /** The lines about the bundle: where it is, how its collectors ended, their outcomes. */
  lemma BundleInWords(b: Bundle, size: string)
    ensures |BundlePart(b, size)| >= 2 && BundlePart(b, size)[0] == KeyLine("Bundle", b.directory)
    ensures BundlePart(b, size)[1] == KeyLine("Collectors", Int(b.ok) + " ok, " + Int(b.skippedCount) + " skipped, " +
      Int(b.errorCount) + " error  (" + Int(b.files) + " files, " + size + ")")
    ensures BundlePart(b, size)[2..] == OutcomeLines(b)
  {}

  /** An operand is named by its component, then its phase, whether it is ready, and how
      often it restarted. */
  lemma OperandInWords(o: Operand)
    ensures OperandLine(o) == "  " + Pad(if o.component == "" then "<none>" else o.component, 34) + " " + Pad(o.phase, 9) +
      " ready=" + Pad(if o.ready then "true" else "false", 5) + " restarts=" + Int(o.restarts)
  {}

  /** The commands to run next. */
  lemma NextInWords(r: Report)
    ensures NextLines(r) == ["Next:", "  kubectl nv health --node " + r.node.name] +
      if r.bundle.manifest == "" then [] else ["  kubectl nv health --from-bundle " + r.bundle.directory]
  {}

  /** What the line about MIG says. */
  lemma MigInWords(n: Node)
    ensures MigLine(n) == (if n.migStrategy == "" then "<none>" else n.migStrategy) +
      (if n.migConfig == "" then "" else "  config=" + n.migConfig) +
      (if n.migState == "" then "" else " (" + n.migState + ")")
  {}

  function Newlines(s: string): nat {
    if s == "" then 0 else Newlines(s[..|s| - 1]) + if s[|s| - 1] == '\n' then 1 else 0
  }

  function Text(lines: seq<string>): string {
    if lines == [] then "" else Text(lines[..|lines| - 1]) + Sanitize(lines[|lines| - 1]) + "\n"
  }

  lemma {:induction false} NewlinesAppend(a: string, b: string)
    ensures Newlines(a + b) == Newlines(a) + Newlines(b)
  {
    if b == "" {
      assert a + b == a;
    } else {
      NewlinesAppend(a, b[..|b| - 1]);
      assert (a + b)[..|a + b| - 1] == a + b[..|b| - 1];
    }
  }

  lemma {:induction false} SanitizedIsOneLine(s: string)
    ensures Newlines(Sanitize(s)) == 0
  {
    if s != "" {
      SanitizedIsOneLine(s[..|s| - 1]);
      OneCharacterIsNoLine(s[|s| - 1]);
      NewlinesAppend(Sanitize(s[..|s| - 1]), SanitizeChar(s[|s| - 1]));
    }
  }

  lemma OneCharacterIsNoLine(c: char)
    ensures Newlines(SanitizeChar(c)) == 0
  {
    assert Newlines("") == 0 && [c][..0] == "";
  }

  /** What is printed has as many lines as were composed, whatever is in them. */
  lemma {:induction false} TextHasOneLineEach(lines: seq<string>)
    ensures Newlines(Text(lines)) == |lines|
  {
    if lines != [] {
      var init, last := lines[..|lines| - 1], lines[|lines| - 1];
      TextHasOneLineEach(init);
      SanitizedIsOneLine(last);
      NewlinesAppend(Text(init) + Sanitize(last), "\n");
      NewlinesAppend(Text(init), Sanitize(last));
    }
  }

  /** What did not fit does not fit with more behind it, and is cut where it was. */
  lemma CutAppends(text: string, more: string, room: Option<nat>)
    ensures Breaks(text, room) ==> Breaks(text + more, room) && Cut(text + more, room) == Cut(text, room)
  {}

  lemma PrefixHasNoMoreLines(a: string, b: string)
    requires a <= b
    ensures Newlines(a) <= Newlines(b)
  {
    assert b == a + b[|a|..];
    NewlinesAppend(a, b[|a|..]);
  }

  lemma TextAppends(lines: seq<string>, line: string)
    ensures Text(lines + [line]) == Text(lines) + Sanitize(line) + "\n"
  {
    assert (lines + [line])[..|lines|] == lines;
  }

  /** What a writer that takes so many characters and then breaks has of a text. */
  function Cut(text: string, room: Option<nat>): string {
    if Breaks(text, room) then text[..room.value] else text
  }

  predicate Breaks(text: string, room: Option<nat>) { room.Some? && |text| > room.value }

  /** Writes lines and keeps the first write error; after one, it writes nothing. */
  class Printer {
    const room: Option<nat>     // what the writer takes before it breaks, if it does
    var out: string
    var failed: bool
    ghost var lines: seq<string>

    ghost predicate Valid() reads this { out == Cut(Text(lines), room) && failed == Breaks(Text(lines), room) }

    constructor (writes: Option<nat>)
      ensures Valid() && lines == [] && out == "" && room == writes
    {
      room, out, failed, lines := writes, "", false, [];
    }

    /** A write that breaks has written what there was room for. */
    method Write(s: string)
      modifies `out, `failed
      requires !failed ==> !Breaks(out, room)
      ensures if old(failed) then failed && out == old(out)
              else out == Cut(old(out) + s, room) && failed == Breaks(old(out) + s, room)
    {
      if failed { return; }
      if room.Some? && |out| + |s| > room.value {
        failed := true;
        out := out + s[..room.value - |out|];
      } else {
        out := out + s;
      }
    }

    method Line(text: string)
      requires Valid()
      modifies this
      ensures Valid() && lines == old(lines) + [text]
    {
      TextAppends(lines, text);
      CutAppends(Text(lines), Sanitize(text) + "\n", room);
      assert Text(lines) + (Sanitize(text) + "\n") == Text(lines) + Sanitize(text) + "\n";
      Write(Sanitize(text) + "\n");
      lines := lines + [text];
    }

    method Lines(texts: seq<string>)
      requires Valid()
      modifies this
      ensures Valid() && lines == old(lines) + texts
    {
      assert old(lines) + texts[..0] == old(lines);
      for i := 0 to |texts|
        invariant Valid() && lines == old(lines) + texts[..i]
      {
        Line(texts[i]);
        assert old(lines) + texts[..i + 1] == old(lines) + texts[..i] + [texts[i]];
      }
      WholePrefix(texts);
    }
  }

  method SummariseOperands(p: Printer, operands: seq<Operand>)
    requires p.Valid()
    modifies p
    ensures p.Valid() && p.lines == old(p.lines) + OperandPart(operands)
  {
    p.Lines(["Operands:"]);
    Regroup(old(p.lines), ["Operands:"], OperandLines(operands));
    if |operands| == 0 {
      p.Lines(["  " + NONE]);
      return;
    }
    var lines := RenderOperands(operands);
    p.Lines(Bounded(lines, MAX_OPERAND_LINES, "operands"));
  }

  method RenderOperands(operands: seq<Operand>) returns (lines: seq<string>)
    ensures lines == seq(|operands|, i requires 0 <= i < |operands| => OperandLine(operands[i]))
  {
    lines := [];
    for i := 0 to |operands|
      invariant |lines| == i && forall k :: 0 <= k < i ==> lines[k] == OperandLine(operands[k])
    {
      lines := lines + [OperandLine(operands[i])];
    }
  }

  lemma Regroup(a: seq<string>, b: seq<string>, c: seq<string>)
    ensures a + b + c == a + (b + c)
  {}

  method SortOutcomes(b: Bundle) returns (named: seq<string>, folded: seq<string>)
    ensures named == Named(b) && folded == FoldedSkips(b.skipped)
  {
    named, folded := [], [];
    for i := 0 to |b.errored|
      invariant |named| == i && forall k :: 0 <= k < i ==> named[k] == OutcomeLine("error  ", b.errored[k])
    {
      named := named + [OutcomeLine("error  ", b.errored[i])];
    }
    ghost var errors := named;
    for i := 0 to |b.skipped|
      invariant named == errors + NamedSkips(b.skipped[..i])
      invariant folded == FoldedSkips(b.skipped[..i])
    {
      PrefixSnoc(b.skipped, i);
      if Actionable(b.skipped[i].reason) {
        named := named + [OutcomeLine("skipped", b.skipped[i])];
        continue;
      }
      folded := folded + [b.skipped[i].name];
    }
    WholePrefix(b.skipped);
  }

  method SummariseBundle(p: Printer, b: Bundle, size: string)
    requires p.Valid()
    modifies p
    ensures p.Valid()
    ensures p.lines == old(p.lines) + BundlePart(b, size)
  {
    p.Lines([KeyLine("Bundle", b.directory), KeyLine("Collectors", CountsLine(b, size))]);
    var named, folded := SortOutcomes(b);
    var limit := MAX_OUTCOME_LINES;
    var tail: seq<string> := [];
    if |folded| > 0 {
      limit := limit - 1;
      var line := FoldedLine(folded);
      tail := [line];
    }
    assert Bounded(named, limit, "") + tail == OutcomeLines(b);
    Regroup(old(p.lines), [KeyLine("Bundle", b.directory), KeyLine("Collectors", CountsLine(b, size))], OutcomeLines(b));
    p.Lines(Bounded(named, limit, "") + tail);
  }

  /** What is printed is the screen, cut where the writer breaks if it does, and never more
      lines than the budget. */
  method Summarise(p: Printer, r: Report, size: string)
    requires p.Valid() && p.lines == []
    modifies p
    ensures p.out == Cut(Text(Screen(r, size)), p.room) && p.failed == Breaks(Text(Screen(r, size)), p.room)
    ensures Newlines(p.out) <= SUMMARY_LINE_BUDGET
  {
    p.Lines(NodeLines(r));
    assert [] + NodeLines(r) == NodeLines(r);
    SummariseOperands(p, r.node.operands);
    SummariseBundle(p, r.bundle, size);
    p.Lines(NextLines(r));
    PrefixHasNoMoreLines(p.out, Text(p.lines));
    TextHasOneLineEach(p.lines);
    ScreenWithinBudget(r, size);
  }
}
