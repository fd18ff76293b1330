/**
 pkg/mustgather/redact.go, replaceOnBoundaries: the scan that replaces a name
 wherever it is not part of a longer one. Text is bytes.
 */
module Boundaries {
  import opened Prefixes
  import opened Wrappers

  predicate AlphaNumeric(c: char) { 'a' <= c <= 'z' || 'A' <= c <= 'Z' || '0' <= c <= '9' }

  /** The bytes that make what follows the tail of a longer qualified name. */
  predicate NameBefore(c: char) { AlphaNumeric(c) || c == '.' || c == '-' || c == '/' }

  /** The bytes that continue a name. */
  predicate NameAfter(c: char) { AlphaNumeric(c) || c == '-' }

  predicate BoundedBefore(text: string, i: nat)
    requires i <= |text|
  {
    i == 0 || !NameBefore(text[i - 1])
  }

  predicate BoundedAfter(text: string, end: nat) { end >= |text| || !NameAfter(text[end]) }

  /** The literal, byte for byte, from i on. */
  predicate OccursAt(text: string, literal: string, i: nat) {
    i + |literal| <= |text| && Agree(text, literal, i, |literal|)
  }

  predicate Agree(text: string, literal: string, i: nat, n: nat)
    requires n <= |literal| && i + n <= |text|
  {
    n == 0 || (text[i + n - 1] == literal[n - 1] && Agree(text, literal, i, n - 1))
  }

  lemma {:induction false} AgreeByByte(text: string, literal: string, i: nat, n: nat)
    requires n <= |literal| && i + n <= |text|
    ensures Agree(text, literal, i, n) <==> forall k :: 0 <= k < n ==> text[i + k] == literal[k]
  {
    if n > 0 { AgreeByByte(text, literal, i, n - 1); }
  }

  lemma ByByte(text: string, literal: string, i: nat)
    ensures OccursAt(text, literal, i) <==> i + |literal| <= |text| && forall k :: 0 <= k < |literal| ==> text[i + k] == literal[k]
  {
    if i + |literal| <= |text| { AgreeByByte(text, literal, i, |literal|); }
  }

  /** The first occurrence at or behind start. */
  function Index(text: string, literal: string, start: nat): (r: Option<nat>)
    ensures r.Some? ==> start <= r.value && r.value + |literal| <= |text|
    decreases |text| - start
  {
    if start + |literal| > |text| then None
    else if OccursAt(text, literal, start) then Some(start)
    else Index(text, literal, start + 1)
  }

  lemma {:induction false} IndexIsFirst(text: string, literal: string, start: nat)
    ensures var r := Index(text, literal, start);
      && (r.Some? ==> OccursAt(text, literal, r.value))
      && (r.Some? ==> forall j: nat :: start <= j < r.value ==> !OccursAt(text, literal, j))
      && (r.None? ==> forall j: nat :: start <= j ==> !OccursAt(text, literal, j))
    decreases |text| - start
  {
    if start + |literal| <= |text| && !OccursAt(text, literal, start) { IndexIsFirst(text, literal, start + 1); }
  }

  /** The occurrences a scan from start meets: each the first one behind the end of
      the one before. */
  function Scan(text: string, literal: string, start: nat): seq<nat>
    requires literal != ""
    decreases |text| - start
  {
    var i := Index(text, literal, start);
    if i.None? then [] else [i.value] + Scan(text, literal, i.value + |literal|)
  }

  /** Where the text still unscanned begins when the k-th occurrence is met. */
  function Resume(at: seq<nat>, width: nat, start: nat, k: nat): nat
    requires k < |at|
  {
    if k == 0 then start else at[k - 1] + width
  }

  /** What the program asks of an occurrence: the byte before it is looked at only
      when some of the unscanned text lies before it. */
  predicate Replaced(text: string, literal: string, resume: nat, i: nat)
    requires i <= |text|
  {
    (i == resume || BoundedBefore(text, i)) && BoundedAfter(text, i + |literal|)
  }

  /** What its documentation asks: no name byte on either side, in the whole text. */
  predicate Bounded(text: string, literal: string, i: nat)
    requires i <= |text|
  {
    BoundedBefore(text, i) && BoundedAfter(text, i + |literal|)
  }

  /** The bytes of the text from one place to another. */
  function Stretch(text: string, from: nat, to: nat): (s: string)
    requires from <= to <= |text|
    ensures |s| == to - from && forall k :: 0 <= k < |s| ==> s[k] == text[from + k]
  {
    seq(to - from, k requires 0 <= k < to - from => text[from + k])
  }

  /** The text from start, with the chosen occurrences replaced and every other byte
      as it was. */
  function Assemble(text: string, literal: string, replacement: string, start: nat, at: seq<nat>, chosen: seq<bool>): string
    requires start <= |text| && |chosen| == |at| && Apart(text, literal, start, at)
    decreases |at|
  {
    if at == [] then Stretch(text, start, |text|)
    else
      Stretch(text, start, at[0]) + (if chosen[0] then replacement else literal) +
      Assemble(text, literal, replacement, at[0] + |literal|, at[1..], chosen[1..])
  }

  /** The positions are occurrences, in order, from start, none overlapping. */
  ghost predicate Apart(text: string, literal: string, start: nat, at: seq<nat>)
    decreases |at|
  {
    at == [] || (at[0] >= start && OccursAt(text, literal, at[0]) && Apart(text, literal, at[0] + |literal|, at[1..]))
  }

  function Choices(text: string, literal: string, resume: nat, at: seq<nat>): seq<bool>
    requires Apart(text, literal, resume, at)
    decreases |at|
  {
    if at == [] then []
    else [Replaced(text, literal, resume, at[0])] + Choices(text, literal, at[0] + |literal|, at[1..])
  }

  lemma {:induction false} ChoicesLength(text: string, literal: string, resume: nat, at: seq<nat>)
    requires Apart(text, literal, resume, at)
    ensures |Choices(text, literal, resume, at)| == |at|
    decreases |at|
  {
    if at != [] { ChoicesLength(text, literal, at[0] + |literal|, at[1..]); }
  }

  lemma ApartCons(text: string, literal: string, start: nat, i: nat, at: seq<nat>)
    requires start <= i && OccursAt(text, literal, i) && Apart(text, literal, i + |literal|, at)
    ensures Apart(text, literal, start, [i] + at)
  {
    assert ([i] + at)[1..] == at;
  }

  lemma {:induction false} ScanIsApart(text: string, literal: string, start: nat)
    requires literal != ""
    ensures Apart(text, literal, start, Scan(text, literal, start))
    decreases |text| - start
  {
    var i := Index(text, literal, start);
    IndexIsFirst(text, literal, start);
    if i.Some? {
      ScanIsApart(text, literal, i.value + |literal|);
      ApartCons(text, literal, start, i.value, Scan(text, literal, i.value + |literal|));
    }
  }

  /** The rewrite of the text from start: up to the first occurrence as it was, the
      occurrence or its replacement, and the rewrite of what lies behind it. */
  function RewrittenFrom(text: string, literal: string, replacement: string, start: nat): string
    requires literal != "" && start <= |text|
    decreases |text| - start
  {
    var i := Index(text, literal, start);
    if i.None? then Stretch(text, start, |text|)
    else
      Stretch(text, start, i.value) + (if Replaced(text, literal, start, i.value) then replacement else literal) +
      RewrittenFrom(text, literal, replacement, i.value + |literal|)
  }

  function Rewritten(text: string, literal: string, replacement: string): string
    requires literal != ""
  {
    RewrittenFrom(text, literal, replacement, 0)
  }

  lemma Regroup(a: string, b: string, c: string, d: string)
    ensures a + (b + c + d) == a + b + c + d
  {}

  /** The program cuts the text behind each occurrence and starts over on the rest, in
      which the byte before a match at the front can no longer be seen. */
  method ReplaceOnBoundaries(input: string, literal: string, replacement: string) returns (out: string)
    ensures literal == "" ==> out == input
    ensures literal != "" ==> out == Rewritten(input, literal, replacement)
  {
    if literal == "" { return input; }
    out := ReplaceLeft("", input, literal, replacement, input, 0, Rewritten(input, literal, replacement));
  }

  /** The loop, from any state it can be in. */
  method ReplaceLeft(out0: string, text0: string, literal: string, replacement: string,
                     ghost input: string, ghost start0: nat, ghost whole: string)
    returns (out: string)
    requires literal != "" && Scanned(out0, text0, input, literal, replacement, start0, whole)
    ensures out == whole
  {
    out := out0;
    var text := text0;
    ghost var start: nat := start0;
    while true
      invariant Scanned(out, text, input, literal, replacement, start, whole)
      decreases |text|
    {
      var found := Index(text, literal, 0);
      if found.None? {
        LastMatchPassed(out, text, input, literal, replacement, start, whole);
        out := out + text;
        return;
      }
      var end := found.value + |literal|;
      OneMatch(out, text, input, literal, replacement, start, found.value, whole);
      out := WriteMatch(out, text, found.value, literal, replacement);
      text := text[end..];
      start := start + end;
    }
  }

  /** The text up to a match, and the match or its replacement. */
  method WriteMatch(out0: string, text: string, i: nat, literal: string, replacement: string) returns (out: string)
    requires i + |literal| <= |text|
    ensures out == Written(out0, text, literal, replacement, i)
  {
    if BoundedBefore(text, i) && BoundedAfter(text, i + |literal|) {
      out := out0 + text[..i];
      out := out + replacement;
    } else {
      out := out0 + text[..i + |literal|];
    }
  }

  lemma Pair(a: string, b: string, c: string)
    ensures a + (b + c) == a + b + c
  {}

  /** text is input from start. */
  ghost predicate IsTail(text: string, input: string, start: nat) {
    start + |text| == |input| && forall k :: 0 <= k < |text| ==> text[k] == input[start + k]
  }

  lemma TailIsSlice(text: string, input: string, start: nat)
    requires start <= |input|
    ensures IsTail(text, input, start) <==> text == input[start..]
  {}

  /** What is written so far and the rewrite of what is left make up the rewrite. */
  ghost predicate Scanned(out: string, text: string, input: string, literal: string, replacement: string, start: nat, whole: string)
    requires literal != ""
  {
    && IsTail(text, input, start)
    && out + RewrittenFrom(input, literal, replacement, start) == whole
  }

  function Written(out: string, text: string, literal: string, replacement: string, i: nat): string
    requires i + |literal| <= |text|
  {
    if BoundedBefore(text, i) && BoundedAfter(text, i + |literal|) then out + text[..i] + replacement
    else out + text[..i + |literal|]
  }

  lemma OneMatch(out: string, text: string, input: string, literal: string, replacement: string, start: nat, i: nat, whole: string)
    requires literal != "" && Scanned(out, text, input, literal, replacement, start, whole) && Index(text, literal, 0) == Some(i)
    ensures Scanned(Written(out, text, literal, replacement, i), text[i + |literal|..], input, literal, replacement,
                    start + i + |literal|, whole)
  {
    TailIsSlice(text, input, start);
    MatchFound(text, input, literal, start, i);
    TailIsSlice(text[i + |literal|..], input, start + i + |literal|);
    WholeStays(out, text, input, literal, replacement, start, i, RewrittenFrom(input, literal, replacement, start),
               RewrittenFrom(input, literal, replacement, start + i + |literal|));
  }

  lemma WholeStays(out: string, text: string, input: string, literal: string, replacement: string, start: nat, i: nat,
                   from: string, rest: string)
    requires start <= |input| && text == input[start..] && OccursAt(input, literal, start + i)
    requires from == Stretch(input, start, start + i) + (if Replaced(input, literal, start, start + i) then replacement else literal) + rest
    ensures Written(out, text, literal, replacement, i) + rest == out + from
  {
    var chosen := if Replaced(input, literal, start, start + i) then replacement else literal;
    WriteOne(out, text, input, literal, replacement, start, i, Stretch(input, start, start + i), chosen);
    Regroup(out, Stretch(input, start, start + i), chosen, rest);
  }

  lemma MatchFound(text: string, input: string, literal: string, start: nat, i: nat)
    requires start <= |input| && text == input[start..] && Index(text, literal, 0) == Some(i)
    ensures Index(input, literal, start) == Some(start + i) && OccursAt(input, literal, start + i)
    ensures i + |literal| <= |text| && text[i + |literal|..] == input[start + i + |literal|..]
  {
    IndexShift(input, literal, start, 0);
    IndexIsFirst(input, literal, start);
  }

  lemma WriteOne(out: string, text: string, input: string, literal: string, replacement: string, start: nat, i: nat, before: string, chosen: string)
    requires start <= |input| && text == input[start..] && OccursAt(input, literal, start + i)
    requires before == Stretch(input, start, start + i) && chosen == if Replaced(input, literal, start, start + i) then replacement else literal
    ensures Written(out, text, literal, replacement, i) == out + before + chosen
  {
    CutShift(input, text, literal, start, i);
    Pair(out, before, literal);
  }

  lemma LastMatchPassed(out: string, text: string, input: string, literal: string, replacement: string, start: nat, whole: string)
    requires literal != "" && Scanned(out, text, input, literal, replacement, start, whole) && Index(text, literal, 0) == None
    ensures out + text == whole
  {
    TailIsSlice(text, input, start);
    IndexShift(input, literal, start, 0);
  }

  /** What the program sees at a match in the cut text, said of the whole text. */
  lemma CutShift(input: string, text: string, literal: string, start: nat, i: nat)
    requires start <= |input| && text == input[start..] && OccursAt(input, literal, start + i)
    ensures text[..i] == Stretch(input, start, start + i) && text[..i + |literal|] == text[..i] + literal
    ensures text[i + |literal|..] == input[start + i + |literal|..]
    ensures BoundedBefore(text, i) && BoundedAfter(text, i + |literal|) <==> Replaced(input, literal, start, start + i)
  {
    ByByte(input, literal, start + i);
  }

  lemma OccursShift(text: string, literal: string, start: nat, j: nat)
    requires start <= |text|
    ensures OccursAt(text[start..], literal, j) <==> OccursAt(text, literal, start + j)
  {
    ByByte(text[start..], literal, j);
    ByByte(text, literal, start + j);
    if start + j + |literal| <= |text| {
      forall k | 0 <= k < |literal| ensures text[start..][j + k] == literal[k] <==> text[start + j + k] == literal[k] {}
    }
  }

  /** Searching the text cut at start finds what a search from start finds. */
  lemma {:induction false} IndexShift(text: string, literal: string, start: nat, j: nat)
    requires start <= |text|
    ensures var here, there := Index(text[start..], literal, j), Index(text, literal, start + j);
      here.Some? == there.Some? && (here.Some? ==> here.value + start == there.value)
    decreases |text| - j
  {
    OccursShift(text, literal, start, j);
    if start + j + |literal| <= |text| && !OccursAt(text, literal, start + j) { IndexShift(text, literal, start, j + 1); }
  }

  /** out is the text from start with the program's choices made at the positions. */
  ghost predicate Assembled(text: string, literal: string, replacement: string, start: nat, at: seq<nat>, out: string)
    requires start <= |text|
  {
    && Apart(text, literal, start, at)
    && |Choices(text, literal, start, at)| == |at|
    && out == Assemble(text, literal, replacement, start, at, Choices(text, literal, start, at))
  }

  /** The rewrite is the assembly of the scanned occurrences under the program's
      choices: nothing else in the text changes. */
  lemma {:induction false} RewrittenIsAssembly(text: string, literal: string, replacement: string, start: nat)
    requires literal != "" && start <= |text|
    ensures Assembled(text, literal, replacement, start, Scan(text, literal, start), RewrittenFrom(text, literal, replacement, start))
    decreases |text| - start
  {
    var i := Index(text, literal, start);
    if i.Some? {
      RewrittenIsAssembly(text, literal, replacement, i.value + |literal|);
      IndexIsFirst(text, literal, start);
      AssembledStep(text, literal, replacement, start, i.value, Scan(text, literal, i.value + |literal|),
                    RewrittenFrom(text, literal, replacement, i.value + |literal|), Scan(text, literal, start),
                    RewrittenFrom(text, literal, replacement, start));
    }
  }

  lemma AssembledStep(text: string, literal: string, replacement: string, start: nat, i: nat,
                      behind: seq<nat>, rest: string, at: seq<nat>, out: string)
    requires start <= i && OccursAt(text, literal, i) && Assembled(text, literal, replacement, i + |literal|, behind, rest)
    requires at == [i] + behind
    requires out == Stretch(text, start, i) + (if Replaced(text, literal, start, i) then replacement else literal) + rest
    ensures Assembled(text, literal, replacement, start, at, out)
  {
    ChoicesCons(text, literal, start, i, behind);
    AssembleCons(text, literal, replacement, start, i, behind, Choices(text, literal, i + |literal|, behind), Replaced(text, literal, start, i));
  }

  lemma ChoicesCons(text: string, literal: string, start: nat, i: nat, at: seq<nat>)
    requires start <= i && OccursAt(text, literal, i) && Apart(text, literal, i + |literal|, at)
    ensures Apart(text, literal, start, [i] + at)
    ensures Choices(text, literal, start, [i] + at) ==
      [Replaced(text, literal, start, i)] + Choices(text, literal, i + |literal|, at)
  {
    assert ([i] + at)[1..] == at;
  }

  lemma AssembleCons(text: string, literal: string, replacement: string, start: nat, i: nat, at: seq<nat>, chosen: seq<bool>, c: bool)
    requires start <= i && OccursAt(text, literal, i) && Apart(text, literal, i + |literal|, at) && |chosen| == |at|
    ensures Apart(text, literal, start, [i] + at)
    ensures Assemble(text, literal, replacement, start, [i] + at, [c] + chosen) ==
      Stretch(text, start, i) + (if c then replacement else literal) + Assemble(text, literal, replacement, i + |literal|, at, chosen)
  {
    assert ([i] + at)[1..] == at;
    assert ([c] + chosen)[1..] == chosen;
  }

  // ----- what the scan visits and what it changes -----

  lemma {:induction false} ScanMeetsOccurrences(text: string, literal: string, start: nat, k: nat)
    requires literal != "" && k < |Scan(text, literal, start)|
    ensures var at := Scan(text, literal, start);
      OccursAt(text, literal, at[k]) && at[k] >= Resume(at, |literal|, start, k)
    decreases |text| - start
  {
    var i := Index(text, literal, start);
    IndexIsFirst(text, literal, start);
    if k > 0 { ScanMeetsOccurrences(text, literal, i.value + |literal|, k - 1); }
  }

  /** No occurrence is missed: each one starts inside an occurrence the scan meets. */
  lemma {:induction false} ScanMissesNone(text: string, literal: string, start: nat, j: nat) returns (k: nat)
    requires literal != "" && j >= start && OccursAt(text, literal, j)
    ensures var at := Scan(text, literal, start); k < |at| && at[k] <= j < at[k] + |literal|
    decreases |text| - start
  {
    var i := Index(text, literal, start);
    IndexIsFirst(text, literal, start);
    if j < i.value + |literal| {
      k := 0;
    } else {
      var rest := ScanMissesNone(text, literal, i.value + |literal|, j);
      k := rest + 1;
    }
  }

  /** The scan meets exactly the leftmost non-overlapping occurrences. */
  lemma ScanIsLeftmost(text: string, literal: string, start: nat)
    requires literal != ""
    ensures var at := Scan(text, literal, start);
      && (forall k :: 0 <= k < |at| ==> OccursAt(text, literal, at[k]))
      && (forall k :: 0 <= k < |at| ==> at[k] >= Resume(at, |literal|, start, k))
      && (forall j: nat :: OccursAt(text, literal, j) && j >= start ==>
            exists k :: 0 <= k < |at| && at[k] <= j < at[k] + |literal|)
  {
    var at := Scan(text, literal, start);
    forall k | 0 <= k < |at|
      ensures OccursAt(text, literal, at[k]) && at[k] >= Resume(at, |literal|, start, k)
    {
      ScanMeetsOccurrences(text, literal, start, k);
    }
    forall j: nat | OccursAt(text, literal, j) && j >= start
      ensures exists k :: 0 <= k < |at| && at[k] <= j < at[k] + |literal|
    {
      var k := ScanMissesNone(text, literal, start, j);
    }
  }

  /** Read with every choice off, the assembly is the text itself: every byte that
      is not replaced is kept, in order. */
  lemma {:induction false} NothingChosenNothingChanged(text: string, literal: string, replacement: string, start: nat, at: seq<nat>, chosen: seq<bool>)
    requires start <= |text| && |chosen| == |at| && Apart(text, literal, start, at)
    requires replacement == literal || forall k :: 0 <= k < |chosen| ==> !chosen[k]
    ensures Assemble(text, literal, replacement, start, at, chosen) == Stretch(text, start, |text|)
    decreases |at|
  {
    if at != [] {
      NothingChosenNothingChanged(text, literal, replacement, at[0] + |literal|, at[1..], chosen[1..]);
      StretchAround(text, literal, start, at[0], if chosen[0] then replacement else literal,
                    Assemble(text, literal, replacement, at[0] + |literal|, at[1..], chosen[1..]));
    }
  }

  lemma StretchAround(text: string, literal: string, start: nat, i: nat, c: string, rest: string)
    requires start <= i && OccursAt(text, literal, i) && c == literal && rest == Stretch(text, i + |literal|, |text|)
    ensures Stretch(text, start, i) + c + rest == Stretch(text, start, |text|)
  {
    ByByte(text, literal, i);
  }

  /** The k-th choice, in terms of the whole text. */
  lemma {:induction false} ChoiceAt(text: string, literal: string, resume: nat, at: seq<nat>, k: nat)
    requires Apart(text, literal, resume, at) && k < |at|
    ensures |Choices(text, literal, resume, at)| == |at| && at[k] <= |text|
    ensures Choices(text, literal, resume, at)[k] <==>
      Replaced(text, literal, Resume(at, |literal|, resume, k), at[k])
    decreases |at|
  {
    ChoicesLength(text, literal, resume, at);
    if k > 0 { ChoiceAt(text, literal, at[0] + |literal|, at[1..], k - 1); }
  }

  // ----- the choice, in bytes -----

  /** The k-th match is replaced exactly when no letter, digit or dash follows it, and no
      letter, digit, dot, dash or slash precedes it or it runs on from the one before. */
  lemma ChoiceInBytes(text: string, literal: string, k: nat)
    requires literal != "" && k < |Scan(text, literal, 0)|
    ensures var at := Scan(text, literal, 0); var i, end := at[k], at[k] + |literal|;
      && Apart(text, literal, 0, at) && |Choices(text, literal, 0, at)| == |at| && end <= |text|
      && (Choices(text, literal, 0, at)[k] <==>
            && (end == |text| || !('a' <= text[end] <= 'z' || 'A' <= text[end] <= 'Z' || '0' <= text[end] <= '9' || text[end] == '-'))
            && ((k > 0 && i == at[k - 1] + |literal|) || i == 0
                || !('a' <= text[i - 1] <= 'z' || 'A' <= text[i - 1] <= 'Z' || '0' <= text[i - 1] <= '9' || text[i - 1] in ".-/")))
  {
    ScanIsApart(text, literal, 0);
    ScanMeetsOccurrences(text, literal, 0, k);
    ChoiceAt(text, literal, 0, Scan(text, literal, 0), k);
  }

  /** What follows the first match of a text that holds no other is left alone, and so is
      what precedes it: the match is kept inside a longer name and replaced outside. */
  lemma LoneMatch(before: string, literal: string, after: string, replacement: string)
    requires literal != ""
    requires forall j: nat :: OccursAt(before + literal + after, literal, j) ==> j == |before|
    ensures Rewritten(before + literal + after, literal, replacement) ==
      if (after == "" || !('a' <= after[0] <= 'z' || 'A' <= after[0] <= 'Z' || '0' <= after[0] <= '9' || after[0] == '-'))
         && (before == "" || var c := before[|before| - 1];
             !('a' <= c <= 'z' || 'A' <= c <= 'Z' || '0' <= c <= '9' || c in ".-/"))
      then before + replacement + after else before + literal + after
  {
    LonePieces(before + literal + after, before, literal, after);
    LoneReplaced(before + literal + after, before, literal, after);
    LoneRewrite(before + literal + after, literal, replacement, |before|, before, after);
  }

  lemma LonePieces(text: string, before: string, literal: string, after: string)
    requires literal != "" && text == before + literal + after
    ensures OccursAt(text, literal, |before|)
    ensures Stretch(text, 0, |before|) == before && Stretch(text, |before| + |literal|, |text|) == after
  {
    ByByte(text, literal, |before|);
  }

  lemma LoneReplaced(text: string, before: string, literal: string, after: string)
    requires literal != "" && text == before + literal + after
    ensures Replaced(text, literal, 0, |before|) <==>
      && (after == "" || !NameAfter(after[0]))
      && (before == "" || !NameBefore(before[|before| - 1]))
  {
    if before != "" { assert text[|before| - 1] == before[|before| - 1]; }
    if after != "" { assert text[|before| + |literal|] == after[0]; }
  }

  lemma LoneRewrite(text: string, literal: string, replacement: string, i: nat, before: string, after: string)
    requires literal != "" && OccursAt(text, literal, i) && forall j: nat :: OccursAt(text, literal, j) ==> j == i
    requires before == Stretch(text, 0, i) && after == Stretch(text, i + |literal|, |text|)
    ensures Rewritten(text, literal, replacement) ==
      before + (if Replaced(text, literal, 0, i) then replacement else literal) + after
  {
    OnlyIndex(text, literal, i);
    assert RewrittenFrom(text, literal, replacement, i + |literal|) == after;
  }

  lemma OnlyIndex(text: string, literal: string, i: nat)
    requires literal != "" && OccursAt(text, literal, i) && forall j: nat :: OccursAt(text, literal, j) ==> j == i
    ensures Index(text, literal, 0) == Some(i) && Index(text, literal, i + |literal|) == None
  {
    IndexIsFirst(text, literal, 0);
    IndexIsFirst(text, literal, i + |literal|);
  }

  /** The program's own example: a node called gpu leaves the resource name alone. */
  lemma ResourceNameIsKept(replacement: string)
    ensures Rewritten("nvidia.com/gpu", "gpu", replacement) == "nvidia.com/gpu"
  {
    assert "nvidia.com/gpu" == "nvidia.com/" + "gpu" + "";
    forall j: nat | OccursAt("nvidia.com/gpu", "gpu", j) ensures j == 11 { ByByte("nvidia.com/gpu", "gpu", j); GpuAt(j); }
    LoneMatch("nvidia.com/", "gpu", "", replacement);
  }

  lemma GpuAt(j: nat)
    requires j + 3 <= 14 && forall k :: 0 <= k < 3 ==> "nvidia.com/gpu"[j + k] == "gpu"[k]
    ensures j == 11
  {
    var text, gpu := "nvidia.com/gpu", "gpu";
    assert text[j + 0] == gpu[0] == 'g';
    assert forall i :: 0 <= i < 14 && text[i] == 'g' ==> i == 11;
  }

  // ----- where the code and its promise part -----

  /** An occurrence met right behind the one before, which ends in a name byte, and
      followed by no name byte. */
  predicate RunOn(text: string, literal: string, at: seq<nat>, k: nat)
    requires literal != "" && k < |at|
  {
    k > 0 && at[k] == at[k - 1] + |literal| && NameBefore(literal[|literal| - 1]) && BoundedAfter(text, at[k] + |literal|)
  }

  /** The documented rule, that a match counts only between non-name bytes, is what
      the scan applies to an occurrence exactly when it is not such a run-on. */
  lemma PromiseKeptUnlessRunOn(text: string, literal: string, k: nat)
    requires literal != ""
    requires k < |Scan(text, literal, 0)|
    ensures Apart(text, literal, 0, Scan(text, literal, 0))
    ensures var at := Scan(text, literal, 0);
      && at[k] <= |text| && |Choices(text, literal, 0, at)| == |at|
      && ((Choices(text, literal, 0, at)[k] <==> Bounded(text, literal, at[k])) <==> !RunOn(text, literal, at, k))
  {
    ScanIsApart(text, literal, 0);
    ScanMeetsOccurrences(text, literal, 0, k);
    if k > 0 { ScanMeetsOccurrences(text, literal, 0, k - 1); }
    ChoiceAt(text, literal, 0, Scan(text, literal, 0), k);
    RuleAt(text, literal, Scan(text, literal, 0), k);
  }

  lemma RuleAt(text: string, literal: string, at: seq<nat>, k: nat)
    requires literal != "" && k < |at| && OccursAt(text, literal, at[k])
    requires k > 0 ==> OccursAt(text, literal, at[k - 1]) && at[k] >= at[k - 1] + |literal|
    ensures (Replaced(text, literal, Resume(at, |literal|, 0, k), at[k]) <==> Bounded(text, literal, at[k]))
      <==> !RunOn(text, literal, at, k)
  {
    if k > 0 { LastByte(text, literal, at[k - 1]); }
  }

  lemma LastByte(text: string, literal: string, i: nat)
    requires literal != "" && OccursAt(text, literal, i)
    ensures text[i + |literal| - 1] == literal[|literal| - 1]
  {
    ByByte(text, literal, i);
    assert text[i + (|literal| - 1)] == literal[|literal| - 1];
  }

  /** A doubled name: the second half is replaced though a name byte precedes it. */
  lemma DoubledNameIsCut()
    ensures Rewritten("gpugpu", "gpu", "x") == "gpux"
    ensures OccursAt("gpugpu", "gpu", 3) && !Bounded("gpugpu", "gpu", 3)
  {
    var text, gpu := "gpugpu", "gpu";
    DoubledOccurrences(text, gpu);
    assert RewrittenFrom(text, gpu, "x", 6) == "";
    assert Stretch(text, 3, 3) == "" && Stretch(text, 0, 0) == "";
    assert RewrittenFrom(text, gpu, "x", 3) == "" + "x" + "";
    assert RewrittenFrom(text, gpu, "x", 0) == "" + gpu + "x";
  }

  lemma DoubledOccurrences(text: string, gpu: string)
    requires text == "gpugpu" && gpu == "gpu"
    ensures Index(text, gpu, 0) == Some(0) && Index(text, gpu, 3) == Some(3) && Index(text, gpu, 6) == None
    ensures !Replaced(text, gpu, 0, 0) && Replaced(text, gpu, 3, 3)
    ensures OccursAt(text, gpu, 3) && !Bounded(text, gpu, 3)
  {
    ByByte(text, gpu, 0);
    ByByte(text, gpu, 3);
    assert text[3] == 'g' && text[2] == 'u';
  }

  // ----- several names -----

  datatype Identity = Identity(literal: string, replacement: string)

  function ReplacedAll(text: string, names: seq<Identity>): string {
    if names == [] then text
    else
      var before := ReplacedAll(text, names[..|names| - 1]);
      var last := names[|names| - 1];
      if last.literal == "" then before else Rewritten(before, last.literal, last.replacement)
  }

  method ReplaceIdentities(text: string, names: seq<Identity>) returns (out: string)
    ensures out == ReplacedAll(text, names)
  {
    out := text;
    for i := 0 to |names|
      invariant out == ReplacedAll(text, names[..i])
    {
      PrefixSnoc(names, i);
      out := ReplaceOnBoundaries(out, names[i].literal, names[i].replacement);
    }
    WholePrefix(names);
  }
}
