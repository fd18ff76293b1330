/**
 pkg/mustgather/redact.go: what replacing names on their boundaries is for. Once it
 is done, none of the names stands on its own in the text any more.
 */
module NamesGone {
  import opened Prefixes
  import opened Wrappers
  import opened Boundaries

  /** The literal stands nowhere in the text as a name of its own. */
  ghost predicate Free(text: string, literal: string) {
    forall q: nat :: OccursAt(text, literal, q) ==> !Bounded(text, literal, q)
  }

  /** A plain name, as Kubernetes objects have: every byte of it could be part of a
      longer one. */
  predicate IsName(s: string) { s != "" && forall k :: 0 <= k < |s| ==> NameBefore(s[k]) }

  /** The shape of a pseudonym: a kind, a dash and hexadecimal digits. */
  predicate IsPseudonym(s: string) { s != "" && forall k :: 0 <= k < |s| ==> NameAfter(s[k]) }

  /** Every pseudonym has that shape: a kind in lower-case letters, a dash, hexadecimal
      digits. */
  lemma PseudonymsAre(kind: string, digits: string)
    requires forall k :: 0 <= k < |kind| ==> 'a' <= kind[k] <= 'z'
    requires forall k :: 0 <= k < |digits| ==> '0' <= digits[k] <= '9' || 'a' <= digits[k] <= 'f'
    ensures IsPseudonym(kind + "-" + digits)
  {}

  /** And every name of letters, digits, dots, dashes and slashes is plain. */
  lemma PlainNamesAre(name: string)
    ensures IsName(name) <==> name != "" && forall k :: 0 <= k < |name| ==>
      'a' <= name[k] <= 'z' || 'A' <= name[k] <= 'Z' || '0' <= name[k] <= '9' || name[k] in ".-/"
  {}

  /** The literal occurs at q in out, no name byte follows it and none precedes it;
      `begins` says whether the beginning of out is the beginning of everything. */
  ghost predicate Stands(out: string, literal: string, q: nat, begins: bool) {
    && OccursAt(out, literal, q)
    && BoundedAfter(out, q + |literal|)
    && (if q == 0 then begins else !NameBefore(out[q - 1]))
  }

  /** out is a stretch of the text from start, then c, then rest. */
  ghost predicate Pieces(out: string, text: string, start: nat, width: nat, c: string, rest: string) {
    && width + |c| + |rest| == |out| && start + width <= |text|
    && (forall j :: 0 <= j < width ==> out[j] == text[start + j])
    && (forall k :: 0 <= k < |c| ==> out[width + k] == c[k])
    && (forall k :: 0 <= k < |rest| ==> out[width + |c| + k] == rest[k])
  }

  lemma PiecesOf(out: string, text: string, start: nat, i: nat, c: string, rest: string)
    requires start <= i <= |text| && out == Stretch(text, start, i) + c + rest
    ensures Pieces(out, text, start, i - start, c, rest)
  {}

  /** Behind the second piece, out stands as the rest does; right behind it a name byte
      precedes, and so it does inside it. */
  lemma StandsBehind(out: string, text: string, start: nat, width: nat, c: string, rest: string, literal: string, q: nat, begins: bool)
    requires Pieces(out, text, start, width, c, rest) && IsName(c)
    requires Stands(out, literal, q, begins)
    ensures q <= width || (q > width + |c| && Stands(rest, literal, q - width - |c|, false))
  {
    var behind := width + |c|;
    forall j | width <= j < behind ensures NameBefore(out[j]) { assert out[width + (j - width)] == c[j - width]; }
    ByByte(out, literal, q);
    if q > behind {
      ByByte(rest, literal, q - behind);
      forall k | 0 <= k < |literal| ensures rest[q - behind + k] == literal[k] {
        assert out[behind + (q - behind + k)] == rest[q - behind + k] && out[q + k] == literal[k];
      }
      assert out[behind + (q - 1 - behind)] == rest[q - 1 - behind];
      if q + |literal| < |out| { assert out[behind + (q + |literal| - behind)] == rest[q + |literal| - behind]; }
    }
  }

  // ----- one name -----

  /** rest continues a name just when the text from `end` does: surely if the text
      does, and if the text does not, unless a literal that starts so comes first. */
  ghost predicate FollowsOn(text: string, literal: string, end: nat, rest: string)
    requires literal != "" && end <= |text|
  {
    if end == |text| then rest == ""
    else
      && rest != ""
      && (NameAfter(text[end]) ==> NameAfter(rest[0]))
      && (NameAfter(literal[0]) ==> (NameAfter(text[end]) <==> NameAfter(rest[0])))
  }

  lemma RewriteFollowsOn(text: string, literal: string, replacement: string, start: nat)
    requires literal != "" && start <= |text| && IsPseudonym(replacement)
    ensures FollowsOn(text, literal, start, RewrittenFrom(text, literal, replacement, start))
  {
    var i := Index(text, literal, start);
    IndexIsFirst(text, literal, start);
    if i.Some? && i.value == start {
      ByByte(text, literal, start);
      assert text[start + 0] == literal[0];
    }
  }

  /** The first match at or behind start is at i, c is what became of it, and out is
      the text ahead of it, c, and what became of the text behind it. */
  ghost predicate Match(text: string, literal: string, replacement: string, start: nat, i: nat, out: string, c: string, rest: string)
    requires literal != ""
  {
    && start <= i && OccursAt(text, literal, i) && (forall j: nat :: start <= j < i ==> !OccursAt(text, literal, j))
    && c == (if Replaced(text, literal, start, i) then replacement else literal)
    && Pieces(out, text, start, i - start, c, rest)
    && FollowsOn(text, literal, i + |literal|, rest)
  }

  lemma RewriteMatches(text: string, literal: string, replacement: string, start: nat, i: nat)
    requires literal != "" && start <= |text| && IsPseudonym(replacement) && Index(text, literal, start) == Some(i)
    ensures Match(text, literal, replacement, start, i, RewrittenFrom(text, literal, replacement, start),
                  if Replaced(text, literal, start, i) then replacement else literal,
                  RewrittenFrom(text, literal, replacement, i + |literal|))
  {
    IndexIsFirst(text, literal, start);
    RewriteFollowsOn(text, literal, replacement, i + |literal|);
    PiecesOf(RewrittenFrom(text, literal, replacement, start), text, start, i,
             if Replaced(text, literal, start, i) then replacement else literal,
             RewrittenFrom(text, literal, replacement, i + |literal|));
  }

  /** No occurrence starts ahead of the first match: it would lie in the text ahead of
      the first match, or take in the byte before a replaced one, which no name has. */
  lemma NotAhead(text: string, literal: string, replacement: string, start: nat, i: nat, out: string, c: string, rest: string, q: nat)
    requires IsName(literal) && Match(text, literal, replacement, start, i, out, c, rest)
    requires q < i - start
    ensures !OccursAt(out, literal, q)
  {
    assert !OccursAt(text, literal, start + q);
    if OccursAt(out, literal, q) { AheadInText(text, literal, start, i, out, c, rest, q); }
  }

  lemma AheadInText(text: string, literal: string, start: nat, i: nat, out: string, c: string, rest: string, q: nat)
    requires IsName(literal) && start <= i && OccursAt(text, literal, i)
    requires Pieces(out, text, start, i - start, c, rest)
    requires !Replaced(text, literal, start, i) ==> c == literal
    requires OccursAt(out, literal, q) && q < i - start
    ensures OccursAt(text, literal, start + q)
  {
    var a := i - start;
    ByByte(out, literal, q);
    ByByte(text, literal, i);
    ByByte(text, literal, start + q);
    if q + |literal| > a {
      assert out[q + (a - 1 - q)] == literal[a - 1 - q];
      assert NameBefore(text[start + (a - 1)]);
      assert c == literal;
    }
    forall k | 0 <= k < |literal| ensures text[start + q + k] == literal[k] {
      assert out[q + k] == literal[k];
      if q + k >= a {
        assert out[a + (q + k - a)] == c[q + k - a];
        assert text[i + (q + k - a)] == literal[q + k - a];
      }
    }
  }

  /** A match that was kept does not stand: the byte that kept it is still there. */
  lemma KeptDoesNotStand(text: string, literal: string, replacement: string, start: nat, i: nat, out: string, rest: string)
    requires literal != "" && !(i <= |text| && Replaced(text, literal, start, i))
    requires Match(text, literal, replacement, start, i, out, literal, rest)
    ensures !Stands(out, literal, i - start, start == 0)
  {
    assert rest != "" ==> out[i - start + |literal| + 0] == rest[0];
  }

  /** A pseudonym does not begin a name that stands, unless the name begins with it and
      goes on with a byte that ends a match. */
  lemma ReplacedDoesNotStand(text: string, literal: string, replacement: string, start: nat, i: nat, out: string, rest: string)
    requires literal != "" && IsPseudonym(replacement)
    requires !(replacement <= literal && BoundedAfter(literal, |replacement|))
    requires Match(text, literal, replacement, start, i, out, replacement, rest) && Replaced(text, literal, start, i)
    ensures !Stands(out, literal, i - start, start == 0)
  {
    var a := i - start;
    assert rest != "" ==> out[a + |replacement| + 0] == rest[0];
    assert NameAfter(literal[0]) ==> BoundedAfter(out, a + |replacement|);
    if Stands(out, literal, a, start == 0) {
      BeginsWith(literal, replacement, out, a);
      ByByte(out, literal, a);
    }
  }

  lemma BeginsWith(literal: string, replacement: string, out: string, a: nat)
    requires OccursAt(out, literal, a) && BoundedAfter(out, a + |literal|) && IsPseudonym(replacement)
    requires a + |replacement| <= |out| && forall k :: 0 <= k < |replacement| ==> out[a + k] == replacement[k]
    ensures replacement <= literal
  {
    ByByte(out, literal, a);
    forall j | a <= j < a + |replacement| ensures NameAfter(out[j]) { assert out[a + (j - a)] == replacement[j - a]; }
    forall k | 0 <= k < |replacement| && k < |literal| ensures replacement[k] == literal[k] { assert out[a + k] == literal[k]; }
  }

  lemma MatchDoesNotStand(text: string, literal: string, replacement: string, start: nat, i: nat, out: string, c: string, rest: string)
    requires literal != "" && IsPseudonym(replacement)
    requires !(replacement <= literal && BoundedAfter(literal, |replacement|))
    requires Match(text, literal, replacement, start, i, out, c, rest)
    ensures !Stands(out, literal, i - start, start == 0)
  {
    if Replaced(text, literal, start, i) {
      ReplacedDoesNotStand(text, literal, replacement, start, i, out, rest);
    } else {
      KeptDoesNotStand(text, literal, replacement, start, i, out, rest);
    }
  }

  lemma NameBytes(text: string, literal: string, replacement: string, start: nat, i: nat, out: string, c: string, rest: string)
    requires IsName(literal) && IsPseudonym(replacement) && Match(text, literal, replacement, start, i, out, c, rest)
    ensures IsName(c)
  {}

  ghost predicate NothingIn(out: string, literal: string, begins: bool) {
    forall q: nat :: !Stands(out, literal, q, begins)
  }

  /** An occurrence that stands could only stand in the rewrite of what lies behind. */
  lemma NothingInMatch(text: string, literal: string, replacement: string, start: nat, i: nat, out: string, c: string, rest: string)
    requires IsName(literal) && IsPseudonym(replacement)
    requires !(replacement <= literal && BoundedAfter(literal, |replacement|))
    requires Match(text, literal, replacement, start, i, out, c, rest)
    requires NothingIn(rest, literal, false)
    ensures NothingIn(out, literal, start == 0)
  {
    NameBytes(text, literal, replacement, start, i, out, c, rest);
    MatchDoesNotStand(text, literal, replacement, start, i, out, c, rest);
    var begins := start == 0;
    forall q: nat ensures !Stands(out, literal, q, begins) {
      if q < i - start {
        NotAhead(text, literal, replacement, start, i, out, c, rest, q);
      } else if Stands(out, literal, q, start == 0) {
        StandsBehind(out, text, start, i - start, c, rest, literal, q, start == 0);
      }
    }
  }

  lemma NothingBefore(text: string, literal: string, replacement: string, start: nat, i: nat)
    requires IsName(literal) && IsPseudonym(replacement) && start <= |text| && Index(text, literal, start) == Some(i)
    requires !(replacement <= literal && BoundedAfter(literal, |replacement|))
    requires NothingIn(RewrittenFrom(text, literal, replacement, i + |literal|), literal, false)
    ensures NothingIn(RewrittenFrom(text, literal, replacement, start), literal, start == 0)
  {
    RewriteMatches(text, literal, replacement, start, i);
    NothingInMatch(text, literal, replacement, start, i, RewrittenFrom(text, literal, replacement, start),
                   if Replaced(text, literal, start, i) then replacement else literal,
                   RewrittenFrom(text, literal, replacement, i + |literal|));
  }

  lemma NothingLeft(text: string, literal: string, replacement: string, start: nat)
    requires literal != "" && start <= |text| && Index(text, literal, start) == None
    ensures NothingIn(RewrittenFrom(text, literal, replacement, start), literal, start == 0)
  {
    IndexIsFirst(text, literal, start);
    assert RewrittenFrom(text, literal, replacement, start) == text[start..];
    forall q: nat ensures !OccursAt(text[start..], literal, q) { OccursShift(text, literal, start, q); }
  }

  lemma {:induction false} NothingStands(text: string, literal: string, replacement: string, start: nat)
    requires IsName(literal) && IsPseudonym(replacement) && start <= |text|
    requires !(replacement <= literal && BoundedAfter(literal, |replacement|))
    ensures NothingIn(RewrittenFrom(text, literal, replacement, start), literal, start == 0)
    decreases |text| - start
  {
    var i := Index(text, literal, start);
    if i.None? {
      NothingLeft(text, literal, replacement, start);
    } else {
      NothingStands(text, literal, replacement, i.value + |literal|);
      NothingBefore(text, literal, replacement, start, i.value);
    }
  }

  lemma NothingInIsFree(out: string, literal: string)
    ensures NothingIn(out, literal, true) <==> Free(out, literal)
  {
    forall q: nat | OccursAt(out, literal, q) ensures Stands(out, literal, q, true) <==> Bounded(out, literal, q) {}
  }

  /** A plain name, whatever pseudonym it is given, is left standing in no text, exactly
      unless the pseudonym begins the name and the name goes on with a byte that ends a
      match. */
  lemma NoPlainNameIsLeft(literal: string, replacement: string)
    requires IsName(literal) && IsPseudonym(replacement)
    ensures (forall text :: Free(Rewritten(text, literal, replacement), literal)) <==>
            !(replacement <= literal && BoundedAfter(literal, |replacement|))
  {
    if replacement <= literal && BoundedAfter(literal, |replacement|) {
      NameLeftStanding(literal, replacement);
    } else {
      forall text ensures Free(Rewritten(text, literal, replacement), literal) { PlainNameIsGone(text, literal, replacement); }
    }
  }

  lemma PlainNameIsGone(text: string, literal: string, replacement: string)
    requires IsName(literal) && IsPseudonym(replacement)
    requires !(replacement <= literal && BoundedAfter(literal, |replacement|))
    ensures Free(Rewritten(text, literal, replacement), literal)
  {
    NothingStands(text, literal, replacement, 0);
    NothingInIsFree(Rewritten(text, literal, replacement), literal);
  }

  /** The name followed by what the pseudonym leaves of it: the rewrite is the name. */
  lemma NameLeftStanding(literal: string, replacement: string)
    requires literal != "" && replacement <= literal && BoundedAfter(literal, |replacement|)
    requires replacement != ""
    ensures !Free(Rewritten(literal + literal[|replacement|..], literal, replacement), literal)
  {
    var tail := literal[|replacement|..];
    OneMatchOnly(literal, replacement, tail);
    assert replacement + tail == literal;
    ByByte(literal, literal, 0);
  }

  lemma OneMatchOnly(literal: string, replacement: string, tail: string)
    requires literal != "" && |tail| < |literal| && (tail == "" || !NameAfter(tail[0]))
    ensures Rewritten(literal + tail, literal, replacement) == replacement + tail
  {
    var text := literal + tail;
    ByByte(text, literal, 0);
    assert Index(text, literal, 0) == Some(0) && Index(text, literal, |literal|) == None;
    assert Stretch(text, 0, 0) == "" && Stretch(text, |literal|, |text|) == tail;
    assert RewrittenFrom(text, literal, replacement, |literal|) == tail;
  }

  // ----- a name that is gone stays gone -----

  ghost predicate Holds(s: string, part: string) { exists j: nat :: OccursAt(s, part, j) }

  /** Nowhere from `from` up to `to` does the name stand in the text. */
  ghost predicate NoneStood(text: string, name: string, from: nat, to: nat) {
    || Free(text, name)
    || (name != "" && forall q: nat :: from <= q < to && OccursAt(text, name, q) ==> !Bounded(text, name, q))
  }

  /** What stands within the stretch of text stands in the text. */
  lemma StandsInText(out: string, text: string, start: nat, width: nat, c: string, rest: string, name: string, q: nat)
    requires Pieces(out, text, start, width, c, rest) && NoneStood(text, name, start, start + width)
    requires q + |name| < width || (q + |name| == width && start + width == |text|)
    ensures !Stands(out, name, q, start == 0)
  {
    ByByte(out, name, q);
    ByByte(text, name, start + q);
    if OccursAt(out, name, q) {
      forall k | 0 <= k < |name| ensures text[start + q + k] == name[k] { assert out[q + k] == name[k]; }
      assert !Bounded(text, name, start + q);
    }
  }

  /** What stands across a pseudonym holds all of it. */
  lemma StandsAcross(out: string, text: string, start: nat, width: nat, c: string, rest: string, name: string, q: nat)
    requires Pieces(out, text, start, width, c, rest) && IsPseudonym(c) && !Holds(name, c)
    requires q <= width <= q + |name|
    ensures !Stands(out, name, q, start == 0)
  {
    forall j | width <= j < width + |c| ensures NameAfter(out[j]) { assert out[width + (j - width)] == c[j - width]; }
    if q + |name| >= width + |c| {
      assert !OccursAt(name, c, width - q);
      ByByte(name, c, width - q);
      ByByte(out, name, q);
      if OccursAt(out, name, q) {
        forall k | 0 <= k < |c| ensures name[width - q + k] == c[k] { assert out[q + (width - q + k)] == name[width - q + k]; }
      }
    }
  }

  lemma NothingNew(out: string, text: string, start: nat, width: nat, c: string, rest: string, name: string)
    requires Pieces(out, text, start, width, c, rest) && IsPseudonym(c) && !Holds(name, c)
    requires NoneStood(text, name, start, start + width) && NothingIn(rest, name, false)
    ensures NothingIn(out, name, start == 0)
  {
    var begins := start == 0;
    forall q: nat ensures !Stands(out, name, q, begins) {
      if q + |name| < width {
        StandsInText(out, text, start, width, c, rest, name, q);
      } else if q <= width {
        StandsAcross(out, text, start, width, c, rest, name, q);
      } else if Stands(out, name, q, begins) {
        StandsBehind(out, text, start, width, c, rest, name, q, begins);
      }
    }
  }

  lemma NothingInStretch(text: string, start: nat, name: string)
    requires start <= |text| && NoneStood(text, name, start, |text|)
    ensures NothingIn(Stretch(text, start, |text|), name, start == 0)
  {
    var out, begins := Stretch(text, start, |text|), start == 0;
    forall q: nat ensures !Stands(out, name, q, begins) {
      if q + |name| <= |out| { StandsInText(out, text, start, |text| - start, "", "", name, q); }
    }
  }

  lemma Join(text: string, from: nat, start: nat, i: nat, c: string, rest: string, out: string)
    requires from <= start <= i <= |text| && out == Stretch(text, start, i) + c + rest
    ensures Stretch(text, from, start) + out == Stretch(text, from, i) + c + rest
  {}

  lemma JoinEnd(text: string, from: nat, start: nat)
    requires from <= start <= |text|
    ensures Stretch(text, from, start) + Stretch(text, start, |text|) == Stretch(text, from, |text|)
  {}

  lemma JoinKept(text: string, from: nat, i: nat, literal: string, rest: string)
    requires from <= i && OccursAt(text, literal, i)
    ensures Stretch(text, from, i) + literal + rest == Stretch(text, from, i + |literal|) + rest
  {
    ByByte(text, literal, i);
    assert Stretch(text, from, i) + literal == Stretch(text, from, i + |literal|);
  }

  /** The text from `from` up to start as it was, and the rewrite from there on. */
  function HalfRewritten(text: string, literal: string, replacement: string, from: nat, start: nat): string
    requires literal != "" && from <= start <= |text|
  {
    Stretch(text, from, start) + RewrittenFrom(text, literal, replacement, start)
  }

  lemma HalfEnd(text: string, literal: string, replacement: string, from: nat, start: nat)
    requires literal != "" && from <= start <= |text| && Index(text, literal, start) == None
    ensures HalfRewritten(text, literal, replacement, from, start) == Stretch(text, from, |text|)
  {
    JoinEnd(text, from, start);
  }

  lemma HalfStep(text: string, literal: string, replacement: string, from: nat, start: nat, i: nat)
    requires literal != "" && from <= start <= |text| && Index(text, literal, start) == Some(i)
    ensures HalfRewritten(text, literal, replacement, from, start) == Stretch(text, from, i) +
      (if Replaced(text, literal, start, i) then replacement else literal) + RewrittenFrom(text, literal, replacement, i + |literal|)
  {
    Join(text, from, start, i, if Replaced(text, literal, start, i) then replacement else literal,
         RewrittenFrom(text, literal, replacement, i + |literal|), RewrittenFrom(text, literal, replacement, start));
  }

  lemma NothingKept(text: string, literal: string, replacement: string, from: nat, start: nat, i: nat, name: string)
    requires literal != "" && from <= start <= |text| && Index(text, literal, start) == Some(i) && !Replaced(text, literal, start, i)
    requires NothingIn(HalfRewritten(text, literal, replacement, from, i + |literal|), name, from == 0)
    ensures NothingIn(HalfRewritten(text, literal, replacement, from, start), name, from == 0)
  {
    IndexIsFirst(text, literal, start);
    HalfStep(text, literal, replacement, from, start, i);
    JoinKept(text, from, i, literal, RewrittenFrom(text, literal, replacement, i + |literal|));
  }

  lemma NothingReplaced(text: string, literal: string, replacement: string, from: nat, start: nat, i: nat, name: string)
    requires literal != "" && IsPseudonym(replacement) && !Holds(name, replacement) && NoneStood(text, name, from, i)
    requires from <= start <= |text| && Index(text, literal, start) == Some(i) && Replaced(text, literal, start, i)
    requires NothingIn(RewrittenFrom(text, literal, replacement, i + |literal|), name, false)
    ensures NothingIn(HalfRewritten(text, literal, replacement, from, start), name, from == 0)
  {
    HalfPieces(text, literal, replacement, from, start, i);
    NothingNew(HalfRewritten(text, literal, replacement, from, start), text, from, i - from, replacement,
               RewrittenFrom(text, literal, replacement, i + |literal|), name);
  }

  lemma HalfPieces(text: string, literal: string, replacement: string, from: nat, start: nat, i: nat)
    requires literal != "" && from <= start <= |text| && Index(text, literal, start) == Some(i) && Replaced(text, literal, start, i)
    ensures Pieces(HalfRewritten(text, literal, replacement, from, start), text, from, i - from, replacement,
                   RewrittenFrom(text, literal, replacement, i + |literal|))
  {
    HalfStep(text, literal, replacement, from, start, i);
    PiecesOf(HalfRewritten(text, literal, replacement, from, start), text, from, i, replacement,
             RewrittenFrom(text, literal, replacement, i + |literal|));
  }

  lemma HalfNothing(text: string, literal: string, replacement: string, start: nat)
    requires literal != "" && start <= |text|
    ensures HalfRewritten(text, literal, replacement, start, start) == RewrittenFrom(text, literal, replacement, start)
  {
    EmptyStretch(text, start, RewrittenFrom(text, literal, replacement, start));
  }

  lemma EmptyStretch(text: string, start: nat, rest: string)
    requires start <= |text|
    ensures Stretch(text, start, start) + rest == rest
  {}

  lemma NothingWhole(text: string, literal: string, replacement: string, start: nat, name: string)
    requires literal != "" && 0 < start <= |text|
    requires NothingIn(HalfRewritten(text, literal, replacement, start, start), name, start == 0)
    ensures NothingIn(RewrittenFrom(text, literal, replacement, start), name, false)
  {
    HalfNothing(text, literal, replacement, start);
  }

  lemma NothingAtEnd(text: string, literal: string, replacement: string, from: nat, start: nat, name: string)
    requires literal != "" && NoneStood(text, name, from, |text|)
    requires from <= start <= |text| && Index(text, literal, start) == None
    ensures NothingIn(HalfRewritten(text, literal, replacement, from, start), name, from == 0)
  {
    HalfEnd(text, literal, replacement, from, start);
    NothingInStretch(text, from, name);
  }

  /** The literal overlaps itself behind a byte that no name has: two occurrences share
      bytes, and the second one can stand although the first one does not. */
  ghost predicate OverlapsItself(literal: string) {
    exists p :: 0 < p < |literal| && literal[p..] == literal[..|literal| - p] && !NameBefore(literal[p - 1])
  }

  /** An occurrence inside another one follows a name byte, unless the literal overlaps
      itself so. */
  lemma InsideAnother(text: string, literal: string, i: nat, q: nat)
    requires !OverlapsItself(literal) && OccursAt(text, literal, i) && OccursAt(text, literal, q) && i < q < i + |literal|
    ensures NameBefore(text[q - 1])
  {
    ByByte(text, literal, i);
    ByByte(text, literal, q);
    var p := q - i;
    forall k | 0 <= k < |literal| - p ensures literal[p..][k] == literal[..|literal| - p][k] {
      assert text[i + (p + k)] == literal[p + k] && text[q + k] == literal[k];
    }
    assert literal[p..] == literal[..|literal| - p];
    assert text[i + (p - 1)] == literal[p - 1];
  }

  /** The name is one the text is free of, or the literal itself, not overlapping. */
  ghost predicate CanBeGone(text: string, literal: string, name: string) {
    Free(text, name) || (name == literal && !OverlapsItself(literal))
  }

  lemma NoneUpToMatch(text: string, literal: string, from: nat, start: nat, i: nat, name: string)
    requires literal != "" && from <= start <= |text| && Index(text, literal, start) == Some(i)
    requires CanBeGone(text, literal, name) && NoneStood(text, name, from, start)
    ensures NoneStood(text, name, from, i)
  {
    IndexIsFirst(text, literal, start);
  }

  lemma NoneUpToEnd(text: string, literal: string, from: nat, start: nat, name: string)
    requires literal != "" && from <= start <= |text| && Index(text, literal, start) == None
    requires CanBeGone(text, literal, name) && NoneStood(text, name, from, start)
    ensures NoneStood(text, name, from, |text|)
  {
    IndexIsFirst(text, literal, start);
  }

  lemma NoneInKept(text: string, literal: string, from: nat, start: nat, i: nat, name: string)
    requires literal != "" && from <= start <= |text| && Index(text, literal, start) == Some(i) && !Replaced(text, literal, start, i)
    requires CanBeGone(text, literal, name) && NoneStood(text, name, from, start)
    ensures NoneStood(text, name, from, i + |literal|)
  {
    NoneUpToMatch(text, literal, from, start, i, name);
    if !Free(text, name) {
      IndexIsFirst(text, literal, start);
      forall q: nat | i < q < i + |literal| && OccursAt(text, literal, q) ensures !Bounded(text, literal, q) {
        InsideAnother(text, literal, i, q);
      }
    }
  }

  lemma NoneYet(text: string, literal: string, start: nat, name: string)
    requires literal != "" && CanBeGone(text, literal, name)
    ensures NoneStood(text, name, start, start)
  {}

  lemma NothingAhead(text: string, literal: string, replacement: string, from: nat, start: nat, i: nat, name: string)
    requires literal != "" && IsPseudonym(replacement) && !Holds(name, replacement)
    requires from <= start <= |text| && Index(text, literal, start) == Some(i) && Replaced(text, literal, start, i)
    requires CanBeGone(text, literal, name) && NoneStood(text, name, from, start)
    requires NothingIn(HalfRewritten(text, literal, replacement, i + |literal|, i + |literal|), name, i + |literal| == 0)
    ensures NothingIn(HalfRewritten(text, literal, replacement, from, start), name, from == 0)
  {
    NothingWhole(text, literal, replacement, i + |literal|, name);
    NoneUpToMatch(text, literal, from, start, i, name);
    NothingReplaced(text, literal, replacement, from, start, i, name);
  }

  lemma {:induction false} NothingAppears(text: string, literal: string, replacement: string, from: nat, start: nat, name: string)
    requires literal != "" && IsPseudonym(replacement) && !Holds(name, replacement)
    requires CanBeGone(text, literal, name)
    requires from <= start <= |text| && NoneStood(text, name, from, start)
    ensures NothingIn(HalfRewritten(text, literal, replacement, from, start), name, from == 0)
    decreases |text| - start
  {
    var found := Index(text, literal, start);
    if found.None? {
      NoneUpToEnd(text, literal, from, start, name);
      NothingAtEnd(text, literal, replacement, from, start, name);
    } else {
      var i := found.value;
      if Replaced(text, literal, start, i) {
        NoneYet(text, literal, i + |literal|, name);
        NothingAppears(text, literal, replacement, i + |literal|, i + |literal|, name);
        NothingAhead(text, literal, replacement, from, start, i, name);
      } else {
        NoneInKept(text, literal, from, start, i, name);
        NothingAppears(text, literal, replacement, from, i + |literal|, name);
        NothingKept(text, literal, replacement, from, start, i, name);
      }
    }
  }

  lemma NoneAppears(text: string, literal: string, replacement: string, name: string)
    requires literal != "" && IsPseudonym(replacement) && !Holds(name, replacement)
    requires CanBeGone(text, literal, name) && NoneStood(text, name, 0, 0)
    ensures Free(Rewritten(text, literal, replacement), name)
  {
    NothingAppears(text, literal, replacement, 0, 0, name);
    HalfNothing(text, literal, replacement, 0);
    NothingInIsFree(Rewritten(text, literal, replacement), name);
  }

  /** A name a text is free of does not come back when another one is replaced. */
  lemma StaysFree(text: string, literal: string, replacement: string, name: string)
    requires literal != "" && IsPseudonym(replacement) && !Holds(name, replacement) && Free(text, name)
    ensures Free(Rewritten(text, literal, replacement), name)
  {
    NoneAppears(text, literal, replacement, name);
  }

  // ----- which names go -----

  /** A name no part of which is its pseudonym is left standing in no text, exactly
      unless it overlaps itself behind a byte that no name has. */
  lemma NoNameIsLeft(literal: string, replacement: string)
    requires literal != "" && IsPseudonym(replacement) && !Holds(literal, replacement)
    ensures (forall text :: Free(Rewritten(text, literal, replacement), literal)) <==> !OverlapsItself(literal)
  {
    if OverlapsItself(literal) {
      var p :| 0 < p < |literal| && literal[p..] == literal[..|literal| - p] && !NameBefore(literal[p - 1]);
      var before := if literal[0] == 'a' then 'b' else 'a';
      OverlapIsLeft(literal, replacement, p, before);
    } else {
      forall text ensures Free(Rewritten(text, literal, replacement), literal) {
        NoneAppears(text, literal, replacement, literal);
      }
    }
  }

  /** The first of two overlapping occurrences is kept, for the name byte before it, and
      the scan resumes inside the second, which stands. */
  lemma OverlapIsLeft(literal: string, replacement: string, p: nat, before: char)
    requires 0 < p < |literal| && literal[p..] == literal[..|literal| - p] && !NameBefore(literal[p - 1])
    requires NameBefore(before) && before != literal[0]
    ensures var text := [before] + literal[..p] + literal;
      Rewritten(text, literal, replacement) == text && !Free(text, literal)
  {
    var text := [before] + literal[..p] + literal;
    OverlapByByte(literal, p, before, text);
    OverlappingOccurrences(literal, p, before, text);
    KeptAlone(text, literal, replacement);
    assert Bounded(text, literal, 1 + p);
  }

  /** The text, byte by byte. */
  ghost predicate Overlaps(text: string, literal: string, p: nat, before: char) {
    && 0 < p < |literal| && |text| == 1 + p + |literal| && text[0] == before
    && (forall k :: 0 <= k < p ==> text[1 + k] == literal[k])
    && (forall k :: 0 <= k < |literal| ==> text[1 + p + k] == literal[k])
    && (forall k :: 0 <= k < |literal| - p ==> literal[p + k] == literal[k])
  }

  lemma OverlapByByte(literal: string, p: nat, before: char, text: string)
    requires 0 < p < |literal| && literal[p..] == literal[..|literal| - p]
    requires text == [before] + literal[..p] + literal
    ensures Overlaps(text, literal, p, before)
  {
    forall k | 0 <= k < |literal| - p ensures literal[p + k] == literal[k] {
      assert literal[p..][k] == literal[..|literal| - p][k];
    }
  }

  lemma OverlappingOccurrences(literal: string, p: nat, before: char, text: string)
    requires Overlaps(text, literal, p, before) && before != literal[0]
    ensures !OccursAt(text, literal, 0) && OccursAt(text, literal, 1) && OccursAt(text, literal, 1 + p)
    ensures text[0] == before && text[p] == literal[p - 1] && |text| == 1 + p + |literal|
  {
    ByByte(text, literal, 0);
    ByByte(text, literal, 1);
    ByByte(text, literal, 1 + p);
    assert text[1 + (p - 1)] == literal[p - 1];
    forall k | 0 <= k < |literal| ensures text[1 + k] == literal[k] {
      if k >= p { assert text[1 + p + (k - p)] == literal[k - p] && literal[p + (k - p)] == literal[k - p]; }
    }
  }

  /** A text whose only scanned match is kept is its own rewrite. */
  lemma KeptAlone(text: string, literal: string, replacement: string)
    requires |literal| > 0 && |text| > 0 && NameBefore(text[0]) && |text| < 1 + 2 * |literal|
    requires !OccursAt(text, literal, 0) && OccursAt(text, literal, 1)
    ensures Rewritten(text, literal, replacement) == text
  {
    OnlyMatch(text, literal);
    var before, rest := Stretch(text, 0, 1), Stretch(text, 1 + |literal|, |text|);
    Pasted(text, literal, before, rest);
    assert RewrittenFrom(text, literal, replacement, 1 + |literal|) == rest;
    assert RewrittenFrom(text, literal, replacement, 0) == before + literal + rest;
  }

  lemma OnlyMatch(text: string, literal: string)
    requires |literal| > 0 && |text| > 0 && NameBefore(text[0]) && |text| < 1 + 2 * |literal|
    requires !OccursAt(text, literal, 0) && OccursAt(text, literal, 1)
    ensures Index(text, literal, 0) == Some(1) && Index(text, literal, 1 + |literal|) == None
    ensures !Replaced(text, literal, 0, 1)
  {
    assert Index(text, literal, 1) == Some(1);
  }

  lemma Pasted(text: string, literal: string, before: string, rest: string)
    requires OccursAt(text, literal, 1)
    requires before == Stretch(text, 0, 1) && rest == Stretch(text, 1 + |literal|, |text|)
    ensures before + literal + rest == text
  {
    ByByte(text, literal, 1);
  }

  /** The context kubeadm writes overlaps itself at the '@'. */
  lemma KubeadmContextOverlaps()
    ensures OverlapsItself("kubernetes-admin@kubernetes")
  {
    var literal := "kubernetes-admin@kubernetes";
    assert literal[17..] == "kubernetes" == literal[..10] && literal[16] == '@';
  }

  /** In a text that repeats such a context with nothing in between, no match is
      replaced, and the last one stands. */
  lemma RepeatedContextIsLeft()
    ensures Rewritten("k-a@k-a@k", "k-a@k", "c-1") == "k-a@k-a@k"
    ensures !Free("k-a@k-a@k", "k-a@k")
  {
    var text, name := "k-a@k-a@k", "k-a@k";
    RepeatedOccurrences(text, name);
    assert Stretch(text, 0, 0) == "" && Stretch(text, 5, 9) == "-a@k";
    assert RewrittenFrom(text, name, "c-1", 5) == "-a@k";
    assert Rewritten(text, name, "c-1") == "" + name + "-a@k";
  }

  lemma RepeatedOccurrences(text: string, name: string)
    requires text == "k-a@k-a@k" && name == "k-a@k"
    ensures Index(text, name, 0) == Some(0) && Index(text, name, 5) == None && !Replaced(text, name, 0, 0)
    ensures OccursAt(text, name, 4) && Bounded(text, name, 4)
  {
    ByByte(text, name, 0);
    ByByte(text, name, 4);
    assert text[5] == '-' && text[3] == '@';
  }

  // ----- all the names -----

  /** Pseudonyms by shape, none of them part of any of the names, and no name that
      overlaps itself. */
  ghost predicate Fresh(names: seq<Identity>) {
    && (forall k :: 0 <= k < |names| ==> IsPseudonym(names[k].replacement) && !OverlapsItself(names[k].literal))
    && (forall j, k :: 0 <= j < |names| && 0 <= k < |names| ==> !Holds(names[j].literal, names[k].replacement))
  }

  /** When the identities are replaced, none of them is left standing, in whatever order
      they were taken. */
  lemma {:induction false} NoIdentityIsLeft(text: string, names: seq<Identity>, k: nat)
    requires Fresh(names) && k < |names| && names[k].literal != ""
    ensures Free(ReplacedAll(text, names), names[k].literal)
  {
    var n := |names| - 1;
    var before, last := ReplacedAll(text, names[..n]), names[n];
    if k < n {
      assert names[..n][k] == names[k];
      NoIdentityIsLeft(text, names[..n], k);
      if last.literal != "" { StaysFree(before, last.literal, last.replacement, names[k].literal); }
    } else {
      NoneAppears(before, last.literal, last.replacement, last.literal);
    }
  }
}
