/**
 Dotted paths, as --fields takes them: splitting at the dots, and what a string
 prefix test says about the split segments.
 */
module DottedPaths {

  type Path = seq<string>

  /** Splits at every dot; the result always holds at least one segment. */
  function Split(s: string): (segments: Path)
    ensures segments != []
  {
    if s == "" then [""]
    else
      OnFirst(s[0], Split(s[1..]))
  }

  function Join(segments: Path): string
    requires segments != []
  {
    if |segments| == 1 then segments[0] else segments[0] + "." + Join(segments[1..])
  }

  lemma {:induction false} JoinSplit(s: string)
    ensures Join(Split(s)) == s
  {
    if s != "" {
      JoinSplit(s[1..]);
      var rest := Split(s[1..]);
      if s[0] == '.' {
        assert ([""] + rest)[1..] == rest;
      } else if |rest| > 1 {
        assert Split(s)[1..] == rest[1..];
      }
    }
  }

  function OnFirst(c: char, segments: Path): Path
    requires segments != []
  {
    if c == '.' then [""] + segments else [[c] + segments[0]] + segments[1..]
  }

  lemma SplitCons(c: char, t: string)
    ensures Split([c] + t) == OnFirst(c, Split(t))
  {
    assert ([c] + t)[1..] == t;
  }

  lemma ConsOnFirst(c: char, a: Path, b: Path)
    requires a != []
    ensures OnFirst(c, a + b) == OnFirst(c, a) + b
  {
    assert (a + b)[1..] == a[1..] + b;
  }

  lemma {:induction false} NoDots(s: string)
    requires forall i :: 0 <= i < |s| ==> s[i] != '.'
    ensures Split(s) == [s]
  {
    if s != "" {
      NoDots(s[1..]);
      assert s == [s[0]] + s[1..];
    }
  }

  lemma {:induction false} SplitAtDot(a: string, b: string)
    ensures Split(a + "." + b) == Split(a) + Split(b)
  {
    if a == "" {
      assert a + "." + b == ['.'] + b;
      SplitCons('.', b);
    } else {
      var t := a[1..] + "." + b;
      SplitAtDot(a[1..], b);
      assert a + "." + b == [a[0]] + t && a == [a[0]] + a[1..];
      SplitCons(a[0], t);
      SplitCons(a[0], a[1..]);
      ConsOnFirst(a[0], Split(a[1..]), Split(b));
    }
  }

  lemma {:induction false} JoinAppends(a: Path, b: Path)
    requires a != [] && b != []
    ensures Join(a + b) == Join(a) + "." + Join(b)
  {
    if |a| == 1 {
      assert (a + b)[1..] == b;
    } else {
      JoinAppends(a[1..], b);
      assert (a + b)[1..] == a[1..] + b;
    }
  }

  /** A path lies strictly inside a section, by the string test, exactly when
      the section's segments are a proper prefix of the path's. */
  lemma InsideIsProperPrefix(section: string, path: string)
    ensures section + "." <= path <==> Split(section) < Split(path)
  {
    if section + "." <= path {
      var rest := path[|section| + 1..];
      assert path == section + "." + rest;
      SplitAtDot(section, rest);
    }
    if Split(section) < Split(path) {
      var rest := Split(path)[|Split(section)|..];
      assert Split(path) == Split(section) + rest;
      JoinSplit(path);
      JoinSplit(section);
      JoinAppends(Split(section), rest);
    }
  }
}

/**
 pkg/output/fields.go: the projection behind --fields, over decoded JSON.

 The methods follow the program; Copied and CopiedAll are what they compute.
 Part is the projection said declaratively, by recursion over the document and a
 SET of paths, so it cannot depend on their order or repetition.
 */
module Fields {
  import opened Prefixes
  import opened DottedPaths

  datatype Json = Scalar(text: string) | Arr(elems: seq<Json>) | Obj(fields: Object)
  type Object = map<string, Json>

  const ALWAYS_KEPT: seq<string> := ["apiVersion", "kind", "metadata.name"]

  // ----- what the program does -----

  function ElementAt(values: seq<Json>, i: nat): Object {
    if i < |values| && values[i].Obj? then values[i].fields else map[]
  }

  function Copied(src: Object, dst: Object, segments: Path): Object
    requires segments != []
    decreases |segments|, 0
  {
    var head := segments[0];
    if head !in src then dst
    else if |segments| == 1 then dst[head := src[head]]
    else
      match src[head]
      case Scalar(_) => dst
      case Obj(child) =>
        var nested := if head in dst && dst[head].Obj? then dst[head].fields else map[];
        dst[head := Obj(Copied(child, nested, segments[1..]))]
      case Arr(child) =>
        var existing := if head in dst && dst[head].Arr? then dst[head].elems else [];
        dst[head := Arr(seq(|child|, i requires 0 <= i < |child| =>
          CopiedElement(child[i], existing, i, segments[1..])))]
  }

  function CopiedElement(entry: Json, existing: seq<Json>, i: nat, segments: Path): Json
    requires segments != []
    decreases |segments|, 1
  {
    if entry.Obj? then Obj(Copied(entry.fields, ElementAt(existing, i), segments)) else entry
  }

  function CopiedAll(src: Object, dst: Object, paths: seq<string>): Object {
    if paths == [] then dst
    else Copied(src, CopiedAll(src, dst, paths[..|paths| - 1]), Split(paths[|paths| - 1]))
  }

  lemma CopiedAllSnoc(src: Object, paths: seq<string>, path: string)
    ensures CopiedAll(src, map[], paths + [path]) == Copied(src, CopiedAll(src, map[], paths), Split(path))
  {
    assert (paths + [path])[..|paths|] == paths;
  }

  method CopyPath(src: Object, dst0: Object, segments: Path) returns (dst: Object)
    requires segments != []
    ensures dst == Copied(src, dst0, segments)
    decreases |segments|
  {
    dst := dst0;
    var head := segments[0];
    if head !in src { return; }
    if |segments| == 1 {
      dst := dst[head := src[head]];
      return;
    }
    match src[head] {
      case Scalar(_) =>
      case Obj(child) =>
        var nested := if head in dst && dst[head].Obj? then dst[head].fields else map[];
        var filled := CopyPath(child, nested, segments[1..]);
        dst := dst[head := Obj(filled)];
      case Arr(child) =>
        var existing := if head in dst && dst[head].Arr? then dst[head].elems else [];
        var projected: seq<Json> := [];
        for i := 0 to |child|
          invariant |projected| == i
          invariant forall k :: 0 <= k < i ==> projected[k] == CopiedElement(child[k], existing, k, segments[1..])
        {
          if child[i].Obj? {
            var into := CopyPath(child[i].fields, ElementAt(existing, i), segments[1..]);
            projected := projected + [Obj(into)];
          } else {
            projected := projected + [child[i]];
          }
        }
        assert projected == Copied(src, dst0, segments)[head].elems;
        dst := dst[head := Arr(projected)];
    }
  }

  method CopyAll(src: Object, dst0: Object, paths: seq<string>, ghost before: seq<string>) returns (dst: Object)
    requires dst0 == CopiedAll(src, map[], before)
    ensures dst == CopiedAll(src, map[], before + paths)
  {
    dst := dst0;
    assert before + paths[..0] == before;
    for i := 0 to |paths|
      invariant dst == CopiedAll(src, map[], before + paths[..i])
    {
      CopiedAllSnoc(src, before + paths[..i], paths[i]);
      assert before + paths[..i + 1] == before + paths[..i] + [paths[i]];
      dst := CopyPath(src, dst, Split(paths[i]));
    }
    WholePrefix(paths);
  }

  method ProjectMap(src: Object, fields: seq<string>) returns (out: Object)
    ensures Obj(out) == Part(Obj(src), Requested(fields))
  {
    out := CopyAll(src, map[], ALWAYS_KEPT, []);
    out := CopyAll(src, out, fields, [] + ALWAYS_KEPT);
    BothLists(src, ALWAYS_KEPT, fields);
  }

  lemma BothLists(src: Object, first: seq<string>, second: seq<string>)
    ensures Obj(CopiedAll(src, map[], [] + first + second)) == Part(Obj(src), PathsOf(first) + PathsOf(second))
  {
    ProjectionIsPart(src, first + second);
    PathsOfAppends(first, second);
    assert [] + first + second == first + second;
  }

  /** A list envelope is kept whole and its objects are projected one by one; any
      other object is projected itself. */
  method ProjectObject(top0: Object, fields: seq<string>) returns (top: Object)
    ensures !("items" in top0 && top0["items"].Arr?) ==> Obj(top) == Part(Obj(top0), Requested(fields))
    ensures "items" in top0 && top0["items"].Arr? ==>
      && top.Keys == top0.Keys
      && (forall k :: k in top0 && k != "items" ==> top[k] == top0[k])
      && top["items"] == Part(top0["items"], Requested(fields))
  {
    if !("items" in top0 && top0["items"].Arr?) {
      top := ProjectMap(top0, fields);
      return;
    }
    var projected := ProjectItems(top0["items"].elems, fields);
    PartOfArray(top0["items"].elems, projected, Requested(fields));
    top := top0["items" := Arr(projected)];
  }

  method ProjectItem(item: Json, fields: seq<string>) returns (projected: Json)
    ensures projected == PartElement(item, Requested(fields))
  {
    if !item.Obj? { return item; }
    var m := ProjectMap(item.fields, fields);
    return Obj(m);
  }

  method ProjectItems(items: seq<Json>, fields: seq<string>) returns (projected: seq<Json>)
    ensures |projected| == |items| && PartsOf(projected, items, Requested(fields))
  {
    projected := [];
    for i := 0 to |items|
      invariant |projected| == i && PartsOf(projected, items, Requested(fields))
    {
      var item := ProjectItem(items[i], fields);
      PartsSnoc(projected, item, items, Requested(fields));
      projected := projected + [item];
    }
  }

  lemma PartsSnoc(projected: seq<Json>, item: Json, items: seq<Json>, paths: set<Path>)
    requires |projected| < |items| && PartsOf(projected, items, paths) && item == PartElement(items[|projected|], paths)
    ensures PartsOf(projected + [item], items, paths)
  {}

  ghost predicate PartsOf(projected: seq<Json>, items: seq<Json>, paths: set<Path>) {
    |projected| <= |items| && forall k :: 0 <= k < |projected| ==> projected[k] == PartElement(items[k], paths)
  }

  lemma PartOfArray(items: seq<Json>, projected: seq<Json>, paths: set<Path>)
    requires |projected| == |items| && PartsOf(projected, items, paths)
    ensures Arr(projected) == Part(Arr(items), paths)
  {
    assert projected == Part(Arr(items), paths).elems;
  }

  // ----- the projection, declaratively -----

  ghost function PathsOf(fields: seq<string>): set<Path> {
    set f | f in fields :: Split(f)
  }

  ghost function Requested(fields: seq<string>): set<Path> {
    PathsOf(ALWAYS_KEPT) + PathsOf(fields)
  }

  lemma PathsOfSnoc(fields: seq<string>, i: nat)
    requires i < |fields|
    ensures PathsOf(fields[..i + 1]) == PathsOf(fields[..i]) + {Split(fields[i])}
  {
    PrefixSnoc(fields, i);
  }

  lemma PathsOfAppends(a: seq<string>, b: seq<string>)
    ensures PathsOf(a + b) == PathsOf(a) + PathsOf(b)
  {
    forall q | q in PathsOf(a) + PathsOf(b) ensures q in PathsOf(a + b) {
      var f :| (f in a || f in b) && Split(f) == q;
      assert f in a + b;
    }
  }

  ghost function SplitAll(kept: set<string>): set<Path> {
    set k | k in kept :: Split(k)
  }

  /** What the paths ask for below a key. */
  ghost function Tails(paths: set<Path>, key: string): set<Path> {
    set p | p in paths && |p| > 1 && p[0] == key :: p[1..]
  }

  ghost predicate Keeps(value: Json, paths: set<Path>, key: string) {
    [key] in paths || (Tails(paths, key) != {} && !value.Scalar?)
  }

  ghost function Part(v: Json, paths: set<Path>): Json
    decreases v, 0
  {
    match v
    case Scalar(_) => v
    case Arr(elems) => Arr(seq(|elems|, i requires 0 <= i < |elems| => PartElement(elems[i], paths)))
    case Obj(fields) =>
      Obj(map k | k in fields && Keeps(fields[k], paths, k) ::
        if [k] in paths then fields[k] else Part(fields[k], Tails(paths, k)))
  }

  ghost function PartElement(entry: Json, paths: set<Path>): Json
    decreases entry, 1
  {
    if entry.Obj? then Part(entry, paths) else entry
  }

  lemma PartOfNothing(v: Json)
    requires v.Obj?
    ensures Part(v, {}) == Obj(map[])
  {}

  lemma TailsAdd(paths: set<Path>, p: Path, key: string)
    requires p != []
    ensures Tails(paths + {p}, key) == Tails(paths, key) + if |p| > 1 && p[0] == key then {p[1..]} else {}
  {
    if |p| > 1 && p[0] == key {
      assert p in paths + {p};
      assert p[1..] in Tails(paths + {p}, key);
    }
    forall t | t in Tails(paths, key) ensures t in Tails(paths + {p}, key) {
      var q :| q in paths && |q| > 1 && q[0] == key && q[1..] == t;
      assert q in paths + {p};
    }
  }

  /** Copying a path from a document onto itself is a no-op. The program relies on
      it when a section and a field inside it are both asked for: the section is
      then shared with the source and the field is copied from it onto it. */
  lemma {:induction false} CopyOntoItself(src: Object, p: Path)
    requires p != []
    ensures Copied(src, src, p) == src
    decreases |p|
  {
    var head := p[0];
    if head in src && |p| > 1 {
      match src[head]
      case Scalar(_) =>
      case Obj(child) => CopyOntoItself(child, p[1..]);
      case Arr(child) =>
        forall i | 0 <= i < |child| ensures CopiedElement(child[i], child, i, p[1..]) == child[i] {
          if child[i].Obj? { CopyOntoItself(child[i].fields, p[1..]); }
        }
        assert Copied(src, src, p)[head].elems == child;
    }
  }

  /** Keys other than the head of the added path are untouched by it. */
  lemma PartElsewhere(src: Object, paths: set<Path>, p: Path, k: string)
    requires p != [] && k in src && k != p[0]
    ensures Keeps(src[k], paths + {p}, k) == Keeps(src[k], paths, k)
    ensures Tails(paths + {p}, k) == Tails(paths, k)
    ensures [k] in paths + {p} <==> [k] in paths
  {
    TailsAdd(paths, p, k);
    assert [k] != p;
  }

  /** One copy is one more requested path: on the projection by any set of paths,
      copying p gives the projection by that set and p. */
  lemma {:induction false} CopyAddsPath(src: Object, paths: set<Path>, p: Path)
    requires p != []
    ensures Obj(Copied(src, Part(Obj(src), paths).fields, p)) == Part(Obj(src), paths + {p})
    decreases |p|, 1
  {
    var dst := Part(Obj(src), paths).fields;
    var got, want := Copied(src, dst, p), Part(Obj(src), paths + {p}).fields;
    var head := p[0];
    forall k | k in src && k != head ensures (k in got <==> k in want) && (k in got ==> got[k] == want[k]) {
      CopyLeavesElsewhere(src, paths, p, k);
    }
    if head in src { CopyAddsHead(src, paths, p); }
    SameMap(got, want, src.Keys);
  }

  lemma SameMap(a: Object, b: Object, keys: set<string>)
    requires a.Keys <= keys && b.Keys <= keys
    requires forall k :: k in keys ==> (k in a <==> k in b) && (k in a ==> a[k] == b[k])
    ensures a == b
  {
    assert a.Keys == b.Keys;
  }

  lemma CopyLeavesElsewhere(src: Object, paths: set<Path>, p: Path, k: string)
    requires p != [] && k in src && k != p[0]
    ensures var got, want := Copied(src, Part(Obj(src), paths).fields, p), Part(Obj(src), paths + {p}).fields;
            (k in got <==> k in want) && (k in got ==> got[k] == want[k])
  {
    PartElsewhere(src, paths, p, k);
  }

  lemma {:induction false} CopyAddsHead(src: Object, paths: set<Path>, p: Path)
    requires p != [] && p[0] in src
    ensures var got, want := Copied(src, Part(Obj(src), paths).fields, p), Part(Obj(src), paths + {p}).fields;
            (p[0] in got <==> p[0] in want) && (p[0] in got ==> got[p[0]] == want[p[0]])
    decreases |p|, 0
  {
    var head := p[0];
    var dst := Part(Obj(src), paths).fields;
    TailsAdd(paths, p, head);
    assert p == [head] || |p| > 1;
    if |p| > 1 {
      var below := Tails(paths, head);
      match src[head]
      case Scalar(_) =>
      case Obj(child) =>
        PartOfNothing(Obj(child));
        if [head] in paths { CopyOntoItself(child, p[1..]); } else { CopyAddsPath(child, below, p[1..]); }
      case Arr(child) =>
        var existing := if head in dst && dst[head].Arr? then dst[head].elems else [];
        if [head] in paths {
          CopyOntoItself(map[head := Arr(child)], p);
        } else {
          forall i | 0 <= i < |child| && child[i].Obj?
            ensures ElementAt(existing, i) == Part(child[i], below).fields
          {
            if below == {} {
              PartOfNothing(child[i]);
            } else {
              assert existing == Part(src[head], below).elems;
              assert existing[i] == PartElement(child[i], below);
            }
          }
          CopyAddsToElements(child, existing, below, p[1..]);
        }
    }
  }

  lemma CopyAddsToElements(child: seq<Json>, existing: seq<Json>, paths: set<Path>, p: Path)
    requires p != []
    requires forall i :: 0 <= i < |child| && child[i].Obj? ==> ElementAt(existing, i) == Part(child[i], paths).fields
    ensures forall i :: 0 <= i < |child| ==> CopiedElement(child[i], existing, i, p) == PartElement(child[i], paths + {p})
    decreases |p|, 2
  {
    forall i | 0 <= i < |child|
      ensures CopiedElement(child[i], existing, i, p) == PartElement(child[i], paths + {p})
    {
      if child[i].Obj? { CopyAddsPath(child[i].fields, paths, p); }
    }
  }

  /** Two path copies commute on any partial projection of the source. */
  lemma CopiesCommute(src: Object, paths: set<Path>, p: Path, q: Path)
    requires p != [] && q != []
    ensures var dst := Part(Obj(src), paths).fields;
            Copied(src, Copied(src, dst, p), q) == Copied(src, Copied(src, dst, q), p)
  {
    CopyAddsPath(src, paths, p);
    CopyAddsPath(src, paths, q);
    CopyAddsPath(src, paths + {p}, q);
    CopyAddsPath(src, paths + {q}, p);
    assert paths + {p} + {q} == paths + {q} + {p};
  }

  /** The whole projection is the declarative one. */
  lemma {:induction false} ProjectionIsPart(src: Object, paths: seq<string>)
    ensures Obj(CopiedAll(src, map[], paths)) == Part(Obj(src), PathsOf(paths))
  {
    if paths == [] {
      PartOfNothing(Obj(src));
    } else {
      var n := |paths| - 1;
      ProjectionIsPart(src, paths[..n]);
      CopyAddsPath(src, PathsOf(paths[..n]), Split(paths[n]));
      PathsOfSnoc(paths, n);
      assert paths[..n + 1] == paths;
    }
  }

  /** Neither the order nor the repetition of the paths shows. */
  lemma OrderAndRepetitionDoNotShow(src: Object, a: seq<string>, b: seq<string>)
    requires forall f :: f in a <==> f in b
    ensures CopiedAll(src, map[], a) == CopiedAll(src, map[], b)
  {
    ProjectionIsPart(src, a);
    ProjectionIsPart(src, b);
    assert PathsOf(a) == PathsOf(b);
  }

  // ----- nothing is invented -----

  /** d says nothing v does not: the same scalars, arrays of the same length in
      the same order, objects with some of the keys. */
  ghost predicate SubDoc(d: Json, v: Json)
    decreases v
  {
    match v
    case Scalar(_) => d == v
    case Arr(elems) =>
      d.Arr? && |d.elems| == |elems| && forall i :: 0 <= i < |elems| ==> SubDoc(d.elems[i], elems[i])
    case Obj(fields) =>
      d.Obj? && forall k :: k in d.fields ==> k in fields && SubDoc(d.fields[k], fields[k])
  }

  lemma {:induction false} SubDocReflexive(v: Json)
    ensures SubDoc(v, v)
    decreases v
  {
    match v
    case Scalar(_) =>
    case Arr(elems) => forall i | 0 <= i < |elems| ensures SubDoc(elems[i], elems[i]) { SubDocReflexive(elems[i]); }
    case Obj(fields) => forall k | k in fields ensures SubDoc(fields[k], fields[k]) { SubDocReflexive(fields[k]); }
  }

  lemma {:induction false} PartInventsNothing(v: Json, paths: set<Path>)
    ensures SubDoc(Part(v, paths), v)
    decreases v
  {
    match v
    case Scalar(_) =>
    case Arr(elems) =>
      forall i | 0 <= i < |elems| ensures SubDoc(PartElement(elems[i], paths), elems[i]) {
        if elems[i].Obj? { PartInventsNothing(elems[i], paths); } else { SubDocReflexive(elems[i]); }
      }
    case Obj(fields) =>
      forall k | k in Part(v, paths).fields ensures SubDoc(Part(v, paths).fields[k], fields[k]) {
        if [k] in paths { SubDocReflexive(fields[k]); } else { PartInventsNothing(fields[k], Tails(paths, k)); }
      }
  }

  // ----- what is asked for -----

  /** Some requested path names p or a section p lies in. */
  ghost predicate Covers(paths: set<Path>, p: Path) {
    exists q :: q in paths && q != [] && q <= p
  }

  lemma CoversBelow(paths: set<Path>, p: Path)
    requires p != []
    ensures Covers(paths, p) <==> [p[0]] in paths || (|p| > 1 && Covers(Tails(paths, p[0]), p[1..]))
  {
    if Covers(paths, p) {
      var q :| q in paths && q != [] && q <= p;
      if |q| == 1 { assert q == [p[0]]; } else { assert q[1..] in Tails(paths, p[0]) && q[1..] <= p[1..]; }
    }
    if [p[0]] in paths { assert [p[0]] <= p; }
    if |p| > 1 && Covers(Tails(paths, p[0]), p[1..]) {
      var t :| t in Tails(paths, p[0]) && t != [] && t <= p[1..];
      var q :| q in paths && |q| > 1 && q[0] == p[0] && q[1..] == t;
      assert q == [p[0]] + t;
      assert q <= p;
    }
  }

  // ----- projecting twice -----

  lemma {:induction false} PartIdempotent(v: Json, paths: set<Path>)
    ensures Part(Part(v, paths), paths) == Part(v, paths)
    decreases v
  {
    match v
    case Scalar(_) =>
    case Arr(elems) =>
      forall i | 0 <= i < |elems|
        ensures PartElement(PartElement(elems[i], paths), paths) == PartElement(elems[i], paths)
      {
        if elems[i].Obj? { PartIdempotent(elems[i], paths); }
      }
    case Obj(fields) =>
      var once := Part(v, paths).fields;
      var twice := Part(Part(v, paths), paths).fields;
      forall k | k in once ensures k in twice && twice[k] == once[k] {
        if [k] !in paths { PartIdempotent(fields[k], Tails(paths, k)); }
      }
      assert twice == once;
  }

  // ----- place by place -----

  datatype Place = Key(name: string) | Elem(index: nat)

  datatype Here = Missing | There(value: Json)

  /** What is at one place of a document, given by the keys and array indices to it. */
  function At(v: Json, place: seq<Place>): Here {
    if place == [] then There(v)
    else
      match place[0]
      case Key(k) => if v.Obj? && k in v.fields then At(v.fields[k], place[1..]) else Missing
      case Elem(i) => if v.Arr? && i < |v.elems| then At(v.elems[i], place[1..]) else Missing
  }

  /** The path to a place, as it would be asked for. */
  function PathTo(place: seq<Place>): Path {
    if place == [] then [] else (if place[0].Key? then [place[0].name] else []) + PathTo(place[1..])
  }

  /** A sub-document has at each of its places what the document has there: the same
      scalar, an array as long, an object. */
  lemma {:induction false} SubDocAt(d: Json, v: Json, place: seq<Place>)
    requires SubDoc(d, v) && At(d, place).There?
    ensures At(v, place).There?
    ensures var mine, whole := At(d, place).value, At(v, place).value;
      && (mine.Scalar? || whole.Scalar? ==> mine == whole)
      && (mine.Arr? <==> whole.Arr?) && (mine.Arr? ==> |mine.elems| == |whole.elems|)
      && (mine.Obj? ==> forall k :: k in mine.fields ==> k in whole.fields)
    decreases |place|
  {
    if place != [] {
      match place[0]
      case Key(k) => SubDocAt(d.fields[k], v.fields[k], place[1..]);
      case Elem(i) => SubDocAt(d.elems[i], v.elems[i], place[1..]);
    }
  }

  /** The projection has nothing at any place but what the document has there. */
  lemma NothingInvented(v: Json, paths: set<Path>, place: seq<Place>)
    requires At(Part(v, paths), place).There?
    ensures At(v, place).There?
    ensures var mine, whole := At(Part(v, paths), place).value, At(v, place).value;
      && (mine.Scalar? || whole.Scalar? ==> mine == whole)
      && (mine.Arr? <==> whole.Arr?) && (mine.Arr? ==> |mine.elems| == |whole.elems|)
      && (mine.Obj? ==> forall k :: k in mine.fields ==> k in whole.fields)
  {
    PartInventsNothing(v, paths);
    SubDocAt(Part(v, paths), v, place);
  }

  /** At a place whose path is covered, the projection is the document. */
  lemma {:induction false} CoveredPlacesAreKept(v: Json, paths: set<Path>, place: seq<Place>)
    requires Covers(paths, PathTo(place))
    ensures At(Part(v, paths), place) == At(v, place)
    decreases |place|
  {
    assert place != [];
    match place[0]
    case Key(k) =>
      assert PathTo(place) == [k] + PathTo(place[1..]) && PathTo(place)[1..] == PathTo(place[1..]);
      CoversBelow(paths, PathTo(place));
      if v.Obj? && k in v.fields && [k] !in paths {
        var below := Tails(paths, k);
        if v.fields[k].Scalar? {
          assert place[1..] != [];
        } else {
          CoveredPlacesAreKept(v.fields[k], below, place[1..]);
        }
      }
    case Elem(i) =>
      assert PathTo(place) == PathTo(place[1..]);
      if v.Arr? && i < |v.elems| && v.elems[i].Obj? {
        CoveredPlacesAreKept(v.elems[i], paths, place[1..]);
      }
  }

  /** Every array index on the way leads to an object. */
  predicate ThroughObjects(v: Json, place: seq<Place>) {
    place == [] ||
    match place[0]
    case Key(k) => v.Obj? && k in v.fields && ThroughObjects(v.fields[k], place[1..])
    case Elem(i) => v.Arr? && i < |v.elems| && v.elems[i].Obj? && ThroughObjects(v.elems[i], place[1..])
  }

  /** A scalar is at its place in the projection of an object exactly when its path is
      covered; array elements that are no objects, which no path reaches into, aside. */
  lemma {:induction false} ScalarExactlyWhenCovered(v: Json, paths: set<Path>, place: seq<Place>)
    requires ThroughObjects(v, place) && At(v, place).There? && At(v, place).value.Scalar? && !v.Scalar?
    ensures At(Part(v, paths), place) == At(v, place) <==> Covers(paths, PathTo(place))
    ensures !Covers(paths, PathTo(place)) ==> At(Part(v, paths), place) == Missing
    decreases |place|
  {
    if Covers(paths, PathTo(place)) {
      CoveredPlacesAreKept(v, paths, place);
    } else {
      match place[0]
      case Key(k) =>
        assert PathTo(place) == [k] + PathTo(place[1..]) && PathTo(place)[1..] == PathTo(place[1..]);
        CoversBelow(paths, PathTo(place));
        if !v.fields[k].Scalar? && Keeps(v.fields[k], paths, k) {
          ScalarExactlyWhenCovered(v.fields[k], Tails(paths, k), place[1..]);
        }
      case Elem(i) =>
        assert PathTo(place) == PathTo(place[1..]);
        ScalarExactlyWhenCovered(v.elems[i], paths, place[1..]);
    }
  }

  // ----- the table form -----

  function KeptColumns(fields: seq<string>): set<string> {
    (set f | f in ALWAYS_KEPT) + (set f | f in fields)
  }

  method CoveredBy(kept: set<string>, path: string) returns (covered: bool)
    ensures covered <==> Covers(SplitAll(kept), Split(path))
  {
    CoveredByName(kept, path);
    if path in kept { return true; }
    var left := kept;
    while left != {}
      invariant left <= kept
      invariant forall k :: k in kept && k !in left ==> !(k + "." <= path)
      decreases left
    {
      var requested :| requested in left;
      if requested + "." <= path { return true; }
      left := left - {requested};
    }
    return false;
  }

  /** The string tests of coveredBy are the prefix test on segments. */
  lemma CoveredByName(kept: set<string>, path: string)
    ensures Covers(SplitAll(kept), Split(path)) <==>
            path in kept || exists k :: k in kept && k + "." <= path
  {
    var asked := SplitAll(kept);
    if path in kept { assert Split(path) in asked && Split(path) <= Split(path); }
    if k :| k in kept && k + "." <= path {
      InsideIsProperPrefix(k, path);
      assert Split(k) in asked && Split(k) <= Split(path);
    }
    if q :| q in asked && q != [] && q <= Split(path) {
      var k :| k in kept && Split(k) == q;
      InsideIsProperPrefix(k, path);
      JoinSplit(k);
      JoinSplit(path);
      assert q < Split(path) || q == Split(path);
    }
  }

  /** A document holding one value, at one path. */
  function Witness(p: Path): Json
    requires p != []
  {
    Obj(map[p[0] := if |p| == 1 then Scalar("") else Witness(p[1..])])
  }

  function KeysTo(p: Path): seq<Place> { seq(|p|, i requires 0 <= i < |p| => Key(p[i])) }

  lemma {:induction false} WitnessHolds(p: Path)
    requires p != []
    ensures PathTo(KeysTo(p)) == p && ThroughObjects(Witness(p), KeysTo(p))
    ensures At(Witness(p), KeysTo(p)) == There(Scalar(""))
    decreases |p|
  {
    var rest := p[1..];
    assert KeysTo(p)[1..] == KeysTo(rest) && p == [p[0]] + rest;
    if |p| > 1 { WitnessHolds(rest); }
  }

  /** A path that is not covered loses what it leads to in some document. */
  lemma UncoveredIsLost(paths: set<Path>, p: Path)
    requires p != [] && !Covers(paths, p)
    ensures PathTo(KeysTo(p)) == p && At(Part(Witness(p), paths), KeysTo(p)) != At(Witness(p), KeysTo(p))
  {
    WitnessHolds(p);
    ScalarExactlyWhenCovered(Witness(p), paths, KeysTo(p));
  }

  lemma KeptAreRequested(fields: seq<string>)
    ensures SplitAll(KeptColumns(fields)) == Requested(fields)
  {
    var kept := SplitAll(KeptColumns(fields));
    forall q | q in Requested(fields) ensures q in kept {
      if q in PathsOf(fields) {
        var f :| f in fields && Split(f) == q;
        assert f in KeptColumns(fields);
      } else {
        var f :| f in ALWAYS_KEPT && Split(f) == q;
        assert f in KeptColumns(fields);
      }
    }
  }

  /** Whatever is asked for, the kind of a document and its name are there. */
  lemma KindAndNameAreKept(v: Json, fields: seq<string>)
    ensures At(Part(v, Requested(fields)), [Key("apiVersion")]) == At(v, [Key("apiVersion")])
    ensures At(Part(v, Requested(fields)), [Key("kind")]) == At(v, [Key("kind")])
    ensures At(Part(v, Requested(fields)), [Key("metadata"), Key("name")]) == At(v, [Key("metadata"), Key("name")])
  {
    AlwaysAsked(fields);
    assert ["apiVersion"] <= ["apiVersion"] && ["kind"] <= ["kind"] && ["metadata", "name"] <= ["metadata", "name"];
    assert PathTo([Key("apiVersion")]) == ["apiVersion"] && PathTo([Key("kind")]) == ["kind"];
    assert [Key("metadata"), Key("name")][1..] == [Key("name")];
    assert PathTo([Key("metadata"), Key("name")]) == ["metadata", "name"];
    CoveredPlacesAreKept(v, Requested(fields), [Key("apiVersion")]);
    CoveredPlacesAreKept(v, Requested(fields), [Key("kind")]);
    CoveredPlacesAreKept(v, Requested(fields), [Key("metadata"), Key("name")]);
  }

  /** The paths asked for are the three kept ones and the given ones, and no other. */
  lemma AlwaysAsked(fields: seq<string>)
    ensures Requested(fields) == {["apiVersion"], ["kind"], ["metadata", "name"]} + set f | f in fields :: Split(f)
  {
    KeptPaths(ALWAYS_KEPT, "apiVersion", "kind", "metadata", "name", "metadata.name");
  }

  lemma KeptPaths(kept: seq<string>, version: string, kind: string, metadata: string, name: string, path: string)
    requires kept == [version, kind, path] && path == metadata + "." + name
    requires forall i :: 0 <= i < |version| ==> version[i] != '.'
    requires forall i :: 0 <= i < |kind| ==> kind[i] != '.'
    requires forall i :: 0 <= i < |metadata| ==> metadata[i] != '.'
    requires forall i :: 0 <= i < |name| ==> name[i] != '.'
    ensures PathsOf(kept) == {[version], [kind], [metadata, name]}
  {
    NoDots(version);
    NoDots(kind);
    TwoSegments(metadata, name);
    PathsOfThree(version, kind, path);
  }

  lemma TwoSegments(a: string, b: string)
    requires forall i :: 0 <= i < |a| ==> a[i] != '.'
    requires forall i :: 0 <= i < |b| ==> b[i] != '.'
    ensures Split(a + "." + b) == [a, b]
  {
    NoDots(a);
    NoDots(b);
    SplitAtDot(a, b);
    assert [a] + [b] == [a, b];
  }

  lemma PathsOfThree(a: string, b: string, c: string)
    ensures PathsOf([a, b, c]) == {Split(a), Split(b), Split(c)}
  {
    assert a in [a, b, c] && b in [a, b, c] && c in [a, b, c];
  }

  /** The table and the JSON projection agree on what was asked for: a column's
      path is covered exactly when every document's projection holds it whole. */
  lemma CoveredExactlyWhenHeldWhole(fields: seq<string>, path: string)
    ensures Covers(SplitAll(KeptColumns(fields)), Split(path)) <==>
            forall v: Json, place :: PathTo(place) == Split(path) ==> At(Part(v, Requested(fields)), place) == At(v, place)
  {
    KeptAreRequested(fields);
    if Covers(Requested(fields), Split(path)) {
      forall v: Json, place | PathTo(place) == Split(path) ensures At(Part(v, Requested(fields)), place) == At(v, place) {
        CoveredPlacesAreKept(v, Requested(fields), place);
      }
    } else {
      UncoveredIsLost(Requested(fields), Split(path));
    }
  }
}
