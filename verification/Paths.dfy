/** Path filtering, normalisation and splitting, as the index builder does them. */
module Paths {
  import opened Bytes

  const MAX_DEPTH: nat := 256
  const MAX_COMPONENT: nat := 255

  /** One more byte in front of the pieces, as `Split` puts it there. */
  function Prepend(x: byte, pieces: seq<Name>): seq<Name>
    requires pieces != []
  {
    if x == SLASH then [[]] + pieces else [[x] + pieces[0]] + pieces[1..]
  }

  /** Cuts a byte string at every `/`; the result is never empty. */
  function Split(p: Name): (r: seq<Name>)
    ensures r != []
  {
    if p == [] then [[]]
    else
      Prepend(p[0], Split(p[1..]))
  }

  /** The pieces that name something: not empty and not `.`. */
  predicate Meaningful(c: Name) {
    c != [] && c != [DOT]
  }

  function Keep(cs: seq<Name>): seq<Name> {
    if cs == [] then []
    else (if Meaningful(cs[0]) then [cs[0]] else []) + Keep(cs[1..])
  }

  function Components(p: Name): seq<Name> {
    Keep(Split(p))
  }

  /** What a component list is made of. */
  ghost predicate IsComponent(c: Name) {
    Meaningful(c) && SLASH !in c
  }

  ghost predicate AreComponents(cs: seq<Name>) {
    forall i :: 0 <= i < |cs| ==> IsComponent(cs[i])
  }

  /** The canonical spelling of a component list. */
  function Join(cs: seq<Name>): Name {
    if cs == [] then []
    else if |cs| == 1 then cs[0]
    else Join(cs[..|cs| - 1]) + [SLASH] + cs[|cs| - 1]
  }

  /** The position of the last `/`, or -1. */
  function LastSlash(p: Name): (r: int)
    ensures -1 <= r < |p|
    ensures r >= 0 ==> p[r] == SLASH
    ensures forall k :: r < k < |p| ==> p[k] != SLASH
  {
    if p == [] then -1
    else if p[|p| - 1] == SLASH then |p| - 1
    else LastSlash(p[..|p| - 1])
  }

  /** A path without the one separator it may end in. */
  function Body(p: Name): Name {
    if p != [] && p[|p| - 1] == SLASH then p[..|p| - 1] else p
  }

  /** `split_parent`: the bytes naming the parent, and the last component. */
  function SplitParent(p: Name): (Name, Name) {
    var body := Body(p);
    var i := LastSlash(body);
    (body[..i + 1], body[i + 1..])
  }

  // ----- components

  lemma {:induction false} KeepAppend(a: seq<Name>, b: seq<Name>)
    ensures Keep(a + b) == Keep(a) + Keep(b)
  {
    if a == [] {
      assert a + b == b;
    } else {
      KeepAppend(a[1..], b);
      assert (a + b)[1..] == a[1..] + b && (a + b)[0] == a[0];
      hide Meaningful;
      var first := if Meaningful(a[0]) then [a[0]] else [];
      assert first + (Keep(a[1..]) + Keep(b)) == first + Keep(a[1..]) + Keep(b);
    }
  }

  lemma PrependToBoth(x: byte, a: seq<Name>, b: seq<Name>)
    requires a != []
    ensures Prepend(x, a + b) == Prepend(x, a) + b
  {
  }

  lemma {:induction false} SplitAtSlash(a: Name, b: Name)
    ensures Split(a + [SLASH] + b) == Split(a) + Split(b)
  {
    var p := a + [SLASH] + b;
    if a == [] {
      assert p[1..] == b && p[0] == SLASH;
    } else {
      SplitAtSlash(a[1..], b);
      assert p[1..] == a[1..] + [SLASH] + b && p[0] == a[0];
      PrependToBoth(a[0], Split(a[1..]), Split(b));
    }
  }

  lemma ComponentsAtSlash(a: Name, b: Name)
    ensures Components(a + [SLASH] + b) == Components(a) + Components(b)
  {
    SplitAtSlash(a, b);
    KeepAppend(Split(a), Split(b));
  }

  lemma {:induction false} SplitWhole(c: Name)
    requires SLASH !in c
    ensures Split(c) == [c]
  {
    if c != [] {
      assert forall x :: x in c[1..] ==> x in c;
      SplitWhole(c[1..]);
      assert c == [c[0]] + c[1..];
    }
  }

  lemma ComponentsWhole(c: Name)
    requires SLASH !in c
    ensures Components(c) == if Meaningful(c) then [c] else []
  {
    SplitWhole(c);
    assert Keep([c]) == (if Meaningful(c) then [c] else []) + Keep([]);
  }

  /** The two facts that pin down components: how a separator divides them, and what stands alone. */
  lemma ComponentsArePinned(a: Name, b: Name, c: Name)
    requires 47 !in c
    ensures Components(a + [47] + b) == Components(a) + Components(b)
    ensures Components(c) == if c == [] || c == [46] then [] else [c]
  {
    ComponentsAtSlash(a, b);
    ComponentsWhole(c);
  }

  lemma {:induction false} SplitHasNoSlash(p: Name)
    ensures forall c :: c in Split(p) ==> SLASH !in c
  {
    if p != [] {
      SplitHasNoSlash(p[1..]);
    }
  }

  lemma {:induction false} KeepIsMeaningful(cs: seq<Name>)
    ensures forall c :: c in Keep(cs) ==> Meaningful(c) && c in cs
  {
    if cs != [] {
      KeepIsMeaningful(cs[1..]);
    }
  }

  lemma ComponentsAreComponents(p: Name)
    ensures AreComponents(Components(p))
  {
    SplitHasNoSlash(p);
    KeepIsMeaningful(Split(p));
    var cs := Components(p);
    forall i | 0 <= i < |cs| ensures IsComponent(cs[i]) {
      assert cs[i] in cs;
    }
  }

  /** A component list is recovered from its canonical spelling. */
  lemma {:induction false} ComponentsOfJoin(cs: seq<Name>)
    requires AreComponents(cs)
    ensures Components(Join(cs)) == cs
  {
    if cs == [] {
      ComponentsWhole([]);
    } else if |cs| == 1 {
      ComponentsWhole(cs[0]);
    } else {
      var front, last := cs[..|cs| - 1], cs[|cs| - 1];
      ComponentsOfJoin(front);
      ComponentsAtSlash(Join(front), last);
      ComponentsWhole(last);
      assert front + [last] == cs;
    }
  }

  lemma {:induction false} JoinIsEmptyOnlyForRoot(cs: seq<Name>)
    requires AreComponents(cs)
    ensures Join(cs) == [] <==> cs == []
  {
    if |cs| == 1 {
      assert IsComponent(cs[0]);
    }
  }

  // ----- sizes

  /** How many bytes some names take up together. */
  function Size(cs: seq<Name>): nat {
    if cs == [] then 0 else Size(cs[..|cs| - 1]) + |cs[|cs| - 1]|
  }

  lemma {:induction false} SizeOfBoth(a: seq<Name>, b: seq<Name>)
    ensures Size(a + b) == Size(a) + Size(b)
    decreases |b|
  {
    if b == [] {
      assert a + b == a;
    } else {
      SizeOfBoth(a, b[..|b| - 1]);
      assert (a + b)[..|a + b| - 1] == a + b[..|b| - 1];
    }
  }

  lemma SizeOfOne(c: Name)
    ensures Size([c]) == |c|
  {
    assert [c][..0] == [];
  }

  lemma {:induction false} SizeOfSplit(p: Name)
    ensures Size(Split(p)) <= |p|
  {
    if p == [] {
      SizeOfOne([]);
    } else {
      SizeOfSplit(p[1..]);
      var rest := Split(p[1..]);
      if p[0] == SLASH {
        SizeOfOne([]);
        SizeOfBoth([[]], rest);
      } else {
        var head := [p[0]] + rest[0];
        SizeOfOne(head);
        SizeOfOne(rest[0]);
        SizeOfBoth([head], rest[1..]);
        SizeOfBoth([rest[0]], rest[1..]);
        assert rest == [rest[0]] + rest[1..];
      }
    }
  }

  lemma {:induction false} SizeOfKept(cs: seq<Name>)
    ensures Size(Keep(cs)) <= Size(cs)
  {
    if cs != [] {
      SizeOfKept(cs[1..]);
      SizeOfOne(cs[0]);
      SizeOfBoth([cs[0]], cs[1..]);
      SizeOfBoth(if Meaningful(cs[0]) then [cs[0]] else [], Keep(cs[1..]));
      assert cs == [cs[0]] + cs[1..];
    }
  }

  /** The components of a path take up no more than the path. */
  lemma SizeOfComponents(p: Name)
    ensures Size(Components(p)) <= |p|
  {
    SizeOfSplit(p);
    SizeOfKept(Split(p));
  }

  // ----- normalisation

  /** `normalize_path`: rewrites a path in its canonical spelling. */
  method NormalizePath(path: Name) returns (normalized: Name)
    ensures normalized == Join(Components(path))
    ensures Components(normalized) == Components(path)
  {
    ComponentsAreComponents(path);
    normalized := [];
    var cs := Components(path);
    for i := 0 to |cs|
      invariant normalized == Join(cs[..i])
    {
      JoinIsEmptyOnlyForRoot(cs[..i]);
      assert cs[..i + 1][..i] == cs[..i];
      if normalized != [] {
        normalized := normalized + [SLASH];
      }
      normalized := normalized + cs[i];
    }
    assert cs[..|cs|] == cs;
    ComponentsOfJoin(cs);
  }

  lemma NormalizationIsCanonical(p: Name, q: Name)
    ensures Components(p) == Components(q) <==> Join(Components(p)) == Join(Components(q))
  {
    ComponentsAreComponents(p);
    ComponentsAreComponents(q);
    ComponentsOfJoin(Components(p));
    ComponentsOfJoin(Components(q));
  }

  // ----- splitting

  lemma TrailingSlashNamesNothing(p: Name)
    ensures Components(Body(p)) == Components(p)
  {
    var body := Body(p);
    ComponentsWhole([]);
    if p != body {
      ComponentsAtSlash(body, []);
      assert p == body + [SLASH] + [];
    }
  }

  lemma LeafComesLast(above: Name, leaf: Name)
    requires SLASH !in leaf
    ensures Components(above + [SLASH] + leaf)
         == Components(above + [SLASH]) + (if Meaningful(leaf) then [leaf] else [])
  {
    ComponentsAtSlash(above, leaf);
    ComponentsWhole(leaf);
    var parent := above + [SLASH];
    assert Body(parent) == above;
    TrailingSlashNamesNothing(parent);
  }

  lemma SplitAtLastSlash(body: Name, parent: Name, leaf: Name)
    requires parent == body[..LastSlash(body) + 1] && leaf == body[LastSlash(body) + 1..]
    ensures Components(body) == Components(parent) + (if Meaningful(leaf) then [leaf] else [])
  {
    var i := LastSlash(body);
    if i >= 0 {
      var above := body[..i];
      assert parent == above + [SLASH];
      assert body == above + [SLASH] + leaf;
      LeafComesLast(above, leaf);
    } else {
      assert leaf == body && parent == [];
      ComponentsWhole(leaf);
    }
  }

  /** Splitting loses nothing: for every path, parent and leaf still name what the path named. */
  lemma SplitParentKeepsComponents(p: Name)
    ensures var (parent, leaf) := SplitParent(p);
            Components(p) == Components(parent) + (if Meaningful(leaf) then [leaf] else [])
  {
    TrailingSlashNamesNothing(p);
    var (parent, leaf) := SplitParent(p);
    SplitAtLastSlash(Body(p), parent, leaf);
  }

  lemma {:induction false} JoinEndsInLast(cs: seq<Name>)
    requires cs != [] && AreComponents(cs)
    ensures var j, last := Join(cs), cs[|cs| - 1];
            |j| >= |last| > 0 && j[|j| - |last|..] == last && j[|j| - 1] != SLASH
            && (|cs| > 1 ==> |j| > |last| && j[|j| - |last| - 1] == SLASH)
            && (|cs| == 1 ==> |j| == |last|)
  {
    var j, last := Join(cs), cs[|cs| - 1];
    assert IsComponent(last);
    assert j[|j| - |last|..] == last;
    assert last[|last| - 1] in last;
    assert j[|j| - 1] == j[|j| - |last|..][|last| - 1];
  }

  lemma LastSlashOfJoin(cs: seq<Name>)
    requires cs != [] && AreComponents(cs)
    ensures var j, last := Join(cs), cs[|cs| - 1];
            Body(j) == j && LastSlash(j) + 1 == |j| - |last| && j[LastSlash(j) + 1..] == last
  {
    var j, last := Join(cs), cs[|cs| - 1];
    JoinEndsInLast(cs);
    assert IsComponent(last);
    var from := |j| - |last|;
    assert forall k :: from <= k < |j| ==> j[k] == j[from..][k - from];
    assert LastSlash(j) < from;
  }

  /** On a normalised path the parent part names everything but the last component. */
  lemma SplitParentOfNormalized(cs: seq<Name>)
    requires cs != [] && AreComponents(cs)
    ensures var (parent, leaf) := SplitParent(Join(cs));
            Components(parent) == cs[..|cs| - 1] && leaf == cs[|cs| - 1]
  {
    var last := cs[|cs| - 1];
    assert IsComponent(last);
    LastSlashOfJoin(cs);
    ComponentsOfJoin(cs);
    var (parent, leaf) := SplitParent(Join(cs));
    SplitAtLastSlash(Join(cs), parent, leaf);
    SameFront(cs, Components(parent), last);
  }

  lemma SameFront(cs: seq<Name>, front: seq<Name>, last: Name)
    requires cs == front + [last]
    ensures front == cs[..|cs| - 1]
  {
  }

  // ----- filtering

  datatype Reason = Empty | HasNul | Absolute | DrivePrefix | Escapes | TooLong | TooDeep | NoComponents

  predicate IsAlphabetic(b: byte) {
    65 <= b <= 90 || 97 <= b <= 122
  }

  /** A letter, as a character. */
  ghost predicate IsLetter(b: byte) {
    'A' <= b as char <= 'Z' || 'a' <= b as char <= 'z'
  }

  lemma LettersAreAlphabetic(b: byte)
    ensures IsAlphabetic(b) <==> IsLetter(b)
  {
  }

  /** What is asked of the raw bytes, before any component is looked at. */
  predicate PlainStart(path: Name) {
    && path != []
    && 0 !in path
    && path[0] != SLASH && path[0] != BACKSLASH
    && !(|path| >= 2 && path[1] == COLON && IsAlphabetic(path[0]))
  }

  predicate FitsNode(c: Name) {
    c != [DOT, DOT] && |c| <= MAX_COMPONENT
  }

  /** The paths that may become nodes. */
  ghost predicate Acceptable(path: Name) {
    && PlainStart(path)
    && 0 < |Components(path)| <= MAX_DEPTH
    && forall i :: 0 <= i < |Components(path)| ==> FitsNode(Components(path)[i])
  }

  /** `reject_reason`: why a path cannot become a node, in the order the checks are made. */
  method RejectReason(path: Name) returns (r: Option<Reason>)
    ensures r.None? <==> Acceptable(path)
    ensures r == Some(Escapes) ==> [DOT, DOT] in Components(path)
    ensures r == Some(TooLong) ==> exists c :: c in Components(path) && |c| > MAX_COMPONENT
    ensures r == Some(TooDeep) ==> |Components(path)| > MAX_DEPTH
    ensures r == Some(NoComponents) <==> PlainStart(path) && Components(path) == []
    ensures r.Some? && r.value in {Empty, HasNul, Absolute, DrivePrefix} <==> !PlainStart(path)
    ensures r == Some(Empty) <==> path == []
    ensures r == Some(HasNul) <==> 0 in path
    ensures r == Some(Absolute) ==> path[0] == SLASH || path[0] == BACKSLASH
    ensures r == Some(DrivePrefix) ==> |path| >= 2 && path[1] == COLON && IsLetter(path[0])
  {
    if path == [] {
      return Some(Empty);
    }
    if 0 in path {
      return Some(HasNul);
    }
    if path[0] == SLASH || path[0] == BACKSLASH {
      return Some(Absolute);
    }
    LettersAreAlphabetic(path[0]);
    if |path| >= 2 && path[1] == COLON && IsAlphabetic(path[0]) {
      return Some(DrivePrefix);
    }
    var cs := Components(path);
    var depth := 0;
    for i := 0 to |cs|
      invariant depth == i <= MAX_DEPTH
      invariant forall k :: 0 <= k < i ==> FitsNode(cs[k])
    {
      if cs[i] == [DOT, DOT] {
        return Some(Escapes);
      }
      if |cs[i]| > MAX_COMPONENT {
        return Some(TooLong);
      }
      depth := depth + 1;
      if depth > MAX_DEPTH {
        return Some(TooDeep);
      }
    }
    if depth == 0 {
      return Some(NoComponents);
    }
    return None;
  }
}
