/**
 Path lookup in the virtual file system, for directories without an enumdir function. getnode walks the tree with
 strtok and stops when the path it prints as it goes is the path it was given.
 */
module PathLookup {
  import opened Least
  import opened Strtok

  const SLASH: nat := 47

  /** children are the dirents before the one with the empty name. */
  datatype Node = Node(name: Text, isDirectory: bool, children: seq<Node>)

  // ---- Specification ----

  function Piece(s: Text, g: Segment): Text
    requires g.start <= g.end <= |s|
  {
    s[g.start..g.end]
  }

  /** The components of a path. */
  ghost function Components(path: Text): (r: seq<Text>)
    requires 0 !in path
    ensures |r| == |Tokens(path, [SLASH])|
  {
    TokensAreMaximal(path, [SLASH]);
    var t := Tokens(path, [SLASH]);
    seq(|t|, k requires 0 <= k < |t| => assert t[k] in t; assert Maximal(path, [SLASH], t[k]); Piece(path, t[k]))
  }

  /** The path getnode prints: a slash before each component. */
  function Reprint(parts: seq<Text>): Text {
    if parts == [] then [] else [SLASH] + parts[0] + Reprint(parts[1..])
  }

  ghost predicate Canonical(path: Text)
    requires 0 !in path
  {
    path == Reprint(Components(path))
  }

  /** The first child with a name. */
  function Child(children: seq<Node>, name: Text): (r: Option<Node>)
    ensures r.Some? ==> r.value in children && r.value.name == name
  {
    if children == [] then None else if children[0].name == name then Some(children[0]) else Child(children[1..], name)
  }

  /** The dirents an 8-bit index reaches. */
  function Visible(children: seq<Node>): seq<Node> { if |children| <= 256 then children else children[..256] }

  /** Walking the components from a node. */
  function Descend(node: Node, parts: seq<Text>): Option<Node> {
    if parts == [] then Some(node) else
    if !node.isDirectory then None else
    var c := Child(Visible(node.children), parts[0]);
    if c.None? then None else Descend(c.value, parts[1..])
  }

  // ---- Printing and splitting are inverse ----

  ghost predicate Name(t: Text) { t != [] && 0 !in t && SLASH !in t }

  /** getnode prints at the back. */
  lemma {:induction false} ReprintBack(parts: seq<Text>, last: Text)
    ensures Reprint(parts + [last]) == Reprint(parts) + ([SLASH] + last)
    decreases |parts|
  {
    if parts == [] {
      assert (parts + [last])[1..] == [];
    } else {
      assert (parts + [last])[1..] == parts[1..] + [last];
      ReprintBack(parts[1..], last);
      assert Reprint(parts + [last]) == [SLASH] + parts[0] + (Reprint(parts[1..]) + ([SLASH] + last));
    }
  }

  lemma {:induction false} ReprintHasNoZero(parts: seq<Text>)
    requires forall k: nat :: k < |parts| ==> Name(parts[k])
    ensures 0 !in Reprint(parts)
  {
    if parts != [] { ReprintHasNoZero(parts[1..]); }
  }

  ghost predicate AllNames(parts: seq<Text>) { parts == [] || (Name(parts[0]) && AllNames(parts[1..])) }

  lemma {:induction false} NamesAll(parts: seq<Text>)
    requires forall k: nat :: k < |parts| ==> Name(parts[k])
    ensures AllNames(parts)
  {
    if parts != [] { NamesAll(parts[1..]); }
  }

  /** The pieces of s at the given segments. */
  ghost predicate Spells(s: Text, t: seq<Segment>, parts: seq<Text>) {
    if t == [] then parts == []
    else parts != [] && t[0].start <= t[0].end <= |s| && Piece(s, t[0]) == parts[0] && Spells(s, t[1..], parts[1..])
  }

  lemma {:induction false} SpellsAt(s: Text, t: seq<Segment>, parts: seq<Text>)
    requires Spells(s, t, parts)
    ensures |t| == |parts|
    ensures forall k: nat :: k < |t| ==> t[k].start <= t[k].end <= |s| && Piece(s, t[k]) == parts[k]
  {
    if t != [] { SpellsAt(s, t[1..], parts[1..]); }
  }

  /** From position i on, s is the print of the parts. */
  ghost predicate PrintedFrom(s: Text, i: nat, parts: seq<Text>)
    decreases |parts|
  {
    if parts == [] then i == |s|
    else
      var e := i + 1 + |parts[0]|;
      e <= |s| && s[i] == SLASH && s[i + 1..e] == parts[0] && PrintedFrom(s, e, parts[1..])
  }

  /** A slash and a name after the front of a text. */
  lemma FrontAndName(s: Text, front: Text, name: Text, rest: Text)
    requires s == front + ([SLASH] + name + rest)
    ensures var i, e := |front|, |front| + 1 + |name|;
            e <= |s| && s[i] == SLASH && s[i + 1..e] == name && s == (front + ([SLASH] + name)) + rest
  {
  }

  lemma {:induction false} ReprintIsPrinted(s: Text, front: Text, parts: seq<Text>)
    requires s == front + Reprint(parts)
    ensures PrintedFrom(s, |front|, parts)
    decreases |parts|
  {
    if parts != [] {
      FrontAndName(s, front, parts[0], Reprint(parts[1..]));
      ReprintIsPrinted(s, front + ([SLASH] + parts[0]), parts[1..]);
    }
  }

  /** Where a slash and a name lie in s, strtok's buffer holds a zero and the name, and then a zero or the end. */
  lemma NameInPlace(s: Text, i: nat, parts: seq<Text>)
    requires parts != [] && PrintedFrom(s, i, parts) && Name(parts[0])
    ensures var b, e := Blank(s, [SLASH]), i + 1 + |parts[0]|;
            && e <= |s| && b[i] == 0 && (forall k: nat :: i + 1 <= k < e ==> b[k] != 0) && (e < |s| ==> b[e] == 0)
  {
    var u, e := parts[0], i + 1 + |parts[0]|;
    forall k: nat | i + 1 <= k < e ensures Blank(s, [SLASH])[k] != 0 {
      assert s[k] == u[k - (i + 1)] && u[k - (i + 1)] in u;
    }
    if e < |s| { assert parts[1..] != []; }
  }

  /** One zero and then a token up to e. */
  lemma NextSegment(b: Text, i: nat, e: nat)
    requires i + 1 < e <= |b| && b[i] == 0 && (forall k: nat :: i + 1 <= k < e ==> b[k] != 0) && (e < |b| ==> b[e] == 0)
    ensures Segments(b, i) == [Segment(i + 1, e)] + Segments(b, e)
  {
    SkipOneZero(b, i);
    TokenEnd(b, i + 1, e);
  }

  lemma SpellsFront(s: Text, g: Segment, t: seq<Segment>, parts: seq<Text>)
    requires parts != [] && g.start <= g.end <= |s| && Piece(s, g) == parts[0] && Spells(s, t, parts[1..])
    ensures Spells(s, [g] + t, parts)
  {
    assert ([g] + t)[1..] == t;
  }

  /** Splitting from position i finds the parts printed there. */
  lemma {:induction false} SplitPrinted(s: Text, i: nat, parts: seq<Text>)
    requires i <= |s| && PrintedFrom(s, i, parts) && AllNames(parts)
    ensures Spells(s, Segments(Blank(s, [SLASH]), i), parts)
    decreases |parts|
  {
    if parts != [] {
      var b, e := Blank(s, [SLASH]), i + 1 + |parts[0]|;
      NameInPlace(s, i, parts);
      NextSegment(b, i, e);
      SplitPrinted(s, e, parts[1..]);
      SpellsFront(s, Segment(i + 1, e), Segments(b, e), parts);
    }
  }

  lemma SpelledComponents(s: Text, parts: seq<Text>)
    requires 0 !in s && Spells(s, Tokens(s, [SLASH]), parts)
    ensures Components(s) == parts
  {
    SpellsAt(s, Tokens(s, [SLASH]), parts);
  }

  /** The components of a printed path are the components printed, so printed paths are canonical. */
  lemma ComponentsOfReprint(parts: seq<Text>)
    requires forall k: nat :: k < |parts| ==> Name(parts[k])
    ensures 0 !in Reprint(parts) && Components(Reprint(parts)) == parts && Canonical(Reprint(parts))
  {
    ReprintHasNoZero(parts);
    NamesAll(parts);
    ReprintIsPrinted(Reprint(parts), [], parts);
    SplitPrinted(Reprint(parts), 0, parts);
    SpelledComponents(Reprint(parts), parts);
  }

  lemma ComponentsAreNames(path: Text, k: nat)
    requires 0 !in path && k < |Components(path)|
    ensures Name(Components(path)[k])
  {
    TokensAreMaximal(path, [SLASH]);
    var g := Tokens(path, [SLASH])[k];
    assert g in Tokens(path, [SLASH]);
    assert Maximal(path, [SLASH], g);
    assert forall x :: x in Piece(path, g) ==> x in path && x != SLASH;
  }

  /** getnode's stopping test is met only when every component has been printed. */
  lemma StopsAtTheEnd(path: Text, k: nat)
    requires 0 !in path && k <= |Components(path)| && path == Reprint(Components(path)[..k])
    ensures k == |Components(path)|
  {
    var parts := Components(path)[..k];
    forall j: nat | j < |parts| ensures Name(parts[j]) { ComponentsAreNames(path, j); }
    ComponentsOfReprint(parts);
  }

  /** Slashes alone and before names: the first character is one, the last is not, and no two stand together. */
  ghost predicate SlashesBeforeNames(path: Text) {
    path == [] ||
    (&& path[0] == SLASH && path[|path| - 1] != SLASH
     && forall k: nat :: k + 1 < |path| && path[k] == SLASH ==> path[k + 1] != SLASH)
  }

  /** What is printed from position i on has that shape. */
  lemma {:induction false} PrintedShape(s: Text, i: nat, parts: seq<Text>)
    requires i <= |s| && PrintedFrom(s, i, parts) && AllNames(parts)
    ensures i < |s| ==> s[i] == SLASH && s[|s| - 1] != SLASH
    ensures forall k: nat :: i <= k && k + 1 < |s| && s[k] == SLASH ==> s[k + 1] != SLASH
    decreases |parts|
  {
    if parts != [] {
      var u, e := parts[0], i + 1 + |parts[0]|;
      assert forall k: nat :: i + 1 <= k < e ==> s[k] == u[k - (i + 1)] && u[k - (i + 1)] in u;
      PrintedShape(s, e, parts[1..]);
    }
  }

  lemma {:induction false} PrintedIsReprint(s: Text, i: nat, parts: seq<Text>)
    requires i <= |s| && PrintedFrom(s, i, parts)
    ensures s[i..] == Reprint(parts)
    decreases |parts|
  {
    if parts != [] {
      var e := i + 1 + |parts[0]|;
      PrintedIsReprint(s, e, parts[1..]);
      assert s[i..] == [s[i]] + s[i + 1..e] + s[e..];
    }
  }

  /** The next slash from position i on, or the end. */
  function NextSlash(s: Text, i: nat): (r: nat)
    requires i <= |s|
    ensures i <= r <= |s| && (r < |s| ==> s[r] == SLASH) && forall k: nat :: i <= k < r ==> s[k] != SLASH
    decreases |s| - i
  {
    if i == |s| || s[i] == SLASH then i else NextSlash(s, i + 1)
  }

  /** A text of that shape is the print of names. */
  lemma {:induction false} ShapeIsPrinted(s: Text, i: nat) returns (parts: seq<Text>)
    requires 0 !in s && SlashesBeforeNames(s) && i <= |s| && (i < |s| ==> s[i] == SLASH)
    ensures PrintedFrom(s, i, parts) && AllNames(parts)
    decreases |s| - i
  {
    if i == |s| {
      parts := [];
    } else {
      assert i < |s| - 1;
      var e := NextSlash(s, i + 1);
      assert e > i + 1;
      var rest := ShapeIsPrinted(s, e);
      parts := [s[i + 1..e]] + rest;
      assert parts[1..] == rest;
      assert forall x :: x in parts[0] ==> x in s && x != SLASH;
    }
  }

  /** Canonical paths, told from the text alone. */
  lemma CanonicalExactly(path: Text)
    requires 0 !in path
    ensures Canonical(path) <==> SlashesBeforeNames(path)
  {
    if Canonical(path) { CanonicalHasShape(path); }
    if SlashesBeforeNames(path) { ShapeIsCanonical(path); }
  }

  lemma CanonicalHasShape(path: Text)
    requires 0 !in path && Canonical(path)
    ensures SlashesBeforeNames(path)
  {
    var parts := Components(path);
    forall k: nat | k < |parts| ensures Name(parts[k]) { ComponentsAreNames(path, k); }
    NamesAll(parts);
    ReprintIsPrinted(path, [], parts);
    PrintedShape(path, 0, parts);
  }

  lemma ShapeIsCanonical(path: Text)
    requires 0 !in path && SlashesBeforeNames(path)
    ensures Canonical(path)
  {
    var parts := ShapeIsPrinted(path, 0);
    PrintedIsReprint(path, 0, parts);
    assert path[0..] == path;
    NamesOfAll(parts);
    ComponentsOfReprint(parts);
  }

  lemma {:induction false} NamesOfAll(parts: seq<Text>)
    requires AllNames(parts)
    ensures forall k: nat :: k < |parts| ==> Name(parts[k])
  {
    if parts != [] { NamesOfAll(parts[1..]); }
  }

  /** Node b is the first dirent of directory a with a name, among those an 8-bit index reaches. */
  ghost predicate StepsTo(a: Node, name: Text, b: Node) {
    a.isDirectory && exists j: nat :: IsFirst(a.children, name, b, j)
  }

  ghost predicate IsFirst(children: seq<Node>, name: Text, b: Node, j: nat) {
    && j < 256 && j < |children| && children[j] == b && b.name == name
    && forall k: nat :: k < j ==> children[k].name != name
  }

  /** A chain of nodes from one node to another, each the first with its name in the one before. */
  ghost predicate IsChain(chain: seq<Node>, node: Node, parts: seq<Text>, n: Node) {
    && |chain| == |parts| + 1 && chain[0] == node && chain[|parts|] == n
    && forall i: nat :: i < |parts| ==> StepsTo(chain[i], parts[i], chain[i + 1])
  }

  ghost predicate LeadsTo(node: Node, parts: seq<Text>, n: Node) { exists chain :: IsChain(chain, node, parts, n) }

  lemma {:induction false} ChildIsFirst(children: seq<Node>, name: Text, i: nat, b: Node)
    requires i <= |children| && forall k: nat :: k < i ==> children[k].name != name
    ensures Child(children[i..], name) == Some(b) <==>
              exists j: nat :: i <= j < |children| && children[j] == b && b.name == name
                               && forall k: nat :: k < j ==> children[k].name != name
    decreases |children| - i
  {
    if i < |children| {
      assert children[i..][1..] == children[i + 1..];
      if children[i].name == name {
        assert Child(children[i..], name) == Some(children[i]);
      } else {
        ChildIsFirst(children, name, i + 1, b);
      }
    }
  }

  lemma StepIsFirst(node: Node, name: Text, b: Node)
    ensures Child(Visible(node.children), name) == Some(b) <==> exists j: nat :: IsFirst(node.children, name, b, j)
  {
    var seen := Visible(node.children);
    ChildIsFirst(seen, name, 0, b);
    assert seen[0..] == seen;
    if j: nat :| j < |seen| && seen[j] == b && b.name == name && forall k: nat :: k < j ==> seen[k].name != name {
      assert IsFirst(node.children, name, b, j) by {
        assert forall k: nat :: k < j ==> node.children[k] == seen[k];
      }
    }
    if j: nat :| IsFirst(node.children, name, b, j) {
      assert seen[j] == b && forall k: nat :: k < j ==> seen[k] == node.children[k];
    }
  }

  /** The walk of the components ends where a chain of nodes does. */
  lemma {:induction false} DescendIsChain(node: Node, parts: seq<Text>, n: Node)
    ensures Descend(node, parts) == Some(n) <==> LeadsTo(node, parts, n)
    decreases |parts|
  {
    if parts == [] {
      if Descend(node, parts) == Some(n) { assert IsChain([node], node, parts, n); }
    } else {
      if Descend(node, parts) == Some(n) {
        var b := Child(Visible(node.children), parts[0]).value;
        StepIsFirst(node, parts[0], b);
        DescendIsChain(b, parts[1..], n);
        var rest :| IsChain(rest, b, parts[1..], n);
        ChainFront(node, b, parts, rest, n);
      }
      if chain :| IsChain(chain, node, parts, n) {
        assert StepsTo(chain[0], parts[0], chain[1]);
        StepIsFirst(node, parts[0], chain[1]);
        assert IsChain(chain[1..], chain[1], parts[1..], n) by {
          forall i: nat | i < |parts| - 1 ensures StepsTo(chain[1..][i], parts[1..][i], chain[1..][i + 1]) {
            assert StepsTo(chain[i + 1], parts[i + 1], chain[i + 1 + 1]);
          }
        }
        DescendIsChain(chain[1], parts[1..], n);
      }
    }
  }

  lemma ChainFront(node: Node, b: Node, parts: seq<Text>, rest: seq<Node>, n: Node)
    requires parts != [] && StepsTo(node, parts[0], b) && IsChain(rest, b, parts[1..], n)
    ensures IsChain([node] + rest, node, parts, n)
  {
    forall i: nat | i < |parts| ensures StepsTo(([node] + rest)[i], parts[i], ([node] + rest)[i + 1]) {
      if i > 0 { assert StepsTo(rest[i - 1], parts[1..][i - 1], rest[i - 1 + 1]); }
    }
  }

  // ---- getnode ----

  /** The text of the token at a position of strtok's buffer. */
  method TokenText(tok: Tokenizer, ghost path: Text) returns (part: Text)
    requires tok.Valid() && tok.token.Some? && 0 !in path
    requires tok.str[..tok.strEnd] == Blank(path, [SLASH])
    ensures tok.Rest() != [] && tok.Rest()[0].start < tok.Rest()[0].end <= |path| && part == Piece(path, tok.Rest()[0])
  {
    ghost var b := tok.str[..tok.strEnd];
    var start := tok.token.value;
    var length := Strlen(tok.str, start, tok.strEnd);
    part := tok.str[start..start + length];
    TokenEnd(b, start, start + length);
    assert part == path[start..start + length];
  }

  /**
   The search for a name among the dirents. None stands for the endless loop after "could not find", or for the one
   of an 8-bit index that has come back to 0 without meeting the empty name.
   */
  method FindChild(node: Node, name: Text) returns (c: Option<Node>)
    ensures c == Child(Visible(node.children), name)
  {
    ghost var seen := Visible(node.children);
    var i := 0;
    while i < |node.children|
      invariant i < 256 && i <= |seen| && Child(seen, name) == Child(seen[i..], name)
      decreases |node.children| - i
    {
      ChildStep(seen, name, i);
      if node.children[i].name == name { return Some(node.children[i]); }
      if i == 255 { return None; }
      i := i + 1;
    }
    c := None;
  }

  lemma ChildStep(children: seq<Node>, name: Text, i: nat)
    requires i < |children|
    ensures Child(children[i..], name) ==
              if children[i].name == name then Some(children[i]) else Child(children[i + 1..], name)
  {
    assert children[i..][1..] == children[i + 1..];
  }

  /** strtok stands at component k of the path. */
  ghost predicate At(tok: Tokenizer, path: Text, k: nat)
    requires 0 !in path
    reads tok, tok.str
  {
    && tok.Valid() && k <= |Tokens(path, [SLASH])|
    && tok.str[..tok.strEnd] == Blank(path, [SLASH]) && tok.Rest() == Tokens(path, [SLASH])[k..]
  }

  ghost function Part(path: Text, k: nat): Option<Text>
    requires 0 !in path
  {
    if k < |Components(path)| then Some(Components(path)[k]) else None
  }

  /** The component strtok now points at. */
  method CurrentPart(tok: Tokenizer, ghost path: Text, ghost k: nat) returns (part: Option<Text>)
    requires 0 !in path && At(tok, path, k)
    ensures part == Part(path, k)
  {
    if tok.token.None? { return None; }
    var p := TokenText(tok, path);
    assert tok.Rest()[0] == Tokens(path, [SLASH])[k];
    part := Some(p);
  }

  /** The path is copied to a page and given to strtok. */
  method StartParts(path: Text) returns (tok: Tokenizer, part: Option<Text>)
    requires 0 !in path
    ensures fresh(tok) && At(tok, path, 0) && part == Part(path, 0)
  {
    var page := new nat[|path| + 2](i => if 0 <= i < |path| then path[i] else 0);
    assert page[..|path|] == path;
    assert IsString(page, |path|) by { assert forall i: nat :: i < |path| ==> page[i] == path[i] && path[i] in path; }
    tok := new Tokenizer();
    var t := tok.First(page, [SLASH], |path|);
    assert Tokens(path, [SLASH])[0..] == Tokens(path, [SLASH]);
    part := CurrentPart(tok, path, 0);
  }

  method NextPart(tok: Tokenizer, ghost path: Text, ghost k: nat) returns (part: Option<Text>)
    requires 0 !in path && At(tok, path, k) && k < |Components(path)|
    modifies tok`token
    ensures At(tok, path, k + 1) && part == Part(path, k + 1)
  {
    var t := tok.Again();
    part := CurrentPart(tok, path, k + 1);
  }

  /** After k components: what has been printed, and the walk that is left. */
  ghost predicate Progress(root: Node, path: Text, k: nat, node: Node, current: Text)
    requires 0 !in path
  {
    && k <= |Components(path)| && current == Reprint(Components(path)[..k])
    && Descend(root, Components(path)) == Descend(node, Components(path)[k..])
  }

  lemma ProgressOne(root: Node, path: Text, k: nat, node: Node, current: Text, next: Node)
    requires 0 !in path && Progress(root, path, k, node, current) && k < |Components(path)|
    requires node.isDirectory && Child(Visible(node.children), Components(path)[k]) == Some(next)
    ensures Progress(root, path, k + 1, next, current + ([SLASH] + Components(path)[k]))
  {
    var parts := Components(path);
    assert parts[..k + 1] == parts[..k] + [parts[k]];
    ReprintBack(parts[..k], parts[k]);
    assert parts[k..][0] == parts[k] && parts[k..][1..] == parts[k + 1..];
  }

  /** The walk cannot go on: at a file, at a missing name, or past the last component of a path not canonical. */
  lemma ProgressStuck(root: Node, path: Text, k: nat, node: Node, current: Text)
    requires 0 !in path && Progress(root, path, k, node, current) && current != path
    requires k == |Components(path)| || !node.isDirectory || Child(Visible(node.children), Components(path)[k]).None?
    ensures !Canonical(path) || Descend(root, Components(path)).None?
  {
    var parts := Components(path);
    if k == |parts| { assert parts[..k] == parts; } else { assert parts[k..][0] == parts[k]; }
  }

  lemma ProgressDone(root: Node, path: Text, k: nat, node: Node)
    requires 0 !in path && Progress(root, path, k, node, path)
    ensures Canonical(path) && Descend(root, Components(path)) == Some(node)
  {
    var parts := Components(path);
    StopsAtTheEnd(path, k);
    assert parts[..k] == parts && parts[k..] == [];
  }

  /** The two ways of saying which node is found. */
  lemma FoundExactly(root: Node, path: Text)
    requires 0 !in path
    ensures forall n :: (if Canonical(path) then Descend(root, Components(path)) else None) == Some(n)
                        <==> SlashesBeforeNames(path) && LeadsTo(root, Components(path), n)
  {
    CanonicalExactly(path);
    forall n
      ensures (if Canonical(path) then Descend(root, Components(path)) else None) == Some(n)
              <==> SlashesBeforeNames(path) && LeadsTo(root, Components(path), n)
    {
      DescendIsChain(root, Components(path), n);
    }
  }

  /**
   getnode returns a node exactly for the canonical paths that can be walked from the root, and then the node the
   walk ends at. None stands for a kernel panic or for the endless loop after a missing file.
   */
  method GetNode(root: Node, path: Text) returns (r: Option<Node>)
    requires 0 !in path
    ensures r == if Canonical(path) then Descend(root, Components(path)) else None
    ensures forall n :: r == Some(n) <==> SlashesBeforeNames(path) && LeadsTo(root, Components(path), n)
  {
    FoundExactly(root, path);
    var tok, part := StartParts(path);
    var current: Text, node := [], root;
    ghost var k := 0;
    assert Components(path)[0..] == Components(path);
    while current != path
      invariant Progress(root, path, k, node, current)
      invariant fresh(tok) && At(tok, path, k) && part == Part(path, k)
      decreases |Components(path)| - k
    {
      if part.None? { ProgressStuck(root, path, k, node, current); return None; }
      if !node.isDirectory { ProgressStuck(root, path, k, node, current); return None; }
      var c := FindChild(node, part.value);
      if c.None? { ProgressStuck(root, path, k, node, current); return None; }
      ProgressOne(root, path, k, node, current, c.value);
      node := c.value;
      current := current + ([SLASH] + part.value);
      part := NextPart(tok, path, k);
      k := k + 1;
    }
    ProgressDone(root, path, k, node);
    r := Some(node);
  }

  // ---- new_vnode ----

  /** The names before the first empty one. */
  function NamesIn(dirents: seq<Text>): seq<Text> {
    if dirents == [] || dirents[0] == [] then [] else [dirents[0]] + NamesIn(dirents[1..])
  }

  ghost predicate DistinctNames(names: seq<Text>) { forall i: nat, j: nat :: i < j < |names| ==> names[i] != names[j] }

  /** The names of a directory after a new one is registered; None stands for the panic about a name taken. */
  function Register(names: seq<Text>, name: Text): Option<seq<Text>> {
    if name in names then None else Some(names + if name == [] then [] else [name])
  }

  /** A sequence of new_vnode calls on one directory. */
  function RegisterAll(names: seq<Text>, calls: seq<Text>): Option<seq<Text>>
    decreases |calls|
  {
    if calls == [] then Some(names) else
    var r := Register(names, calls[0]);
    if r.None? then None else RegisterAll(r.value, calls[1..])
  }

  /** The calls that name something: an empty name leaves the directory as it is. */
  function Named(calls: seq<Text>): seq<Text> {
    if calls == [] then [] else (if calls[0] == [] then [] else [calls[0]]) + Named(calls[1..])
  }

  /**
   Over every sequence of calls: all of them succeed if and only if the names given and the names there already are
   all different, and then the directory holds the old names and the new ones in order.
   */
  lemma {:induction false} RegisterAllExactly(names: seq<Text>, calls: seq<Text>)
    requires DistinctNames(names) && [] !in names
    ensures RegisterAll(names, calls).Some? <==> DistinctNames(names + Named(calls))
    ensures RegisterAll(names, calls).Some? ==> RegisterAll(names, calls).value == names + Named(calls)
    decreases |calls|
  {
    if calls == [] {
      assert names + Named(calls) == names;
    } else if calls[0] in names {
      TakenName(names, calls[0], Named(calls[1..]));
    } else {
      var names' := Register(names, calls[0]).value;
      NewName(names, calls[0], Named(calls[1..]));
      RegisterAllExactly(names', calls[1..]);
    }
  }

  /** A page of dirents: 4096 bytes of 60 bytes each. */
  const DIRENTS: nat := 68

  /** Every call of the sequence finds room in the page for its name and for the empty one after it. */
  predicate RoomForAll(names: seq<Text>, calls: seq<Text>)
    decreases |calls|
  {
    calls != [] ==>
      && |names| + 1 < DIRENTS
      && (Register(names, calls[0]).Some? ==> RoomForAll(Register(names, calls[0]).value, calls[1..]))
  }

  /** A sequence of calls that succeeds stays inside the page if and only if it has room for the last one. */
  lemma {:induction false} NamesFitExactly(names: seq<Text>, calls: seq<Text>)
    requires RegisterAll(names, calls).Some? && calls != []
    ensures RoomForAll(names, calls) <==> |names| + |Named(calls[..|calls| - 1])| + 1 < DIRENTS
    decreases |calls|
  {
    if |calls| > 1 {
      NamesFitExactly(Register(names, calls[0]).value, calls[1..]);
      assert calls[..|calls| - 1][1..] == calls[1..][..|calls| - 2];
    } else {
      assert calls[..0] == [] && calls[1..] == [];
    }
  }

  lemma NewName(names: seq<Text>, name: Text, rest: seq<Text>)
    requires DistinctNames(names) && [] !in names && name !in names
    ensures var names' := Register(names, name).value;
            && DistinctNames(names') && [] !in names'
            && names' + rest == names + ((if name == [] then [] else [name]) + rest)
  {
  }

  lemma TakenName(names: seq<Text>, name: Text, rest: seq<Text>)
    requires name in names
    ensures !DistinctNames(names + ([name] + rest))
  {
    var i: nat :| i < |names| && names[i] == name;
    var all := names + ([name] + rest);
    assert all[i] == all[|names|];
  }

  lemma {:induction false} NamesUpTo(dirents: seq<Text>, n: nat)
    requires n < |dirents| && dirents[n] == [] && forall k: nat :: k < n ==> dirents[k] != []
    ensures NamesIn(dirents) == dirents[..n]
    decreases n
  {
    if n > 0 { NamesUpTo(dirents[1..], n - 1); }
  }

  /** A name is appended unless a sibling has it, in which case the kernel panics; siblings stay distinct. */
  method NewVnode(dirents: array<Text>, name: Text, ghost n: nat) returns (ok: bool)
    requires n + 1 < dirents.Length && dirents[n] == [] && forall k: nat :: k < n ==> dirents[k] != []
    modifies dirents
    ensures Register(NamesIn(old(dirents[..])), name) == if ok then Some(NamesIn(dirents[..])) else None
    ensures !ok ==> dirents[..] == old(dirents[..])
    ensures ok && DistinctNames(NamesIn(old(dirents[..]))) ==> DistinctNames(NamesIn(dirents[..]))
  {
    ghost var before := dirents[..];
    NamesUpTo(before, n);
    var i := 0;
    while dirents[i] != []
      invariant i <= n && dirents[..] == before
      invariant forall k: nat :: k < i ==> dirents[k] != name
      decreases n - i
    {
      if dirents[i] == name {
        assert before[..n][i] == name;
        return false;
      }
      i := i + 1;
    }
    assert i == n;
    dirents[i] := name;
    dirents[i + 1] := [];
    assert name !in before[..n];
    if name == [] {
      NamesUpTo(dirents[..], n);
      assert dirents[..n] == before[..n] && before[..n] + [] == before[..n];
    } else {
      NamesUpTo(dirents[..], n + 1);
      assert dirents[..n + 1] == before[..n] + [name];
    }
    ok := true;
  }
}
