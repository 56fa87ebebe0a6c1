/** The domain trie: insertion with wildcard kinds, best-match search and
    minimum search, each against a reference over flat patterns. */
module DomainTrie {
  import opened Common

  // ---------------------------------------------------------------------
  // Text.
  // ---------------------------------------------------------------------

  function LowerChar(c: char): char {
    if 'A' <= c <= 'Z' then (c as int + 32) as char else c
  }

  function Lower(s: string): (r: string)
    ensures |r| == |s|
    ensures forall i :: 0 <= i < |s| ==> r[i] == LowerChar(s[i])
  {
    seq(|s|, (i: nat) requires i < |s| => LowerChar(s[i]))
  }

  predicate IsLower(s: string) {
    Lower(s) == s
  }

  lemma LowerTwice(s: string)
    ensures Lower(Lower(s)) == Lower(s)
  {
  }

  predicate IsSpace(c: char) {
    var u := c as int;
    9 <= u <= 13 || u == 32 || u == 0x85 || u == 0xA0 || u == 0x1680 || 0x2000 <= u <= 0x200A
    || u == 0x2028 || u == 0x2029 || u == 0x202F || u == 0x205F || u == 0x3000
  }

  function TrimLeft(s: string): string {
    if s != [] && IsSpace(s[0]) then TrimLeft(s[1..]) else s
  }

  function TrimRight(s: string): string {
    if s != [] && IsSpace(s[|s| - 1]) then TrimRight(s[..|s| - 1]) else s
  }

  function Trim(s: string): string { TrimRight(TrimLeft(s)) }

  /** `trim_end_matches('.')` */
  function TrimDots(s: string): string {
    if s != [] && s[|s| - 1] == '.' then TrimDots(s[..|s| - 1]) else s
  }

  type Path = seq<string>

  /** `rsplit('.')`: the labels of a name, last part first. */
  function Labels(s: string): (r: Path)
    ensures |r| >= 1
  {
    LabelsOnto(s, "")
  }

  /** Labels of `s + tail`, where `tail` holds the dot-free end read so far. */
  function LabelsOnto(s: string, tail: string): (r: Path)
    ensures |r| >= 1
  {
    if s == [] then [tail]
    else
      var c := s[|s| - 1];
      if c == '.' then [tail] + LabelsOnto(s[..|s| - 1], "")
      else LabelsOnto(s[..|s| - 1], [c] + tail)
  }

  // ---------------------------------------------------------------------
  // Nodes.
  // ---------------------------------------------------------------------

  datatype Kind = Exact | Star | Dot

  datatype Node<T> = Node(children: map<string, Node<T>>, exact: Option<T>, star: Option<T>, dot: Option<T>)

  function EmptyNode<T>(): Node<T> { Node(map[], None, None, None) }

  function Value<T>(n: Node<T>, kind: Kind): Option<T> {
    match kind
    case Exact => n.exact
    case Star => n.star
    case Dot => n.dot
  }

  /** `get_or_insert`: the first value written to a place stays. */
  function Fill<T>(n: Node<T>, kind: Kind, v: T): Node<T> {
    if Value(n, kind).Some? then n
    else match kind
      case Exact => n.(exact := Some(v))
      case Star => n.(star := Some(v))
      case Dot => n.(dot := Some(v))
  }

  function Child<T>(n: Node<T>, part: string): Node<T> {
    if part in n.children then n.children[part] else EmptyNode()
  }

  function InsertAt<T>(n: Node<T>, path: Path, kind: Kind, v: T): Node<T>
    decreases |path|
  {
    if path == [] then Fill(n, kind, v)
    else n.(children := n.children[path[0] := InsertAt(Child(n, path[0]), path[1..], kind, v)])
  }

  /** The value stored at a path under a kind. */
  function Get<T>(n: Node<T>, path: Path, kind: Kind): Option<T>
    decreases |path|
  {
    if path == [] then Value(n, kind)
    else if path[0] in n.children then Get(n.children[path[0]], path[1..], kind)
    else None
  }

  lemma {:induction false} NothingInEmpty<T>(path: Path, kind: Kind)
    ensures Get(EmptyNode<T>(), path, kind).None?
  {
  }

  /** Insertion fills one place, if it was free, and touches no other. */
  lemma {:induction false} InsertThenGet<T>(n: Node<T>, path: Path, kind: Kind, v: T, q: Path, k: Kind)
    ensures Get(InsertAt(n, path, kind, v), q, k) ==
              if q == path && k == kind && Get(n, path, kind).None? then Some(v) else Get(n, q, k)
    decreases |path|
  {
    if path != [] && q != [] && q[0] == path[0] {
      InsertThenGet(Child(n, path[0]), path[1..], kind, v, q[1..], k);
      NothingInEmpty<T>(q[1..], k);
      NothingInEmpty<T>(path[1..], kind);
      assert q == path <==> q[1..] == path[1..];
    }
  }

  // ---------------------------------------------------------------------
  // Best-match search.
  // ---------------------------------------------------------------------

  /** What the pattern ending `d` labels deep offers a name of `n` labels. */
  function Offer<T>(root: Node<T>, query: Path, d: nat): Option<T>
    requires d <= |query|
  {
    if d == |query| then Get(root, query, Exact)
    else if d + 1 == |query| && Get(root, query[..d], Star).Some? then Get(root, query[..d], Star)
    else Get(root, query[..d], Dot)
  }

  /** The reference: the deepest of the first `d` offers; nothing at depth 0. */
  function Deepest<T>(root: Node<T>, query: Path, d: nat): Option<T>
    requires d <= |query|
  {
    if d == 0 then None
    else if Offer(root, query, d).Some? then Offer(root, query, d)
    else Deepest(root, query, d - 1)
  }

  function BestMatch<T>(root: Node<T>, query: Path): Option<T> { Deepest(root, query, |query|) }

  /** `node` is what the trie holds below `path`. */
  ghost predicate IsAt<T>(root: Node<T>, path: Path, node: Node<T>) {
    forall q, k :: Get(root, path + q, k) == Get(node, q, k)
  }

  /** One step of a descent: the child holds what lies below the longer path,
      and without a child nothing is stored along the rest of the query. */
  lemma Descend<T>(root: Node<T>, query: Path, d: nat, node: Node<T>)
    requires d < |query| && IsAt(root, query[..d], node)
    ensures query[d] in node.children ==>
              && IsAt(root, query[..d + 1], node.children[query[d]])
              && forall k :: Get(root, query[..d + 1], k) == Value(node.children[query[d]], k)
    ensures query[d] !in node.children ==> forall e, k :: d < e <= |query| ==> Get(root, query[..e], k).None?
  {
    var part := query[d];
    if part in node.children {
      forall rest, k ensures Get(root, query[..d + 1] + rest, k) == Get(node.children[part], rest, k) {
        BelowChild(root, query, d, node, rest, k);
      }
      forall k ensures Get(root, query[..d + 1], k) == Value(node.children[part], k) {
        assert query[..d + 1] + [] == query[..d + 1];
        assert Get(node.children[part], [], k) == Value(node.children[part], k);
      }
    } else {
      forall e, k | d < e <= |query| ensures Get(root, query[..e], k).None? {
        BelowChild(root, query, d, node, query[d + 1..e], k);
        assert query[..e] == query[..d + 1] + query[d + 1..e];
      }
    }
  }

  lemma BelowChild<T>(root: Node<T>, query: Path, d: nat, node: Node<T>, rest: Path, k: Kind)
    requires d < |query| && IsAt(root, query[..d], node)
    ensures Get(root, query[..d + 1] + rest, k) ==
              if query[d] in node.children then Get(node.children[query[d]], rest, k) else None
  {
    assert query[..d + 1] + rest == query[..d] + ([query[d]] + rest);
    assert ([query[d]] + rest)[1..] == rest;
  }

  lemma DescentStarts<T>(root: Node<T>, query: Path)
    ensures IsAt(root, query[..0], root)
  {
    forall q, k ensures Get(root, query[..0] + q, k) == Get(root, q, k) {
      assert query[..0] + q == q;
    }
  }

  lemma {:induction false} NothingBelow<T>(root: Node<T>, query: Path, from: nat, d: nat)
    requires from <= d <= |query|
    requires forall e, k :: from < e <= |query| ==> Get(root, query[..e], k).None?
    ensures Deepest(root, query, d) == Deepest(root, query, from)
    decreases d
  {
    if from < d {
      assert query[..|query|] == query;
      NothingBelow(root, query, from, d - 1);
    }
  }

  /** The descent of `search_build`: one part at a time, keeping the best so far. */
  method SearchLoop<T>(root: Node<T>, query: Path) returns (r: Option<T>)
    requires |query| >= 1
    ensures r == BestMatch(root, query)
  {
    hide IsAt, Get;
    var node := root;
    var best: Option<T> := None;
    DescentStarts(root, query);
    assert query[..|query|] == query;
    for d := 0 to |query|
      invariant best == Deepest(root, query, d)
      invariant IsAt(root, query[..d], node)
    {
      Descend(root, query, d, node);
      if query[d] !in node.children {
        NothingBelow(root, query, d, |query|);
        return best;
      }
      node := node.children[query[d]];
      assert Value(node, Exact) == node.exact && Value(node, Star) == node.star && Value(node, Dot) == node.dot;
      var remaining := |query| - d - 1;
      if remaining == 0 {
        if node.exact.Some? { return node.exact; }
      } else if remaining == 1 {
        if node.star.Some? { best := node.star; }
        else if node.dot.Some? { best := node.dot; }
      } else if node.dot.Some? {
        best := node.dot;
      }
    }
    return best;
  }

  // ---------------------------------------------------------------------
  // Patterns.
  // ---------------------------------------------------------------------

  /** A stored pattern: where it ends in the trie, and how it matches. */
  datatype Pattern<T> = Pattern(path: Path, kind: Kind, value: T)

  /** `*.x` takes exactly one more part, `.x` at least one, plain `x` none. */
  predicate Matches<T>(p: Pattern<T>, query: Path) {
    && p.path <= query
    && match p.kind
       case Exact => |query| == |p.path|
       case Star => |query| == |p.path| + 1
       case Dot => |query| > |p.path|
  }

  function InsertAll<T>(root: Node<T>, patterns: seq<Pattern<T>>): Node<T> {
    if patterns == [] then root
    else
      var last := patterns[|patterns| - 1];
      InsertAt(InsertAll(root, patterns[..|patterns| - 1]), last.path, last.kind, last.value)
  }

  lemma {:induction false} InsertAllJoins<T>(root: Node<T>, a: seq<Pattern<T>>, b: seq<Pattern<T>>)
    ensures InsertAll(InsertAll(root, a), b) == InsertAll(root, a + b)
    decreases |b|
  {
    if b == [] {
      assert a + b == a;
    } else {
      var init, last := b[..|b| - 1], b[|b| - 1];
      InsertAllJoins(root, a, init);
      assert (a + b)[..|a + b| - 1] == a + init && (a + b)[|a + b| - 1] == last;
    }
  }

  /** The first pattern with a given place, if any. */
  function FirstAt<T>(patterns: seq<Pattern<T>>, path: Path, kind: Kind): Option<T> {
    if patterns == [] then None
    else
      var earlier := FirstAt(patterns[..|patterns| - 1], path, kind);
      var last := patterns[|patterns| - 1];
      if earlier.Some? then earlier
      else if last.path == path && last.kind == kind then Some(last.value)
      else None
  }

  /** A trie filled from nothing stores, at each place, the first pattern for it. */
  lemma {:induction false} StoredIsFirst<T>(patterns: seq<Pattern<T>>, path: Path, kind: Kind)
    ensures Get(InsertAll(EmptyNode(), patterns), path, kind) == FirstAt(patterns, path, kind)
    decreases |patterns|
  {
    if patterns == [] {
      NothingInEmpty<T>(path, kind);
    } else {
      var last := patterns[|patterns| - 1];
      var earlier := patterns[..|patterns| - 1];
      StoredIsFirst(earlier, path, kind);
      StoredIsFirst(earlier, last.path, last.kind);
      InsertThenGet(InsertAll(EmptyNode(), earlier), last.path, last.kind, last.value, path, kind);
    }
  }

  /** Pattern i is the first with this place. */
  predicate FirstPlaced<T>(patterns: seq<Pattern<T>>, path: Path, kind: Kind, i: nat) {
    && i < |patterns| && patterns[i].path == path && patterns[i].kind == kind
    && forall j :: 0 <= j < i ==> !(patterns[j].path == path && patterns[j].kind == kind)
  }

  lemma {:induction false} FirstIsAPattern<T>(patterns: seq<Pattern<T>>, path: Path, kind: Kind)
    ensures FirstAt(patterns, path, kind).Some? ==>
              exists i: nat :: FirstPlaced(patterns, path, kind, i) &&
                patterns[i].value == FirstAt(patterns, path, kind).value
    ensures FirstAt(patterns, path, kind).None? ==>
              forall i :: 0 <= i < |patterns| ==> !(patterns[i].path == path && patterns[i].kind == kind)
    decreases |patterns|
  {
    if patterns != [] {
      var earlier := patterns[..|patterns| - 1];
      FirstIsAPattern(earlier, path, kind);
      assert forall i :: 0 <= i < |earlier| ==> earlier[i] == patterns[i];
      if FirstAt(earlier, path, kind).Some? {
        var i: nat :| FirstPlaced(earlier, path, kind, i) && earlier[i].value == FirstAt(earlier, path, kind).value;
        assert FirstPlaced(patterns, path, kind, i);
      } else if FirstAt(patterns, path, kind).Some? {
        assert FirstPlaced(patterns, path, kind, |patterns| - 1);
      }
    }
  }

  /** What a search finds is the value of a stored pattern that matches. */
  lemma {:induction false} FoundMatches<T>(patterns: seq<Pattern<T>>, query: Path, d: nat)
    requires d <= |query|
    ensures var r := Deepest(InsertAll(EmptyNode(), patterns), query, d);
            r.Some? ==> exists i :: 0 <= i < |patterns| && Matches(patterns[i], query) && patterns[i].value == r.value
    decreases d
  {
    if d > 0 {
      FoundMatches(patterns, query, d - 1);
      assert query[..|query|] == query;
      var path := query[..d];
      forall k: Kind
        ensures Get(InsertAll(EmptyNode(), patterns), path, k) == FirstAt(patterns, path, k)
      {
        StoredIsFirst(patterns, path, k);
      }
      FirstIsAPattern(patterns, path, Exact);
      FirstIsAPattern(patterns, path, Star);
      FirstIsAPattern(patterns, path, Dot);
    }
  }

  lemma {:induction false} MissMeansNoMatch<T>(patterns: seq<Pattern<T>>, query: Path, d: nat, i: nat)
    requires d <= |query| && i < |patterns|
    requires Deepest(InsertAll(EmptyNode(), patterns), query, d).None?
    requires Matches(patterns[i], query) && 1 <= |patterns[i].path| <= d
    ensures false
    decreases d
  {
    var p := patterns[i];
    assert query[..|query|] == query;
    if |p.path| == d {
      assert p.path == query[..d];
      StoredIsFirst(patterns, query[..d], p.kind);
      FirstIsAPattern(patterns, query[..d], p.kind);
    } else {
      MissMeansNoMatch(patterns, query, d - 1, i);
    }
  }

  predicate Rooted<T>(patterns: seq<Pattern<T>>) {
    forall i :: 0 <= i < |patterns| ==> |patterns[i].path| >= 1
  }

  /** A name is found exactly when some stored pattern matches it. */
  lemma FoundIffMatched<T>(patterns: seq<Pattern<T>>, query: Path)
    requires Rooted(patterns)
    ensures BestMatch(InsertAll(EmptyNode(), patterns), query).Some? <==>
              exists i :: 0 <= i < |patterns| && Matches(patterns[i], query)
  {
    FoundMatches(patterns, query, |query|);
    if BestMatch(InsertAll(EmptyNode(), patterns), query).None? {
      forall i | 0 <= i < |patterns| && Matches(patterns[i], query) ensures false {
        MissMeansNoMatch(patterns, query, |query|, i);
      }
    }
  }

  /** Pattern p is at least as specific as q: it ends deeper, or as deep and is not
      a dot where the other is a star. */
  predicate AsSpecific<T>(p: Pattern<T>, q: Pattern<T>) {
    |q.path| < |p.path| || (|q.path| == |p.path| && !(p.kind.Dot? && q.kind.Star?))
  }

  /** Of the patterns that match and end within d labels, i is the most specific,
      and the first of those with its place. */
  ghost predicate IsBest<T>(patterns: seq<Pattern<T>>, query: Path, d: nat, i: nat) {
    && i < |patterns| && Matches(patterns[i], query) && |patterns[i].path| <= d
    && FirstPlaced(patterns, patterns[i].path, patterns[i].kind, i)
    && forall j :: 0 <= j < |patterns| && Matches(patterns[j], query) && |patterns[j].path| <= d ==>
         AsSpecific(patterns[i], patterns[j])
  }

  lemma {:induction false} DeepestIsBest<T>(patterns: seq<Pattern<T>>, query: Path, d: nat) returns (i: nat)
    requires d <= |query| && Rooted(patterns)
    ensures Deepest(InsertAll(EmptyNode(), patterns), query, d).Some? ==>
              IsBest(patterns, query, d, i) &&
                Deepest(InsertAll(EmptyNode(), patterns), query, d).value == patterns[i].value
    ensures Deepest(InsertAll(EmptyNode(), patterns), query, d).None? ==>
              forall j :: 0 <= j < |patterns| && Matches(patterns[j], query) ==> |patterns[j].path| > d
    decreases d
  {
    i := 0;
    if d > 0 {
      var root, path := InsertAll(EmptyNode(), patterns), query[..d];
      assert query[..|query|] == query;
      forall k: Kind ensures Get(root, path, k) == FirstAt(patterns, path, k) {
        StoredIsFirst(patterns, path, k);
      }
      FirstIsAPattern(patterns, path, Exact);
      FirstIsAPattern(patterns, path, Star);
      FirstIsAPattern(patterns, path, Dot);
      forall j | 0 <= j < |patterns| && Matches(patterns[j], query) && |patterns[j].path| == d
        ensures patterns[j].path == path && Get(root, path, patterns[j].kind).Some?
      {
      }
      if Offer(root, query, d).Some? {
        var kind :=
          if d == |query| then Exact else if d + 1 == |query| && Get(root, path, Star).Some? then Star else Dot;
        i :| FirstPlaced(patterns, path, kind, i) && patterns[i].value == FirstAt(patterns, path, kind).value;
      } else {
        i := DeepestIsBest(patterns, query, d - 1);
      }
    }
  }

  /** The search answers with the most specific of the patterns that match: the
      deepest, a star before a dot, and the first of those with the same place. */
  lemma MostSpecificIsFound<T>(patterns: seq<Pattern<T>>, query: Path, i: nat)
    requires Rooted(patterns) && IsBest(patterns, query, |query|, i)
    ensures BestMatch(InsertAll(EmptyNode(), patterns), query) == Some(patterns[i].value)
  {
    hide Deepest;
    var k := DeepestIsBest(patterns, query, |query|);
    assert Matches(patterns[i], query);
    assert BestMatch(InsertAll(EmptyNode(), patterns), query).Some?;
    assert AsSpecific(patterns[i], patterns[k]) && AsSpecific(patterns[k], patterns[i]);
    assert patterns[i].path == query[..|patterns[i].path|] && patterns[k].path == query[..|patterns[k].path|];
  }

  // ---------------------------------------------------------------------
  // Minimum search.
  // ---------------------------------------------------------------------

  /** `fold_min` */
  function Lesser(best: Option<nat>, candidate: Option<nat>): Option<nat> {
    if candidate.None? || (best.Some? && best.value <= candidate.value) then best else candidate
  }

  /** The least of what the patterns ending `d` labels deep offer. */
  function LeastOffer(root: Node<nat>, query: Path, d: nat): Option<nat>
    requires d <= |query|
  {
    if d == |query| then Get(root, query, Exact)
    else
      Lesser(if d + 1 == |query| then Get(root, query[..d], Star) else None, Get(root, query[..d], Dot))
  }

  function LeastUpTo(root: Node<nat>, query: Path, d: nat): Option<nat>
    requires d <= |query|
  {
    if d == 0 then None else Lesser(LeastUpTo(root, query, d - 1), LeastOffer(root, query, d))
  }

  lemma {:induction false} NoLeastBelow(root: Node<nat>, query: Path, from: nat, d: nat)
    requires from <= d <= |query|
    requires forall e, k :: from < e <= |query| ==> Get(root, query[..e], k).None?
    ensures LeastUpTo(root, query, d) == LeastUpTo(root, query, from)
    decreases d
  {
    if from < d {
      assert query[..|query|] == query;
      NoLeastBelow(root, query, from, d - 1);
    }
  }

  /** The descent of `search_min_build`. */
  method SearchMinLoop(root: Node<nat>, query: Path) returns (r: Option<nat>)
    requires |query| >= 1
    ensures r == LeastUpTo(root, query, |query|)
  {
    hide IsAt, Get;
    var node := root;
    var best: Option<nat> := None;
    DescentStarts(root, query);
    assert query[..|query|] == query;
    for d := 0 to |query|
      invariant best == LeastUpTo(root, query, d)
      invariant IsAt(root, query[..d], node)
    {
      Descend(root, query, d, node);
      if query[d] !in node.children {
        NoLeastBelow(root, query, d, |query|);
        return best;
      }
      node := node.children[query[d]];
      assert Value(node, Exact) == node.exact && Value(node, Star) == node.star && Value(node, Dot) == node.dot;
      var remaining := |query| - d - 1;
      if remaining == 0 {
        best := Lesser(best, node.exact);
      } else {
        if remaining == 1 { best := Lesser(best, node.star); }
        best := Lesser(best, node.dot);
      }
    }
    return best;
  }

  predicate Ascending(patterns: seq<Pattern<nat>>) {
    forall i, j :: 0 <= i < j < |patterns| ==> patterns[i].value <= patterns[j].value
  }

  /** `r` is the least value of the patterns that match and end within `d` labels. */
  ghost predicate IsLeast(patterns: seq<Pattern<nat>>, query: Path, d: nat, r: Option<nat>) {
    && (r.Some? ==> exists i :: 0 <= i < |patterns| && Matches(patterns[i], query) && patterns[i].value == r.value)
    && (forall i :: 0 <= i < |patterns| && Matches(patterns[i], query) && |patterns[i].path| <= d ==>
          r.Some? && r.value <= patterns[i].value)
  }

  /** At one place the first pattern has the least value. */
  lemma {:induction false} FirstIsLeast(patterns: seq<Pattern<nat>>, path: Path, kind: Kind)
    requires Ascending(patterns)
    ensures forall i :: 0 <= i < |patterns| && patterns[i].path == path && patterns[i].kind == kind ==>
              FirstAt(patterns, path, kind).Some? && FirstAt(patterns, path, kind).value <= patterns[i].value
    decreases |patterns|
  {
    if patterns != [] {
      var earlier := patterns[..|patterns| - 1];
      FirstIsLeast(earlier, path, kind);
      FirstIsAPattern(earlier, path, kind);
      assert forall i :: 0 <= i < |earlier| ==> earlier[i] == patterns[i];
    }
  }

  lemma {:induction false} LeastUpToIsLeast(patterns: seq<Pattern<nat>>, query: Path, d: nat)
    requires d <= |query| && Ascending(patterns) && Rooted(patterns)
    ensures IsLeast(patterns, query, d, LeastUpTo(InsertAll(EmptyNode(), patterns), query, d))
    decreases d
  {
    if d > 0 {
      LeastUpToIsLeast(patterns, query, d - 1);
      var root := InsertAll(EmptyNode(), patterns);
      assert query[..|query|] == query;
      var path := query[..d];
      forall k: Kind
        ensures Get(root, path, k) == FirstAt(patterns, path, k)
      {
        StoredIsFirst(patterns, path, k);
      }
      FirstIsAPattern(patterns, path, Exact);
      FirstIsAPattern(patterns, path, Star);
      FirstIsAPattern(patterns, path, Dot);
      forall i | 0 <= i < |patterns| && Matches(patterns[i], query) && |patterns[i].path| == d
        ensures LeastOffer(root, query, d).Some? && LeastOffer(root, query, d).value <= patterns[i].value
      {
        assert patterns[i].path == path;
        FirstIsLeast(patterns, path, patterns[i].kind);
      }
    }
  }

  /** The minimum search returns the least value among all matching patterns. */
  lemma LeastMatchIsFound(patterns: seq<Pattern<nat>>, query: Path)
    requires Ascending(patterns) && Rooted(patterns)
    ensures IsLeast(patterns, query, |query|, LeastUpTo(InsertAll(EmptyNode(), patterns), query, |query|))
  {
    LeastUpToIsLeast(patterns, query, |query|);
  }

  // ---------------------------------------------------------------------
  // The trie over text.
  // ---------------------------------------------------------------------

  datatype Trie<T> = Trie(root: Node<T>, len: nat)

  function EmptyTrie<T>(): Trie<T> { Trie(EmptyNode(), 0) }

  /** What a written domain stores: nothing when it is empty, two places for
      `+.x`, one otherwise. */
  function PatternsOf<T>(domain: string, v: T): Option<seq<Pattern<T>>> {
    var d := Lower(Trim(domain));
    if d == [] then None
    else if "+." <= d then
      if d[2..] == [] then None
      else Some([Pattern(Labels(d[2..]), Star, v), Pattern(Labels(d[2..]), Dot, v)])
    else if "*." <= d then
      if d[2..] == [] then None else Some([Pattern(Labels(d[2..]), Star, v)])
    else if "." <= d then
      if d[1..] == [] then None else Some([Pattern(Labels(d[1..]), Dot, v)])
    else Some([Pattern(Labels(d), Exact, v)])
  }

  function Insert<T>(t: Trie<T>, domain: string, v: T): Trie<T> {
    match PatternsOf(domain, v)
    case None => t
    case Some(patterns) => Trie(InsertAll(t.root, patterns), t.len + |patterns|)
  }

  /** A search ignores case, surrounding blanks and trailing dots. */
  function Search<T>(t: Trie<T>, domain: string): Option<T> {
    var query := Lower(TrimDots(Trim(domain)));
    if t.len == 0 || query == [] then None else BestMatch(t.root, Labels(query))
  }

  ghost predicate WellFormed<T>(t: Trie<T>) { t.len == 0 ==> t.root == EmptyNode() }

  /** A search offers what it offered before, or the value just inserted. */
  lemma {:induction false} DeepestAfterInsert<T>(n: Node<T>, path: Path, kind: Kind, v: T, query: Path, d: nat)
    requires d <= |query|
    ensures Deepest(InsertAt(n, path, kind, v), query, d) in {Deepest(n, query, d), Some(v)}
    decreases d
  {
    if d > 0 {
      DeepestAfterInsert(n, path, kind, v, query, d - 1);
      InsertThenGet(n, path, kind, v, query[..d], Star);
      InsertThenGet(n, path, kind, v, query[..d], Dot);
      InsertThenGet(n, path, kind, v, query, Exact);
    }
  }

  lemma {:induction false} SearchAfterInsertAll<T>(n: Node<T>, patterns: seq<Pattern<T>>, v: T, query: Path)
    requires forall i :: 0 <= i < |patterns| ==> patterns[i].value == v
    ensures BestMatch(InsertAll(n, patterns), query) in {BestMatch(n, query), Some(v)}
    decreases |patterns|
  {
    if patterns != [] {
      var earlier := patterns[..|patterns| - 1];
      var last := patterns[|patterns| - 1];
      SearchAfterInsertAll(n, earlier, v, query);
      DeepestAfterInsert(InsertAll(n, earlier), last.path, last.kind, v, query, |query|);
    }
  }

  lemma {:induction false} NothingFoundInEmpty<T>(query: Path, d: nat)
    requires d <= |query|
    ensures Deepest(EmptyNode<T>(), query, d).None?
    decreases d
  {
    if d > 0 {
      NothingFoundInEmpty<T>(query, d - 1);
      NothingInEmpty<T>(query, Exact);
      NothingInEmpty<T>(query[..d], Star);
      NothingInEmpty<T>(query[..d], Dot);
    }
  }

  lemma SearchAfterInsert<T>(t: Trie<T>, domain: string, v: T, d: string)
    requires WellFormed(t)
    ensures WellFormed(Insert(t, domain, v))
    ensures Search(Insert(t, domain, v), d) in {Search(t, d), Some(v)}
  {
    var query := Lower(TrimDots(Trim(d)));
    if PatternsOf(domain, v).Some? && query != [] {
      SearchAfterInsertAll(t.root, PatternsOf(domain, v).value, v, Labels(query));
      NothingFoundInEmpty<T>(Labels(query), |Labels(query)|);
    }
  }
}
