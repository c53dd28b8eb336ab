/** The grammar tree's nodes (scheme::entity) and their per-node setters.

    Entities are reference-counted objects in the library; here they live in
    an arena (`Arena.nodes`) and a shared pointer is an index into it.  An
    entity's `pending_` children become `children`, a sequence of indices, and
    the `pending_siblings_group_` map, keyed by child pointer, becomes
    `childGroups`, keyed by child index. */
module Entity {
  import opened Common

  datatype Kind = NoKind | Argument | Value

  /** The sibling group a child was attached with: `<<` gives XOR, `|` gives OR. */
  datatype Group = Xor | Or

  datatype Node = Node(
    kind: Kind,
    group: Group,                      // siblings_group_
    description: Option<string>,
    longNames: Option<seq<string>>,
    shortNames: Option<seq<char>>,
    maxCount: Option<nat>,
    minCount: Option<nat>,
    isPositional: Option<bool>,
    knownValues: Option<seq<string>>,
    defaultValues: Option<seq<string>>,
    implicitValues: Option<seq<string>>,
    anyValue: Option<bool>,
    children: seq<nat>,                // pending_
    childGroups: map<nat, Group>)      // pending_siblings_group_

  /** A node as `entity(KIND)` leaves it: only the kind is set.  The initial
      `siblings_group_` is declared in a header that is not part of this
      model; Xor stands for it. */
  function Blank(kind: Kind): Node {
    Node(kind, Xor, None, None, None, None, None, None, None, None, None, None, [], map[])
  }

  /** The value node `value(any())`: a VALUE accepting any string. */
  const Wildcard: Node := Blank(Value).(anyValue := Some(true))

  /** The property arguments of `apply_property`. */
  datatype NameProperty = NameProperty(longNames: Option<seq<string>>, shortNames: Option<seq<char>>)

  /** Arena invariant: every child index points forward, into the arena.  The
      entity graph is therefore acyclic and every recursion over children
      terminates. */
  ghost predicate Forward(nodes: seq<Node>) {
    forall i, k :: 0 <= i < |nodes| && 0 <= k < |nodes[i].children| ==> i < nodes[i].children[k] < |nodes|
  }

  /** `p` is a downward path: each element a child of the one before. */
  ghost predicate IsPath(nodes: seq<Node>, p: seq<nat>) {
    && |p| > 0
    && (forall k :: 0 <= k < |p| ==> p[k] < |nodes|)
    && (forall k :: 0 <= k < |p| - 1 ==> p[k + 1] in nodes[p[k]].children)
  }

  ghost predicate Reaches(nodes: seq<Node>, i: nat, j: nat) {
    exists p :: IsPath(nodes, p) && p[0] == i && p[|p| - 1] == j
  }

  lemma ForwardPush(a: seq<Node>, n: Node)
    requires Forward(a) && n.children == []
    ensures Forward(a + [n])
  {
  }

  lemma ForwardAddChild(a: seq<Node>, p: nat, c: nat, groups: map<nat, Group>)
    requires Forward(a) && p < c < |a|
    ensures Forward(a[p := a[p].(children := a[p].children + [c], childGroups := groups)])
  {
    var b := a[p := a[p].(children := a[p].children + [c], childGroups := groups)];
    forall i, k | 0 <= i < |b| && 0 <= k < |b[i].children|
      ensures i < b[i].children[k] < |b|
    {
      if i != p || k < |a[p].children| {
        assert b[i].children[k] == a[i].children[k];
      }
    }
  }

  /** Every child in the subtree of `x` has an entry in its parent's
      sibling-group map (what the copy constructor's `.at(p)` demands). */
  ghost predicate GroupsComplete(src: seq<Node>, x: nat)
    requires Forward(src) && x < |src|
    decreases |src| - x
  {
    forall k :: 0 <= k < |src[x].children| ==>
      src[x].children[k] in src[x].childGroups && GroupsComplete(src, src[x].children[k])
  }

  /** Where the copy of the `k`-th of `children` ends: where the copy of the
      next child starts, or `hi` after the last child. */
  function CopyEnd(children: seq<nat>, k: nat, hi: nat): nat {
    if k + 1 < |children| then children[k + 1] else hi
  }

  /** Node `y` of `nodes` is a copy of node `x` of `src` with its first `n`
      children copied, inside [y, hi): the node is new (at or above |src|),
      carries every field of its original except the implicit values and
      the children, maps each copied child to the sibling group of the
      original child, and the copied children come after `y`, before `hi`
      and in increasing order. */
  ghost predicate CopiedNode(src: seq<Node>, nodes: seq<Node>, x: nat, y: nat, hi: nat, n: nat) {
    && x < |src|
    && |src| <= y < hi <= |nodes|
    && nodes[y] == src[x].(implicitValues := None, children := nodes[y].children, childGroups := nodes[y].childGroups)
    && n <= |src[x].children|
    && |nodes[y].children| == n
    && nodes[y].childGroups.Keys == (set c | c in nodes[y].children)
    && (forall k :: 0 <= k < n ==>
         && y < nodes[y].children[k] < hi
         && nodes[y].children[k] in nodes[y].childGroups
         && src[x].children[k] in src[x].childGroups
         && nodes[y].childGroups[nodes[y].children[k]] == src[x].childGroups[src[x].children[k]])
    && (forall k, l :: 0 <= k < l < n ==> nodes[y].children[k] < nodes[y].children[l])
  }

  /** Node `y` of `nodes` roots a deep copy of node `x` of `src`, made of the
      nodes [y, hi).  The copy of the `k`-th child lies in
      [children[k], CopyEnd(children, k, hi)), so the copies of different
      children are disjoint and none contains `y`: every `make_shared` of
      the copy constructor makes a node of its own. */
  ghost predicate IsCopyOf(src: seq<Node>, nodes: seq<Node>, x: nat, y: nat, hi: nat)
    decreases |nodes| - y
  {
    && x < |src|
    && CopiedNode(src, nodes, x, y, hi, |src[x].children|)
    && forall k {:trigger CopyEnd(nodes[y].children, k, hi)} :: 0 <= k < |nodes[y].children| ==>
         IsCopyOf(src, nodes, src[x].children[k], nodes[y].children[k], CopyEnd(nodes[y].children, k, hi))
  }

  /** Changing nothing in [y, hi) keeps a copy there a copy. */
  lemma {:induction false} IsCopyOfFrame(src: seq<Node>, a: seq<Node>, b: seq<Node>, x: nat, y: nat, hi: nat)
    requires IsCopyOf(src, a, x, y, hi)
    requires hi <= |b| && forall j :: y <= j < hi ==> b[j] == a[j]
    ensures IsCopyOf(src, b, x, y, hi)
    decreases |a| - y
  {
    forall k | 0 <= k < |a[y].children|
      ensures IsCopyOf(src, b, src[x].children[k], b[y].children[k], CopyEnd(b[y].children, k, hi))
    {
      IsCopyOfFrame(src, a, b, src[x].children[k], a[y].children[k], CopyEnd(a[y].children, k, hi));
    }
  }

  /** Every node reachable from the top of a copy lies in [y, hi). */
  lemma {:induction false} CopyWithin(src: seq<Node>, nodes: seq<Node>, x: nat, y: nat, hi: nat, p: seq<nat>)
    requires IsCopyOf(src, nodes, x, y, hi) && IsPath(nodes, p) && p[0] == y
    ensures y <= p[|p| - 1] < hi
    decreases |p|
  {
    if |p| > 1 {
      var cs := nodes[y].children;
      var k :| 0 <= k < |cs| && cs[k] == p[1];
      var q := p[1..];
      assert IsPath(nodes, q) && q[|q| - 1] == p[|p| - 1];
      CopyWithin(src, nodes, src[x].children[k], cs[k], CopyEnd(cs, k, hi), q);
    }
  }

  /** The copies of two different children of a copied node share no node:
      whatever is reachable from the earlier one comes before whatever is
      reachable from the later one. */
  lemma {:induction false} CopyChildrenDisjoint(src: seq<Node>, nodes: seq<Node>, x: nat, y: nat, hi: nat, k: nat, l: nat, p: seq<nat>, q: seq<nat>)
    requires IsCopyOf(src, nodes, x, y, hi) && k < l < |nodes[y].children|
    requires IsPath(nodes, p) && p[0] == nodes[y].children[k]
    requires IsPath(nodes, q) && q[0] == nodes[y].children[l]
    ensures p[|p| - 1] < q[|q| - 1]
  {
    var cs := nodes[y].children;
    CopyChildrenApart(src, nodes, x, y, hi, k, l);
    CopiesDisjoint(src, nodes, src[x].children[k], cs[k], CopyEnd(cs, k, hi), src[x].children[l], cs[l], CopyEnd(cs, l, hi), p, q);
  }

  /** The copy of an earlier child ends before that of a later child starts. */
  lemma {:induction false} CopyChildrenApart(src: seq<Node>, nodes: seq<Node>, x: nat, y: nat, hi: nat, k: nat, l: nat)
    requires IsCopyOf(src, nodes, x, y, hi) && k < l < |nodes[y].children|
    ensures CopyEnd(nodes[y].children, k, hi) <= nodes[y].children[l]
    ensures IsCopyOf(src, nodes, src[x].children[k], nodes[y].children[k], CopyEnd(nodes[y].children, k, hi))
    ensures IsCopyOf(src, nodes, src[x].children[l], nodes[y].children[l], CopyEnd(nodes[y].children, l, hi))
  {
    var cs := nodes[y].children;
    assert CopyEnd(cs, k, hi) == cs[k + 1];
    if k + 1 < l {
      assert cs[k + 1] < cs[l];
    }
  }

  /** Copies laid out one after the other share no node. */
  lemma CopiesDisjoint(src: seq<Node>, nodes: seq<Node>, a: nat, ya: nat, ha: nat, b: nat, yb: nat, hb: nat, p: seq<nat>, q: seq<nat>)
    requires IsCopyOf(src, nodes, a, ya, ha) && IsCopyOf(src, nodes, b, yb, hb) && ha <= yb
    requires IsPath(nodes, p) && p[0] == ya
    requires IsPath(nodes, q) && q[0] == yb
    ensures p[|p| - 1] < q[|q| - 1]
  {
    CopyWithin(src, nodes, a, ya, ha, p);
    CopyWithin(src, nodes, b, yb, hb, q);
  }

  /** The first `i` children of original `x` have been copied under `y`, the
      last of them ending at the end of the arena. */
  ghost predicate CopyInProgress(src: seq<Node>, nodes: seq<Node>, x: nat, y: nat, i: nat) {
    && CopiedNode(src, nodes, x, y, |nodes|, i)
    && forall k {:trigger CopyEnd(nodes[y].children, k, |nodes|)} :: 0 <= k < i ==>
         IsCopyOf(src, nodes, src[x].children[k], nodes[y].children[k], CopyEnd(nodes[y].children, k, |nodes|))
  }

  /** The state of the copy loop after `i` children of original `x`: the
      arena extends `start` (which extends `src`), `y` is the copy's top and
      the subtrees copied so far have complete sibling-group maps. */
  ghost predicate CopyLoop(src: seq<Node>, start: seq<Node>, nodes: seq<Node>, x: nat, y: nat, i: nat) {
    && Forward(src) && Forward(nodes)
    && |start| == y && |src| <= y < |nodes| && nodes[..y] == start && nodes[..|src|] == src
    && CopyInProgress(src, nodes, x, y, i)
    && forall k :: 0 <= k < i ==> GroupsComplete(src, src[x].children[k])
  }

  /** One more child: its copy `cc`, made in `middle` after the state
      `before`, is attached under `y`, giving `after`. */
  lemma {:induction false} CopyStep(src: seq<Node>, before: seq<Node>, middle: seq<Node>, after: seq<Node>, x: nat, y: nat, i: nat, cc: nat)
    requires CopyInProgress(src, before, x, y, i) && i < |src[x].children|
    requires |before| <= |middle| && middle[..|before|] == before
    requires cc == |before| && IsCopyOf(src, middle, src[x].children[i], cc, |middle|)
    requires src[x].children[i] in src[x].childGroups
    requires after == middle[y := middle[y].(children := middle[y].children + [cc],
                                             childGroups := middle[y].childGroups[cc := src[x].childGroups[src[x].children[i]]])]
    ensures CopyInProgress(src, after, x, y, i + 1)
  {
    CopiedNodeStep(src, before, middle, after, x, y, i, cc);
    assert before[y] == middle[y];
    var ac := after[y].children;
    assert ac == before[y].children + [cc];
    EarlierCopiesKept(src, before, after, src[x].children, before[y].children, y, cc);
    IsCopyOfFrame(src, middle, after, src[x].children[i], cc, |middle|);
    assert ac[i] == cc && CopyEnd(ac, i, |after|) == |middle|;
  }

  /** Appending the next copy `cc` after the copies `bs` of the first
      originals `xs`, and changing nothing else among them, keeps them. */
  lemma EarlierCopiesKept(src: seq<Node>, before: seq<Node>, after: seq<Node>, xs: seq<nat>, bs: seq<nat>, y: nat, cc: nat)
    requires |bs| < |xs| && cc == |before| <= |after|
    requires forall k :: 0 <= k < |bs| ==> y < bs[k] && IsCopyOf(src, before, xs[k], bs[k], CopyEnd(bs, k, |before|))
    requires forall j :: y < j < |before| ==> after[j] == before[j]
    ensures forall k :: 0 <= k < |bs| ==> IsCopyOf(src, after, xs[k], (bs + [cc])[k], CopyEnd(bs + [cc], k, |after|))
  {
    var ac := bs + [cc];
    forall k | 0 <= k < |bs|
      ensures IsCopyOf(src, after, xs[k], ac[k], CopyEnd(ac, k, |after|))
    {
      assert bs[k] == ac[k] && CopyEnd(bs, k, |before|) == CopyEnd(ac, k, |after|);
      IsCopyOfFrame(src, before, after, xs[k], bs[k], CopyEnd(bs, k, |before|));
    }
  }

  /** The node part of `CopyStep`. */
  lemma CopiedNodeStep(src: seq<Node>, before: seq<Node>, middle: seq<Node>, after: seq<Node>, x: nat, y: nat, i: nat, cc: nat)
    requires CopiedNode(src, before, x, y, |before|, i) && i < |src[x].children|
    requires |before| <= |middle| && middle[..|before|] == before
    requires cc == |before| < |middle|
    requires src[x].children[i] in src[x].childGroups
    requires after == middle[y := middle[y].(children := middle[y].children + [cc],
                                             childGroups := middle[y].childGroups[cc := src[x].childGroups[src[x].children[i]]])]
    ensures CopiedNode(src, after, x, y, |after|, i + 1)
  {
    var bs := before[y].children;
    var ac: seq<nat> := after[y].children;
    assert before[y] == middle[y];
    assert after[y] == src[x].(implicitValues := None, children := ac, childGroups := after[y].childGroups) by {
      assert ac == bs + [cc];
    }
    assert after[y].childGroups.Keys == (set c | c in ac) by {
      assert ac == bs + [cc];
      assert (set c | c in ac) == (set c | c in bs) + {cc};
    }
    assert forall k :: 0 <= k < i + 1 ==>
      && y < ac[k] < |after|
      && ac[k] in after[y].childGroups
      && src[x].children[k] in src[x].childGroups
      && after[y].childGroups[ac[k]] == src[x].childGroups[src[x].children[k]]
    by {
      assert ac == bs + [cc];
    }
    assert forall k, l :: 0 <= k < l < i + 1 ==> ac[k] < ac[l] by {
      assert ac == bs + [cc];
    }
  }

  /** The loop state after attaching the copy of child `i`. */
  lemma CopyLoopStep(src: seq<Node>, start: seq<Node>, before: seq<Node>, middle: seq<Node>, after: seq<Node>,
                     x: nat, y: nat, i: nat, cc: nat)
    requires CopyLoop(src, start, before, x, y, i) && i < |src[x].children|
    requires Forward(middle) && |before| <= |middle| && middle[..|before|] == before
    requires cc == |before| && IsCopyOf(src, middle, src[x].children[i], cc, |middle|)
    requires GroupsComplete(src, src[x].children[i]) && src[x].children[i] in src[x].childGroups
    requires after == middle[y := middle[y].(children := middle[y].children + [cc],
                                             childGroups := middle[y].childGroups[cc := src[x].childGroups[src[x].children[i]]])]
    ensures CopyLoop(src, start, after, x, y, i + 1)
  {
    assert after[..y] == start && after[..|src|] == src by {
      assert after[..y] == middle[..|before|][..y];
      assert after[..|src|] == middle[..|before|][..|src|];
    }
    ForwardAddChild(middle, y, cc, middle[y].childGroups[cc := src[x].childGroups[src[x].children[i]]]);
    CopyStep(src, before, middle, after, x, y, i, cc);
  }

  /** The loop has copied every child: `y` is a copy of `x`. */
  lemma CopyDone(src: seq<Node>, start: seq<Node>, nodes: seq<Node>, x: nat, y: nat)
    requires x < |src| && CopyLoop(src, start, nodes, x, y, |src[x].children|)
    ensures IsCopyOf(src, nodes, x, y, |nodes|) && GroupsComplete(src, x)
  {
  }

  /** A child that cannot be copied makes the whole copy fail. */
  lemma CopyAbandon(src: seq<Node>, start: seq<Node>, before: seq<Node>, middle: seq<Node>, x: nat, y: nat, i: nat)
    requires CopyLoop(src, start, before, x, y, i) && i < |src[x].children|
    requires |before| <= |middle| && middle[..|before|] == before
    requires !GroupsComplete(src, src[x].children[i]) || src[x].children[i] !in src[x].childGroups
    ensures middle[..y] == start && !GroupsComplete(src, x)
  {
    assert middle[..y] == middle[..|before|][..y];
  }

  /** The elements of `rest` that are neither in `acc` nor earlier in
      `rest`, in the order of `rest`. */
  function Fresh<T(==,!new)>(acc: seq<T>, rest: seq<T>): (r: seq<T>)
    ensures forall x :: x in r <==> x in rest && x !in acc
    ensures forall k :: 0 <= k < |r| ==> r[k] !in acc && r[k] !in r[..k]
    ensures |r| <= |rest|
    decreases |rest|
  {
    if rest == [] then []
    else if rest[0] in acc then Fresh(acc, rest[1..])
    else
      var tail := Fresh(acc + [rest[0]], rest[1..]);
      assert forall k :: 0 <= k < |tail| ==> tail[k] != rest[0];
      [rest[0]] + tail
  }

  /** The local merge of `apply_property(name)`: `lhs`, then the first new
      name unconditionally, then every further new name not already present,
      in the order given. */
  method MergeNames<T(==,!new)>(lhs: seq<T>, rhs: seq<T>) returns (r: seq<T>)
    requires |rhs| > 0
    ensures r == lhs + [rhs[0]] + Fresh(lhs + [rhs[0]], rhs[1..])
    ensures |lhs| < |r| <= |lhs| + |rhs| && r[..|lhs| + 1] == lhs + [rhs[0]]
    ensures forall x :: x in r <==> x in lhs || x in rhs
    ensures forall k :: |lhs| < k < |r| ==> r[k] !in r[..k]
  {
    r := lhs + [rhs[0]];
    var i := 1;
    while i < |rhs|
      invariant 1 <= i <= |rhs|
      invariant r + Fresh(r, rhs[i..]) == lhs + [rhs[0]] + Fresh(lhs + [rhs[0]], rhs[1..])
    {
      FreshStep(r, rhs, i);
      if rhs[i] !in r {
        r := r + [rhs[i]];
      }
      i := i + 1;
    }
    assert rhs[i..] == [];
    var f := Fresh(lhs + [rhs[0]], rhs[1..]);
    assert r == (lhs + [rhs[0]]) + f;
    assert rhs == [rhs[0]] + rhs[1..];
    forall k | |lhs| < k < |r|
      ensures r[k] !in r[..k]
    {
      var m := k - |lhs| - 1;
      assert r[k] == f[m] && r[..k] == (lhs + [rhs[0]]) + f[..m];
    }
  }

  /** One step of the merge loop: the name at `i` is kept exactly when it is
      not yet present, and the rest follows from the longer prefix. */
  lemma FreshStep<T(!new)>(r: seq<T>, rhs: seq<T>, i: nat)
    requires i < |rhs|
    ensures r + Fresh(r, rhs[i..])
         == if rhs[i] in r then r + Fresh(r, rhs[i + 1..])
            else (r + [rhs[i]]) + Fresh(r + [rhs[i]], rhs[i + 1..])
  {
    var t := rhs[i..];
    assert t[0] == rhs[i] && t[1..] == rhs[i + 1..];
  }

  /** `p` made present when `cond` holds: an absent list becomes an empty one. */
  function MadePresent<T>(p: Option<seq<T>>, cond: bool): (r: Option<seq<T>>)
    ensures cond ==> r.Some?
    ensures r.Some? && p.Some? ==> r == p
    ensures !cond ==> r == p
  {
    if cond && p.None? then Some([]) else p
  }

  /** All entities of one definition.  The methods below are the setters of
      `scheme::entity`, each taking the entity it acts on as an index. */
  class Arena {
    var nodes: seq<Node>

    ghost predicate Valid()
      reads this
    {
      Forward(nodes)
    }

    constructor ()
      ensures Valid() && nodes == []
    {
      nodes := [];
    }

    /** `entity(KIND)`: a fresh entity with only its kind set. */
    method Create(kind: Kind) returns (e: nat)
      requires Valid()
      modifies this
      ensures Valid()
      ensures e == old(|nodes|) && nodes == old(nodes) + [Blank(kind)]
    {
      e := |nodes|;
      nodes := nodes + [Blank(kind)];
    }

    method SetSiblingsGroup(e: nat, g: Group)
      requires Valid() && e < |nodes|
      modifies this
      ensures Valid()
      ensures nodes == old(nodes)[e := old(nodes[e]).(group := g)]
    {
      nodes := nodes[e := nodes[e].(group := g)];
    }

    method SetPositional(e: nat)
      requires Valid() && e < |nodes|
      modifies this
      ensures Valid()
      ensures nodes == old(nodes)[e := old(nodes[e]).(isPositional := Some(true))]
    {
      nodes := nodes[e := nodes[e].(isPositional := Some(true))];
    }

    method SetNamed(e: nat)
      requires Valid() && e < |nodes|
      modifies this
      ensures Valid()
      ensures nodes == old(nodes)[e := old(nodes[e]).(isPositional := Some(false))]
    {
      nodes := nodes[e := nodes[e].(isPositional := Some(false))];
    }

    /** `set_value(vs)`: known values `vs`, "any" switched off. */
    method SetValues(e: nat, vs: seq<string>)
      requires Valid() && e < |nodes|
      modifies this
      ensures Valid()
      ensures nodes == old(nodes)[e := old(nodes[e]).(knownValues := Some(vs), anyValue := Some(false))]
      ensures nodes[e].knownValues.Some? != (nodes[e].anyValue == Some(true))
    {
      nodes := nodes[e := nodes[e].(knownValues := Some(vs), anyValue := Some(false))];
    }

    /** `set_value(any)`: no known values, "any" switched on. */
    method SetAny(e: nat)
      requires Valid() && e < |nodes|
      modifies this
      ensures Valid()
      ensures nodes == old(nodes)[e := old(nodes[e]).(knownValues := None, anyValue := Some(true))]
      ensures nodes[e].knownValues.Some? != (nodes[e].anyValue == Some(true))
    {
      nodes := nodes[e := nodes[e].(knownValues := None, anyValue := Some(true))];
    }

    /** `apply_property(name)` as written: on an ARGUMENT, a name list the
        property carries is made present, but the merged list is built in a
        local copy and never stored, so existing names stay as they were. */
    method ApplyName(e: nat, p: NameProperty)
      requires Valid() && e < |nodes|
      requires p.longNames.Some? ==> |p.longNames.value| > 0
      requires p.shortNames.Some? ==> |p.shortNames.value| > 0
      modifies this
      ensures Valid()
      ensures old(nodes[e]).kind != Argument ==> nodes == old(nodes)
      ensures old(nodes[e]).kind == Argument ==>
        nodes == old(nodes)[e := old(nodes[e]).(
          longNames := MadePresent(old(nodes[e]).longNames, p.longNames.Some?),
          shortNames := MadePresent(old(nodes[e]).shortNames, p.shortNames.Some?))]
    {
      if nodes[e].kind == Argument {
        var n := nodes[e];
        if p.longNames.Some? {
          if n.longNames.None? {
            n := n.(longNames := Some([]));
          }
          var lhs := MergeNames(n.longNames.value, p.longNames.value);
        }
        if p.shortNames.Some? {
          if n.shortNames.None? {
            n := n.(shortNames := Some([]));
          }
          var lhs := MergeNames(n.shortNames.value, p.shortNames.value);
        }
        nodes := nodes[e := n];
      }
    }

    /** `apply_property(name)` as evidently intended: the merged lists are
        stored, so the entity ends up holding every name it had and every name
        the property carries, the old ones first and in their old order. */
    method ApplyNameMerged(e: nat, p: NameProperty)
      requires Valid() && e < |nodes|
      requires p.longNames.Some? ==> |p.longNames.value| > 0
      requires p.shortNames.Some? ==> |p.shortNames.value| > 0
      modifies this
      ensures Valid()
      ensures old(nodes[e]).kind != Argument ==> nodes == old(nodes)
      ensures old(nodes[e]).kind == Argument ==>
        |nodes| == old(|nodes|) && (forall j :: 0 <= j < |nodes| && j != e ==> nodes[j] == old(nodes[j]))
        && nodes[e] == old(nodes[e]).(longNames := nodes[e].longNames, shortNames := nodes[e].shortNames)
      ensures old(nodes[e]).kind == Argument && p.longNames.Some? ==>
        var was := if old(nodes[e]).longNames.Some? then old(nodes[e]).longNames.value else [];
        && nodes[e].longNames.Some?
        && nodes[e].longNames.value == was + [p.longNames.value[0]] + Fresh(was + [p.longNames.value[0]], p.longNames.value[1..])
        && |was| < |nodes[e].longNames.value| <= |was| + |p.longNames.value|
        && nodes[e].longNames.value[..|was| + 1] == was + [p.longNames.value[0]]
        && (forall s :: s in nodes[e].longNames.value <==> s in was || s in p.longNames.value)
        && (forall k :: |was| < k < |nodes[e].longNames.value| ==> nodes[e].longNames.value[k] !in nodes[e].longNames.value[..k])
      ensures old(nodes[e]).kind == Argument && p.shortNames.Some? ==>
        var was := if old(nodes[e]).shortNames.Some? then old(nodes[e]).shortNames.value else [];
        && nodes[e].shortNames.Some?
        && nodes[e].shortNames.value == was + [p.shortNames.value[0]] + Fresh(was + [p.shortNames.value[0]], p.shortNames.value[1..])
        && |was| < |nodes[e].shortNames.value| <= |was| + |p.shortNames.value|
        && nodes[e].shortNames.value[..|was| + 1] == was + [p.shortNames.value[0]]
        && (forall c :: c in nodes[e].shortNames.value <==> c in was || c in p.shortNames.value)
        && (forall k :: |was| < k < |nodes[e].shortNames.value| ==> nodes[e].shortNames.value[k] !in nodes[e].shortNames.value[..k])
      ensures old(nodes[e]).kind == Argument && p.longNames.None? ==> nodes[e].longNames == old(nodes[e]).longNames
      ensures old(nodes[e]).kind == Argument && p.shortNames.None? ==> nodes[e].shortNames == old(nodes[e]).shortNames
    {
      if nodes[e].kind == Argument {
        var n := nodes[e];
        if p.longNames.Some? {
          var was := if n.longNames.Some? then n.longNames.value else [];
          var merged := MergeNames(was, p.longNames.value);
          n := n.(longNames := Some(merged));
        }
        if p.shortNames.Some? {
          var was := if n.shortNames.Some? then n.shortNames.value else [];
          var merged := MergeNames(was, p.shortNames.value);
          n := n.(shortNames := Some(merged));
        }
        nodes := nodes[e := n];
      }
    }

    /** `apply_property(default_values)` as written: on an ARGUMENT, when the
        property carries values the field is made present; the values are
        appended to a local copy only. */
    method ApplyDefaultValues(e: nat, p: Option<seq<string>>)
      requires Valid() && e < |nodes|
      modifies this
      ensures Valid()
      ensures old(nodes[e]).kind != Argument ==> nodes == old(nodes)
      ensures old(nodes[e]).kind == Argument ==>
        nodes == old(nodes)[e := old(nodes[e]).(defaultValues := MadePresent(old(nodes[e]).defaultValues, p.Some?))]
    {
      if nodes[e].kind == Argument && p.Some? {
        var n := nodes[e];
        if n.defaultValues.None? {
          n := n.(defaultValues := Some([]));
        }
        var lhs := n.defaultValues.value + p.value;
        nodes := nodes[e := n];
      }
    }

    /** `apply_property(default_values)` as evidently intended: the values are
        appended to the stored list. */
    method ApplyDefaultValuesAppended(e: nat, p: Option<seq<string>>)
      requires Valid() && e < |nodes|
      modifies this
      ensures Valid()
      ensures old(nodes[e]).kind != Argument || p.None? ==> nodes == old(nodes)
      ensures old(nodes[e]).kind == Argument && p.Some? ==>
        var was := if old(nodes[e]).defaultValues.Some? then old(nodes[e]).defaultValues.value else [];
        nodes == old(nodes)[e := old(nodes[e]).(defaultValues := Some(was + p.value))]
    {
      if nodes[e].kind == Argument && p.Some? {
        var was := if nodes[e].defaultValues.Some? then nodes[e].defaultValues.value else [];
        nodes := nodes[e := nodes[e].(defaultValues := Some(was + p.value))];
      }
    }

    /** `apply_property(implicit_values)` as written: the same shape as the
        default values, the appended values again going to a local copy. */
    method ApplyImplicitValues(e: nat, p: Option<seq<string>>)
      requires Valid() && e < |nodes|
      modifies this
      ensures Valid()
      ensures old(nodes[e]).kind != Argument ==> nodes == old(nodes)
      ensures old(nodes[e]).kind == Argument ==>
        nodes == old(nodes)[e := old(nodes[e]).(implicitValues := MadePresent(old(nodes[e]).implicitValues, p.Some?))]
    {
      if nodes[e].kind == Argument && p.Some? {
        var n := nodes[e];
        if n.implicitValues.None? {
          n := n.(implicitValues := Some([]));
        }
        var lhs := n.implicitValues.value + p.value;
        nodes := nodes[e := n];
      }
    }

    /** `apply_property(implicit_values)` as evidently intended. */
    method ApplyImplicitValuesAppended(e: nat, p: Option<seq<string>>)
      requires Valid() && e < |nodes|
      modifies this
      ensures Valid()
      ensures old(nodes[e]).kind != Argument || p.None? ==> nodes == old(nodes)
      ensures old(nodes[e]).kind == Argument && p.Some? ==>
        var was := if old(nodes[e]).implicitValues.Some? then old(nodes[e]).implicitValues.value else [];
        nodes == old(nodes)[e := old(nodes[e]).(implicitValues := Some(was + p.value))]
    {
      if nodes[e].kind == Argument && p.Some? {
        var was := if nodes[e].implicitValues.Some? then nodes[e].implicitValues.value else [];
        nodes := nodes[e := nodes[e].(implicitValues := Some(was + p.value))];
      }
    }

    /** `apply_property(description)`, for an entity of any kind. */
    method ApplyDescription(e: nat, p: Option<string>)
      requires Valid() && e < |nodes|
      modifies this
      ensures Valid()
      ensures p.None? ==> nodes == old(nodes)
      ensures p.Some? ==> nodes == old(nodes)[e := old(nodes[e]).(description := p)]
    {
      if p.Some? {
        nodes := nodes[e := nodes[e].(description := p)];
      }
    }

    method ApplyMinCount(e: nat, p: Option<nat>)
      requires Valid() && e < |nodes|
      modifies this
      ensures Valid()
      ensures p.None? ==> nodes == old(nodes)
      ensures p.Some? ==> nodes == old(nodes)[e := old(nodes[e]).(minCount := p)]
    {
      if p.Some? {
        nodes := nodes[e := nodes[e].(minCount := p)];
      }
    }

    /** `apply_property(max_count)` as written: the count goes to the minimum
        and the maximum is left as it was. */
    method ApplyMaxCount(e: nat, p: Option<nat>)
      requires Valid() && e < |nodes|
      modifies this
      ensures Valid()
      ensures p.None? ==> nodes == old(nodes)
      ensures p.Some? ==> nodes == old(nodes)[e := old(nodes[e]).(minCount := p)]
      ensures nodes[e].maxCount == old(nodes[e]).maxCount
    {
      if p.Some? {
        nodes := nodes[e := nodes[e].(minCount := p)];
      }
    }

    /** `apply_property(max_count)` as evidently intended. */
    method ApplyMaxCountIntended(e: nat, p: Option<nat>)
      requires Valid() && e < |nodes|
      modifies this
      ensures Valid()
      ensures p.None? ==> nodes == old(nodes)
      ensures p.Some? ==> nodes == old(nodes)[e := old(nodes[e]).(maxCount := p)]
      ensures nodes[e].minCount == old(nodes[e]).minCount
    {
      if p.Some? {
        nodes := nodes[e := nodes[e].(maxCount := p)];
      }
    }

    /** The copy constructor `entity(const entity&)`: a deep copy of the
        subtree of `e`, appended to the arena.  It fails (the library's
        `.at(p)` throws) when some copied child has no sibling-group entry. */
    method Copy(e: nat) returns (r: Option<nat>)
      requires Valid() && e < |nodes|
      modifies this
      ensures Valid()
      ensures |nodes| >= old(|nodes|) && nodes[..old(|nodes|)] == old(nodes)
      ensures r.Some? <==> GroupsComplete(old(nodes), e)
      ensures r.Some? ==> r.value == old(|nodes|) && IsCopyOf(old(nodes), nodes, e, r.value, |nodes|)
    {
      r := CopyFrom(e, nodes);
    }

    /** Copy of `e`, an entity of the snapshot `src` that the arena extends. */
    method CopyFrom(e: nat, ghost src: seq<Node>) returns (r: Option<nat>)
      requires Valid() && Forward(src)
      requires e < |src| <= |nodes| && nodes[..|src|] == src
      modifies this
      ensures Valid()
      ensures |nodes| >= old(|nodes|) && nodes[..old(|nodes|)] == old(nodes)
      ensures r.Some? <==> GroupsComplete(src, e)
      ensures r.Some? ==> r.value == old(|nodes|) && IsCopyOf(src, nodes, e, r.value, |nodes|)
      decreases |src| - e
    {
      var n := nodes[e];
      var c := |nodes|;
      var top := n.(implicitValues := None, children := [], childGroups := map[]);
      ForwardPush(nodes, top);
      nodes := nodes + [top];
      assert nodes[..c] == old(nodes) && nodes[..|src|] == old(nodes)[..|src|];
      var i := 0;
      while i < |n.children|
        invariant 0 <= i <= |n.children|
        invariant CopyLoop(src, old(nodes), nodes, e, c, i)
      {
        ghost var before := nodes;
        var child := CopyFrom(n.children[i], src);
        if child.None? || n.children[i] !in n.childGroups {
          CopyAbandon(src, old(nodes), before, nodes, e, c, i);
          return None;
        }
        var cc := child.value;
        var g := n.childGroups[n.children[i]];
        ghost var middle := nodes;
        nodes := nodes[c := nodes[c].(children := nodes[c].children + [cc], childGroups := nodes[c].childGroups[cc := g])];
        CopyLoopStep(src, old(nodes), before, middle, nodes, e, c, i, cc);
        i := i + 1;
      }
      CopyDone(src, old(nodes), nodes, e, c);
      r := Some(c);
    }
  }

  /* Small scenarios, each against the setter as written and as intended.
     The name and implicit-value ones are the steps of the library's test of
     `named(name("first"))` and `implicit_values("implicit")`; the maximum
     count and default-value ones are of the same shape. */

  /** `named(name("first"))` as written: the argument is left with an empty
      long-name list. */
  method NamedFirstAsWritten() returns (a: Arena, e: nat)
    ensures a.Valid() && e < |a.nodes| && a.nodes[e].kind == Argument
    ensures a.nodes[e].longNames == Some([])
  {
    a := new Arena();
    e := a.Create(Argument);
    a.ApplyName(e, NameProperty(Some(["first"]), None));
  }

  /** `named(name("first"))` with the merged names stored: exactly the one
      long name. */
  method NamedFirst() returns (a: Arena, e: nat)
    ensures a.Valid() && e < |a.nodes| && a.nodes[e].kind == Argument
    ensures a.nodes[e].longNames == Some(["first"])
  {
    a := new Arena();
    e := a.Create(Argument);
    a.ApplyNameMerged(e, NameProperty(Some(["first"]), None));
    var names := a.nodes[e].longNames.value;
    assert names[..1] == ["first"] && |names| == 1;
    assert names == names[..1];
  }

  /** `named(name("second"), implicit_values("implicit"))` as written: the
      implicit values are present but empty. */
  method ImplicitSecondAsWritten() returns (a: Arena, e: nat)
    ensures a.Valid() && e < |a.nodes| && a.nodes[e].kind == Argument
    ensures a.nodes[e].implicitValues == Some([])
  {
    a := new Arena();
    e := a.Create(Argument);
    a.ApplyImplicitValues(e, Some(["implicit"]));
  }

  method ImplicitSecond() returns (a: Arena, e: nat)
    ensures a.Valid() && e < |a.nodes| && a.nodes[e].kind == Argument
    ensures a.nodes[e].implicitValues == Some(["implicit"])
  {
    a := new Arena();
    e := a.Create(Argument);
    a.ApplyImplicitValuesAppended(e, Some(["implicit"]));
    assert [] + ["implicit"] == ["implicit"];
  }

  /** `max_count(3)` as written: the maximum stays unset and the minimum
      becomes 3. */
  method MaxCountAsWritten() returns (a: Arena, e: nat)
    ensures a.Valid() && e < |a.nodes|
    ensures a.nodes[e].maxCount == None && a.nodes[e].minCount == Some(3)
  {
    a := new Arena();
    e := a.Create(Argument);
    a.ApplyMaxCount(e, Some(3));
  }

  method MaxCount() returns (a: Arena, e: nat)
    ensures a.Valid() && e < |a.nodes|
    ensures a.nodes[e].maxCount == Some(3) && a.nodes[e].minCount == None
  {
    a := new Arena();
    e := a.Create(Argument);
    a.ApplyMaxCountIntended(e, Some(3));
  }

  /** `default_values(...)` as written: present but empty. */
  method DefaultsAsWritten() returns (a: Arena, e: nat)
    ensures a.Valid() && e < |a.nodes|
    ensures a.nodes[e].defaultValues == Some([])
  {
    a := new Arena();
    e := a.Create(Argument);
    a.ApplyDefaultValues(e, Some(["x"]));
  }

  method Defaults() returns (a: Arena, e: nat)
    ensures a.Valid() && e < |a.nodes|
    ensures a.nodes[e].defaultValues == Some(["x"])
  {
    a := new Arena();
    e := a.Create(Argument);
    a.ApplyDefaultValuesAppended(e, Some(["x"]));
    assert [] + ["x"] == ["x"];
  }
}
