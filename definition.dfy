/** The scheme definition (scheme::definition): validation of the entity tree
    before a parse, and the queries on the values a parse stored. */
module Definition {
  import opened Common
  import opened Entity

  datatype SchemeError =
    | PositionalHasShortNames
    | PositionalHasImplicitValues
    | NamedWithoutNames
    | ArgumentHasNonValueChild
    | ValueHasNonArgumentChild
    | LongNameReused
    | ShortNameReused

  /* ---------------------------------------------------------------------
     Structural validation (validate_entity)
     --------------------------------------------------------------------- */

  /** The first check `validate_entity` makes on entity `i` itself that
      fails, in the order the checks are made. */
  function EntityError(nodes: seq<Node>, i: nat): Option<SchemeError>
    requires Forward(nodes) && i < |nodes|
  {
    var n := nodes[i];
    if n.kind == Argument then
      if n.isPositional == Some(true) && n.shortNames.Some? then Some(PositionalHasShortNames)
      else if n.isPositional == Some(true) && n.implicitValues.Some? then Some(PositionalHasImplicitValues)
      else if n.isPositional != Some(true) && NoNames(n.shortNames) && NoNames(n.longNames) then Some(NamedWithoutNames)
      else if exists k :: 0 <= k < |n.children| && nodes[n.children[k]].kind != Value then Some(ArgumentHasNonValueChild)
      else None
    else if n.kind == Value && exists k :: 0 <= k < |n.children| && nodes[n.children[k]].kind != Argument then
      Some(ValueHasNonArgumentChild)
    else None
  }

  /** A name list that is absent or empty. */
  predicate NoNames<T>(names: Option<seq<T>>) {
    names.None? || |names.value| == 0
  }

  /** What `validate_entity(i)` reports: the first failing entity in
      depth-first pre-order, children in order. */
  ghost function ValidateSpec(nodes: seq<Node>, i: nat): Outcome<SchemeError>
    requires Forward(nodes) && i < |nodes|
    decreases |nodes| - i, 1
  {
    match EntityError(nodes, i)
    case Some(err) => Fail(err)
    case None => ChildrenSpec(nodes, i, 0)
  }

  ghost function ChildrenSpec(nodes: seq<Node>, i: nat, k: nat): Outcome<SchemeError>
    requires Forward(nodes) && i < |nodes| && k <= |nodes[i].children|
    decreases |nodes| - i, 0, |nodes[i].children| - k
  {
    if k == |nodes[i].children| then Pass
    else match ValidateSpec(nodes, nodes[i].children[k])
      case Fail(err) => Fail(err)
      case Pass => ChildrenSpec(nodes, i, k + 1)
  }

  /** Every argument in the subtree has at least one child. */
  ghost predicate Normalized(nodes: seq<Node>, i: nat)
    requires Forward(nodes) && i < |nodes|
    decreases |nodes| - i
  {
    && (nodes[i].kind == Argument ==> |nodes[i].children| > 0)
    && forall k :: 0 <= k < |nodes[i].children| ==> Normalized(nodes, nodes[i].children[k])
  }

  /** The only change validation makes to an entity: a childless argument
      gains one child, a new entity (index at least `lo`). */
  ghost predicate Widened(a: Node, b: Node, lo: nat) {
    && a.kind == Argument && a.children == []
    && |b.children| == 1 && b.children[0] >= lo
    && b == a.(children := b.children)
  }

  /** `b` is `a` after some wildcard insertions: old entities are unchanged or
      widened, and every new entity is a wildcard value. */
  ghost predicate Grown(a: seq<Node>, b: seq<Node>) {
    && |a| <= |b|
    && (forall j :: 0 <= j < |a| ==> b[j] == a[j] || Widened(a[j], b[j], |a|))
    && (forall j :: |a| <= j < |b| ==> b[j] == Wildcard)
  }

  lemma GrownRefl(a: seq<Node>)
    ensures Grown(a, a)
  {
  }

  lemma GrownTrans(a: seq<Node>, b: seq<Node>, c: seq<Node>)
    requires Grown(a, b) && Grown(b, c)
    ensures Grown(a, c)
  {
    forall j | 0 <= j < |a|
      ensures c[j] == a[j] || Widened(a[j], c[j], |a|)
    {
      if b[j] != a[j] {
        assert b[j].children != [];
      }
    }
  }

  /** Every entity of `a` that `e` does not reach is the same in `b`: an
      operation on the subtree of `e` touched nothing else. */
  ghost predicate UnchangedOutside(a: seq<Node>, b: seq<Node>, e: nat) {
    && |a| <= |b|
    && forall j :: 0 <= j < |a| && !Reaches(a, e, j) ==> b[j] == a[j]
  }

  /** Growing adds no path between old entities: a new entity is a wildcard
      without children, and a widened argument's only child is new. */
  lemma {:induction false} IsPathGrown(a: seq<Node>, b: seq<Node>, p: seq<nat>)
    requires Grown(a, b) && IsPath(b, p) && p[0] < |a| && p[|p| - 1] < |a|
    ensures IsPath(a, p)
    decreases |p|
  {
    if |p| > 1 {
      var n := |p| - 1;
      assert p[n] in b[p[n - 1]].children;
      assert p[n - 1] < |a|;
      assert p[n] in a[p[n - 1]].children;
      var q := p[..n];
      assert IsPath(b, q);
      IsPathGrown(a, b, q);
    }
  }

  /** Changes confined to what `e` reaches compose across growth. */
  lemma OutsideTrans(a: seq<Node>, b: seq<Node>, c: seq<Node>, e: nat)
    requires Grown(a, b) && e < |a|
    requires UnchangedOutside(a, b, e) && UnchangedOutside(b, c, e)
    ensures UnchangedOutside(a, c, e)
  {
    forall j | 0 <= j < |a| && !Reaches(a, e, j)
      ensures c[j] == a[j]
    {
      if Reaches(b, e, j) {
        var p :| IsPath(b, p) && p[0] == e && p[|p| - 1] == j;
        IsPathGrown(a, b, p);
      }
    }
  }

  /** Changes confined to what a child `c` of `e` reaches are confined to
      what `e` reaches. */
  lemma OutsideChild(a: seq<Node>, b: seq<Node>, e: nat, c: nat)
    requires e < |a| && c in a[e].children && UnchangedOutside(a, b, c)
    ensures UnchangedOutside(a, b, e)
  {
    forall j | 0 <= j < |a| && Reaches(a, c, j)
      ensures Reaches(a, e, j)
    {
      var p :| IsPath(a, p) && p[0] == c && p[|p| - 1] == j;
      assert IsPath(a, [e] + p);
    }
  }

  /** Appending one wildcard under the childless argument `e`. */
  lemma GrownByWildcard(src: seq<Node>, cur: seq<Node>, e: nat)
    requires Forward(src) && Forward(cur) && Grown(src, cur)
    requires e < |cur| && cur[e].kind == Argument && cur[e].children == []
    ensures var next := (cur + [Wildcard])[e := cur[e].(children := [|cur|])];
      Forward(next) && Grown(src, next) && Grown(cur, next)
  {
    var next := (cur + [Wildcard])[e := cur[e].(children := [|cur|])];
    ForwardPush(cur, Wildcard);
    ForwardAddChild(cur + [Wildcard], e, |cur|, cur[e].childGroups);
    assert cur[e].children + [|cur|] == [|cur|];
    assert next == (cur + [Wildcard])[e := (cur + [Wildcard])[e].(children := (cur + [Wildcard])[e].children + [|cur|], childGroups := cur[e].childGroups)];
    assert Grown(cur, next);
    GrownTrans(src, cur, next);
  }

  lemma EntityErrorGrown(a: seq<Node>, b: seq<Node>, i: nat)
    requires Forward(a) && Forward(b) && Grown(a, b) && i < |a|
    ensures EntityError(b, i) == EntityError(a, i)
  {
    if b[i] == a[i] {
      forall k | 0 <= k < |a[i].children|
        ensures b[a[i].children[k]].kind == a[a[i].children[k]].kind
      {
      }
    } else {
      assert b[b[i].children[0]] == Wildcard;
    }
  }

  lemma NormalizedGrown(a: seq<Node>, b: seq<Node>, i: nat)
    requires Forward(a) && Forward(b) && Grown(a, b) && i < |a| && Normalized(a, i)
    ensures Normalized(b, i)
    decreases |a| - i
  {
    assert b[i] == a[i];
    forall k | 0 <= k < |b[i].children|
      ensures Normalized(b, b[i].children[k])
    {
      NormalizedGrown(a, b, a[i].children[k]);
    }
  }

  lemma NormalizedPrefixGrown(a: seq<Node>, b: seq<Node>, cs: seq<nat>, k: nat)
    requires Forward(a) && Forward(b) && Grown(a, b) && k <= |cs|
    requires forall j :: 0 <= j < k ==> cs[j] < |a| && Normalized(a, cs[j])
    ensures forall j :: 0 <= j < k ==> Normalized(b, cs[j])
  {
    forall j | 0 <= j < k
      ensures Normalized(b, cs[j])
    {
      NormalizedGrown(a, b, cs[j]);
    }
  }

  /** What a loop over the children `cs` of an entity keeps after `k` of
      them: `cur` grew from `start`, the first `keep` entities are untouched
      and the subtrees of the children visited are normalized. */
  ghost predicate VisitedSoFar(start: seq<Node>, cur: seq<Node>, keep: nat, cs: seq<nat>, k: nat) {
    && Forward(start) && Forward(cur) && Grown(start, cur) && k <= |cs|
    && (forall j :: 0 <= j < keep && j < |start| ==> cur[j] == start[j])
    && (forall j :: 0 <= j < k ==> cs[j] < |cur| && Normalized(cur, cs[j]))
  }

  lemma VisitStep(start: seq<Node>, before: seq<Node>, after: seq<Node>, keep: nat, c: nat, cs: seq<nat>, k: nat)
    requires VisitedSoFar(start, before, keep, cs, k) && k < |cs| && cs[k] == c && keep <= c < |before|
    requires Forward(after) && Grown(before, after)
    requires forall j :: 0 <= j < c ==> after[j] == before[j]
    ensures VisitedSoFar(start, after, keep, cs, k)
    ensures Normalized(after, c) ==> VisitedSoFar(start, after, keep, cs, k + 1)
  {
    GrownTrans(start, before, after);
    NormalizedPrefixGrown(before, after, cs, k);
  }

  /** The facts a finished visit of all children of `p` gives. */
  lemma VisitDone(start: seq<Node>, cur: seq<Node>, keep: nat, p: nat, cs: seq<nat>)
    requires VisitedSoFar(start, cur, keep, cs, |cs|) && p < keep && p < |start| && cs == start[p].children
    ensures p < |cur| && cur[p] == start[p]
    ensures forall k :: 0 <= k < |cs| ==> Normalized(cur, cs[k])
    ensures (cur[p].kind == Argument ==> cs != []) ==> Normalized(cur, p)
  {
  }

  /** The validation outcome of each child of `i`, in order. */
  ghost function ChildOutcomes(nodes: seq<Node>, i: nat): seq<Outcome<SchemeError>>
    requires Forward(nodes) && i < |nodes|
  {
    seq(|nodes[i].children|, k requires 0 <= k < |nodes[i].children| => ValidateSpec(nodes, nodes[i].children[k]))
  }

  lemma {:induction false} ChildrenSpecFirstFailure(nodes: seq<Node>, i: nat, k: nat)
    requires Forward(nodes) && i < |nodes| && k <= |nodes[i].children|
    ensures ChildrenSpec(nodes, i, k) == FirstFailure(ChildOutcomes(nodes, i), k)
    decreases |nodes[i].children| - k
  {
    if k < |nodes[i].children| {
      ChildrenSpecFirstFailure(nodes, i, k + 1);
    }
  }

  /* The path characterisation of ValidateSpec. */

  lemma ChildrenPass(nodes: seq<Node>, i: nat, m: nat, k: nat)
    requires Forward(nodes) && i < |nodes| && m <= k < |nodes[i].children|
    requires ChildrenSpec(nodes, i, m).Pass?
    ensures ValidateSpec(nodes, nodes[i].children[k]).Pass?
    decreases k - m
  {
    if m < k {
      ChildrenPass(nodes, i, m + 1, k);
    }
  }

  lemma ChildrenFail(nodes: seq<Node>, i: nat, m: nat) returns (k: nat)
    requires Forward(nodes) && i < |nodes| && m <= |nodes[i].children|
    requires ChildrenSpec(nodes, i, m).Fail?
    ensures m <= k < |nodes[i].children| && ValidateSpec(nodes, nodes[i].children[k]).Fail?
    decreases |nodes[i].children| - m
  {
    if ValidateSpec(nodes, nodes[i].children[m]).Fail? {
      k := m;
    } else {
      k := ChildrenFail(nodes, i, m + 1);
    }
  }

  /** Every entity reachable from an entity that passes has no local error. */
  lemma {:induction false} PassAlongPath(nodes: seq<Node>, p: seq<nat>)
    requires Forward(nodes) && IsPath(nodes, p) && ValidateSpec(nodes, p[0]).Pass?
    ensures EntityError(nodes, p[|p| - 1]).None?
    decreases |p|
  {
    if |p| > 1 {
      var i := p[0];
      var k :| 0 <= k < |nodes[i].children| && nodes[i].children[k] == p[1];
      ChildrenPass(nodes, i, 0, k);
      PassAlongPath(nodes, p[1..]);
    }
  }

  /** A failing entity has a reachable entity with a local error. */
  lemma {:induction false} FailingPath(nodes: seq<Node>, i: nat) returns (p: seq<nat>)
    requires Forward(nodes) && i < |nodes| && ValidateSpec(nodes, i).Fail?
    ensures IsPath(nodes, p) && p[0] == i && EntityError(nodes, p[|p| - 1]).Some?
    decreases |nodes| - i
  {
    if EntityError(nodes, i).Some? {
      p := [i];
    } else {
      var k := ChildrenFail(nodes, i, 0);
      var q := FailingPath(nodes, nodes[i].children[k]);
      p := [i] + q;
      assert p[1..] == q;
    }
  }

  /** Validation of the subtree of `i` passes exactly when no entity
      reachable from `i` fails one of validate_entity's local checks. */
  lemma {:induction false} ValidateSpecIff(nodes: seq<Node>, i: nat)
    requires Forward(nodes) && i < |nodes|
    ensures ValidateSpec(nodes, i).Pass? <==> forall j :: Reaches(nodes, i, j) ==> EntityError(nodes, j).None?
  {
    if ValidateSpec(nodes, i).Pass? {
      forall j | Reaches(nodes, i, j)
        ensures EntityError(nodes, j).None?
      {
        var p :| IsPath(nodes, p) && p[0] == i && p[|p| - 1] == j;
        PassAlongPath(nodes, p);
      }
    } else {
      var p := FailingPath(nodes, i);
      assert Reaches(nodes, i, p[|p| - 1]);
    }
  }

  /** An argument reachable from `i` with a child that is not a value makes
      the validation of `i` fail. */
  lemma ArgumentWithNonValueChildRejected(nodes: seq<Node>, i: nat, j: nat, k: nat)
    requires Forward(nodes) && i < |nodes| && Reaches(nodes, i, j)
    requires nodes[j].kind == Argument && k < |nodes[j].children| && nodes[nodes[j].children[k]].kind != Value
    ensures ValidateSpec(nodes, i).Fail?
  {
    ValidateSpecIff(nodes, i);
    var p :| IsPath(nodes, p) && p[0] == i && p[|p| - 1] == j;
  }

  /** A value reachable from `i` with a child that is not an argument makes
      the validation of `i` fail. */
  lemma ValueWithNonArgumentChildRejected(nodes: seq<Node>, i: nat, j: nat, k: nat)
    requires Forward(nodes) && i < |nodes| && Reaches(nodes, i, j)
    requires nodes[j].kind == Value && k < |nodes[j].children| && nodes[nodes[j].children[k]].kind != Argument
    ensures ValidateSpec(nodes, i).Fail?
  {
    ValidateSpecIff(nodes, i);
    var p :| IsPath(nodes, p) && p[0] == i && p[|p| - 1] == j;
  }

  /** A reachable positional argument that declares short names or implicit
      values makes the validation fail. */
  lemma PositionalWithSwitchAttributesRejected(nodes: seq<Node>, i: nat, j: nat)
    requires Forward(nodes) && i < |nodes| && Reaches(nodes, i, j)
    requires nodes[j].kind == Argument && nodes[j].isPositional == Some(true)
    requires nodes[j].shortNames.Some? || nodes[j].implicitValues.Some?
    ensures ValidateSpec(nodes, i).Fail?
  {
    ValidateSpecIff(nodes, i);
    var p :| IsPath(nodes, p) && p[0] == i && p[|p| - 1] == j;
  }

  /** A reachable named argument with neither long nor short names makes the
      validation fail. */
  lemma NamedWithoutNamesRejected(nodes: seq<Node>, i: nat, j: nat)
    requires Forward(nodes) && i < |nodes| && Reaches(nodes, i, j)
    requires nodes[j].kind == Argument && nodes[j].isPositional != Some(true)
    requires NoNames(nodes[j].longNames) && NoNames(nodes[j].shortNames)
    ensures ValidateSpec(nodes, i).Fail?
  {
    ValidateSpecIff(nodes, i);
    var p :| IsPath(nodes, p) && p[0] == i && p[|p| - 1] == j;
  }

  /** Entity `j` has at least one child, and all its children are values. */
  ghost predicate HasValueChild(nodes: seq<Node>, j: nat)
    requires Forward(nodes) && j < |nodes|
  {
    |nodes[j].children| > 0 && forall k :: 0 <= k < |nodes[j].children| ==> nodes[nodes[j].children[k]].kind == Value
  }

  /** After a validation that passed, every reachable argument has a value
      child, and only value children. */
  lemma {:induction false} ArgumentsHaveValues(nodes: seq<Node>, p: seq<nat>)
    requires Forward(nodes) && IsPath(nodes, p)
    requires ValidateSpec(nodes, p[0]).Pass? && Normalized(nodes, p[0])
    requires nodes[p[|p| - 1]].kind == Argument
    ensures HasValueChild(nodes, p[|p| - 1])
    decreases |p|
  {
    if |p| == 1 {
      var j := p[0];
      assert EntityError(nodes, j).None?;
    } else {
      var i := p[0];
      var k :| 0 <= k < |nodes[i].children| && nodes[i].children[k] == p[1];
      ChildrenPass(nodes, i, 0, k);
      ArgumentsHaveValues(nodes, p[1..]);
    }
  }

  /* ---------------------------------------------------------------------
     Vertical name uniqueness (vertical_name_check)
     --------------------------------------------------------------------- */

  /** The long names an entity claims: those of an ARGUMENT only. */
  function LongsOf(n: Node): seq<string> {
    if n.kind == Argument && n.longNames.Some? then n.longNames.value else []
  }

  function ShortsOf(n: Node): seq<char> {
    if n.kind == Argument && n.shortNames.Some? then n.shortNames.value else []
  }

  /** `vertical_name_check(takenLong, takenShort, i)`: an argument must not
      use a name in the taken lists; its own names are added to copies of
      the lists, which are handed to each child in turn. */
  function VerticalCheck(nodes: seq<Node>, takenLong: seq<string>, takenShort: seq<char>, i: nat): Outcome<SchemeError>
    requires Forward(nodes) && i < |nodes|
    decreases |nodes| - i, 1
  {
    var n := nodes[i];
    if FirstCommon(LongsOf(n), takenLong).Some? then Fail(LongNameReused)
    else if FirstCommon(ShortsOf(n), takenShort).Some? then Fail(ShortNameReused)
    else VerticalChildren(nodes, takenLong + LongsOf(n), takenShort + ShortsOf(n), i, 0)
  }

  function VerticalChildren(nodes: seq<Node>, takenLong: seq<string>, takenShort: seq<char>, i: nat, k: nat): Outcome<SchemeError>
    requires Forward(nodes) && i < |nodes| && k <= |nodes[i].children|
    decreases |nodes| - i, 0, |nodes[i].children| - k
  {
    if k == |nodes[i].children| then Pass
    else match VerticalCheck(nodes, takenLong, takenShort, nodes[i].children[k])
      case Fail(err) => Fail(err)
      case Pass => VerticalChildren(nodes, takenLong, takenShort, i, k + 1)
  }

  /** The names claimed by the entities of a path, in order. */
  ghost function LongsAlong(nodes: seq<Node>, p: seq<nat>): seq<string>
    requires forall k :: 0 <= k < |p| ==> p[k] < |nodes|
  {
    if p == [] then [] else LongsOf(nodes[p[0]]) + LongsAlong(nodes, p[1..])
  }

  ghost function ShortsAlong(nodes: seq<Node>, p: seq<nat>): seq<char>
    requires forall k :: 0 <= k < |p| ==> p[k] < |nodes|
  {
    if p == [] then [] else ShortsOf(nodes[p[0]]) + ShortsAlong(nodes, p[1..])
  }

  /** The last entity of path `p` uses a name that is taken or claimed by an
      entity above it on the path. */
  ghost predicate ClashAtEnd(nodes: seq<Node>, takenLong: seq<string>, takenShort: seq<char>, p: seq<nat>)
    requires IsPath(nodes, p)
  {
    var last := nodes[p[|p| - 1]];
    var above := p[..|p| - 1];
    || (exists s :: s in LongsOf(last) && s in takenLong + LongsAlong(nodes, above))
    || (exists c :: c in ShortsOf(last) && c in takenShort + ShortsAlong(nodes, above))
  }

  lemma AlongCons(nodes: seq<Node>, p: seq<nat>)
    requires IsPath(nodes, p) && |p| > 1
    ensures LongsAlong(nodes, p[..|p| - 1]) == LongsOf(nodes[p[0]]) + LongsAlong(nodes, p[1..][..|p| - 2])
    ensures ShortsAlong(nodes, p[..|p| - 1]) == ShortsOf(nodes[p[0]]) + ShortsAlong(nodes, p[1..][..|p| - 2])
  {
    assert p[..|p| - 1][1..] == p[1..][..|p| - 2];
  }

  lemma VerticalChildrenPass(nodes: seq<Node>, tl: seq<string>, ts: seq<char>, i: nat, m: nat, k: nat)
    requires Forward(nodes) && i < |nodes| && m <= k < |nodes[i].children|
    requires VerticalChildren(nodes, tl, ts, i, m).Pass?
    ensures VerticalCheck(nodes, tl, ts, nodes[i].children[k]).Pass?
    decreases k - m
  {
    if m < k {
      VerticalChildrenPass(nodes, tl, ts, i, m + 1, k);
    }
  }

  lemma VerticalChildrenFail(nodes: seq<Node>, tl: seq<string>, ts: seq<char>, i: nat, m: nat) returns (k: nat)
    requires Forward(nodes) && i < |nodes| && m <= |nodes[i].children|
    requires VerticalChildren(nodes, tl, ts, i, m).Fail?
    ensures m <= k < |nodes[i].children| && VerticalCheck(nodes, tl, ts, nodes[i].children[k]).Fail?
    decreases |nodes[i].children| - m
  {
    if VerticalCheck(nodes, tl, ts, nodes[i].children[m]).Fail? {
      k := m;
    } else {
      k := VerticalChildrenFail(nodes, tl, ts, i, m + 1);
    }
  }

  lemma {:induction false} VerticalPassNoClash(nodes: seq<Node>, tl: seq<string>, ts: seq<char>, p: seq<nat>)
    requires Forward(nodes) && IsPath(nodes, p) && VerticalCheck(nodes, tl, ts, p[0]).Pass?
    ensures !ClashAtEnd(nodes, tl, ts, p)
    decreases |p|
  {
    var n := nodes[p[0]];
    if |p| == 1 {
      assert p[..0] == [];
    } else {
      var k :| 0 <= k < |n.children| && n.children[k] == p[1];
      VerticalChildrenPass(nodes, tl + LongsOf(n), ts + ShortsOf(n), p[0], 0, k);
      VerticalPassNoClash(nodes, tl + LongsOf(n), ts + ShortsOf(n), p[1..]);
      AlongCons(nodes, p);
    }
  }

  lemma {:induction false} VerticalFailClash(nodes: seq<Node>, tl: seq<string>, ts: seq<char>, i: nat) returns (p: seq<nat>)
    requires Forward(nodes) && i < |nodes| && VerticalCheck(nodes, tl, ts, i).Fail?
    ensures IsPath(nodes, p) && p[0] == i && ClashAtEnd(nodes, tl, ts, p)
    decreases |nodes| - i
  {
    var n := nodes[i];
    if FirstCommon(LongsOf(n), tl).Some? || FirstCommon(ShortsOf(n), ts).Some? {
      p := [i];
      assert p[..0] == [];
    } else {
      var k := VerticalChildrenFail(nodes, tl + LongsOf(n), ts + ShortsOf(n), i, 0);
      var q := VerticalFailClash(nodes, tl + LongsOf(n), ts + ShortsOf(n), n.children[k]);
      p := [i] + q;
      assert p[1..] == q;
      AlongCons(nodes, p);
    }
  }

  /** The vertical check of `i` passes exactly when no path down from `i`
      ends in an argument that reuses a taken name or a name of an argument
      above it on that path. */
  lemma VerticalCheckIff(nodes: seq<Node>, tl: seq<string>, ts: seq<char>, i: nat)
    requires Forward(nodes) && i < |nodes|
    ensures VerticalCheck(nodes, tl, ts, i).Pass? <==>
      forall p :: IsPath(nodes, p) && p[0] == i ==> !ClashAtEnd(nodes, tl, ts, p)
  {
    if VerticalCheck(nodes, tl, ts, i).Pass? {
      forall p | IsPath(nodes, p) && p[0] == i
        ensures !ClashAtEnd(nodes, tl, ts, p)
      {
        VerticalPassNoClash(nodes, tl, ts, p);
      }
    } else {
      var p := VerticalFailClash(nodes, tl, ts, i);
    }
  }

  lemma {:induction false} LongsAlongMember(nodes: seq<Node>, p: seq<nat>, s: string)
    requires forall k :: 0 <= k < |p| ==> p[k] < |nodes|
    ensures s in LongsAlong(nodes, p) <==> exists a :: 0 <= a < |p| && s in LongsOf(nodes[p[a]])
  {
    if p != [] {
      LongsAlongMember(nodes, p[1..], s);
      if s in LongsAlong(nodes, p[1..]) {
        var a :| 0 <= a < |p| - 1 && s in LongsOf(nodes[p[1..][a]]);
        assert s in LongsOf(nodes[p[a + 1]]);
      }
      if exists a :: 0 <= a < |p| && s in LongsOf(nodes[p[a]]) {
        var a :| 0 <= a < |p| && s in LongsOf(nodes[p[a]]);
        if a > 0 {
          assert s in LongsOf(nodes[p[1..][a - 1]]);
        }
      }
    }
  }

  lemma {:induction false} ShortsAlongMember(nodes: seq<Node>, p: seq<nat>, c: char)
    requires forall k :: 0 <= k < |p| ==> p[k] < |nodes|
    ensures c in ShortsAlong(nodes, p) <==> exists a :: 0 <= a < |p| && c in ShortsOf(nodes[p[a]])
  {
    if p != [] {
      ShortsAlongMember(nodes, p[1..], c);
      if c in ShortsAlong(nodes, p[1..]) {
        var a :| 0 <= a < |p| - 1 && c in ShortsOf(nodes[p[1..][a]]);
        assert c in ShortsOf(nodes[p[a + 1]]);
      }
      if exists a :: 0 <= a < |p| && c in ShortsOf(nodes[p[a]]) {
        var a :| 0 <= a < |p| && c in ShortsOf(nodes[p[a]]);
        if a > 0 {
          assert c in ShortsOf(nodes[p[1..][a - 1]]);
        }
      }
    }
  }

  /** Two arguments share a long name or a short name. */
  predicate SharesName(m: Node, n: Node) {
    (exists s :: s in LongsOf(m) && s in LongsOf(n)) || (exists c :: c in ShortsOf(m) && c in ShortsOf(n))
  }

  /** Some argument below `i` shares a name with an argument above it on the
      same downward path. */
  ghost predicate AncestorShares(nodes: seq<Node>, i: nat) {
    exists p, a :: IsPath(nodes, p) && p[0] == i && 0 <= a < |p| - 1 && SharesName(nodes[p[a]], nodes[p[|p| - 1]])
  }

  /** A clash at the end of a path starting from empty lists is a name the
      last argument shares with one above it. */
  lemma ClashShares(nodes: seq<Node>, i: nat, p: seq<nat>)
    requires Forward(nodes) && i < |nodes|
    requires IsPath(nodes, p) && p[0] == i && ClashAtEnd(nodes, [], [], p)
    ensures AncestorShares(nodes, i)
  {
    var last := nodes[p[|p| - 1]];
    var above := p[..|p| - 1];
    if s :| s in LongsOf(last) && s in LongsAlong(nodes, above) {
      LongsAlongMember(nodes, above, s);
      var a :| 0 <= a < |above| && s in LongsOf(nodes[above[a]]);
      assert SharesName(nodes[p[a]], last);
    } else {
      var c :| c in ShortsOf(last) && c in ShortsAlong(nodes, above);
      ShortsAlongMember(nodes, above, c);
      var a :| 0 <= a < |above| && c in ShortsOf(nodes[above[a]]);
      assert SharesName(nodes[p[a]], last);
    }
  }

  /** Every name of an argument above the end of a path is among the names
      collected along it, so a path without a clash shares no name. */
  lemma NoClashNoShare(nodes: seq<Node>, p: seq<nat>, a: nat)
    requires IsPath(nodes, p) && 0 <= a < |p| - 1 && !ClashAtEnd(nodes, [], [], p)
    ensures !SharesName(nodes[p[a]], nodes[p[|p| - 1]])
  {
    var above := p[..|p| - 1];
    forall s | s in LongsOf(nodes[p[a]]) ensures s in LongsAlong(nodes, above) {
      LongsAlongMember(nodes, above, s);
      assert above[a] == p[a];
    }
    forall c | c in ShortsOf(nodes[p[a]]) ensures c in ShortsAlong(nodes, above) {
      ShortsAlongMember(nodes, above, c);
      assert above[a] == p[a];
    }
  }

  /** With nothing taken at the start (as `validate` calls it), the vertical
      check fails exactly when an argument reuses a name of one of its
      ancestors.  Names repeated on different branches are never compared. */
  lemma VerticalCheckFailsIffAncestorShares(nodes: seq<Node>, i: nat)
    requires Forward(nodes) && i < |nodes|
    ensures VerticalCheck(nodes, [], [], i).Fail? <==> AncestorShares(nodes, i)
  {
    VerticalCheckIff(nodes, [], [], i);
    if VerticalCheck(nodes, [], [], i).Fail? {
      var p :| IsPath(nodes, p) && p[0] == i && ClashAtEnd(nodes, [], [], p);
      ClashShares(nodes, i, p);
    } else {
      forall p, a | IsPath(nodes, p) && p[0] == i && 0 <= a < |p| - 1
        ensures !SharesName(nodes[p[a]], nodes[p[|p| - 1]])
      {
        NoClashNoShare(nodes, p, a);
      }
    }
  }

  lemma {:induction false} VerticalGrown(a: seq<Node>, b: seq<Node>, tl: seq<string>, ts: seq<char>, i: nat)
    requires Forward(a) && Forward(b) && Grown(a, b) && i < |a|
    ensures VerticalCheck(b, tl, ts, i) == VerticalCheck(a, tl, ts, i)
    decreases |a| - i, 1
  {
    if b[i] == a[i] {
      VerticalChildrenGrown(a, b, tl + LongsOf(a[i]), ts + ShortsOf(a[i]), i, 0);
    } else {
      var w := b[i].children[0];
      var tl', ts' := tl + LongsOf(a[i]), ts + ShortsOf(a[i]);
      assert LongsOf(b[i]) == LongsOf(a[i]) && ShortsOf(b[i]) == ShortsOf(a[i]);
      assert b[w] == Wildcard && b[w].children == [];
      assert VerticalChildren(b, tl', ts', w, 0) == Pass;
      assert VerticalCheck(b, tl', ts', w) == Pass;
      assert VerticalChildren(b, tl', ts', i, 1) == Pass;
      assert VerticalChildren(b, tl', ts', i, 0) == Pass;
      assert VerticalChildren(a, tl', ts', i, 0) == Pass;
    }
  }

  lemma {:induction false} VerticalChildrenGrown(a: seq<Node>, b: seq<Node>, tl: seq<string>, ts: seq<char>, i: nat, k: nat)
    requires Forward(a) && Forward(b) && Grown(a, b) && i < |a| && b[i] == a[i] && k <= |a[i].children|
    ensures VerticalChildren(b, tl, ts, i, k) == VerticalChildren(a, tl, ts, i, k)
    decreases |a| - i, 0, |a[i].children| - k
  {
    if k < |a[i].children| {
      VerticalGrown(a, b, tl, ts, a[i].children[k]);
      VerticalChildrenGrown(a, b, tl, ts, i, k + 1);
    }
  }

  /* ---------------------------------------------------------------------
     The whole scheme (validate)
     --------------------------------------------------------------------- */

  /** What `validate()` reports for one child `c` of the root: its
      structural validation, then its vertical name check. */
  ghost function TopSpec(nodes: seq<Node>, c: nat): Outcome<SchemeError>
    requires Forward(nodes) && c < |nodes|
  {
    match ValidateSpec(nodes, c)
    case Fail(err) => Fail(err)
    case Pass => VerticalCheck(nodes, [], [], c)
  }

  /** The first failure among `outs[k..]`, or Pass when there is none. */
  function FirstFailure<E>(outs: seq<Outcome<E>>, k: nat): Outcome<E>
    requires k <= |outs|
    decreases |outs| - k
  {
    if k == |outs| then Pass
    else if outs[k].Fail? then outs[k]
    else FirstFailure(outs, k + 1)
  }

  /** What `validate()` finds for each child of the root, in order. */
  ghost function TopOutcomes(nodes: seq<Node>, root: nat): seq<Outcome<SchemeError>>
    requires Forward(nodes) && root < |nodes|
  {
    seq(|nodes[root].children|, k requires 0 <= k < |nodes[root].children| => TopSpec(nodes, nodes[root].children[k]))
  }

  /** What `validate()` reports: the first failure among the root's
      children `k` onwards, checked in turn. */
  ghost function ValidateFrom(nodes: seq<Node>, root: nat, k: nat): Outcome<SchemeError>
    requires Forward(nodes) && root < |nodes| && k <= |nodes[root].children|
  {
    FirstFailure(TopOutcomes(nodes, root), k)
  }

  /** No entity under `c` fails a local check and no argument under `c`
      reuses the name of an argument above it. */
  ghost predicate TopClean(nodes: seq<Node>, c: nat)
    requires Forward(nodes) && c < |nodes|
  {
    && (forall j :: Reaches(nodes, c, j) ==> EntityError(nodes, j).None?)
    && !AncestorShares(nodes, c)
  }

  lemma TopSpecIff(nodes: seq<Node>, c: nat)
    requires Forward(nodes) && c < |nodes|
    ensures TopSpec(nodes, c).Pass? <==> TopClean(nodes, c)
  {
    ValidateSpecIff(nodes, c);
    VerticalCheckFailsIffAncestorShares(nodes, c);
  }

  /** A scheme is accepted exactly when, below every child of the root, no
      entity fails a local check and no argument reuses an ancestor's name.
      The root itself is not checked, and different children of the root are
      checked independently. */
  lemma {:induction false} ValidateFromIff(nodes: seq<Node>, root: nat, k: nat)
    requires Forward(nodes) && root < |nodes| && k <= |nodes[root].children|
    ensures ValidateFrom(nodes, root, k).Pass? <==>
      forall m :: k <= m < |nodes[root].children| ==> TopClean(nodes, nodes[root].children[m])
    decreases |nodes[root].children| - k
  {
    if k < |nodes[root].children| {
      TopSpecIff(nodes, nodes[root].children[k]);
      ValidateFromIff(nodes, root, k + 1);
    }
  }

  /* ---------------------------------------------------------------------
     Stored values and their lookup
     --------------------------------------------------------------------- */

  /** A lookup key: a long name or a short name. */
  datatype Key = Long(name: string) | Short(c: char)

  /** One stored result: an entity and the values matched for it. */
  datatype Entry = Entry(entity: nat, values: seq<string>)

  datatype LookupError =
    | NotFound(key: Key)
    | NoValues(key: Key)
    | IndexOutOfBounds(key: Key, index: nat)
    | ReadPastEnd(key: Key, index: nat)    // the read of an index past the end

  /** `entity::name_matches`: the key is one of the entity's long names (or
      short names). */
  predicate NameMatches(nodes: seq<Node>, e: nat, key: Key) {
    && e < |nodes|
    && match key
       case Long(s) => nodes[e].longNames.Some? && s in nodes[e].longNames.value
       case Short(c) => nodes[e].shortNames.Some? && c in nodes[e].shortNames.value
  }

  /** The first stored entry whose entity answers to `key`. */
  function EntryFor(values: seq<Entry>, nodes: seq<Node>, key: Key): Option<nat> {
    FirstIndex(values, (en: Entry) => NameMatches(nodes, en.entity, key))
  }

  class Definition {
    const arena: Arena
    var root: nat
    var values: seq<Entry>
    var longPrefixes: seq<string>
    var shortPrefixes: seq<string>
    var parsed: bool

    ghost predicate Valid()
      reads this, arena
    {
      arena.Valid() && root < |arena.nodes|
    }

    /** A definition holds a root entity of kind NONE and nothing else. */
    constructor ()
      ensures Valid() && fresh(arena)
      ensures arena.nodes == [Blank(NoKind)] && root == 0
      ensures values == [] && !parsed
      ensures longPrefixes == ["--"] && shortPrefixes == ["-"]
    {
      var a := new Arena();
      var r := a.Create(NoKind);
      arena := a;
      root := r;
      values := [];
      longPrefixes := ["--"];
      shortPrefixes := ["-"];
      parsed := false;
    }

    /** The checks `validate_entity(e)` makes on `e` itself, with the loops
        over its children; nothing is changed. */
    method CheckEntity(e: nat) returns (err: Option<SchemeError>)
      requires arena.Valid() && e < |arena.nodes|
      ensures err == EntityError(arena.nodes, e)
    {
      var n := arena.nodes[e];
      if n.kind == Argument {
        if n.isPositional == Some(true) {
          if n.shortNames.Some? {
            return Some(PositionalHasShortNames);
          }
          if n.implicitValues.Some? {
            return Some(PositionalHasImplicitValues);
          }
        } else {
          var shortUndefined := n.shortNames.None? || |n.shortNames.value| == 0;
          var longUndefined := n.longNames.None? || |n.longNames.value| == 0;
          if shortUndefined && longUndefined {
            return Some(NamedWithoutNames);
          }
        }
        var k := 0;
        while k < |n.children|
          invariant k <= |n.children|
          invariant forall j :: 0 <= j < k ==> arena.nodes[n.children[j]].kind == Value
        {
          if arena.nodes[n.children[k]].kind != Value {
            return Some(ArgumentHasNonValueChild);
          }
          k := k + 1;
        }
      } else if n.kind == Value {
        var k := 0;
        while k < |n.children|
          invariant k <= |n.children|
          invariant forall j :: 0 <= j < k ==> arena.nodes[n.children[j]].kind == Argument
        {
          if arena.nodes[n.children[k]].kind != Argument {
            return Some(ValueHasNonArgumentChild);
          }
          k := k + 1;
        }
      }
      return None;
    }

    /** The "implicitly allow any value" step: a new value entity accepting
        any value is pushed as the only child of the childless argument `e`. */
    method AddAnyValue(e: nat, ghost src: seq<Node>)
      requires arena.Valid() && Forward(src) && Grown(src, arena.nodes)
      requires e < |arena.nodes| && arena.nodes[e].kind == Argument && arena.nodes[e].children == []
      modifies arena
      ensures arena.nodes == (old(arena.nodes) + [Wildcard])[e := old(arena.nodes[e]).(children := [old(|arena.nodes|)])]
      ensures arena.Valid() && Grown(src, arena.nodes) && Grown(old(arena.nodes), arena.nodes)
      ensures UnchangedOutside(old(arena.nodes), arena.nodes, e)
    {
      assert IsPath(arena.nodes, [e]);
      GrownByWildcard(src, arena.nodes, e);
      var w := arena.Create(Value);
      arena.SetAny(w);
      assert arena.nodes[w] == Wildcard;
      assert arena.nodes[e].children + [w] == [w];
      arena.nodes := arena.nodes[e := arena.nodes[e].(children := arena.nodes[e].children + [w])];
    }

    /** `validate_entity(e)` on an arena grown from the snapshot `src`:
        checks the subtree of `e`, appending a value that accepts anything
        to every childless argument it passes through. */
    method ValidateEntity(e: nat, ghost src: seq<Node>) returns (r: Outcome<SchemeError>)
      requires arena.Valid() && Forward(src) && Grown(src, arena.nodes) && e < |arena.nodes|
      modifies arena
      ensures arena.Valid() && Grown(src, arena.nodes) && Grown(old(arena.nodes), arena.nodes)
      ensures forall j :: 0 <= j < e ==> arena.nodes[j] == old(arena.nodes[j])
      ensures UnchangedOutside(old(arena.nodes), arena.nodes, e)
      ensures r == if e < |src| then ValidateSpec(src, e) else Pass
      ensures r.Pass? ==> Normalized(arena.nodes, e)
      ensures Normalized(old(arena.nodes), e) ==> arena.nodes == old(arena.nodes)
      decreases if e < |src| then |src| - e else 0, 1
    {
      GrownRefl(arena.nodes);
      if e < |src| {
        EntityErrorGrown(src, arena.nodes, e);
      }
      var err := CheckEntity(e);
      if err.Some? {
        return Fail(err.value);
      }
      ghost var start := arena.nodes;
      assert UnchangedOutside(start, start, e);
      if arena.nodes[e].kind == Argument && arena.nodes[e].children == [] {
        // Every child is a value here, so "no value child" means no child.
        AddAnyValue(e, src);
      }
      ghost var mid := arena.nodes;
      r := ValidateChildren(e, src);
      GrownTrans(start, mid, arena.nodes);
      OutsideTrans(start, mid, arena.nodes, e);
    }

    /** The final loop of `validate_entity(e)`: each child is validated in
        turn, stopping at the first failure. */
    method ValidateChildren(e: nat, ghost src: seq<Node>) returns (r: Outcome<SchemeError>)
      requires arena.Valid() && Forward(src) && Grown(src, arena.nodes) && e < |arena.nodes|
      requires arena.nodes[e].kind == Argument ==> arena.nodes[e].children != []
      modifies arena
      ensures arena.Valid() && Grown(src, arena.nodes) && Grown(old(arena.nodes), arena.nodes)
      ensures forall j :: 0 <= j <= e ==> arena.nodes[j] == old(arena.nodes[j])
      ensures UnchangedOutside(old(arena.nodes), arena.nodes, e)
      ensures r == if e < |src| then ChildrenSpec(src, e, 0) else Pass
      ensures r.Pass? ==> Normalized(arena.nodes, e)
      ensures Normalized(old(arena.nodes), e) ==> arena.nodes == old(arena.nodes)
      decreases if e < |src| then |src| - e else 0, 0
    {
      ghost var start := arena.nodes;
      ghost var wasNormalized := Normalized(start, e);
      var children := arena.nodes[e].children;
      ghost var same := e < |src| && start[e] == src[e];
      assert e < |src| && !same ==> src[e].children == [] && |children| == 1 && children[0] >= |src|;
      ghost var outs := if same then ChildOutcomes(src, e) else seq(|children|, _ => Pass);
      if e < |src| {
        ChildrenSpecFirstFailure(src, e, 0);
      }
      GrownRefl(start);
      var k := 0;
      while k < |children|
        invariant arena.Valid() && Grown(src, arena.nodes)
        invariant VisitedSoFar(start, arena.nodes, e + 1, children, k)
        invariant FirstFailure(outs, k) == FirstFailure(outs, 0)
        invariant wasNormalized ==> arena.nodes == start
        invariant UnchangedOutside(start, arena.nodes, e)
      {
        ghost var before := arena.nodes;
        r := ValidateEntity(children[k], src);
        VisitStep(start, before, arena.nodes, e + 1, children[k], children, k);
        OutsideChild(before, arena.nodes, e, children[k]);
        OutsideTrans(start, before, arena.nodes, e);
        if r.Fail? {
          return;
        }
        k := k + 1;
      }
      VisitDone(start, arena.nodes, e + 1, e, children);
      r := Pass;
    }

    /** One iteration of `validate()`: the structural validation of the
        root's child `c`, then its vertical name check. */
    method ValidateTop(c: nat, ghost src: seq<Node>) returns (r: Outcome<SchemeError>)
      requires arena.Valid() && Forward(src) && Grown(src, arena.nodes) && c < |src|
      modifies arena
      ensures arena.Valid() && Grown(old(arena.nodes), arena.nodes)
      ensures forall j :: 0 <= j < c ==> arena.nodes[j] == old(arena.nodes[j])
      ensures UnchangedOutside(old(arena.nodes), arena.nodes, c)
      ensures r == TopSpec(src, c)
      ensures r.Pass? ==> Normalized(arena.nodes, c)
    {
      r := ValidateEntity(c, src);
      if r.Pass? {
        VerticalGrown(src, arena.nodes, [], [], c);
        r := VerticalCheck(arena.nodes, [], [], c);
      }
    }

    /** `validate()`: each child of the root is validated, then checked for
        vertical name reuse, stopping at the first failure. */
    method Validate() returns (r: Outcome<SchemeError>)
      requires Valid()
      modifies arena
      ensures Valid() && Grown(old(arena.nodes), arena.nodes)
      ensures arena.nodes[root] == old(arena.nodes[root]) && UnchangedOutside(old(arena.nodes), arena.nodes, root)
      ensures r == ValidateFrom(old(arena.nodes), root, 0)
      ensures r.Pass? ==> forall k :: 0 <= k < |arena.nodes[root].children| ==> Normalized(arena.nodes, arena.nodes[root].children[k])
    {
      ghost var src := arena.nodes;
      ghost var outs := TopOutcomes(src, root);
      GrownRefl(src);
      var children := arena.nodes[root].children;
      var k := 0;
      while k < |children|
        invariant arena.Valid() && root < |arena.nodes|
        invariant VisitedSoFar(src, arena.nodes, root + 1, children, k)
        invariant FirstFailure(outs, k) == FirstFailure(outs, 0)
        invariant UnchangedOutside(src, arena.nodes, root)
      {
        ghost var before := arena.nodes;
        r := ValidateTop(children[k], src);
        VisitStep(src, before, arena.nodes, root + 1, children[k], children, k);
        OutsideChild(before, arena.nodes, root, children[k]);
        OutsideTrans(src, before, arena.nodes, root);
        if r.Fail? {
          return;
        }
        k := k + 1;
      }
      VisitDone(src, arena.nodes, root + 1, root, children);
      r := Pass;
    }

    /** `parse(args)`: a definition that was parsed already is left alone;
        otherwise the scheme is validated before the matcher runs.  The
        matcher itself is not part of this model. */
    method Parse(args: seq<string>) returns (r: Outcome<SchemeError>)
      requires Valid()
      modifies arena
      ensures Valid() && Grown(old(arena.nodes), arena.nodes)
      ensures arena.nodes[root] == old(arena.nodes[root]) && UnchangedOutside(old(arena.nodes), arena.nodes, root)
      ensures old(parsed) ==> r == Pass && arena.nodes == old(arena.nodes)
      ensures !old(parsed) ==> r == ValidateFrom(old(arena.nodes), root, 0)
    {
      if parsed {
        GrownRefl(arena.nodes);
        return Pass;
      }
      r := Validate();
    }

    function IsLongPrefix(s: string): (r: bool)
      reads this
      ensures r <==> s in longPrefixes
    {
      FirstIndex(longPrefixes, (p: string) => p == s).Some?
    }

    function IsShortPrefix(s: string): (r: bool)
      reads this
      ensures r <==> s in shortPrefixes
    {
      FirstIndex(shortPrefixes, (p: string) => p == s).Some?
    }

    /** `operator[]`: the values of the first entry whose entity answers to
        the key, or no values at all. */
    method Get(key: Key) returns (r: seq<string>)
      ensures r == match EntryFor(values, arena.nodes, key)
                   case Some(k) => values[k].values
                   case None => []
    {
      var k := 0;
      while k < |values|
        invariant k <= |values|
        invariant forall j :: 0 <= j < k ==> !NameMatches(arena.nodes, values[j].entity, key)
      {
        if NameMatches(arena.nodes, values[k].entity, key) {
          return values[k].values;
        }
        k := k + 1;
      }
      return [];
    }

    /** `operator()(key)`: the last value of the first entry answering to the
        key; "has no values" when that entry is empty, "not found" when no
        entry answers. */
    method Last(key: Key) returns (r: Result<string, LookupError>)
      ensures r == match EntryFor(values, arena.nodes, key)
                   case None => Err(NotFound(key))
                   case Some(k) =>
                     if |values[k].values| > 0 then Ok(values[k].values[|values[k].values| - 1])
                     else Err(NoValues(key))
    {
      var k := 0;
      while k < |values|
        invariant k <= |values|
        invariant forall j :: 0 <= j < k ==> !NameMatches(arena.nodes, values[j].entity, key)
      {
        if NameMatches(arena.nodes, values[k].entity, key) {
          var vs := values[k].values;
          if |vs| > 0 {
            return Ok(vs[|vs| - 1]);
          } else {
            return Err(NoValues(key));
          }
        }
        k := k + 1;
      }
      return Err(NotFound(key));
    }

    /** `operator()(key, idx)` as written: the guard is inverted, so every
        index inside the list is refused as out of bounds and only an index
        past the end gets to the read. */
    method AtAsWritten(key: Key, idx: nat) returns (r: Result<string, LookupError>)
      ensures r == match EntryFor(values, arena.nodes, key)
                   case None => Err(NotFound(key))
                   case Some(k) =>
                     if |values[k].values| < idx then Err(ReadPastEnd(key, idx))
                     else Err(IndexOutOfBounds(key, idx))
      ensures !r.Ok?
    {
      var k := 0;
      while k < |values|
        invariant k <= |values|
        invariant forall j :: 0 <= j < k ==> !NameMatches(arena.nodes, values[j].entity, key)
      {
        if NameMatches(arena.nodes, values[k].entity, key) {
          if |values[k].values| < idx {
            return Err(ReadPastEnd(key, idx));
          } else {
            return Err(IndexOutOfBounds(key, idx));
          }
        }
        k := k + 1;
      }
      return Err(NotFound(key));
    }

    /** `operator()(key, idx)` as evidently intended: the value at `idx` of
        the first entry answering to the key. */
    method At(key: Key, idx: nat) returns (r: Result<string, LookupError>)
      ensures r.Ok? <==> exists k :: EntryFor(values, arena.nodes, key) == Some(k) && idx < |values[k].values|
      ensures r.Ok? ==> exists k :: EntryFor(values, arena.nodes, key) == Some(k) && r.value == values[k].values[idx]
      ensures EntryFor(values, arena.nodes, key).None? ==> r == Err(NotFound(key))
      ensures EntryFor(values, arena.nodes, key).Some? && !r.Ok? ==> r == Err(IndexOutOfBounds(key, idx))
    {
      var k := 0;
      while k < |values|
        invariant k <= |values|
        invariant forall j :: 0 <= j < k ==> !NameMatches(arena.nodes, values[j].entity, key)
      {
        if NameMatches(arena.nodes, values[k].entity, key) {
          if idx < |values[k].values| {
            return Ok(values[k].values[idx]);
          } else {
            return Err(IndexOutOfBounds(key, idx));
          }
        }
        k := k + 1;
      }
      return Err(NotFound(key));
    }
  }
}
