/**
 * IAMC-style hierarchical variable names such as `Final Energy|Industry|Gases`:
 * the levels of a name are separated by a one-character separator, and the
 * aggregate of a name is a shorter name it extends.
 */
module VarUtils {
  import opened Results
  import opened Seqs
  import opened Strings

  /** `a` is an ancestor of `v`: `v` continues `a` with a separator and at least one more level. */
  predicate IsAncestor(a: string, v: string, sep: char) {
    |a| < |v| && v[..|a|] == a && v[|a|] == sep
  }

  /** The name with its last level removed: everything before the last separator. */
  function Parent(v: string, sep: char): string
    requires sep in v
  {
    v[..LastIndexOf(v, sep)]
  }

  /** The parent is the longest ancestor: the rest of the name after it holds no separator. */
  lemma ParentIsLongestAncestor(v: string, sep: char, a: string)
    requires sep in v
    ensures IsAncestor(Parent(v, sep), v, sep)
    ensures IsAncestor(a, v, sep) ==> |a| <= |Parent(v, sep)|
    ensures IsAncestor(a, v, sep) && sep !in v[|a| + 1..] ==> a == Parent(v, sep)
  {
    var p := LastIndexOf(v, sep);
    if IsAncestor(a, v, sep) {
      if sep !in v[|a| + 1..] {
        LastIndexUnique(v, sep, p, |a|);
      }
    }
  }

  /** Dropping the last part of a split name leaves the name's parent. */
  lemma {:induction false} JoinInitIsParent(v: string, sep: char)
    requires sep in v
    ensures |Split(v, sep)| >= 2
    ensures Join(Split(v, sep)[..|Split(v, sep)| - 1], sep) == Parent(v, sep)
  {
    CountZero(v, sep);
    InitIsParent(Split(v, sep), sep);
  }

  /** For separator-free parts, the join of all but the last is the parent of the join of all. */
  lemma InitIsParent(parts: seq<string>, sep: char)
    requires |parts| >= 2 && forall i :: 0 <= i < |parts| ==> sep !in parts[i]
    ensures sep in Join(parts, sep) && Parent(Join(parts, sep), sep) == Join(parts[..|parts| - 1], sep)
  {
    var n := |parts|;
    JoinLast(parts, sep);
    ParentOfJoin(Join(parts, sep), sep, Join(parts[..n - 1], sep), parts[n - 1]);
  }

  /** The last part follows the join of the others after one separator. */
  lemma {:induction false} JoinLast(parts: seq<string>, sep: char)
    requires |parts| >= 2
    ensures Join(parts, sep) == Join(parts[..|parts| - 1], sep) + [sep] + parts[|parts| - 1]
    decreases |parts|
  {
    var init := parts[..|parts| - 1];
    if |parts| == 2 {
      assert init == [parts[0]];
    } else {
      JoinLast(parts[1..], sep);
      assert parts[1..][..|parts| - 2] == init[1..];
      assert Join(init, sep) == parts[0] + [sep] + Join(init[1..], sep);
    }
  }

  /** A name that ends with a separator and a separator-free level has the part before as its parent. */
  lemma ParentOfJoin(v: string, sep: char, init: string, last: string)
    requires v == init + [sep] + last && sep !in last
    ensures sep in v && Parent(v, sep) == init
  {
    assert v[|init|] == sep;
    assert v[|init| + 1..] == last;
    LastIndexUnique(v, sep, LastIndexOf(v, sep), |init|);
  }

  /** The ancestors of a name are exactly the joins of the proper prefixes of its parts. */
  lemma AncestorIsLevel(v: string, sep: char, a: string)
    ensures IsAncestor(a, v, sep) <==>
      exists k :: 1 <= k < |Split(v, sep)| && Join(Split(v, sep)[..k], sep) == a
  {
    var parts := Split(v, sep);
    if IsAncestor(a, v, sep) {
      SeparatorEndsLevel(v, sep, |a|);
    }
    if exists k :: 1 <= k < |parts| && Join(parts[..k], sep) == a {
      var k :| 1 <= k < |parts| && Join(parts[..k], sep) == a;
      LevelIsAncestor(parts, k, sep);
    }
  }

  /** The join of a proper prefix of the parts is an ancestor of the join of all of them. */
  lemma LevelIsAncestor(parts: seq<string>, k: nat, sep: char)
    requires 1 <= k < |parts|
    ensures IsAncestor(Join(parts[..k], sep), Join(parts, sep), sep)
  {
    JoinAt(parts, k, sep);
  }

  /** Deeper levels are longer names. */
  lemma LevelsGrow(parts: seq<string>, k: nat, j: nat, sep: char)
    requires 1 <= k < j <= |parts|
    ensures |Join(parts[..k], sep)| < |Join(parts[..j], sep)|
  {
    assert parts[..j][..k] == parts[..k];
    LevelIsAncestor(parts[..j], k, sep);
  }

  /**
   * The search of `check_all_levels`: the largest `k <= i` whose level
   * `sep.join(parts[:k])` is among `variables`, or 0 when no level `k >= 1` is.
   */
  function DeepestLevelIn(parts: seq<string>, i: nat, variables: seq<string>, sep: char): (k: nat)
    requires i <= |parts|
    ensures k <= i
    ensures k > 0 ==> Join(parts[..k], sep) in variables
    ensures forall j :: k < j <= i ==> Join(parts[..j], sep) !in variables
    decreases i
  {
    if i == 0 then 0
    else if Join(parts[..i], sep) in variables then i
    else DeepestLevelIn(parts, i - 1, variables, sep)
  }

  /** `sep.join(varname.split(sep)[:-1])`: the name without its last level, which is its parent. */
  function ParentLevel(varname: string, sep: char): (r: string)
    requires sep in varname
    ensures r == Parent(varname, sep)
    ensures IsAncestor(r, varname, sep)
  {
    var parts := Split(varname, sep);
    JoinInitIsParent(varname, sep);
    ParentIsLongestAncestor(varname, sep, "");
    Join(parts[..|parts| - 1], sep)
  }

  /**
   * The `check_all_levels` search over the levels of `varname`, deepest
   * first: the longest ancestor that `variables` holds, and nothing exactly
   * when `variables` holds no ancestor of the name.
   */
  function DeepestAncestor(varname: string, variables: seq<string>, sep: char): (r: Option<string>)
    requires sep in varname
    ensures r.Some? ==> IsAncestor(r.value, varname, sep) && r.value in variables
    ensures forall a :: IsAncestor(a, varname, sep) && a in variables ==> r.Some? && |a| <= |r.value|
  {
    var parts := Split(varname, sep);
    JoinInitIsParent(varname, sep);
    var k := DeepestLevelIn(parts, |parts| - 1, variables, sep);
    DeepestLevelCovers(varname, variables, sep);
    if k == 0 then None
    else
      LevelIsAncestor(parts, k, sep);
      Some(Join(parts[..k], sep))
  }

  /** Every ancestor in `variables` is a level no deeper than the one the search stops at. */
  lemma DeepestLevelCovers(varname: string, variables: seq<string>, sep: char)
    requires sep in varname
    ensures |Split(varname, sep)| >= 2
    ensures var parts := Split(varname, sep);
      var k := DeepestLevelIn(parts, |parts| - 1, variables, sep);
      forall a :: IsAncestor(a, varname, sep) && a in variables ==> 1 <= k && |a| <= |Join(parts[..k], sep)|
  {
    var parts := Split(varname, sep);
    JoinInitIsParent(varname, sep);
    forall a | IsAncestor(a, varname, sep) && a in variables
      ensures var k := DeepestLevelIn(parts, |parts| - 1, variables, sep); 1 <= k && |a| <= |Join(parts[..k], sep)|
    {
      AncestorIsLevel(varname, sep, a);
      var j :| 1 <= j < |parts| && Join(parts[..j], sep) == a;
      DeepestLevelIsLongest(parts, |parts| - 1, variables, sep, j);
    }
  }

  /** The deepest level found is at least as long as any level in `variables` up to `i`. */
  lemma DeepestLevelIsLongest(parts: seq<string>, i: nat, variables: seq<string>, sep: char, j: nat)
    requires 1 <= j <= i < |parts|
    requires Join(parts[..j], sep) in variables
    ensures var k := DeepestLevelIn(parts, i, variables, sep);
      j <= k && |Join(parts[..j], sep)| <= |Join(parts[..k], sep)|
  {
    var k := DeepestLevelIn(parts, i, variables, sep);
    if j < k {
      LevelsGrow(parts, j, k, sep);
    }
  }

  /**
   * `get_aggregate_var(varname, iamdf, check_all_levels, sep)`, where
   * `variables` is `getattr(iamdf, variable_dimname)`, or `None` without a
   * data frame. A name without a separator has no aggregate; without data it
   * is the parent; with only the first level checked it is the parent when
   * the data holds it; with all levels checked it is the deepest ancestor
   * the data holds.
   */
  function GetAggregateVar(varname: string, variables: Option<seq<string>>, checkAllLevels: bool, sep: char): (r: Option<string>)
    ensures sep !in varname ==> r == None
    ensures r.Some? ==> IsAncestor(r.value, varname, sep)
    ensures r.Some? && variables.Some? ==> r.value in variables.value
    ensures sep in varname && variables.None? ==> r == Some(Parent(varname, sep))
    ensures sep in varname && variables.Some? && !checkAllLevels ==>
      (r.Some? <==> Parent(varname, sep) in variables.value) && (r.Some? ==> r.value == Parent(varname, sep))
    ensures sep in varname && variables.Some? && checkAllLevels ==>
      forall a :: IsAncestor(a, varname, sep) && a in variables.value ==> r.Some? && |a| <= |r.value|
  {
    if sep !in varname then None
    else if variables.None? then Some(ParentLevel(varname, sep))
    else if checkAllLevels then DeepestAncestor(varname, variables.value, sep)
    else
      var candidate := ParentLevel(varname, sep);
      if candidate in variables.value then Some(candidate) else None
  }

  /** The depth bound of `get_component_vars`: at most `n` more separators than `varname`, or none. */
  predicate WithinSublevels(c: string, varname: string, numSublevels: Option<int>, sep: char) {
    numSublevels.None? || Count(c, sep) - Count(varname, sep) <= numSublevels.value
  }

  /** `get_component_vars(varname, iamdf, num_sublevels, sep)`, with `variables` the data frame's variables. */
  function GetComponentVars(varname: string, variables: seq<string>, numSublevels: Option<int>, sep: char): (r: seq<string>)
    ensures varname !in variables ==> r == []
    ensures IsSubsequence(r, variables)
    ensures forall c :: c in r <==>
      varname in variables && c in variables && StartsWith(c, varname + [sep]) && WithinSublevels(c, varname, numSublevels, sep)
  {
    if varname !in variables then []
    else
      var isComponent := c => StartsWith(c, varname + [sep]) && WithinSublevels(c, varname, numSublevels, sep);
      FilterIsSubsequence(variables, isComponent);
      Filter(variables, isComponent)
  }

  /** A component is a descendant: `varname` is one of its ancestors, so look-alike siblings are not components. */
  lemma ComponentsAreDescendants(varname: string, variables: seq<string>, numSublevels: Option<int>, sep: char, c: string)
    requires c in GetComponentVars(varname, variables, numSublevels, sep)
    ensures IsAncestor(varname, c, sep)
    ensures c != varname
  {
    var prefix := varname + [sep];
    assert StartsWith(c, prefix);
    assert c[..|prefix|] == prefix;
    assert c[..|varname|] == c[..|prefix|][..|varname|];
    assert prefix[..|varname|] == varname;
    assert c[|varname|] == prefix[|varname|];
  }

  /** A name one level below `varname` has one separator more. */
  lemma CountChild(varname: string, sep: char, rest: string)
    ensures Count(varname + [sep] + rest, sep) == Count(varname, sep) + 1 + Count(rest, sep)
  {
    CountAppend(varname + [sep], rest, sep);
    CountAppend(varname, [sep], sep);
    assert Count([sep], sep) == 1;
  }

  lemma ComponentIsChild(varname: string, variables: seq<string>, sep: char, c: string)
    requires c in GetComponentVars(varname, variables, Some(1), sep)
    ensures varname in variables && GetAggregateVar(c, Some(variables), false, sep) == Some(varname)
  {
    var prefix := varname + [sep];
    ComponentsAreDescendants(varname, variables, Some(1), sep, c);
    var rest := c[|prefix|..];
    assert c == prefix + rest;
    CountChild(varname, sep, rest);
    CountZero(rest, sep);
    assert c[|varname| + 1..] == rest;
    ParentIsLongestAncestor(c, sep, varname);
  }

  lemma ChildIsComponent(varname: string, variables: seq<string>, sep: char, c: string)
    requires c in variables && varname in variables
    requires GetAggregateVar(c, Some(variables), false, sep) == Some(varname)
    ensures c in GetComponentVars(varname, variables, Some(1), sep)
  {
    assert sep in c;
    ExtendsParent(c, sep);
  }

  /** A name continues its parent with a separator, and has one separator more. */
  lemma ExtendsParent(c: string, sep: char)
    requires sep in c
    ensures StartsWith(c, Parent(c, sep) + [sep])
    ensures Count(c, sep) == Count(Parent(c, sep), sep) + 1
  {
    var p := LastIndexOf(c, sep);
    var rest := c[p + 1..];
    assert c == c[..p] + [sep] + rest;
    CountChild(c[..p], sep, rest);
    CountZero(rest, sep);
  }

  /**
   * One level down and one level up undo each other: a variable of the data is
   * a first-level component of `varname` exactly when `varname` is in the data
   * and is its direct aggregate.
   */
  lemma ComponentAggregateRoundTrip(varname: string, variables: seq<string>, sep: char, c: string)
    requires c in variables
    ensures c in GetComponentVars(varname, variables, Some(1), sep) <==>
      varname in variables && GetAggregateVar(c, Some(variables), false, sep) == Some(varname)
  {
    if c in GetComponentVars(varname, variables, Some(1), sep) {
      ComponentIsChild(varname, variables, sep, c);
    }
    if varname in variables && GetAggregateVar(c, Some(variables), false, sep) == Some(varname) {
      ChildIsComponent(varname, variables, sep, c);
    }
  }

  /** `not_none(x)`: the value itself, or an `IsNoneError` for `None`. */
  function NotNone<T>(x: Option<T>): (r: Result<T>)
    ensures x.Some? <==> r.Success?
    ensures r.Success? ==> r.value == x.value
    ensures r.Failure? ==> r.error == IsNoneError
  {
    match x
    case Some(v) => Success(v)
    case None => Failure(IsNoneError)
  }
}
