/** Lookup of dynamic configuration values constrained by filters. */
module DynamicConfig {

  datatype Filter =
    | UnknownFilter | DomainName | DomainID | TaskListName | TaskType | ShardID
    | ClusterName | WorkflowID | WorkflowType | RatelimitKey | Namespace

  datatype Value = Nil | Text(text: string) | Number(number: int) | Flag(flag: bool)

  datatype ConstrainedValue = ConstrainedValue(constraints: map<string, Value>, value: Value)

  type Filters = map<Filter, Value>

  function ParseFilter(name: string): Filter {
    if name == "domainName" then DomainName
    else if name == "domainID" then DomainID
    else if name == "taskListName" then TaskListName
    else if name == "taskType" then TaskType
    else if name == "shardID" then ShardID
    else if name == "clusterName" then ClusterName
    else if name == "workflowID" then WorkflowID
    else if name == "workflowType" then WorkflowType
    else if name == "ratelimitKey" then RatelimitKey
    else if name == "namespace" then Namespace
    else UnknownFilter
  }

  function FilterName(f: Filter): string {
    match f
    case UnknownFilter => "unknownFilter"
    case DomainName => "domainName"
    case DomainID => "domainID"
    case TaskListName => "taskListName"
    case TaskType => "taskType"
    case ShardID => "shardID"
    case ClusterName => "clusterName"
    case WorkflowID => "workflowID"
    case WorkflowType => "workflowType"
    case RatelimitKey => "ratelimitKey"
    case Namespace => "namespace"
  }

  /** The names a configuration file uses. */
  lemma NamesInFiles()
    ensures ParseFilter("domainName").DomainName? && ParseFilter("domainID").DomainID?
    ensures ParseFilter("taskListName").TaskListName? && ParseFilter("taskType").TaskType?
    ensures ParseFilter("shardID").ShardID? && ParseFilter("clusterName").ClusterName?
    ensures ParseFilter("workflowID").WorkflowID? && ParseFilter("workflowType").WorkflowType?
    ensures ParseFilter("ratelimitKey").RatelimitKey? && ParseFilter("namespace").Namespace?
  {
  }

  /** Printing undoes parsing on known names, so parsing is injective on them. */
  lemma ParseFilterInverts(name: string)
    requires ParseFilter(name) != UnknownFilter
    ensures FilterName(ParseFilter(name)) == name
  {
  }

  /** And parsing undoes printing, so a name is known exactly when it is the name of a known filter. */
  lemma FilterNameInverts(f: Filter)
    requires f != UnknownFilter
    ensures ParseFilter(FilterName(f)) == f
  {
  }

  predicate IsKnown(name: string) {
    exists f: Filter :: f != UnknownFilter && FilterName(f) == name
  }

  lemma KnownExactlyWhen(name: string)
    ensures IsKnown(name) <==> ParseFilter(name) != UnknownFilter
  {
    if f: Filter :| f != UnknownFilter && FilterName(f) == name {
      FilterNameInverts(f);
    }
    if ParseFilter(name) != UnknownFilter {
      ParseFilterInverts(name);
    }
  }

  /** A missing entry reads as nil. */
  function Get(filters: Filters, f: Filter): Value {
    if f in filters then filters[f] else Nil
  }

  /** Every constraint is met by the filter of its name. */
  predicate Satisfies(constraints: map<string, Value>, filters: Filters) {
    forall c :: c in constraints ==>
      Get(filters, ParseFilter(c)) != Nil && Get(filters, ParseFilter(c)) == constraints[c]
  }

  predicate Matches(v: ConstrainedValue, filters: Filters) {
    |v.constraints| <= |filters| && Satisfies(v.constraints, filters)
  }

  /** Satisfying the constraints, filter by filter: each known filter that is constrained has just the required value,
      and every other constraint requires what is filed under the unknown filter. */
  lemma SatisfiesExactlyWhen(constraints: map<string, Value>, filters: Filters)
    ensures Satisfies(constraints, filters) <==>
      && (forall f: Filter :: f != UnknownFilter && FilterName(f) in constraints ==>
            f in filters && filters[f] != Nil && filters[f] == constraints[FilterName(f)])
      && (forall name :: name in constraints && !IsKnown(name) ==>
            && UnknownFilter in filters && filters[UnknownFilter] != Nil
            && filters[UnknownFilter] == constraints[name])
  {
    forall f: Filter | f != UnknownFilter
      ensures ParseFilter(FilterName(f)) == f
    {
      FilterNameInverts(f);
    }
    forall name | name in constraints
      ensures IsKnown(name) <==> ParseFilter(name) != UnknownFilter
      ensures ParseFilter(name) != UnknownFilter ==> FilterName(ParseFilter(name)) == name
    {
      KnownExactlyWhen(name);
      if ParseFilter(name) != UnknownFilter {
        ParseFilterInverts(name);
      }
    }
  }

  /** One constraint on a known filter that the filters do not meet is enough to rule a value out. */
  lemma DifferentValueNeverMatches(v: ConstrainedValue, filters: Filters, f: Filter)
    requires f != UnknownFilter && FilterName(f) in v.constraints
    requires f !in filters || filters[f] != v.constraints[FilterName(f)]
    ensures !Matches(v, filters) && !Hit(v, filters)
  {
    SatisfiesExactlyWhen(v.constraints, filters);
  }

  method Match(v: ConstrainedValue, filters: Filters) returns (r: bool)
    ensures r == Matches(v, filters)
    ensures r <==>
      && |v.constraints| <= |filters|
      && (forall f: Filter :: f != UnknownFilter && FilterName(f) in v.constraints ==>
            f in filters && filters[f] != Nil && filters[f] == v.constraints[FilterName(f)])
      && (forall name :: name in v.constraints && !IsKnown(name) ==>
            && UnknownFilter in filters && filters[UnknownFilter] != Nil
            && filters[UnknownFilter] == v.constraints[name])
  {
    SatisfiesExactlyWhen(v.constraints, filters);
    if |v.constraints| > |filters| {
      return false;
    }
    var remaining := v.constraints.Keys;
    while remaining != {}
      invariant remaining <= v.constraints.Keys
      invariant forall c :: c in v.constraints.Keys - remaining ==>
        Get(filters, ParseFilter(c)) != Nil && Get(filters, ParseFilter(c)) == v.constraints[c]
    {
      var c :| c in remaining;
      var key := ParseFilter(c);
      if Get(filters, key) == Nil || Get(filters, key) != v.constraints[c] {
        return false;
      }
      remaining := remaining - {c};
    }
    return true;
  }

  /** Names of distinct known filters cannot outnumber the filters they name. */
  lemma {:induction false} Pigeonhole(names: set<string>, filters: set<Filter>)
    requires forall c :: c in names ==> ParseFilter(c) in filters && ParseFilter(c) != UnknownFilter
    ensures |names| <= |filters|
    decreases |names|
  {
    if names != {} {
      var c :| c in names;
      forall d | d in names - {c}
        ensures ParseFilter(d) in filters - {ParseFilter(c)}
      {
        ParseFilterInverts(c);
        ParseFilterInverts(d);
      }
      Pigeonhole(names - {c}, filters - {ParseFilter(c)});
    }
  }

  function Xs(n: nat): string {
    seq(n, _ => 'x')
  }

  /** `n` constraints on names no filter has, all with value `v`. */
  function Unheard(n: nat, v: Value): (m: map<string, Value>)
    ensures |m| == n
    ensures forall c :: c in m ==> 0 < |c| <= n && c[0] == 'x' && m[c] == v
  {
    if n == 0 then map[]
    else
      var rest := Unheard(n - 1, v);
      assert Xs(n) !in rest;
      rest[Xs(n) := v]
  }

  lemma UnheardIsUnknown(name: string)
    requires name != "" && name[0] == 'x'
    ensures ParseFilter(name) == UnknownFilter
  {
    forall f: Filter
      ensures FilterName(f)[0] != 'x'
    {
    }
    if ParseFilter(name) != UnknownFilter {
      ParseFilterInverts(name);
    }
  }

  /** The length shortcut agrees with the constraints alone on this value. */
  predicate ShortcutHarmless(v: ConstrainedValue, filters: Filters) {
    Matches(v, filters) <==> Satisfies(v.constraints, filters)
  }

  lemma HarmlessWithoutUnknown(v: ConstrainedValue, filters: Filters)
    requires Get(filters, UnknownFilter) == Nil
    ensures ShortcutHarmless(v, filters)
  {
    if Satisfies(v.constraints, filters) {
      Pigeonhole(v.constraints.Keys, filters.Keys);
      assert |v.constraints| == |v.constraints.Keys| && |filters| == |filters.Keys|;
    }
  }

  lemma HarmfulWithUnknown(filters: Filters) returns (v: ConstrainedValue)
    requires Get(filters, UnknownFilter) != Nil
    ensures !ShortcutHarmless(v, filters)
  {
    v := ConstrainedValue(Unheard(|filters| + 1, Get(filters, UnknownFilter)), Nil);
    forall c | c in v.constraints
      ensures ParseFilter(c) == UnknownFilter
    {
      UnheardIsUnknown(c);
    }
  }

  /** The length shortcut changes no result, for any constraints, exactly when no value is filed under the unknown
      filter. */
  lemma ShortcutHarmlessExactlyWhen(filters: Filters)
    ensures (forall v: ConstrainedValue :: ShortcutHarmless(v, filters)) <==> Get(filters, UnknownFilter) == Nil
  {
    if Get(filters, UnknownFilter) == Nil {
      forall v: ConstrainedValue
        ensures ShortcutHarmless(v, filters)
      {
        HarmlessWithoutUnknown(v, filters);
      }
    } else {
      var _ := HarmfulWithUnknown(filters);
    }
  }

  /** A value with constraints that match. */
  predicate Hit(v: ConstrainedValue, filters: Filters) {
    !Unconstrained(v) && Matches(v, filters)
  }

  predicate Unconstrained(v: ConstrainedValue) {
    |v.constraints| == 0
  }

  predicate NoHits(values: seq<ConstrainedValue>, n: nat, filters: Filters) {
    n <= |values| && forall i :: 0 <= i < n ==> !Hit(values[i], filters)
  }

  lemma NoHitsOneMore(values: seq<ConstrainedValue>, n: nat, filters: Filters)
    requires NoHits(values, n, filters) && n < |values| && !Hit(values[n], filters)
    ensures NoHits(values, n + 1, filters)
  {
    forall i | 0 <= i < n + 1
      ensures !Hit(values[i], filters)
    {
      if i != n {
        assert !Hit(values[i], filters);
      }
    }
  }

  predicate FirstHit(values: seq<ConstrainedValue>, filters: Filters, i: nat) {
    NoHits(values, i, filters) && i < |values| && Hit(values[i], filters)
  }

  /** The last unconstrained of the first `n` values. */
  predicate LastUnconstrained(values: seq<ConstrainedValue>, n: nat, k: nat) {
    k < n <= |values| && Unconstrained(values[k]) && forall j :: k < j < n ==> !Unconstrained(values[j])
  }

  /** What lookup answers: the first matching constrained value; failing that the last unconstrained one; failing that
      the default, reported as not found. */
  ghost predicate Answered(values: seq<ConstrainedValue>, filters: Filters, defaultValue: Value, r: Value,
                           found: bool) {
    if exists i: nat :: FirstHit(values, filters, i) then
      found && exists i: nat :: FirstHit(values, filters, i) && r == values[i].value
    else
      FallsBack(values, |values|, defaultValue, r, found)
  }

  /** The fallback after reading the first `n` values. */
  ghost predicate FallsBack(values: seq<ConstrainedValue>, n: nat, defaultValue: Value, r: Value, found: bool)
    requires n <= |values|
  {
    if found then exists k: nat :: LastUnconstrained(values, n, k) && r == values[k].value
    else r == defaultValue && forall k :: 0 <= k < n ==> !Unconstrained(values[k])
  }

  lemma FallsBackOneMore(values: seq<ConstrainedValue>, n: nat, defaultValue: Value, r: Value, found: bool)
    requires n < |values| && FallsBack(values, n, defaultValue, r, found)
    ensures Unconstrained(values[n]) ==> FallsBack(values, n + 1, defaultValue, values[n].value, true)
    ensures !Unconstrained(values[n]) ==> FallsBack(values, n + 1, defaultValue, r, found)
  {
    if Unconstrained(values[n]) {
      assert LastUnconstrained(values, n + 1, n);
    } else if found {
      var k: nat :| LastUnconstrained(values, n, k) && r == values[k].value;
      assert LastUnconstrained(values, n + 1, k);
    }
  }

  /** No constraint of the value on a known filter differs from the filter of that name. */
  ghost predicate MeetsKnown(v: ConstrainedValue, filters: Filters) {
    forall f: Filter :: f != UnknownFilter && FilterName(f) in v.constraints ==>
      f in filters && filters[f] == v.constraints[FilterName(f)]
  }

  /** The first match among the values with constraints wins over everything. */
  lemma FirstMatchWins(values: seq<ConstrainedValue>, filters: Filters, defaultValue: Value, r: Value, found: bool,
                       i: nat)
    requires Answered(values, filters, defaultValue, r, found)
    requires i < |values| && |values[i].constraints| > 0 && Matches(values[i], filters)
    requires forall j :: 0 <= j < i ==> |values[j].constraints| == 0 || !Matches(values[j], filters)
    ensures found && r == values[i].value
  {
    assert FirstHit(values, filters, i);
    var k: nat :| FirstHit(values, filters, k) && r == values[k].value;
  }

  /** Without a match the last value without constraints wins. */
  lemma LastDefaultWins(values: seq<ConstrainedValue>, filters: Filters, defaultValue: Value, r: Value, found: bool,
                        k: nat)
    requires Answered(values, filters, defaultValue, r, found)
    requires forall i :: 0 <= i < |values| ==> |values[i].constraints| == 0 || !Matches(values[i], filters)
    requires k < |values| && |values[k].constraints| == 0
    requires forall j :: k < j < |values| ==> |values[j].constraints| > 0
    ensures found && r == values[k].value
  {
    assert forall i: nat :: !FirstHit(values, filters, i);
    assert Unconstrained(values[k]);
  }

  /** Not-found, with the default given, exactly when there is neither. */
  lemma NotFoundExactlyWhen(values: seq<ConstrainedValue>, filters: Filters, defaultValue: Value, r: Value,
                            found: bool)
    requires Answered(values, filters, defaultValue, r, found)
    ensures !found <==> forall i :: 0 <= i < |values| ==>
      |values[i].constraints| > 0 && !Matches(values[i], filters)
    ensures !found ==> r == defaultValue
  {
    if i: nat :| i < |values| && Hit(values[i], filters) {
      SomeHitIsFirst(values, filters, i);
    }
  }

  lemma {:induction false} SomeHitIsFirst(values: seq<ConstrainedValue>, filters: Filters, i: nat)
    requires i < |values| && Hit(values[i], filters)
    ensures exists k: nat :: k <= i && FirstHit(values, filters, k)
  {
    if j: nat :| j < i && Hit(values[j], filters) {
      SomeHitIsFirst(values, filters, j);
    } else {
      assert FirstHit(values, filters, i);
    }
  }

  method GetValueWithFilters(values: seq<ConstrainedValue>, filters: Filters, defaultValue: Value)
    returns (r: Value, found: bool)
    ensures Answered(values, filters, defaultValue, r, found)
    ensures found ==> exists i :: 0 <= i < |values| && r == values[i].value && MeetsKnown(values[i], filters)
    ensures !found ==> r == defaultValue
  {
    r, found := defaultValue, false;
    for n := 0 to |values|
      invariant NoHits(values, n, filters)
      invariant FallsBack(values, n, defaultValue, r, found)
      invariant found ==> exists i :: 0 <= i < |values| && r == values[i].value && MeetsKnown(values[i], filters)
      invariant !found ==> r == defaultValue
    {
      var v := values[n];
      FallsBackOneMore(values, n, defaultValue, r, found);
      if |v.constraints| == 0 {
        NoHitsOneMore(values, n, filters);
        r, found := v.value, true;
        continue;
      }
      var matched := Match(v, filters);
      if matched {
        assert FirstHit(values, filters, n);
        return v.value, true;
      }
      NoHitsOneMore(values, n, filters);
    }
  }
}
