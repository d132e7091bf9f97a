/** Matching the declared input types of a graph, which may name symbolic dimensions, with the
    types of given inputs. */
module InputTypes {
  import opened Options

  type ValueId = nat
  type ParamKey = string

  datatype Dimension = Const(size: nat) | Param(key: ParamKey)

  datatype ResolvedType = ResolvedType(dims: seq<nat>, strides: seq<nat>)

  /** A declared type; an unresolved one may not even know its rank. */
  datatype DeclaredType = Resolved(ty: ResolvedType) | Unresolved(shape: Option<seq<Dimension>>)

  datatype UnifyMode = CheckStrides | OverwriteStrides | IgnoreStrides

  type Params = map<ParamKey, nat>

  ghost predicate Within(p: Params, q: Params) {
    forall k :: k in p ==> k in q && q[k] == p[k]
  }

  /** The first n declared dimensions equal the given ones under an assignment. */
  ghost predicate MatchesUpTo(shape: seq<Dimension>, dims: seq<nat>, params: Params, n: nat)
    requires n <= |shape| && n <= |dims|
  {
    forall i :: 0 <= i < n ==> DimMatches(shape[i], dims[i], params)
  }

  predicate DimMatches(d: Dimension, size: nat, params: Params) {
    match d
    case Const(x) => x == size
    case Param(k) => k in params && params[k] == size
  }

  ghost predicate ShapeMatches(shape: seq<Dimension>, dims: seq<nat>, params: Params) {
    |shape| == |dims| && MatchesUpTo(shape, dims, params, |dims|)
  }

  /** A declared type, or none, agrees with given dims under an assignment. */
  ghost predicate Fits(declared: Option<DeclaredType>, dims: seq<nat>, params: Params) {
    match declared
    case None => true
    case Some(Resolved(ty)) => ty.dims == dims
    case Some(Unresolved(None)) => true
    case Some(Unresolved(Some(shape))) => ShapeMatches(shape, dims, params)
  }

  /** In terms of the declared type: constant sizes are equal, symbols stand for the sizes given,
      and a type that is not known at all agrees with anything. */
  lemma FitsMeans(declared: Option<DeclaredType>, dims: seq<nat>, params: Params)
    ensures declared.None? || declared == Some(Unresolved(None)) ==> Fits(declared, dims, params)
    ensures declared.Some? && declared.value.Resolved? ==> (Fits(declared, dims, params) <==> declared.value.ty.dims == dims)
    ensures declared.Some? && declared.value.Unresolved? && declared.value.shape.Some? ==>
              var shape := declared.value.shape.value;
              (Fits(declared, dims, params) <==>
                && |shape| == |dims|
                && (forall i :: 0 <= i < |shape| && shape[i].Const? ==> shape[i].size == dims[i])
                && (forall i :: 0 <= i < |shape| && shape[i].Param? ==> shape[i].key in params && params[shape[i].key] == dims[i]))
  {
    if declared.Some? && declared.value.Unresolved? && declared.value.shape.Some? {
      var shape := declared.value.shape.value;
      if ShapeMatches(shape, dims, params) {
        forall i | 0 <= i < |shape| ensures DimMatches(shape[i], dims[i], params) {
        }
      }
    }
  }

  lemma FitsStays(declared: Option<DeclaredType>, dims: seq<nat>, params: Params, more: Params)
    requires Fits(declared, dims, params) && Within(params, more)
    ensures Fits(declared, dims, more)
  {
  }

  /** The inputs that are to be given: those without an initial tensor. */
  function Wanted(inputs: seq<ValueId>, initializers: set<ValueId>): (r: seq<ValueId>)
    ensures forall v :: v in r <==> v in inputs && v !in initializers
    decreases |inputs|
  {
    if inputs == [] then []
    else
      var rest, last := Wanted(inputs[..|inputs| - 1], initializers), inputs[|inputs| - 1];
      assert inputs == inputs[..|inputs| - 1] + [last];
      if last in initializers then rest else rest + [last]
  }

  lemma AppendWanted(a: seq<ValueId>, v: ValueId, initializers: set<ValueId>)
    ensures Wanted(a + [v], initializers) == Wanted(a, initializers) + (if v in initializers then [] else [v])
  {
    assert (a + [v])[..|a|] == a;
  }

  lemma {:induction false} JoinWanted(a: seq<ValueId>, b: seq<ValueId>, initializers: set<ValueId>)
    ensures Wanted(a + b, initializers) == Wanted(a, initializers) + Wanted(b, initializers)
    decreases |b|
  {
    if b == [] {
      assert a + b == a;
    } else {
      hide Wanted;
      var k := |b| - 1;
      assert b == b[..k] + [b[k]] && a + b == a + b[..k] + [b[k]];
      JoinWanted(a, b[..k], initializers);
      AppendWanted(a + b[..k], b[k], initializers);
      AppendWanted(b[..k], b[k], initializers);
    }
  }

  /** Each input that is to be given stands behind the ones before it. */
  lemma WantedInOrder(a: seq<ValueId>, v: ValueId, b: seq<ValueId>, initializers: set<ValueId>)
    ensures Wanted([], initializers) == []
    ensures Wanted(a + [v] + b, initializers) ==
            Wanted(a, initializers) + (if v in initializers then [] else [v]) + Wanted(b, initializers)
  {
    assert Wanted([], initializers) == [];
    hide Wanted;
    JoinWanted(a + [v], b, initializers);
    AppendWanted(a, v, initializers);
  }

  ghost predicate Distinct(ids: seq<ValueId>) {
    forall i, j :: 0 <= i < j < |ids| ==> ids[i] != ids[j]
  }

  lemma {:induction false} WantedAreDistinct(inputs: seq<ValueId>, initializers: set<ValueId>)
    requires Distinct(inputs)
    ensures Distinct(Wanted(inputs, initializers))
    decreases |inputs|
  {
    if inputs != [] {
      WantedAreDistinct(inputs[..|inputs| - 1], initializers);
      var rest := Wanted(inputs[..|inputs| - 1], initializers);
      forall i | 0 <= i < |rest| ensures rest[i] != inputs[|inputs| - 1] {
        assert rest[i] in rest;
      }
    }
  }

  /** Under one assignment every wanted input's declared type agrees with the given one. */
  ghost predicate AllFit(types: seq<Option<DeclaredType>>, ids: seq<ValueId>, given: seq<ResolvedType>,
                      params: Params, n: nat)
    requires n <= |ids| && n <= |given|
  {
    forall i :: 0 <= i < n ==> Fits(TypeOf(types, ids[i]), given[i].dims, params)
  }

  function TypeOf(types: seq<Option<DeclaredType>>, v: ValueId): Option<DeclaredType> {
    if v < |types| then types[v] else None
  }

  ghost predicate Assigns(types: seq<Option<DeclaredType>>, ids: seq<ValueId>, given: seq<ResolvedType>,
                      known: Params, params: Params)
    requires |given| == |ids|
  {
    Within(known, params) && AllFit(types, ids, given, params, |ids|)
  }

  /** The table once the first n values are resolved: those not resolved before have the given
      types, all others are as they were. */
  ghost predicate Settled(before: seq<Option<DeclaredType>>, after: seq<Option<DeclaredType>>, ids: seq<ValueId>,
                          given: seq<ResolvedType>, n: nat)
    requires n <= |ids| && n <= |given|
  {
    && |after| == |before|
    && (forall i :: 0 <= i < n && ids[i] < |before| ==>
          after[ids[i]] == if before[ids[i]].Some? && before[ids[i]].value.Resolved? then before[ids[i]] else Some(Resolved(given[i])))
    && (forall v :: 0 <= v < |before| && v !in ids[..n] ==> after[v] == before[v])
  }

  lemma OneMoreSettled(before: seq<Option<DeclaredType>>, now: seq<Option<DeclaredType>>, ids: seq<ValueId>,
                       given: seq<ResolvedType>, n: nat, after: seq<Option<DeclaredType>>)
    requires n < |ids| == |given| && Distinct(ids) && ids[n] < |before| && Settled(before, now, ids, given, n)
    requires |after| == |now| && forall v :: 0 <= v < |now| && v != ids[n] ==> after[v] == now[v]
    requires after[ids[n]] == if now[ids[n]].Some? && now[ids[n]].value.Resolved? then now[ids[n]] else Some(Resolved(given[n]))
    ensures Settled(before, after, ids, given, n + 1)
  {
    assert ids[..n + 1] == ids[..n] + [ids[n]];
  }

  /** Symbol k stands in the declared type. */
  predicate Names(declared: Option<DeclaredType>, k: ParamKey) {
    && declared.Some? && declared.value.Unresolved? && declared.value.shape.Some?
    && Param(k) in declared.value.shape.value
  }

  /** Every symbol that is new in the map stands in the declared type of a listed value. */
  ghost predicate OnlyNamed(types: seq<Option<DeclaredType>>, ids: seq<ValueId>, known: Params, params: Params) {
    forall k :: k in params && k !in known ==> exists v :: v in ids && Names(TypeOf(types, v), k)
  }

  lemma OneMoreNamed(types: seq<Option<DeclaredType>>, ids: seq<ValueId>, n: nat, known: Params, before: Params, after: Params)
    requires n < |ids| && ids[n] < |types| && OnlyNamed(types, ids, known, before)
    requires forall k :: k in after ==> k in before || Names(types[ids[n]], k)
    ensures OnlyNamed(types, ids, known, after)
  {
    hide Names;
    assert ids[n] in ids && TypeOf(types, ids[n]) == types[ids[n]];
  }

  class Graph {
    var types: seq<Option<DeclaredType>>
    var resolvedParams: Params
    const inputs: seq<ValueId>
    const initializers: set<ValueId>

    ghost predicate Valid()
      reads this
    {
      Distinct(inputs) && forall i :: 0 <= i < |inputs| ==> inputs[i] < |types|
    }

    /** Matches a declared shape with given dims.  The first use of a symbol fixes it; no
        assignment that agrees is excluded. */
    method UnifyTypes(shape: seq<Dimension>, dims: seq<nat>, ghost other: Params) returns (ok: bool)
      modifies this`resolvedParams
      ensures Within(old(resolvedParams), resolvedParams)
      ensures ok ==> ShapeMatches(shape, dims, resolvedParams)
      ensures Within(old(resolvedParams), other) && ShapeMatches(shape, dims, other) ==> ok && Within(resolvedParams, other)
      ensures forall k :: k in resolvedParams ==> k in old(resolvedParams) || Param(k) in shape
    {
      if |shape| != |dims| {
        return false;
      }
      for i := 0 to |dims|
        invariant Within(old(resolvedParams), resolvedParams) && MatchesUpTo(shape, dims, resolvedParams, i)
        invariant Within(old(resolvedParams), other) && ShapeMatches(shape, dims, other) ==> Within(resolvedParams, other)
        invariant forall k :: k in resolvedParams ==> k in old(resolvedParams) || Param(k) in shape
      {
        ghost var before := resolvedParams;
        assert ShapeMatches(shape, dims, other) ==> DimMatches(shape[i], dims[i], other);
        var d := shape[i];
        if d.Param? && d.key in resolvedParams {
          d := Const(resolvedParams[d.key]);
        }
        match d {
          case Const(x) =>
            if x != dims[i] {
              return false;
            }
          case Param(k) =>
            resolvedParams := resolvedParams[k := dims[i]];
        }
        forall j | 0 <= j < i ensures DimMatches(shape[j], dims[j], resolvedParams) {
          assert DimMatches(shape[j], dims[j], before);
        }
      }
      ok := true;
    }

    /** Matches one value's declared type with a given one. */
    method TryUnifyType(v: ValueId, resolved: ResolvedType, mode: UnifyMode, ghost other: Params) returns (ok: bool)
      requires v < |types|
      modifies this`types, this`resolvedParams
      ensures Within(old(resolvedParams), resolvedParams)
      ensures ok ==> Fits(old(types)[v], resolved.dims, resolvedParams)
      ensures mode != CheckStrides && Within(old(resolvedParams), other) && Fits(old(types)[v], resolved.dims, other) ==>
                ok && Within(resolvedParams, other)
      ensures forall k :: k in resolvedParams ==> k in old(resolvedParams) || Names(old(types)[v], k)
      ensures mode == CheckStrides ==>
                (ok <==> old(types)[v].None? || (old(types)[v].value.Resolved? && old(types)[v].value.ty == resolved))
      ensures types == if ok && !(old(types)[v].Some? && old(types)[v].value.Resolved? && mode != OverwriteStrides)
                       then old(types)[v := Some(Resolved(resolved))] else old(types)
    {
      match types[v] {
        case Some(Resolved(ty)) =>
          if ty.dims != resolved.dims {
            return false;
          }
          match mode {
            case CheckStrides =>
              if ty.strides != resolved.strides {
                return false;
              }
            case OverwriteStrides =>
              types := types[v := Some(Resolved(resolved))];
            case IgnoreStrides =>
          }
          ok := true;
        case Some(Unresolved(shape)) =>
          if mode == CheckStrides {
            return false;
          }
          if shape.Some? {
            ok := UnifyTypes(shape.value, resolved.dims, other);
            if !ok {
              return;
            }
          }
          types := types[v := Some(Resolved(resolved))];
          ok := true;
        case None =>
          types := types[v := Some(Resolved(resolved))];
          ok := true;
      }
    }

    /** Resolves the wanted inputs one after another. */
    method ResolveInOrder(ids: seq<ValueId>, given: seq<ResolvedType>, ghost other: Params) returns (ok: bool)
      requires |ids| == |given| && Distinct(ids) && forall i :: 0 <= i < |ids| ==> ids[i] < |types|
      modifies this`types, this`resolvedParams
      ensures |types| == |old(types)|
      ensures ok ==> Assigns(old(types), ids, given, old(resolvedParams), resolvedParams)
      ensures ok ==> Settled(old(types), types, ids, given, |ids|)
      ensures !ok ==> exists n :: 0 <= n < |ids| && Settled(old(types), types, ids, given, n)
      ensures OnlyNamed(old(types), ids, old(resolvedParams), resolvedParams)
      ensures Assigns(old(types), ids, given, old(resolvedParams), other) ==> ok && Within(resolvedParams, other)
    {
      ghost var start, known := types, resolvedParams;
      for i := 0 to |ids|
        invariant |types| == |start| && Within(known, resolvedParams)
        invariant AllFit(start, ids, given, resolvedParams, i)
        invariant Settled(start, types, ids, given, i)
        invariant OnlyNamed(start, ids, known, resolvedParams)
        invariant Assigns(start, ids, given, known, other) ==> Within(resolvedParams, other)
      {
        hide ShapeMatches, MatchesUpTo, Within, Settled, Names, Distinct, OnlyNamed, Fits;
        ghost var before, table := resolvedParams, types;
        NotYetSettled(start, table, ids, given, i);
        ok := TryUnifyType(ids[i], given[i], IgnoreStrides, other);
        WithinFurther(known, before, resolvedParams);
        OneMoreNamed(start, ids, i, known, before, resolvedParams);
        if !ok {
          assert Fits(TypeOf(start, ids[i]), given[i].dims, other) ==> !Within(before, other);
          return;
        }
        OneMoreSettled(start, table, ids, given, i, types);
        forall j | 0 <= j < i ensures Fits(TypeOf(start, ids[j]), given[j].dims, resolvedParams) {
          FitsStays(TypeOf(start, ids[j]), given[j].dims, before, resolvedParams);
        }
      }
      ok := true;
    }

    /** Succeeds exactly when the counts match and some assignment of the symbols, extending the
        one known, makes every declared type agree; then the map holds such an assignment. */
    method ResolveInputTypes(given: seq<ResolvedType>) returns (ok: bool)
      requires Valid()
      modifies this`types, this`resolvedParams
      ensures Valid()
      ensures var ids := Wanted(inputs, initializers);
              ok <==> |given| == |ids| && exists a: Params :: Assigns(old(types), ids, given, old(resolvedParams), a)
      ensures ok ==> Assigns(old(types), Wanted(inputs, initializers), given, old(resolvedParams), resolvedParams)
      ensures ok ==> Settled(old(types), types, Wanted(inputs, initializers), given, |Wanted(inputs, initializers)|)
      ensures OnlyNamed(old(types), Wanted(inputs, initializers), old(resolvedParams), resolvedParams)
    {
      var ids := [];
      for i := 0 to |inputs|
        invariant ids == Wanted(inputs[..i], initializers)
      {
        assert inputs[..i + 1][..i] == inputs[..i];
        if inputs[i] !in initializers {
          ids := ids + [inputs[i]];
        }
      }
      assert inputs[..|inputs|] == inputs;
      WantedAreDistinct(inputs, initializers);
      forall i | 0 <= i < |ids| ensures ids[i] < |types| {
        assert ids[i] in ids;
      }
      if |given| != |ids| {
        return false;
      }
      ghost var other: Params := map[];
      if exists a: Params :: Assigns(types, ids, given, resolvedParams, a) {
        other :| Assigns(types, ids, given, resolvedParams, other);
      }
      ok := ResolveInOrder(ids, given, other);
    }
  }

  lemma NotYetSettled(before: seq<Option<DeclaredType>>, now: seq<Option<DeclaredType>>, ids: seq<ValueId>,
                      given: seq<ResolvedType>, n: nat)
    requires n < |ids| == |given| && Distinct(ids) && ids[n] < |before| && Settled(before, now, ids, given, n)
    ensures |now| == |before| && now[ids[n]] == before[ids[n]]
  {
    assert ids[n] !in ids[..n];
  }

  lemma WithinFurther(a: Params, b: Params, c: Params)
    requires Within(a, b) && Within(b, c)
    ensures Within(a, c)
  {
  }
}
