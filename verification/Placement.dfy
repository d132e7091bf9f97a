/** Placing a prefix of the kernels on the accelerator under a memory budget. */
module Placement {
  import opened Options

  type ValueId = nat

  datatype Device = CPU | CUDA

  datatype Kernel = Kernel(inputs: seq<Option<ValueId>>, outputs: seq<ValueId>) {
    predicate Touches(v: ValueId) {
      Some(v) in inputs || v in outputs
    }
  }

  datatype Schedule = Schedule(kernels: seq<Kernel>, initializers: set<ValueId>, sessionStates: set<ValueId>, byteSize: ValueId -> nat) {
    predicate TouchedAt(i: nat, v: ValueId) {
      i < |kernels| && v in sessionStates && kernels[i].Touches(v)
    }

    /** The bytes that one input slot keeps resident. */
    function SlotWeight(minBytes: nat, input: Option<ValueId>): nat {
      if input.Some? && input.value in initializers && minBytes <= byteSize(input.value) then byteSize(input.value) else 0
    }

    function InputsWeight(minBytes: nat, inputs: seq<Option<ValueId>>): nat
      decreases |inputs|
    {
      if inputs == [] then 0 else InputsWeight(minBytes, inputs[..|inputs| - 1]) + SlotWeight(minBytes, inputs[|inputs| - 1])
    }

    /** The bytes that the first k kernels keep resident. */
    function PrefixWeight(minBytes: nat, k: nat): nat
      requires k <= |kernels|
    {
      if k == 0 then 0 else PrefixWeight(minBytes, k - 1) + InputsWeight(minBytes, kernels[k - 1].inputs)
    }

    /** Some session state is touched on both sides of the cut. */
    ghost predicate Splits(cut: nat) {
      exists v: ValueId, i: nat, j: nat :: i < cut <= j && TouchedAt(i, v) && TouchedAt(j, v)
    }

    ghost predicate Allowed(minBytes: nat, residentBytes: nat, cut: nat)
      requires cut <= |kernels|
    {
      PrefixWeight(minBytes, cut) <= residentBytes && !Splits(cut)
    }

    /** The largest allowed cut. */
    ghost predicate IsBest(minBytes: nat, residentBytes: nat, cut: nat)
      requires cut <= |kernels|
    {
      && Allowed(minBytes, residentBytes, cut)
      && forall c: nat :: cut < c <= |kernels| ==> !Allowed(minBytes, residentBytes, c)
    }

    /** Which weights count: an input adds its bytes if it is an initial tensor of at least
        minBytes, and nothing else does. */
    lemma WeightMeans(minBytes: nat, a: seq<Option<ValueId>>, v: ValueId, b: seq<Option<ValueId>>, k: nat)
      ensures InputsWeight(minBytes, []) == 0 && InputsWeight(minBytes, a + [None] + b) == InputsWeight(minBytes, a + b)
      ensures v in initializers && minBytes <= byteSize(v) ==>
                InputsWeight(minBytes, a + [Some(v)] + b) == InputsWeight(minBytes, a + b) + byteSize(v)
      ensures v !in initializers || byteSize(v) < minBytes ==>
                InputsWeight(minBytes, a + [Some(v)] + b) == InputsWeight(minBytes, a + b)
      ensures PrefixWeight(minBytes, 0) == 0
      ensures k < |kernels| ==> PrefixWeight(minBytes, k + 1) == PrefixWeight(minBytes, k) + InputsWeight(minBytes, kernels[k].inputs)
    {
      OneMoreInput(minBytes, a, None, b);
      OneMoreInput(minBytes, a, Some(v), b);
      hide InputsWeight;
    }

    lemma {:induction false} OneMoreInput(minBytes: nat, a: seq<Option<ValueId>>, x: Option<ValueId>, b: seq<Option<ValueId>>)
      ensures InputsWeight(minBytes, []) == 0
      ensures InputsWeight(minBytes, a + [x] + b) == InputsWeight(minBytes, a + b) + SlotWeight(minBytes, x)
      decreases |b|
    {
      hide SlotWeight;
      if b == [] {
        assert a + [x] + b == a + [x] && a + b == a && (a + [x])[..|a|] == a;
      } else {
        var k := |b| - 1;
        assert (a + [x] + b)[..|a| + 1 + k] == a + [x] + b[..k] && (a + b)[..|a| + k] == a + b[..k];
        OneMoreInput(minBytes, a, x, b[..k]);
      }
    }

    /** A longer prefix is over the budget or has a session state on both sides. */
    lemma WhyNotLonger(minBytes: nat, residentBytes: nat, cut: nat, c: nat) returns (v: ValueId, i: nat, j: nat)
      requires cut < c <= |kernels| && IsBest(minBytes, residentBytes, cut)
      ensures PrefixWeight(minBytes, cut) <= residentBytes
      ensures PrefixWeight(minBytes, c) > residentBytes ||
              (i < c <= j < |kernels| && v in sessionStates
               && (Some(v) in kernels[i].inputs || v in kernels[i].outputs) && (Some(v) in kernels[j].inputs || v in kernels[j].outputs))
    {
      v, i, j := 0, 0, 0;
      if PrefixWeight(minBytes, c) <= residentBytes {
        assert !Allowed(minBytes, residentBytes, c);
        v, i, j :| i < c <= j && TouchedAt(i, v) && TouchedAt(j, v);
      }
    }

    lemma {:induction false} PrefixGrows(minBytes: nat, a: nat, b: nat)
      requires a <= b <= |kernels|
      ensures PrefixWeight(minBytes, a) <= PrefixWeight(minBytes, b)
      decreases b - a
    {
      if a < b {
        PrefixGrows(minBytes, a, b - 1);
      }
    }
  }

  // ----- live spans -----

  type Spans = map<ValueId, (nat, nat)>

  predicate Covers(spans: Spans, v: ValueId, i: nat) {
    v in spans && spans[v].0 <= i <= spans[v].1
  }

  /** A span starts and ends with a touch, the last one at most at kernel `last`. */
  predicate Touching(s: Schedule, spans: Spans, v: ValueId, last: nat) {
    v in spans ==> spans[v].0 <= spans[v].1 <= last && s.TouchedAt(spans[v].0, v) && s.TouchedAt(spans[v].1, v)
  }

  /** Each session state touched among the first k kernels, with its first and last touch. */
  ghost predicate SpansBefore(s: Schedule, spans: Spans, k: nat) {
    && (forall v: ValueId, i: nat :: i < k && s.TouchedAt(i, v) ==> Covers(spans, v, i))
    && (forall v: ValueId :: v in spans ==> k > 0 && Touching(s, spans, v, k - 1))
  }

  /** A kernel's values in order: the given inputs, then the outputs. */
  function ValuesOf(kernel: Kernel): (r: seq<ValueId>)
    ensures forall v: ValueId :: v in r <==> kernel.Touches(v)
  {
    Given(kernel.inputs) + kernel.outputs
  }

  function Given(inputs: seq<Option<ValueId>>): (r: seq<ValueId>)
    ensures forall v: ValueId :: v in r <==> Some(v) in inputs
    decreases |inputs|
  {
    if inputs == [] then []
    else (if inputs[0].Some? then [inputs[0].value] else []) + Given(inputs[1..])
  }

  method KvSpans(s: Schedule) returns (spans: Spans)
    ensures SpansBefore(s, spans, |s.kernels|)
  {
    spans := map[];
    for i := 0 to |s.kernels|
      invariant SpansBefore(s, spans, i)
    {
      spans := AddSpans(s, spans, i);
    }
  }

  /** Lengthens the span of v to kernel i, or starts one there. */
  function Lengthened(spans: Spans, v: ValueId, i: nat): Spans {
    spans[v := if v in spans then (spans[v].0, i) else (i, i)]
  }

  lemma LengthenedKeeps(s: Schedule, spans: Spans, v: ValueId, i: nat, u: ValueId)
    requires s.TouchedAt(i, v) && Touching(s, spans, v, i) && Touching(s, spans, u, i)
    ensures Touching(s, Lengthened(spans, v, i), u, i) && Covers(Lengthened(spans, v, i), v, i)
    ensures forall j: nat :: Covers(spans, u, j) ==> Covers(Lengthened(spans, v, i), u, j)
  {
  }

  /** The spans before kernel i, and those of the first k of its values as well. */
  ghost predicate SpansSoFar(s: Schedule, spans: Spans, i: nat, values: seq<ValueId>, k: nat)
    requires k <= |values|
  {
    && (forall v: ValueId, j: nat :: j < i && s.TouchedAt(j, v) ==> Covers(spans, v, j))
    && (forall v: ValueId :: v in values[..k] && v in s.sessionStates ==> Covers(spans, v, i))
    && (forall v: ValueId :: v in spans ==> Touching(s, spans, v, i))
  }

  lemma OneMoreSpan(s: Schedule, spans: Spans, i: nat, values: seq<ValueId>, k: nat)
    requires k < |values| && SpansSoFar(s, spans, i, values, k)
    requires values[k] in s.sessionStates ==> s.TouchedAt(i, values[k])
    ensures SpansSoFar(s, if values[k] in s.sessionStates then Lengthened(spans, values[k], i) else spans, i, values, k + 1)
  {
    hide Covers, Touching, Lengthened;
    var v := values[k];
    assert values[..k + 1] == values[..k] + [v];
    if v in s.sessionStates {
      var longer := Lengthened(spans, v, i);
      SpanOrNone(s, spans, v, i);
      LengthenedKeeps(s, spans, v, i, v);
      LengthenedKeys(spans, v, i);
      forall u: ValueId | u in spans ensures Touching(s, longer, u, i) {
        LengthenedKeeps(s, spans, v, i, u);
      }
      forall u: ValueId, j: nat | Covers(spans, u, j) ensures Covers(longer, u, j) {
        SpanOrNone(s, spans, u, i);
        LengthenedKeeps(s, spans, v, i, u);
      }
    }
  }

  lemma NoSpanYet(s: Schedule, spans: Spans, i: nat, values: seq<ValueId>)
    requires SpansBefore(s, spans, i)
    ensures SpansSoFar(s, spans, i, values, 0)
  {
  }

  lemma AllSpans(s: Schedule, spans: Spans, i: nat, values: seq<ValueId>)
    requires SpansSoFar(s, spans, i, values, |values|)
    requires forall v: ValueId :: s.TouchedAt(i, v) ==> v in values && v in s.sessionStates
    ensures SpansBefore(s, spans, i + 1)
  {
    hide Covers, Touching;
    assert values[..|values|] == values;
  }

  method AddSpans(s: Schedule, before: Spans, i: nat) returns (spans: Spans)
    requires i < |s.kernels| && SpansBefore(s, before, i)
    ensures SpansBefore(s, spans, i + 1)
  {
    spans := before;
    var values := ValuesOf(s.kernels[i]);
    NoSpanYet(s, before, i, values);
    hide SpansBefore, SpansSoFar, Lengthened;
    for k := 0 to |values|
      invariant SpansSoFar(s, spans, i, values, k)
    {
      var v := values[k];
      assert v in values;
      OneMoreSpan(s, spans, i, values, k);
      if v in s.sessionStates {
        spans := Lengthened(spans, v, i);
      }
    }
    AllSpans(s, spans, i, values);
  }

  lemma SpanOrNone(s: Schedule, spans: Spans, v: ValueId, i: nat)
    requires v in spans ==> Touching(s, spans, v, i)
    ensures Touching(s, spans, v, i)
  {
  }

  lemma LengthenedKeys(spans: Spans, v: ValueId, i: nat)
    ensures Lengthened(spans, v, i).Keys == spans.Keys + {v}
  {
  }

  predicate Straddles(spans: Spans, cut: nat) {
    exists v :: v in spans && spans[v].0 < cut <= spans[v].1
  }

  lemma StraddlesIsSplits(s: Schedule, spans: Spans, cut: nat)
    requires SpansBefore(s, spans, |s.kernels|)
    ensures Straddles(spans, cut) <==> s.Splits(cut)
  {
    if v :| v in spans && spans[v].0 < cut <= spans[v].1 {
      assert Touching(s, spans, v, |s.kernels| - 1);
      assert s.TouchedAt(spans[v].0, v) && s.TouchedAt(spans[v].1, v);
    }
    if s.Splits(cut) {
      var v: ValueId, i: nat, j: nat :| i < cut <= j && s.TouchedAt(i, v) && s.TouchedAt(j, v);
      assert Covers(spans, v, i) && Covers(spans, v, j);
    }
  }

  // ----- the cut -----

  method WeightOf(s: Schedule, minBytes: nat, kernel: Kernel) returns (w: nat)
    ensures w == s.InputsWeight(minBytes, kernel.inputs)
  {
    w := 0;
    var inputs := kernel.inputs;
    for k := 0 to |inputs|
      invariant w == s.InputsWeight(minBytes, inputs[..k])
    {
      assert inputs[..k + 1][..k] == inputs[..k];
      if inputs[k].Some? && inputs[k].value in s.initializers {
        var size := s.byteSize(inputs[k].value);
        if minBytes <= size {
          w := w + size;
        }
      }
    }
    assert inputs[..|inputs|] == inputs;
  }

  /** The largest prefix within the budget. */
  method BudgetCut(s: Schedule, minBytes: nat, residentBytes: nat) returns (cut: nat)
    ensures cut <= |s.kernels| && s.PrefixWeight(minBytes, cut) <= residentBytes
    ensures forall c: nat :: cut < c <= |s.kernels| ==> s.PrefixWeight(minBytes, c) > residentBytes
  {
    cut := |s.kernels|;
    var resident := 0;
    for i := 0 to |s.kernels|
      invariant cut == |s.kernels| && resident == s.PrefixWeight(minBytes, i) <= residentBytes
    {
      var w := WeightOf(s, minBytes, s.kernels[i]);
      if resident + w > residentBytes {
        cut := i;
        forall c: nat | cut < c <= |s.kernels| ensures s.PrefixWeight(minBytes, c) > residentBytes {
          s.PrefixGrows(minBytes, i + 1, c);
        }
        return;
      }
      resident := resident + w;
    }
  }

  /** Places the largest prefix that fits the budget and splits no session state. */
  method ResidentBudget(s: Schedule, minBytes: nat, residentBytes: nat) returns (devices: seq<Device>, ghost cut: nat)
    ensures |devices| == |s.kernels| && cut <= |s.kernels| && s.IsBest(minBytes, residentBytes, cut)
    ensures forall i :: 0 <= i < |devices| ==> devices[i] == if i < cut then CUDA else CPU
    ensures StatesStayWhole(s, devices)
  {
    assert !s.Splits(0) && s.PrefixWeight(minBytes, 0) == 0;
    hide Schedule.Splits, Straddles, Schedule.PrefixWeight, SpansBefore, StatesStayWhole;
    var spans := KvSpans(s);
    var at := BudgetCut(s, minBytes, residentBytes);
    StraddlesIsSplits(s, spans, at);
    while 0 < at && Straddles(spans, at)
      invariant 0 <= at <= |s.kernels| && s.PrefixWeight(minBytes, at) <= residentBytes
      invariant forall c: nat :: at < c <= |s.kernels| ==> !s.Allowed(minBytes, residentBytes, c)
    {
      StraddlesIsSplits(s, spans, at);
      s.PrefixGrows(minBytes, at - 1, at);
      at := at - 1;
    }
    StraddlesIsSplits(s, spans, at);
    cut := at;
    devices := seq(|s.kernels|, i requires 0 <= i < |s.kernels| => if i < at then CUDA else CPU);
    StatesOnOneDevice(s, at, devices);
  }

  /** All kernels that read or define a session state are on one device. */
  ghost predicate StatesStayWhole(s: Schedule, devices: seq<Device>)
    requires |devices| == |s.kernels|
  {
    forall v: ValueId, i: nat, j: nat ::
      (v in s.sessionStates && i < |s.kernels| && j < |s.kernels|
       && (Some(v) in s.kernels[i].inputs || v in s.kernels[i].outputs)
       && (Some(v) in s.kernels[j].inputs || v in s.kernels[j].outputs)) ==> devices[i] == devices[j]
  }

  lemma StatesOnOneDevice(s: Schedule, cut: nat, devices: seq<Device>)
    requires !s.Splits(cut) && |devices| == |s.kernels|
    requires forall i :: 0 <= i < |devices| ==> devices[i] == if i < cut then CUDA else CPU
    ensures StatesStayWhole(s, devices)
  {
    forall v: ValueId, i: nat, j: nat | s.TouchedAt(i, v) && s.TouchedAt(j, v) ensures i < cut <==> j < cut {
    }
    assert forall v: ValueId, i: nat :: i < |s.kernels| && v in s.sessionStates ==>
             (s.TouchedAt(i, v) <==> Some(v) in s.kernels[i].inputs || v in s.kernels[i].outputs);
  }
}
