/**
  Condition building (`create_condition` and its two presets in src/main.rs).

  A UIA condition is modelled by the `Cond` tree its constructors build, with a
  meaning `Eval` over an element's boolean property values. The provider's three
  factory calls (`CreateTrueCondition`, `CreatePropertyCondition`,
  `CreateAndCondition`) either succeed, yielding the corresponding constructor, or
  fail with an error; which of them fail is the caller-supplied `Faults`.
 */
module ConditionBuilder {
  import opened Uia

  datatype Cond = True | Prop(id: PropertyId, value: bool) | And(left: Cond, right: Cond)

  /** One `(property, expected value)` pair of the list handed to `create_condition`. */
  datatype PropertyPredicate = PropertyPredicate(id: PropertyId, value: bool)

  /** The boolean property values an element reports; a property it does not report as a boolean is absent. */
  type Properties = map<PropertyId, bool>

  predicate Matches(q: PropertyPredicate, props: Properties) {
    q.id in props && props[q.id] == q.value
  }

  /** What a condition means for an element with the given properties. */
  predicate Eval(c: Cond, props: Properties) {
    match c
    case True => true
    case Prop(id, value) => Matches(PropertyPredicate(id, value), props)
    case And(left, right) => Eval(left, props) && Eval(right, props)
  }

  /** Every pair of the list is matched. */
  predicate AllMatch(preds: seq<PropertyPredicate>, props: Properties) {
    forall i :: 0 <= i < |preds| ==> Matches(preds[i], props)
  }

  function Leaf(q: PropertyPredicate): Cond {
    Prop(q.id, q.value)
  }

  // ---------------------------------------------------------------------------
  // The shape a fault-free build produces

  /** The left-nested chain `And(...And(And(True, p0), p1)..., pn-1)` of the first `n` pairs. */
  function ChainUpTo(preds: seq<PropertyPredicate>, n: nat): Cond
    requires n <= |preds|
  {
    if n == 0 then True else And(ChainUpTo(preds, n - 1), Leaf(preds[n - 1]))
  }

  /** The chain of all the pairs. */
  function Chain(preds: seq<PropertyPredicate>): Cond {
    ChainUpTo(preds, |preds|)
  }

  /** The property leaves of a condition, left to right. */
  function Leaves(c: Cond): seq<PropertyPredicate> {
    match c
    case True => []
    case Prop(id, value) => [PropertyPredicate(id, value)]
    case And(left, right) => Leaves(left) + Leaves(right)
  }

  function AndCount(c: Cond): nat {
    match c
    case True => 0
    case Prop(_, _) => 0
    case And(left, right) => AndCount(left) + AndCount(right) + 1
  }

  /** `True` at the bottom, and every `And` has a property leaf as its right operand. */
  predicate LeftNested(c: Cond) {
    match c
    case True => true
    case Prop(_, _) => false
    case And(left, right) => right.Prop? && LeftNested(left)
  }

  // ---------------------------------------------------------------------------
  // The provider's factory calls and the fold

  /**
    A factory call, carrying the position `index` of the pair it is made for, so that
    a fault schedule may tell repeated calls apart.
   */
  datatype Call =
    | CreateTrue
    | CreateProperty(index: nat, id: PropertyId, value: bool)
    | CreateAnd(index: nat, left: Cond, right: Cond)

  /** The provider's answer to each factory call: `Some(e)` when the call fails with `e`. */
  type Faults = Call -> Option<Error>

  /** Issues one factory call; on success the provider hands back `made`. */
  function Construct(faults: Faults, call: Call, made: Cond): Result<Cond> {
    match faults(call)
    case Some(e) => Err(e)
    case None => Ok(made)
  }

  /** The loop of `create_condition` from pair `i` on, with `res` built so far. */
  function FoldFrom(faults: Faults, preds: seq<PropertyPredicate>, i: nat, res: Cond): Result<Cond>
    requires i <= |preds|
    decreases |preds| - i
  {
    if i == |preds| then Ok(res)
    else
      var additional :- Construct(faults, CreateProperty(i, preds[i].id, preds[i].value), Leaf(preds[i]));
      var conj :- Construct(faults, CreateAnd(i, res, additional), And(res, additional));
      FoldFrom(faults, preds, i + 1, conj)
  }

  /** `create_condition`: start from the true condition and conjoin one property leaf per pair. */
  function CreateCondition(faults: Faults, preds: seq<PropertyPredicate>): (r: Result<Cond>)
    ensures faults(CreateTrue).Some? ==> r == Err(faults(CreateTrue).value)
    ensures preds == [] ==> (r.Ok? <==> faults(CreateTrue).None?)
    ensures preds == [] && r.Ok? ==> r.value == True
  {
    var res :- Construct(faults, CreateTrue, True);
    FoldFrom(faults, preds, 0, res)
  }

  // ---------------------------------------------------------------------------
  // Reference definition: the calls a fault-free run makes, and the first one that fails

  /** The factory calls a fault-free run makes for the first `n` pairs, in the order the loop issues them. */
  function CallsUpTo(preds: seq<PropertyPredicate>, n: nat): (calls: seq<Call>)
    requires n <= |preds|
    ensures |calls| == 2 * n + 1
    ensures calls[0] == CreateTrue
  {
    if n == 0 then [CreateTrue]
    else
      CallsUpTo(preds, n - 1)
        + [CreateProperty(n - 1, preds[n - 1].id, preds[n - 1].value),
           CreateAnd(n - 1, ChainUpTo(preds, n - 1), Leaf(preds[n - 1]))]
  }

  /**
    The calls of a run in order: first the true condition, then for pair `i` the property
    call with that pair, then the `And` of the chain built so far with that leaf.
   */
  lemma {:induction false} CallsOrder(preds: seq<PropertyPredicate>, n: nat, i: nat)
    requires i < n <= |preds|
    ensures CallsUpTo(preds, n)[2 * i + 1] == CreateProperty(i, preds[i].id, preds[i].value)
    ensures CallsUpTo(preds, n)[2 * i + 2] == CreateAnd(i, ChainUpTo(preds, i), Leaf(preds[i]))
  {
    if i < n - 1 {
      CallsOrder(preds, n - 1, i);
    }
  }

  /** The factory calls of a fault-free run over all the pairs. */
  function Calls(preds: seq<PropertyPredicate>): seq<Call> {
    CallsUpTo(preds, |preds|)
  }

  /** The error of the first failing call of `calls`, if any fails. */
  function FirstFault(faults: Faults, calls: seq<Call>): Option<Error>
    decreases |calls|
  {
    if |calls| == 0 then None
    else if faults(calls[0]).Some? then faults(calls[0])
    else FirstFault(faults, calls[1..])
  }

  /** What `create_condition` is meant to return. */
  function Expected(faults: Faults, preds: seq<PropertyPredicate>): Result<Cond> {
    match FirstFault(faults, Calls(preds))
    case Some(e) => Err(e)
    case None => Ok(Chain(preds))
  }

  // ---------------------------------------------------------------------------
  // Lemmas about the reference

  lemma {:induction false} FirstFaultNone(faults: Faults, calls: seq<Call>)
    ensures FirstFault(faults, calls).None? <==> forall k :: 0 <= k < |calls| ==> faults(calls[k]).None?
    decreases |calls|
  {
    if |calls| > 0 {
      FirstFaultNone(faults, calls[1..]);
      assert forall k :: 1 <= k < |calls| ==> calls[k] == calls[1..][k - 1];
    }
  }

  lemma {:induction false} FirstFaultAt(faults: Faults, calls: seq<Call>, k: nat)
    requires k < |calls| && faults(calls[k]).Some?
    requires forall j :: 0 <= j < k ==> faults(calls[j]).None?
    ensures FirstFault(faults, calls) == faults(calls[k])
    decreases k
  {
    if k > 0 {
      assert faults(calls[0]).None?;
      assert forall j :: 0 <= j < k - 1 ==> calls[1..][j] == calls[j + 1];
      FirstFaultAt(faults, calls[1..], k - 1);
    }
  }

  /** A fault in a prefix of the calls is the fault of the whole run. */
  lemma {:induction false} FirstFaultPrefix(faults: Faults, a: seq<Call>, b: seq<Call>)
    requires a <= b && FirstFault(faults, a).Some?
    ensures FirstFault(faults, b) == FirstFault(faults, a)
    decreases |a|
  {
    assert a[0] == b[0];
    if faults(a[0]).None? {
      FirstFaultPrefix(faults, a[1..], b[1..]);
    }
  }

  lemma {:induction false} FirstFaultAppend(faults: Faults, a: seq<Call>, b: seq<Call>)
    requires FirstFault(faults, a).None?
    ensures FirstFault(faults, a + b) == FirstFault(faults, b)
    decreases |a|
  {
    if |a| > 0 {
      assert (a + b)[1..] == a[1..] + b;
      FirstFaultAppend(faults, a[1..], b);
    } else {
      assert a + b == b;
    }
  }

  lemma FirstFaultPair(faults: Faults, a: Call, b: Call)
    ensures faults(a).Some? ==> FirstFault(faults, [a, b]) == faults(a)
    ensures faults(a).None? ==> FirstFault(faults, [a, b]) == faults(b)
  {
    assert [a, b][0] == a;
    assert [a, b][1..] == [b];
    assert [b][0] == b;
    assert [b][1..] == [];
    assert FirstFault(faults, []) == None;
    assert FirstFault(faults, [b]) == faults(b);
  }

  /** The calls for the first `j` pairs are a prefix of the calls for all of them. */
  lemma {:induction false} CallsPrefix(preds: seq<PropertyPredicate>, j: nat)
    requires j <= |preds|
    ensures CallsUpTo(preds, j) <= Calls(preds)
    decreases |preds| - j
  {
    if j < |preds| {
      CallsPrefix(preds, j + 1);
    }
  }

  /** One turn of the loop: the property call, then the `And` call, then the rest. */
  lemma FoldFromStep(faults: Faults, preds: seq<PropertyPredicate>, i: nat, res: Cond)
    requires i < |preds|
    ensures var cp := CreateProperty(i, preds[i].id, preds[i].value);
            var ca := CreateAnd(i, res, Leaf(preds[i]));
            FoldFrom(faults, preds, i, res) ==
              if faults(cp).Some? then Err(faults(cp).value)
              else if faults(ca).Some? then Err(faults(ca).value)
              else FoldFrom(faults, preds, i + 1, And(res, Leaf(preds[i])))
  {
  }

  lemma {:induction false} FoldFromMeetsExpected(faults: Faults, preds: seq<PropertyPredicate>, i: nat)
    requires i <= |preds|
    requires FirstFault(faults, CallsUpTo(preds, i)).None?
    ensures FoldFrom(faults, preds, i, ChainUpTo(preds, i)) == Expected(faults, preds)
    decreases |preds| - i
  {
    if i < |preds| {
      var cp := CreateProperty(i, preds[i].id, preds[i].value);
      var ca := CreateAnd(i, ChainUpTo(preds, i), Leaf(preds[i]));
      FoldFromStep(faults, preds, i, ChainUpTo(preds, i));
      FirstFaultAppend(faults, CallsUpTo(preds, i), [cp, ca]);
      FirstFaultPair(faults, cp, ca);
      if FirstFault(faults, CallsUpTo(preds, i + 1)).Some? {
        CallsPrefix(preds, i + 1);
        FirstFaultPrefix(faults, CallsUpTo(preds, i + 1), Calls(preds));
      } else {
        FoldFromMeetsExpected(faults, preds, i + 1);
      }
    }
  }

  /**
    The build fails with the error of the first factory call that fails, and otherwise
    yields the left-nested chain of the pairs.
   */
  lemma CreateConditionMeetsExpected(faults: Faults, preds: seq<PropertyPredicate>)
    ensures CreateCondition(faults, preds) == Expected(faults, preds)
  {
    CallsPrefix(preds, 0);
    if faults(CreateTrue).Some? {
      FirstFaultPrefix(faults, CallsUpTo(preds, 0), Calls(preds));
    } else {
      FoldFromMeetsExpected(faults, preds, 0);
    }
  }

  // ---------------------------------------------------------------------------
  // Properties of `create_condition`

  /** If no factory call fails, the result is the chain of the pairs. */
  lemma CreateConditionSucceeds(faults: Faults, preds: seq<PropertyPredicate>)
    requires forall k :: 0 <= k < |Calls(preds)| ==> faults(Calls(preds)[k]).None?
    ensures CreateCondition(faults, preds) == Ok(Chain(preds))
  {
    CreateConditionMeetsExpected(faults, preds);
    FirstFaultNone(faults, Calls(preds));
  }

  /** Any failing factory call makes the whole build fail, with no condition returned. */
  lemma AnyFaultAborts(faults: Faults, preds: seq<PropertyPredicate>, k: nat)
    requires k < |Calls(preds)| && faults(Calls(preds)[k]).Some?
    ensures CreateCondition(faults, preds).Err?
  {
    CreateConditionMeetsExpected(faults, preds);
    FirstFaultNone(faults, Calls(preds));
  }

  /** The error returned is exactly the one of the earliest failing call. */
  lemma FirstFaultIsReturned(faults: Faults, preds: seq<PropertyPredicate>, k: nat)
    requires k < |Calls(preds)| && faults(Calls(preds)[k]).Some?
    requires forall j :: 0 <= j < k ==> faults(Calls(preds)[j]).None?
    ensures CreateCondition(faults, preds) == Err(faults(Calls(preds)[k]).value)
  {
    CreateConditionMeetsExpected(faults, preds);
    FirstFaultAt(faults, Calls(preds), k);
  }

  lemma {:induction false} ChainUpToLeaves(preds: seq<PropertyPredicate>, n: nat)
    requires n <= |preds|
    ensures Leaves(ChainUpTo(preds, n)) == preds[..n]
  {
    if n > 0 {
      ChainUpToLeaves(preds, n - 1);
      assert preds[..n - 1] + [preds[n - 1]] == preds[..n];
    }
  }

  /** The chain has one property leaf per pair, in input order. */
  lemma ChainLeaves(preds: seq<PropertyPredicate>)
    ensures Leaves(Chain(preds)) == preds
  {
    ChainUpToLeaves(preds, |preds|);
    assert preds[..|preds|] == preds;
  }

  lemma {:induction false} ChainUpToShape(preds: seq<PropertyPredicate>, n: nat)
    requires n <= |preds|
    ensures AndCount(ChainUpTo(preds, n)) == n
    ensures LeftNested(ChainUpTo(preds, n))
  {
    if n > 0 {
      ChainUpToShape(preds, n - 1);
    }
  }

  /** The chain has one `And` per pair, each with a property leaf as its right operand. */
  lemma ChainShape(preds: seq<PropertyPredicate>)
    ensures AndCount(Chain(preds)) == |preds|
    ensures LeftNested(Chain(preds))
  {
    ChainUpToShape(preds, |preds|);
  }

  /** The chain of the first `n` pairs depends on those pairs only. */
  lemma {:induction false} ChainUpToAgree(a: seq<PropertyPredicate>, b: seq<PropertyPredicate>, n: nat)
    requires n <= |a| && n <= |b|
    requires forall i :: 0 <= i < n ==> a[i] == b[i]
    ensures ChainUpTo(a, n) == ChainUpTo(b, n)
  {
    if n > 0 {
      ChainUpToAgree(a, b, n - 1);
    }
  }

  /** Conversely, every left-nested condition is the chain of its own leaves. */
  lemma {:induction false} LeftNestedIsChain(c: Cond)
    requires LeftNested(c)
    ensures Chain(Leaves(c)) == c
  {
    match c
    case True =>
    case And(left, right) =>
      LeftNestedIsChain(left);
      assert Leaves(right) == [PropertyPredicate(right.id, right.value)];
      var ls, ll := Leaves(c), Leaves(left);
      assert ls == ll + [PropertyPredicate(right.id, right.value)];
      ChainUpToAgree(ls, ll, |ll|);
  }

  lemma {:induction false} EvalChainUpTo(preds: seq<PropertyPredicate>, n: nat, props: Properties)
    requires n <= |preds|
    ensures Eval(ChainUpTo(preds, n), props) <==> forall i :: 0 <= i < n ==> Matches(preds[i], props)
  {
    if n > 0 {
      EvalChainUpTo(preds, n - 1, props);
    }
  }

  /** The chain holds exactly when every pair matches. */
  lemma EvalChain(preds: seq<PropertyPredicate>, props: Properties)
    ensures Eval(Chain(preds), props) <==> AllMatch(preds, props)
  {
    EvalChainUpTo(preds, |preds|, props);
  }

  /** A built condition holds for an element exactly when every pair matches it. */
  lemma CreateConditionMeaning(faults: Faults, preds: seq<PropertyPredicate>, props: Properties)
    requires CreateCondition(faults, preds).Ok?
    ensures Eval(CreateCondition(faults, preds).value, props) <==> AllMatch(preds, props)
  {
    CreateConditionMeetsExpected(faults, preds);
    EvalChain(preds, props);
  }

  lemma AllMatchMembers(preds: seq<PropertyPredicate>, props: Properties)
    ensures AllMatch(preds, props) <==> forall q :: q in multiset(preds) ==> Matches(q, props)
  {
  }

  /** Reordering (or permuting) the pairs never changes what the built condition accepts. */
  lemma ChainOrderIndependent(preds: seq<PropertyPredicate>, others: seq<PropertyPredicate>, props: Properties)
    requires multiset(preds) == multiset(others)
    ensures Eval(Chain(preds), props) == Eval(Chain(others), props)
  {
    EvalChain(preds, props);
    EvalChain(others, props);
    AllMatchMembers(preds, props);
    AllMatchMembers(others, props);
  }

  /** Two successful builds from the same pairs in any order accept the same elements. */
  lemma CreateConditionOrderIndependent(faults: Faults, others: Faults, preds: seq<PropertyPredicate>,
                                        reordered: seq<PropertyPredicate>, props: Properties)
    requires multiset(preds) == multiset(reordered)
    requires CreateCondition(faults, preds).Ok? && CreateCondition(others, reordered).Ok?
    ensures Eval(CreateCondition(faults, preds).value, props) == Eval(CreateCondition(others, reordered).value, props)
  {
    CreateConditionMeetsExpected(faults, preds);
    CreateConditionMeetsExpected(others, reordered);
    ChainOrderIndependent(preds, reordered, props);
  }

  // ---------------------------------------------------------------------------
  // The presets

  /** The pair list of `create_text_avail_condition`, also the one `main` builds. */
  const TextAvailPredicates: seq<PropertyPredicate> :=
    [PropertyPredicate(IsTextPattern2AvailablePropertyId, true)]

  const EditableTextAvailPredicates: seq<PropertyPredicate> :=
    [PropertyPredicate(IsTextPattern2AvailablePropertyId, true),
     PropertyPredicate(ValueIsReadOnlyPropertyId, false)]

  /** Elements that support text pattern 2. */
  function CreateTextAvailCondition(faults: Faults): Result<Cond> {
    CreateCondition(faults, TextAvailPredicates)
  }

  /** Elements that support text pattern 2 and whose value is not read-only. */
  function CreateEditableTextAvailCondition(faults: Faults): Result<Cond> {
    CreateCondition(faults, EditableTextAvailPredicates)
  }

  /** The text preset makes three factory calls; it succeeds exactly when none fails. */
  lemma TextAvailConditionBuilt(faults: Faults)
    ensures CreateTextAvailCondition(faults).Ok? <==>
      && faults(CreateTrue).None?
      && faults(CreateProperty(0, IsTextPattern2AvailablePropertyId, true)).None?
      && faults(CreateAnd(0, True, Prop(IsTextPattern2AvailablePropertyId, true))).None?
    ensures CreateTextAvailCondition(faults).Ok? ==>
      CreateTextAvailCondition(faults).value == And(True, Prop(IsTextPattern2AvailablePropertyId, true))
  {
    CreateConditionMeetsExpected(faults, TextAvailPredicates);
    var calls := Calls(TextAvailPredicates);
    assert calls == [calls[0], calls[1], calls[2]];
    FirstFaultNone(faults, calls);
  }

  /** The editable preset makes five factory calls; it succeeds exactly when none fails. */
  lemma EditableTextAvailConditionBuilt(faults: Faults)
    ensures CreateEditableTextAvailCondition(faults).Ok? <==>
      && faults(CreateTrue).None?
      && faults(CreateProperty(0, IsTextPattern2AvailablePropertyId, true)).None?
      && faults(CreateAnd(0, True, Prop(IsTextPattern2AvailablePropertyId, true))).None?
      && faults(CreateProperty(1, ValueIsReadOnlyPropertyId, false)).None?
      && faults(CreateAnd(1, And(True, Prop(IsTextPattern2AvailablePropertyId, true)),
                          Prop(ValueIsReadOnlyPropertyId, false))).None?
    ensures CreateEditableTextAvailCondition(faults).Ok? ==> (CreateEditableTextAvailCondition(faults).value ==
      And(And(True, Prop(IsTextPattern2AvailablePropertyId, true)), Prop(ValueIsReadOnlyPropertyId, false)))
  {
    CreateConditionMeetsExpected(faults, EditableTextAvailPredicates);
    var calls := Calls(EditableTextAvailPredicates);
    CallsOrder(EditableTextAvailPredicates, 2, 0);
    CallsOrder(EditableTextAvailPredicates, 2, 1);
    assert calls == [calls[0], calls[1], calls[2], calls[3], calls[4]];
    FirstFaultNone(faults, calls);
  }

  /** The text preset accepts exactly the elements reporting text pattern 2 as available. */
  lemma TextAvailMeaning(faults: Faults, props: Properties)
    requires CreateTextAvailCondition(faults).Ok?
    ensures Eval(CreateTextAvailCondition(faults).value, props) <==>
      IsTextPattern2AvailablePropertyId in props && props[IsTextPattern2AvailablePropertyId]
  {
    TextAvailConditionBuilt(faults);
  }

  /** The editable preset additionally requires the value not to be read-only. */
  lemma EditableTextAvailMeaning(faults: Faults, props: Properties)
    requires CreateEditableTextAvailCondition(faults).Ok?
    ensures Eval(CreateEditableTextAvailCondition(faults).value, props) <==>
      && IsTextPattern2AvailablePropertyId in props && props[IsTextPattern2AvailablePropertyId]
      && ValueIsReadOnlyPropertyId in props && !props[ValueIsReadOnlyPropertyId]
  {
    CreateConditionMeaning(faults, EditableTextAvailPredicates, props);
    assert EditableTextAvailPredicates[0] == PropertyPredicate(IsTextPattern2AvailablePropertyId, true);
    assert EditableTextAvailPredicates[1] == PropertyPredicate(ValueIsReadOnlyPropertyId, false);
  }
}
