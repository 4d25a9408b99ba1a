/** Laws of the applicability engine: more facts never overturn a verdict,
    groups are Kleene minima and maxima, complementing a group negates it, and
    how links combine into a module's status. */
module ApplicabilityLaws {
  import opened Wrappers
  import opened Applicability

  // ---------------------------------------------------------------------
  // More facts never overturn a verdict
  // ---------------------------------------------------------------------

  /** `g` reports everything that `f` reports, with the same values. */
  ghost predicate Extends(f: Facts, g: Facts) {
    forall k :: k in f ==> k in g && g[k] == f[k]
  }

  /** Whatever `d` decides, `e` decides the same way. */
  ghost predicate Refines(d: Device, e: Device) {
    forall c :: d(c) != Unknown ==> e(c) == d(c)
  }

  lemma DevicesRefine(lib: Library, f: Facts, g: Facts)
    requires Extends(f, g)
    ensures Refines(OnDevice(lib, f), OnDevice(lib, g))
  {
  }

  /** A pass or fail of a group survives every further fact. */
  lemma GroupVerdictStands(d: Device, e: Device, g: Group)
    requires Refines(d, e) && GroupVerdict(d, g) != Unknown
    ensures GroupVerdict(e, g) == GroupVerdict(d, g)
  {
  }

  /** Lists of the same groups in which decided verdicts agree. */
  ghost predicate VerdictsRefine(vs: seq<Verdict>, ws: seq<Verdict>) {
    |vs| == |ws| && forall i :: 0 <= i < |vs| && vs[i] != Unknown ==> ws[i] == vs[i]
  }

  lemma {:induction false} ResultsRefine(d: Device, e: Device, links: seq<ModuleLink>, groups: Groups, role: Role)
    requires Refines(d, e)
    ensures VerdictsRefine(VerdictsOf(Results(d, links, groups, role)), VerdictsOf(Results(e, links, groups, role)))
  {
    if links == [] {
    } else {
      var l := links[|links| - 1];
      ResultsRefine(d, e, links[..|links| - 1], groups, role);
      if l.groupID in groups && GroupVerdict(d, groups[l.groupID]) != Unknown {
        GroupVerdictStands(d, e, groups[l.groupID]);
      }
    }
  }

  lemma AggregatesRefine(vs: seq<Verdict>, ws: seq<Verdict>)
    requires VerdictsRefine(vs, ws)
    ensures AllOf(vs) != Unknown ==> AllOf(ws) == AllOf(vs)
    ensures AnyOf(vs) != Unknown ==> AnyOf(ws) == AnyOf(vs)
  {
  }

  /** An eligible or ineligible module stays so when the device reports more. */
  lemma StatusStands(lib: Library, f: Facts, g: Facts, links: seq<ModuleLink>, groups: Groups)
    requires Extends(f, g)
    requires Evaluation(OnDevice(lib, f), links, groups).status != StatusUnknown
    ensures Evaluation(OnDevice(lib, g), links, groups).status == Evaluation(OnDevice(lib, f), links, groups).status
  {
    var d, e := OnDevice(lib, f), OnDevice(lib, g);
    DevicesRefine(lib, f, g);
    ResultsRefine(d, e, links, groups, Platform);
    ResultsRefine(d, e, links, groups, Requirement);
    AggregatesRefine(VerdictsOf(Results(d, links, groups, Platform)), VerdictsOf(Results(e, links, groups, Platform)));
    AggregatesRefine(VerdictsOf(Results(d, links, groups, Requirement)), VerdictsOf(Results(e, links, groups, Requirement)));
  }

  // ---------------------------------------------------------------------
  // Kleene semantics
  // ---------------------------------------------------------------------

  function Rank(v: Verdict): nat {
    match v case Fail => 0 case Unknown => 1 case Pass => 2
  }

  function Join(a: Verdict, b: Verdict): Verdict {
    if a == Pass || b == Pass then Pass else if a == Unknown || b == Unknown then Unknown else Fail
  }

  function Negate(v: Verdict): Verdict {
    match v case Fail => Pass case Unknown => Unknown case Pass => Fail
  }

  /** The early-exit loops compute least and greatest verdicts; the empty group
      is the unit of its mode. */
  lemma AggregatesAreBounds(vs: seq<Verdict>)
    ensures forall v :: v in vs ==> Rank(AllOf(vs)) <= Rank(v) <= Rank(AnyOf(vs))
    ensures if vs == [] then AllOf(vs) == Pass && AnyOf(vs) == Fail else AllOf(vs) in vs && AnyOf(vs) in vs
  {
    if vs != [] {
      assert vs[0] in vs;
    }
  }

  lemma AggregatesOfAppend(vs: seq<Verdict>, v: Verdict)
    ensures AllOf(vs + [v]) == Meet(AllOf(vs), v)
    ensures AnyOf(vs + [v]) == Join(AnyOf(vs), v)
  {
  }

  /** A group's verdict depends on the set of its conditions only. */
  lemma GroupIgnoresOrder(d: Device, g: Group, h: Group)
    requires forall c :: c in g.conditions <==> c in h.conditions
    requires g.matchMode == h.matchMode
    ensures GroupVerdict(d, g) == GroupVerdict(d, h)
  {
    forall v ensures v in Verdicts(d, g.conditions) <==> v in Verdicts(d, h.conditions) {
      VerdictsAmong(d, g.conditions, h.conditions, v);
      VerdictsAmong(d, h.conditions, g.conditions, v);
    }
  }

  lemma VerdictsAmong(d: Device, cs: seq<Condition>, ds: seq<Condition>, v: Verdict)
    requires forall c :: c in cs ==> c in ds
    ensures v in Verdicts(d, cs) ==> v in Verdicts(d, ds)
  {
    var vs, ws := Verdicts(d, cs), Verdicts(d, ds);
    if v in vs {
      var i :| 0 <= i < |vs| && vs[i] == v;
      assert cs[i] in ds;
      var j :| 0 <= j < |ds| && ds[j] == cs[i];
      assert ws[j] == v;
    }
  }

  // ---------------------------------------------------------------------
  // Complements
  // ---------------------------------------------------------------------

  predicate HasComplement(op: Operator) {
    op.In? || op.NotIn? || op.Equals? || op.NotEquals? || op.Contains? || op.NotContains?
  }

  function Complement(op: Operator): Operator
    requires HasComplement(op)
  {
    match op
    case In => NotIn
    case NotIn => In
    case Equals => NotEquals
    case NotEquals => Equals
    case Contains => NotContains
    case NotContains => Contains
  }

  function ComplementOf(c: Condition): Condition
    requires HasComplement(c.operator)
  {
    c.(operator := Complement(c.operator))
  }

  /** The device ran the condition's script and the run exited non-zero. */
  predicate RunFailed(c: Condition, facts: Facts) {
    IsScripted(c) && Lookup(facts, ScriptKey(c.id)) == Some(EXIT_FAIL)
  }

  /** Complementing a condition negates it unless its script run failed, which
      fails the condition and its complement alike. */
  lemma ComplementNegatesExactly(lib: Library, c: Condition, facts: Facts)
    requires HasComplement(c.operator)
    ensures EvalCondition(lib, ComplementOf(c), facts) == Negate(EvalCondition(lib, c, facts))
            <==> !RunFailed(c, facts)
  {
    var d := ComplementOf(c);
    assert FactKey(d) == FactKey(c) && (RunFailed(d, facts) <==> RunFailed(c, facts));
    OperatorsComplement(lib, c, Lookup(facts, FactKey(c)));
  }

  lemma OperatorsComplement(lib: Library, c: Condition, reported: Option<string>)
    requires HasComplement(c.operator)
    ensures EvalOperator(lib, ComplementOf(c), reported) == Negate(EvalOperator(lib, c, reported))
  {
    match c.operator {
      case In =>
      case NotIn =>
      case Equals =>
      case NotEquals =>
      case Contains =>
      case NotContains =>
    }
  }

  /** "Greater" and "less or equal", and "less" and "greater or equal",
      complement each other exactly when no comparison with NaN decides them. */
  lemma OrderComplementsExactly(lib: Library, c: Condition, facts: Facts)
    requires c.operator == GT || c.operator == LT
    ensures var d := c.(operator := if c.operator == GT then LTE else GTE);
            EvalCondition(lib, d, facts) == Negate(EvalCondition(lib, c, facts))
            <==> !RunFailed(c, facts) && !ComparesNaN(lib, c, facts)
  {
    var d := c.(operator := if c.operator == GT then LTE else GTE);
    assert FactKey(d) == FactKey(c) && (RunFailed(d, facts) <==> RunFailed(c, facts));
    var reported := Lookup(facts, FactKey(c));
    if reported.Some? && c.values != [] {
      assert EvalOperator(lib, c, reported) == CompareNumbers(lib, c.operator, reported.value, c.values[0]);
      assert EvalOperator(lib, d, reported) == CompareNumbers(lib, d.operator, reported.value, c.values[0]);
    }
  }

  predicate ComparesNaN(lib: Library, c: Condition, facts: Facts) {
    var reported := Lookup(facts, FactKey(c));
    reported.Some? && c.values != [] &&
    var x, y := lib.parse(reported.value), lib.parse(c.values[0]);
    x.Some? && y.Some? && (x.value == NaN || y.value == NaN)
  }

  function Swap(mode: string): string {
    if mode == MATCH_ANY then MATCH_ALL else MATCH_ANY
  }

  function ComplementAll(cs: seq<Condition>): seq<Condition>
    requires forall c :: c in cs ==> HasComplement(c.operator)
  {
    seq(|cs|, i requires 0 <= i < |cs| => ComplementOf(cs[i]))
  }

  lemma AggregatesAreDual(vs: seq<Verdict>, ws: seq<Verdict>)
    requires |vs| == |ws| && forall i :: 0 <= i < |vs| ==> ws[i] == Negate(vs[i])
    ensures AllOf(ws) == Negate(AnyOf(vs)) && AnyOf(ws) == Negate(AllOf(vs))
  {
  }

  /** The verdict of one condition that settles a group by itself. */
  function Decisive(mode: string): Verdict {
    if mode == MATCH_ANY then Pass else Fail
  }

  /** Some condition whose run did not fail settles the group. */
  predicate Settled(lib: Library, facts: Facts, g: Group) {
    exists c :: c in g.conditions && !RunFailed(c, facts) && EvalCondition(lib, c, facts) == Decisive(g.matchMode)
  }

  /** De Morgan: complementing every condition and swapping all and any negates
      the group, the empty group included, exactly when no script run failed or
      a condition without a failed run settles the group anyway. */
  lemma ComplementedGroupExactly(lib: Library, facts: Facts, g: Group)
    requires forall c :: c in g.conditions ==> HasComplement(c.operator)
    ensures var h := g.(matchMode := Swap(g.matchMode), conditions := ComplementAll(g.conditions));
            GroupVerdict(OnDevice(lib, facts), h) == Negate(GroupVerdict(OnDevice(lib, facts), g))
            <==> (forall c :: c in g.conditions ==> !RunFailed(c, facts)) || Settled(lib, facts, g)
  {
    var d := OnDevice(lib, facts);
    var vs, ws := Verdicts(d, g.conditions), Verdicts(d, ComplementAll(g.conditions));
    forall i | 0 <= i < |vs|
      ensures ws[i] == if RunFailed(g.conditions[i], facts) then Fail else Negate(vs[i])
    {
      assert g.conditions[i] in g.conditions;
      ComplementNegatesExactly(lib, g.conditions[i], facts);
    }
    if c :| c in g.conditions && RunFailed(c, facts) {
      var i :| 0 <= i < |vs| && g.conditions[i] == c;
      FailedRunSettles(lib, facts, g, vs, ws, i);
    } else {
      forall i | 0 <= i < |vs| ensures ws[i] == Negate(vs[i]) {
        assert g.conditions[i] in g.conditions;
      }
      AggregatesAreDual(vs, ws);
    }
  }

  /** With a failed run in the group, its complement is decided by whether
      another condition settles the group. */
  lemma FailedRunSettles(lib: Library, facts: Facts, g: Group, vs: seq<Verdict>, ws: seq<Verdict>, r: nat)
    requires |vs| == |ws| == |g.conditions| && r < |vs| && RunFailed(g.conditions[r], facts)
    requires forall i :: 0 <= i < |vs| ==> vs[i] == EvalCondition(lib, g.conditions[i], facts)
    requires forall i :: 0 <= i < |vs| ==> ws[i] == if RunFailed(g.conditions[i], facts) then Fail else Negate(vs[i])
    ensures Settled(lib, facts, g) <==>
              (if g.matchMode == MATCH_ANY then AllOf(ws) == Negate(AnyOf(vs)) else AnyOf(ws) == Negate(AllOf(vs)))
  {
    assert vs[r] == Fail && ws[r] == Fail;
    SettledByOne(lib, facts, g, vs, ws);
  }

  lemma SettledByOne(lib: Library, facts: Facts, g: Group, vs: seq<Verdict>, ws: seq<Verdict>)
    requires |vs| == |ws| == |g.conditions|
    requires forall i :: 0 <= i < |vs| ==> vs[i] == EvalCondition(lib, g.conditions[i], facts)
    requires forall i :: 0 <= i < |vs| ==> ws[i] == if RunFailed(g.conditions[i], facts) then Fail else Negate(vs[i])
    ensures Settled(lib, facts, g) <==> Pass in (if g.matchMode == MATCH_ANY then vs else ws)
  {
  }

  /** A failed run fails a condition and its complement, alone and as groups. */
  lemma FailedRunBreaksComplement(lib: Library, id: int)
    ensures var c := Condition(id, "", Equals, ["ok"], Script);
            var facts := map[ScriptKey(id) := EXIT_FAIL];
            var g := Group(0, "", "", MATCH_ALL, [c]);
            var h := g.(matchMode := Swap(g.matchMode), conditions := ComplementAll(g.conditions));
            && EvalCondition(lib, c, facts) == Fail && EvalCondition(lib, ComplementOf(c), facts) == Fail
            && GroupVerdict(OnDevice(lib, facts), h) != Negate(GroupVerdict(OnDevice(lib, facts), g))
  {
    var c := Condition(id, "", Equals, ["ok"], Script);
    var facts := map[ScriptKey(id) := EXIT_FAIL];
    assert RunFailed(c, facts) && c in [c];
    ComplementNegatesExactly(lib, c, facts);
    ComplementedGroupExactly(lib, facts, Group(0, "", "", MATCH_ALL, [c]));
    assert !Settled(lib, facts, Group(0, "", "", MATCH_ALL, [c]));
  }

  /** A reported value that parses as NaN is neither greater than a number nor
      less or equal. */
  lemma NaNBreaksComplement(lib: Library, c: Condition, facts: Facts)
    requires c.kind == Param && c.operator == GT && ComparesNaN(lib, c, facts)
    ensures EvalCondition(lib, c, facts) == Fail && EvalCondition(lib, c.(operator := LTE), facts) == Fail
  {
    var v := facts[ParamKey(c.paramPath)];
    NaNComparesFalse(lib, c, v);
    NaNComparesFalse(lib, c.(operator := LTE), v);
  }

  lemma NaNComparesFalse(lib: Library, c: Condition, v: string)
    requires (c.operator == GT || c.operator == LTE) && c.values != []
    requires lib.parse(v).Some? && lib.parse(c.values[0]).Some?
    requires lib.parse(v).value == NaN || lib.parse(c.values[0]).value == NaN
    ensures EvalOperator(lib, c, Some(v)) == Fail
  {
    assert EvalOperator(lib, c, Some(v)) == CompareNumbers(lib, c.operator, v, c.values[0]);
  }

  /** There is such a value: a parser that reads "NaN" as Go's does, a condition
      "greater than 0" and a report of "NaN". */
  lemma NaNIsReported() returns (lib: Library, c: Condition, facts: Facts)
    ensures c.kind == Param && c.operator == GT && ComparesNaN(lib, c, facts)
  {
    lib := Library(s => Some(if s == "NaN" then NaN else Finite(0.0)), s => None);
    c := Condition(0, "load", GT, ["0"], Param);
    facts := map[FactKey(c) := "NaN"];
  }

  // ---------------------------------------------------------------------
  // What the operators mean
  // ---------------------------------------------------------------------

  /** The operand fits the operator: a pattern that compiles, numbers that parse. */
  predicate Usable(lib: Library, op: Operator, v: string, operand: string) {
    match op
    case Matches => operand != "" && lib.compile(operand).Some?
    case GT => lib.parse(v).Some? && lib.parse(operand).Some?
    case GTE => lib.parse(v).Some? && lib.parse(operand).Some?
    case LT => lib.parse(v).Some? && lib.parse(operand).Some?
    case LTE => lib.parse(v).Some? && lib.parse(operand).Some?
    case _ => true
  }

  /** A condition stays undecided exactly when its fact is missing, its
      operator is not known, or its operand is missing or does not fit; a
      failed script run decides it in every case. */
  lemma UndecidedExactly(lib: Library, c: Condition, facts: Facts)
    ensures var reported := Lookup(facts, FactKey(c));
            EvalCondition(lib, c, facts) == Unknown <==>
              !RunFailed(c, facts)
              && (reported.None? || c.operator.OtherOperator?
                  || (NeedsOperand(c.operator)
                      && (c.values == [] || !Usable(lib, c.operator, reported.value, c.values[0]))))
  {
  }

  /** The fact a condition is decided on is `v`: a script's own result, or the
      device fact under the last segment of the path. */
  predicate Reports(c: Condition, facts: Facts, v: string) {
    if c.kind == Script || c.kind == Command
    then ScriptKey(c.id) in facts && facts[ScriptKey(c.id)] == v
    else ParamKey(c.paramPath) in facts && facts[ParamKey(c.paramPath)] == v
  }

  /** A failed run fails a scripted condition, whatever its operator; a run that
      did not fail, and every device fact, is put to the operator. */
  lemma DecidedByOperator(lib: Library, c: Condition, facts: Facts, v: string)
    requires Reports(c, facts, v)
    ensures var failed := (c.kind == Script || c.kind == Command) && v == EXIT_FAIL;
            EvalCondition(lib, c, facts) == if failed then Fail else EvalOperator(lib, c, Some(v))
  {
  }

  /** What the operators on whole values decide about a reported value. */
  lemma ValueOperatorsMean(lib: Library, c: Condition, v: string)
    ensures var r := EvalOperator(lib, c, Some(v));
            && (c.operator == Exists ==> r == Decide(|v| > 0))
            && (c.operator == In ==> r == Decide(exists i :: 0 <= i < |c.values| && c.values[i] == v))
            && (c.operator == NotIn ==> r == Decide(!exists i :: 0 <= i < |c.values| && c.values[i] == v))
            && (c.operator == Equals && c.values != [] ==> r == Decide(c.values[0] == v))
            && (c.operator == NotEquals && c.values != [] ==> r == Decide(c.values[0] != v))
  {
    match c.operator {
      case Exists =>
      case In =>
      case NotIn =>
      case Equals =>
      case NotEquals =>
      case _ =>
    }
  }

  /** A pattern that compiles decides by whether it accepts the value. */
  lemma PatternsMean(lib: Library, c: Condition, v: string)
    requires c.operator == Matches && c.values != [] && |c.values[0]| > 0 && lib.compile(c.values[0]).Some?
    ensures EvalOperator(lib, c, Some(v)) == Decide(lib.compile(c.values[0]).value(v))
  {
  }

  /** The same of whole conditions: for a reported value and no failed run,
      "in" passes exactly when some listed value is the reported one, "not in"
      exactly when none is, and so on. */
  lemma ConditionsMean(lib: Library, c: Condition, facts: Facts, v: string)
    requires Reports(c, facts, v) && !RunFailed(c, facts)
    ensures var passes := EvalCondition(lib, c, facts) == Pass;
            && (c.operator == Exists ==> (passes <==> |v| > 0))
            && (c.operator == In ==> (passes <==> exists i :: 0 <= i < |c.values| && c.values[i] == v))
            && (c.operator == NotIn ==> (passes <==> !exists i :: 0 <= i < |c.values| && c.values[i] == v))
            && (c.values != [] ==>
                  && (c.operator == Equals ==> (passes <==> c.values[0] == v))
                  && (c.operator == NotEquals ==> (passes <==> c.values[0] != v))
                  && (c.operator == Matches && |c.values[0]| > 0 && lib.compile(c.values[0]).Some? ==>
                        (passes <==> lib.compile(c.values[0]).value(v))))
  {
    DecidedByOperator(lib, c, facts, v);
    if c.operator == Matches {
      if c.values != [] && |c.values[0]| > 0 && lib.compile(c.values[0]).Some? {
        PatternsMean(lib, c, v);
      }
    } else {
      ValueOperatorsMean(lib, c, v);
    }
  }

  /** A pass is a pass: the two verdicts are not exchanged. */
  lemma DecideExactly(b: bool)
    ensures Decide(b) == Pass <==> b
    ensures Decide(b) == Fail <==> !b
  {
  }

  lemma SubstringsSplit(s: string, part: string)
    ensures IsSubstring(s, part) <==> exists front, rest :: s == front + part + rest
  {
    if IsSubstring(s, part) {
      var i :| 0 <= i <= |s| && part <= s[i..];
      var front, rest := s[..i], s[i + |part|..];
      assert s == front + part + rest;
    }
    if front, rest :| s == front + part + rest {
      assert s[|front|..] == part + rest;
    }
  }

  lemma SuffixesSplit(s: string, part: string)
    ensures IsSuffix(s, part) <==> exists front :: s == front + part
  {
    if IsSuffix(s, part) {
      assert s == s[..|s| - |part|] + part;
    }
  }

  lemma PrefixesSplit(s: string, part: string)
    ensures part <= s <==> exists rest :: s == part + rest
  {
    if part <= s {
      assert s == part + s[|part|..];
    }
  }

  lemma TextOperatorsMean(lib: Library, c: Condition, v: string)
    requires c.values != []
    ensures var operand, r := c.values[0], EvalOperator(lib, c, Some(v));
            && (c.operator == StartsWith ==> r == Decide(exists rest :: v == operand + rest))
            && (c.operator == EndsWith ==> r == Decide(exists front :: v == front + operand))
            && (c.operator == Contains ==> r == Decide(exists front, rest :: v == front + operand + rest))
            && (c.operator == NotContains ==> r == Decide(!exists front, rest :: v == front + operand + rest))
  {
    SubstringsSplit(v, c.values[0]);
    SuffixesSplit(v, c.values[0]);
    PrefixesSplit(v, c.values[0]);
  }

  /** The infinities lie outside all numbers, and nothing compares with NaN. */
  lemma InfinitiesCompare(a: Float)
    ensures Less(NegInf, a) <==> a != NaN && a != NegInf
    ensures Less(a, PosInf) <==> a != NaN && a != PosInf
    ensures !Less(PosInf, a) && !Less(a, NegInf) && !Less(NaN, a) && !Less(a, NaN)
    ensures LessOrEqual(a, a) <==> a != NaN
  {
  }

  lemma NumbersCompare(lib: Library, c: Condition, v: string, x: real, y: real)
    requires c.values != [] && lib.parse(v) == Some(Finite(x)) && lib.parse(c.values[0]) == Some(Finite(y))
    ensures var r := EvalOperator(lib, c, Some(v));
            && (c.operator == GT ==> r == Decide(x > y)) && (c.operator == GTE ==> r == Decide(x >= y))
            && (c.operator == LT ==> r == Decide(x < y)) && (c.operator == LTE ==> r == Decide(x <= y))
  {
  }

  // ---------------------------------------------------------------------
  // Which fact a condition reads
  // ---------------------------------------------------------------------

  function Value(digits: string): nat
    requires forall i :: 0 <= i < |digits| ==> '0' <= digits[i] <= '9'
  {
    if digits == [] then 0 else 10 * Value(digits[..|digits| - 1]) + (digits[|digits| - 1] as int - '0' as int)
  }

  lemma {:induction false} DecimalReadsBack(n: nat)
    ensures Decimal(n) != [] && forall i :: 0 <= i < |Decimal(n)| ==> '0' <= Decimal(n)[i] <= '9'
    ensures Value(Decimal(n)) == n
  {
    if n < 10 {
      assert Decimal(n)[..0] == [];
    } else {
      DecimalReadsBack(n / 10);
      var digits := "0123456789";
      assert digits[n % 10] as int == '0' as int + n % 10;
      assert Decimal(n)[..|Decimal(n)| - 1] == Decimal(n / 10);
    }
  }

  lemma ScriptKeysDiffer(a: int, b: int)
    requires a != b
    ensures ScriptKey(a) != ScriptKey(b)
  {
    var prefix := "script_result/";
    var x := if a < 0 then "-" + Decimal(-a) else Decimal(a);
    var y := if b < 0 then "-" + Decimal(-b) else Decimal(b);
    assert ScriptKey(a)[|prefix|..] == x && ScriptKey(b)[|prefix|..] == y;
    DecimalReadsBack(if a < 0 then -a else a);
    DecimalReadsBack(if b < 0 then -b else b);
    if a < 0 && b < 0 {
      assert x[1..] == Decimal(-a) && y[1..] == Decimal(-b);
    }
  }

  /** A script result is read by the condition it belongs to and by no other:
      not by another script's condition, and not by any device-fact condition,
      whatever its path. */
  lemma ScriptResultsArePrivate(lib: Library, c: Condition, facts: Facts, id: int, output: string)
    requires IsScripted(c) ==> c.id != id
    ensures EvalCondition(lib, c, facts[ScriptKey(id) := output]) == EvalCondition(lib, c, facts)
  {
    if IsScripted(c) {
      ScriptKeysDiffer(c.id, id);
    } else {
      assert ScriptKey(id)[13] == '/';
    }
  }

  // ---------------------------------------------------------------------
  // Links
  // ---------------------------------------------------------------------

  /** The link counts for `role`, and its group has verdict `v`. */
  predicate LinkYields(d: Device, groups: Groups, role: Role, l: ModuleLink, v: Verdict) {
    l.role == role && l.groupID in groups && GroupVerdict(d, groups[l.groupID]) == v
  }

  predicate LinksYield(d: Device, links: seq<ModuleLink>, groups: Groups, role: Role, v: Verdict) {
    exists l :: l in links && LinkYields(d, groups, role, l, v)
  }

  lemma ResultsOfAppend(d: Device, links: seq<ModuleLink>, l: ModuleLink, groups: Groups, role: Role)
    ensures VerdictsOf(Results(d, links + [l], groups, role)) ==
              VerdictsOf(Results(d, links, groups, role)) +
              if l.role == role && l.groupID in groups then [GroupVerdict(d, groups[l.groupID])] else []
  {
  }

  /** The results that an evaluation lists for a role. */
  function Listed(o: Outcome, role: Role): seq<GroupResult> {
    match role
    case Platform => o.platforms
    case Requirement => o.requirements
    case OtherRole(_) => []
  }

  /** A link as platform or requirement to a known group adds one result to the
      list of its role, which carries the group's own ID, slug and name, its
      verdict and the words for it; nothing else is added to any list. */
  lemma ResultsSayTheirGroups(d: Device, links: seq<ModuleLink>, l: ModuleLink, groups: Groups, role: Role)
    ensures var before := Listed(Evaluation(d, links, groups), role);
            var after := Listed(Evaluation(d, links + [l], groups), role);
            if l.role != role || l.groupID !in groups || role.OtherRole? then after == before
            else
              && |after| == |before| + 1 && after[..|before|] == before
              && var g, r := groups[l.groupID], after[|before|];
              && r.groupID == g.id && r.slug == g.slug && r.name == g.name && r.role == role
              && r.verdict == GroupVerdict(d, g)
              && (r.verdict == Pass ==> r.reason == g.name + " matched")
              && (r.verdict == Fail ==> r.reason == g.name + " did not match")
              && (r.verdict == Unknown ==> r.reason == g.name + " needs agent inventory")
  {
    assert (links + [l])[..|links|] == links;
  }

  lemma {:induction false} VerdictsComeFromLinks(d: Device, links: seq<ModuleLink>, groups: Groups, role: Role, v: Verdict)
    ensures v in VerdictsOf(Results(d, links, groups, role)) <==> LinksYield(d, links, groups, role, v)
  {
    if links == [] {
    } else {
      var front, l := links[..|links| - 1], links[|links| - 1];
      assert links == front + [l];
      VerdictsComeFromLinks(d, front, groups, role, v);
      ResultsOfAppend(d, front, l, groups, role);
      assert LinksYield(d, links, groups, role, v) <==> LinksYield(d, front, groups, role, v) || LinkYields(d, groups, role, l, v);
    }
  }

  /** What a status means in terms of the links: a module is ineligible when a
      requirement fails or every known platform fails and there is one, and
      eligible when all requirements pass and some platform passes or none is
      known. */
  lemma StatusMeaning(d: Device, links: seq<ModuleLink>, groups: Groups)
    ensures var status := Evaluation(d, links, groups).status;
            && (status == Ineligible <==>
                  || LinksYield(d, links, groups, Requirement, Fail)
                  || (LinksYield(d, links, groups, Platform, Fail)
                      && !LinksYield(d, links, groups, Platform, Unknown)
                      && !LinksYield(d, links, groups, Platform, Pass)))
            && (status == Eligible <==>
                  && !LinksYield(d, links, groups, Requirement, Fail)
                  && !LinksYield(d, links, groups, Requirement, Unknown)
                  && (LinksYield(d, links, groups, Platform, Pass)
                      || !(LinksYield(d, links, groups, Platform, Fail) || LinksYield(d, links, groups, Platform, Unknown))))
  {
    forall role, v ensures v in VerdictsOf(Results(d, links, groups, role)) <==> LinksYield(d, links, groups, role, v) {
      VerdictsComeFromLinks(d, links, groups, role, v);
    }
    var ps := VerdictsOf(Results(d, links, groups, Platform));
    if ps != [] {
      assert ps[0] in ps;
    }
  }

  /** The status ignores the order and the repetition of links. */
  lemma StatusIgnoresLinkOrder(d: Device, links: seq<ModuleLink>, others: seq<ModuleLink>, groups: Groups)
    requires forall l :: l in links <==> l in others
    ensures Evaluation(d, links, groups).status == Evaluation(d, others, groups).status
  {
    StatusMeaning(d, links, groups);
    StatusMeaning(d, others, groups);
    forall role, v ensures LinksYield(d, links, groups, role, v) <==> LinksYield(d, others, groups, role, v) {}
  }

  function StatusRank(s: Status): nat {
    match s case Ineligible => 0 case StatusUnknown => 1 case Eligible => 2
  }

  /** One more requirement never raises a status. */
  lemma RequirementNeverHelps(d: Device, links: seq<ModuleLink>, l: ModuleLink, groups: Groups)
    requires l.role == Requirement
    ensures StatusRank(Evaluation(d, links + [l], groups).status) <= StatusRank(Evaluation(d, links, groups).status)
  {
    ResultsOfAppend(d, links, l, groups, Platform);
    ResultsOfAppend(d, links, l, groups, Requirement);
    AggregatesOfAppend(VerdictsOf(Results(d, links, groups, Requirement)), Pass);
    if l.groupID in groups {
      AggregatesOfAppend(VerdictsOf(Results(d, links, groups, Requirement)), GroupVerdict(d, groups[l.groupID]));
    }
  }

  /** One more platform lowers a status exactly when it is the first known one
      and its verdict is worse than that of the requirements. */
  lemma PlatformHurtsExactly(d: Device, links: seq<ModuleLink>, l: ModuleLink, groups: Groups)
    requires l.role == Platform
    ensures StatusRank(Evaluation(d, links + [l], groups).status) < StatusRank(Evaluation(d, links, groups).status)
            <==> && Results(d, links, groups, Platform) == []
                 && l.groupID in groups
                 && Rank(GroupVerdict(d, groups[l.groupID])) < Rank(AllOf(VerdictsOf(Results(d, links, groups, Requirement))))
  {
    ResultsOfAppend(d, links, l, groups, Platform);
    ResultsOfAppend(d, links, l, groups, Requirement);
    var ps := VerdictsOf(Results(d, links, groups, Platform));
    if l.groupID in groups {
      AggregatesOfAppend(ps, GroupVerdict(d, groups[l.groupID]));
    }
  }
}
