/** The three-valued applicability engine: conditions over the facts a device
    has reported so far, groups of conditions, and a module's links to groups. */
module Applicability {
  import opened Wrappers

  datatype Verdict = Fail | Unknown | Pass

  datatype Operator =
    | Exists | In | NotIn
    | Equals | NotEquals | Contains | NotContains | StartsWith | EndsWith
    | GT | GTE | LT | LTE
    | Matches
    | OtherOperator(name: string)

  datatype Kind = Param | Script | Command | OtherKind(name: string)

  datatype Condition = Condition(id: int, paramPath: string, operator: Operator, values: seq<string>, kind: Kind)

  const MATCH_ANY := "any"
  const MATCH_ALL := "all"

  datatype Group = Group(id: int, slug: string, name: string, matchMode: string, conditions: seq<Condition>)

  datatype Role = Platform | Requirement | OtherRole(name: string)

  datatype ModuleLink = ModuleLink(groupID: int, role: Role)

  type Facts = map<string, string>

  const EXIT_FAIL := "\0exit_fail"

  /** A parsed number; NaN compares false with everything. */
  datatype Float = NaN | NegInf | Finite(value: real) | PosInf

  predicate Less(a: Float, b: Float) {
    match (a, b)
    case (NaN, _) => false
    case (_, NaN) => false
    case (Finite(x), Finite(y)) => x < y
    case (NegInf, _) => b != NegInf
    case (_, PosInf) => a != PosInf
    case (_, _) => false
  }

  predicate LessOrEqual(a: Float, b: Float) {
    a != NaN && b != NaN && !Less(b, a)
  }

  /** Number parsing and regular expressions, about which nothing is assumed. */
  datatype Library = Library(parse: string -> Option<Float>, compile: string -> Option<string -> bool>)

  // ---------------------------------------------------------------------
  // Conditions
  // ---------------------------------------------------------------------

  /** The segment after the last slash. */
  function ParamKey(path: string): (key: string)
    ensures '/' !in key
    ensures '/' !in path ==> key == path
    ensures |key| <= |path| && path[|path| - |key|..] == key
    ensures '/' in path ==> |key| < |path| && path[|path| - |key| - 1] == '/'
  {
    if path == "" then ""
    else
      var last := |path| - 1;
      if path[last] == '/' then "" else ParamKey(path[..last]) + [path[last]]
  }

  predicate IsSubstring(s: string, part: string) {
    exists i :: 0 <= i <= |s| && part <= s[i..]
  }

  predicate IsSuffix(s: string, part: string) {
    |part| <= |s| && s[|s| - |part|..] == part
  }

  function Decide(match': bool): Verdict {
    if match' then Pass else Fail
  }

  predicate NeedsOperand(op: Operator) {
    !op.Exists? && !op.In? && !op.NotIn? && !op.OtherOperator?
  }

  function CompareNumbers(lib: Library, op: Operator, v: string, operand: string): Verdict {
    match (lib.parse(v), lib.parse(operand))
    case (Some(x), Some(y)) =>
      (match op
       case GT => Decide(Less(y, x))
       case GTE => Decide(LessOrEqual(y, x))
       case LT => Decide(Less(x, y))
       case _ => Decide(LessOrEqual(x, y)))
    case (_, _) => Unknown
  }

  function EvalOperator(lib: Library, c: Condition, reported: Option<string>): Verdict {
    if c.operator.OtherOperator? || reported.None? || (NeedsOperand(c.operator) && c.values == []) then Unknown
    else
      var v := reported.value;
      match c.operator
      case Exists => Decide(v != "")
      case In => Decide(v in c.values)
      case NotIn => Decide(v !in c.values)
      case Equals => Decide(v == c.values[0])
      case NotEquals => Decide(v != c.values[0])
      case Contains => Decide(IsSubstring(v, c.values[0]))
      case NotContains => Decide(!IsSubstring(v, c.values[0]))
      case StartsWith => Decide(c.values[0] <= v)
      case EndsWith => Decide(IsSuffix(v, c.values[0]))
      case Matches =>
        if c.values[0] == "" then Unknown
        else
          (match lib.compile(c.values[0])
           case Some(matches) => Decide(matches(v))
           case None => Unknown)
      case op => CompareNumbers(lib, op, v, c.values[0])
  }

  function Lookup(facts: Facts, key: string): Option<string> {
    if key in facts then Some(facts[key]) else None
  }

  function Decimal(n: nat): string {
    if n < 10 then ["0123456789"[n]] else Decimal(n / 10) + ["0123456789"[n % 10]]
  }

  function ScriptKey(id: int): string {
    "script_result/" + if id < 0 then "-" + Decimal(-id) else Decimal(id)
  }

  predicate IsScripted(c: Condition) {
    c.kind == Script || c.kind == Command
  }

  function FactKey(c: Condition): string {
    if IsScripted(c) then ScriptKey(c.id) else ParamKey(c.paramPath)
  }

  function EvalCondition(lib: Library, c: Condition, facts: Facts): Verdict {
    if IsScripted(c) && Lookup(facts, ScriptKey(c.id)) == Some(EXIT_FAIL) then Fail
    else EvalOperator(lib, c, Lookup(facts, FactKey(c)))
  }

  // ---------------------------------------------------------------------
  // Groups
  // ---------------------------------------------------------------------

  /** How each condition evaluates on one device. */
  type Device = Condition -> Verdict

  function OnDevice(lib: Library, facts: Facts): Device {
    c => EvalCondition(lib, c, facts)
  }

  function Verdicts(device: Device, cs: seq<Condition>): (vs: seq<Verdict>)
    ensures |vs| == |cs| && forall i :: 0 <= i < |vs| ==> vs[i] == device(cs[i])
  {
    seq(|cs|, i requires 0 <= i < |cs| => device(cs[i]))
  }

  /** Minimum in the order Fail, Unknown, Pass; Pass for none. */
  function AllOf(vs: seq<Verdict>): Verdict {
    if Fail in vs then Fail else if Unknown in vs then Unknown else Pass
  }

  /** Maximum in the order Fail, Unknown, Pass; Fail for none. */
  function AnyOf(vs: seq<Verdict>): Verdict {
    if Pass in vs then Pass else if Unknown in vs then Unknown else Fail
  }

  function GroupVerdict(device: Device, g: Group): Verdict {
    var vs := Verdicts(device, g.conditions);
    if g.matchMode == MATCH_ANY then AnyOf(vs) else AllOf(vs)
  }

  method EvalGroupAll(device: Device, g: Group) returns (verdict: Verdict)
    ensures verdict == AllOf(Verdicts(device, g.conditions))
  {
    ghost var vs := Verdicts(device, g.conditions);
    verdict := Pass;
    for i := 0 to |g.conditions|
      invariant verdict == AllOf(vs[..i]) != Fail
    {
      assert vs[..i + 1] == vs[..i] + [vs[i]];
      match device(g.conditions[i])
      case Fail => return Fail;
      case Unknown => verdict := Unknown;
      case Pass =>
    }
    assert vs[..|vs|] == vs;
  }

  method EvalGroupAny(device: Device, g: Group) returns (verdict: Verdict)
    ensures verdict == AnyOf(Verdicts(device, g.conditions))
  {
    ghost var vs := Verdicts(device, g.conditions);
    var sawUnknown := false;
    for i := 0 to |g.conditions|
      invariant AnyOf(vs[..i]) == if sawUnknown then Unknown else Fail
    {
      assert vs[..i + 1] == vs[..i] + [vs[i]];
      match device(g.conditions[i])
      case Pass => return Pass;
      case Unknown => sawUnknown := true;
      case Fail =>
    }
    assert vs[..|vs|] == vs;
    return if sawUnknown then Unknown else Fail;
  }

  method EvalGroup(device: Device, g: Group) returns (verdict: Verdict)
    ensures verdict == GroupVerdict(device, g)
  {
    if g.matchMode == MATCH_ANY {
      verdict := EvalGroupAny(device, g);
    } else {
      verdict := EvalGroupAll(device, g);
    }
  }

  // ---------------------------------------------------------------------
  // Module status
  // ---------------------------------------------------------------------

  datatype GroupResult = GroupResult(groupID: int, slug: string, name: string, role: Role, verdict: Verdict, reason: string)

  datatype Status = Ineligible | StatusUnknown | Eligible

  datatype Outcome = Outcome(status: Status, platforms: seq<GroupResult>, requirements: seq<GroupResult>)

  type Groups = map<int, Group>

  function ReasonFor(g: Group, v: Verdict): string {
    match v
    case Pass => g.name + " matched"
    case Fail => g.name + " did not match"
    case Unknown => g.name + " needs agent inventory"
  }

  function ResultOf(device: Device, l: ModuleLink, groups: Groups): GroupResult
    requires l.groupID in groups
  {
    var g := groups[l.groupID];
    var v := GroupVerdict(device, g);
    GroupResult(g.id, g.slug, g.name, l.role, v, ReasonFor(g, v))
  }

  /** The results of the links in `role` whose group is known, in link order. */
  function Results(device: Device, links: seq<ModuleLink>, groups: Groups, role: Role): seq<GroupResult> {
    if links == [] then []
    else
      var l := links[|links| - 1];
      Results(device, links[..|links| - 1], groups, role) +
      if l.role == role && l.groupID in groups then [ResultOf(device, l, groups)] else []
  }

  function VerdictsOf(rs: seq<GroupResult>): (vs: seq<Verdict>)
    ensures |vs| == |rs| && forall i :: 0 <= i < |vs| ==> vs[i] == rs[i].verdict
  {
    seq(|rs|, i requires 0 <= i < |rs| => rs[i].verdict)
  }

  function Meet(a: Verdict, b: Verdict): Verdict {
    if a == Fail || b == Fail then Fail else if a == Unknown || b == Unknown then Unknown else Pass
  }

  function ToStatus(v: Verdict): Status {
    match v case Fail => Ineligible case Unknown => StatusUnknown case Pass => Eligible
  }

  /** Any platform passes, or none is linked; and all requirements pass. */
  function StatusOf(platforms: seq<Verdict>, requirements: seq<Verdict>): Status {
    ToStatus(Meet(if platforms == [] then Pass else AnyOf(platforms), AllOf(requirements)))
  }

  function Evaluation(device: Device, links: seq<ModuleLink>, groups: Groups): Outcome {
    var ps := Results(device, links, groups, Platform);
    var rs := Results(device, links, groups, Requirement);
    Outcome(StatusOf(VerdictsOf(ps), VerdictsOf(rs)), ps, rs)
  }

  method EligibleFor(device: Device, links: seq<ModuleLink>, groups: Groups) returns (res: Outcome)
    ensures res == Evaluation(device, links, groups)
  {
    var platforms, requirements := [], [];
    var platAny, platUnknown, platCount := false, false, 0;
    var reqFail, reqUnknown, reqCount := false, false, 0;
    for i := 0 to |links|
      invariant platforms == Results(device, links[..i], groups, Platform) && platCount == |platforms|
      invariant requirements == Results(device, links[..i], groups, Requirement) && reqCount == |requirements|
      invariant platAny <==> Pass in VerdictsOf(platforms)
      invariant platUnknown <==> Unknown in VerdictsOf(platforms)
      invariant reqFail <==> Fail in VerdictsOf(requirements)
      invariant reqUnknown <==> Unknown in VerdictsOf(requirements)
    {
      var l := links[i];
      assert links[..i + 1][..i] == links[..i];
      if l.groupID in groups {
        var g := groups[l.groupID];
        var v := EvalGroup(device, g);
        var gr := GroupResult(g.id, g.slug, g.name, l.role, v, ReasonFor(g, v));
        if l.role == Platform {
          VerdictsAppend(platforms, gr);
          platCount := platCount + 1;
          platforms := platforms + [gr];
          if v == Pass {
            platAny := true;
          } else if v == Unknown {
            platUnknown := true;
          }
        } else if l.role == Requirement {
          VerdictsAppend(requirements, gr);
          reqCount := reqCount + 1;
          requirements := requirements + [gr];
          if v == Fail {
            reqFail := true;
          } else if v == Unknown {
            reqUnknown := true;
          }
        }
      }
    }
    assert links[..|links|] == links;
    var platOK := if platCount == 0 || platAny then Pass else if platUnknown then Unknown else Fail;
    var reqOK := if reqCount > 0 && reqFail then Fail else if reqCount > 0 && reqUnknown then Unknown else Pass;
    var status := if platOK == Fail || reqOK == Fail then Ineligible
                  else if platOK == Pass && reqOK == Pass then Eligible
                  else StatusUnknown;
    return Outcome(status, platforms, requirements);
  }

  lemma VerdictsAppend(rs: seq<GroupResult>, r: GroupResult)
    ensures VerdictsOf(rs + [r]) == VerdictsOf(rs) + [r.verdict]
  {
  }
}
