/**
 The severity judgement on two versions of one file, and its algebra: through
 any version that was really parsed, a direct comparison is never judged worse
 than the worst step of a detour.
 */
module Severity {
  import opened Base
  import opened Proto
  import opened Extract
  import opened Chains

  datatype DriftSeverity = Info | Warning | Critical

  function Rank(s: DriftSeverity): nat {
    match s
    case Info => 1
    case Warning => 2
    case Critical => 3
  }

  function Worse(s: DriftSeverity, t: DriftSeverity): DriftSeverity {
    if Rank(s) < Rank(t) then t else s
  }

  predicate AtMost(s: DriftSeverity, t: DriftSeverity) { Rank(s) <= Rank(t) }

  /** Everything in a file that the rules compare. */
  datatype Contract = Contract(
    package: string,
    messages: set<string>,
    services: set<string>,
    enums: set<string>,
    fields: map<string, ParsedField>,
    rpcs: map<string, ParsedRpc>,
    enumNumbers: set<string>,
    required: nat)

  function PackageName(packages: seq<string>): string {
    if packages == [] then "" else packages[0]
  }

  function ContractOf(b: ProtoBody): Contract {
    Contract(PackageName(b.packages), MessagePaths(b.messages), ServiceNames(b.services), EnumNames(b.enums),
             FieldsByNumber(b.messages), RpcsByName(b.services), EnumValuesByNumber(b.enums).Keys, RequiredIn(b.messages))
  }

  /** The later contract still honours everything on the wire that the earlier one offered. */
  predicate Honours(earlier: Contract, later: Contract) {
    && earlier.package == later.package
    && earlier.messages <= later.messages
    && earlier.services <= later.services
    && earlier.enums <= later.enums
    && (forall k :: k in earlier.fields ==> k in later.fields && earlier.fields[k].typ == later.fields[k].typ)
    && (forall k :: k in earlier.rpcs ==> k in later.rpcs && earlier.rpcs[k] == later.rpcs[k])
    && earlier.enumNumbers <= later.enumNumbers
  }

  predicate Renames(earlier: Contract, later: Contract) {
    exists k :: k in earlier.fields && k in later.fields && earlier.fields[k].name != later.fields[k].name
  }

  function Judge(earlier: Contract, later: Contract): DriftSeverity {
    if !Honours(earlier, later) then Critical
    else if earlier.required < later.required || Renames(earlier, later) then Warning
    else Info
  }

  /** A file that was not parsed compares as a warning; a parsed file without a body compares as unchanged. */
  function SeverityOf(previous: Option<ProtoFile>, current: Option<ProtoFile>): DriftSeverity {
    if previous.None? || current.None? then Warning
    else if previous.value.body.None? || current.value.body.None? then Info
    else Judge(ContractOf(previous.value.body.value), ContractOf(current.value.body.value))
  }

  // ---------------------------------------------------------------------------
  // The code's own order of checks

  method HasBreakingChanges(previous: ProtoFile, current: ProtoFile) returns (breaking: bool)
    ensures breaking <==>
            previous.body.Some? && current.body.Some? &&
            !Honours(ContractOf(previous.body.value), ContractOf(current.body.value))
  {
    if previous.body.None? || current.body.None? {
      return false;
    }
    var prev, curr := previous.body.value, current.body.value;
    if PackageName(prev.packages) != PackageName(curr.packages) {
      return true;
    }
    var prevMessages := ExtractMessages(prev.messages);
    var currMessages := ExtractMessages(curr.messages);
    if !(prevMessages <= currMessages) {
      return true;
    }
    var prevServices := ExtractServices(prev.services);
    var currServices := ExtractServices(curr.services);
    if !(prevServices <= currServices) {
      return true;
    }
    var prevEnums := ExtractEnums(prev.enums);
    var currEnums := ExtractEnums(curr.enums);
    if !(prevEnums <= currEnums) {
      return true;
    }
    var prevFields := ExtractFieldsByNumber(prev.messages);
    var currFields := ExtractFieldsByNumber(curr.messages);
    if exists k :: k in prevFields && (k !in currFields || prevFields[k].typ != currFields[k].typ) {
      return true;
    }
    var prevRpcs := ExtractRpcs(prev.services);
    var currRpcs := ExtractRpcs(curr.services);
    if exists k :: k in prevRpcs &&
         (k !in currRpcs ||
          prevRpcs[k].requestType != currRpcs[k].requestType ||
          prevRpcs[k].responseType != currRpcs[k].responseType ||
          prevRpcs[k].requestStream != currRpcs[k].requestStream ||
          prevRpcs[k].responseStream != currRpcs[k].responseStream) {
      return true;
    }
    var prevValues := ExtractEnumValues(prev.enums);
    var currValues := ExtractEnumValues(curr.enums);
    return !(prevValues.Keys <= currValues.Keys);
  }

  method HasPotentiallyBreakingChanges(previous: ProtoFile, current: ProtoFile) returns (risky: bool)
    ensures risky <==>
            previous.body.Some? && current.body.Some? &&
            var earlier, later := ContractOf(previous.body.value), ContractOf(current.body.value);
            earlier.required < later.required || Renames(earlier, later)
  {
    if previous.body.None? || current.body.None? {
      return false;
    }
    var prev, curr := previous.body.value, current.body.value;
    var prevRequired := CountRequiredFields(prev.messages);
    var currRequired := CountRequiredFields(curr.messages);
    if currRequired > prevRequired {
      return true;
    }
    var prevFields := ExtractFieldsByNumber(prev.messages);
    var currFields := ExtractFieldsByNumber(curr.messages);
    return exists k :: k in prevFields && k in currFields && prevFields[k].name != currFields[k].name;
  }

  method DetermineSeverity(previous: Option<ProtoFile>, current: Option<ProtoFile>) returns (s: DriftSeverity)
    ensures s == SeverityOf(previous, current)
  {
    if previous.None? || current.None? {
      return Warning;
    }
    var breaking := HasBreakingChanges(previous.value, current.value);
    if breaking {
      return Critical;
    }
    var risky := HasPotentiallyBreakingChanges(previous.value, current.value);
    return if risky then Warning else Info;
  }

  // ---------------------------------------------------------------------------
  // The algebra of the judgement

  lemma JudgeTriangle(a: Contract, b: Contract, c: Contract)
    ensures AtMost(Judge(a, c), Worse(Judge(a, b), Judge(b, c)))
  {
    if Honours(a, b) && Honours(b, c) {
      assert forall k :: k in a.fields ==> k in b.fields && k in c.fields;
      if Renames(a, c) {
        var k :| k in a.fields && k in c.fields && a.fields[k].name != c.fields[k].name;
        assert k in b.fields;
        assert Renames(a, b) || Renames(b, c);
      }
    }
  }

  predicate IsParsed(p: Option<ProtoFile>) { p.Some? && p.value.body.Some? }

  ghost predicate TriangleThrough(b: Option<ProtoFile>) {
    forall a, c :: AtMost(SeverityOf(a, c), Worse(SeverityOf(a, b), SeverityOf(b, c)))
  }

  /** A detour never looks better than the direct comparison, exactly when it goes through a parsed version. */
  lemma TriangleIffParsed(b: Option<ProtoFile>)
    ensures TriangleThrough(b) <==> IsParsed(b)
  {
    if IsParsed(b) {
      forall a: Option<ProtoFile>, c: Option<ProtoFile>
        ensures AtMost(SeverityOf(a, c), Worse(SeverityOf(a, b), SeverityOf(b, c)))
      {
        Triangle(a, b, c);
      }
    } else {
      var x := Some(ProtoFile(Some(ProtoBody(["x"], [], [], []))));
      var y := Some(ProtoFile(Some(ProtoBody(["y"], [], [], []))));
      assert ContractOf(x.value.body.value).package == "x" && ContractOf(y.value.body.value).package == "y";
      assert SeverityOf(x, y) == Critical;
      assert !AtMost(SeverityOf(x, y), Worse(SeverityOf(x, b), SeverityOf(b, y)));
    }
  }

  lemma Triangle(a: Option<ProtoFile>, b: Option<ProtoFile>, c: Option<ProtoFile>)
    requires IsParsed(b)
    ensures AtMost(SeverityOf(a, c), Worse(SeverityOf(a, b), SeverityOf(b, c)))
  {
    if IsParsed(a) && IsParsed(c) {
      JudgeTriangle(ContractOf(a.value.body.value), ContractOf(b.value.body.value), ContractOf(c.value.body.value));
    }
  }

  /** Comparing a version with itself: clean exactly when there is something to compare. */
  lemma SelfComparison(a: Option<ProtoFile>)
    ensures SeverityOf(a, a) == if a.Some? then Info else Warning
  {
  }

  /** Rank of the comparison of two entries of a version history. */
  function VersionDistance(versions: seq<Option<ProtoFile>>): (nat, nat) -> nat {
    (i: nat, j: nat) => if i < |versions| && j < |versions| then Rank(SeverityOf(versions[i], versions[j])) else 0
  }

  /** The triangle over a history of any length. */
  lemma HistoryBound(versions: seq<Option<ProtoFile>>, k: nat)
    requires 1 <= k < |versions|
    requires forall i :: 0 < i < k ==> IsParsed(versions[i])
    ensures Rank(SeverityOf(versions[0], versions[k])) <= WorstHop(VersionDistance(versions), k)
  {
    var d := VersionDistance(versions);
    forall i: nat | 0 < i < k
      ensures d(0, i + 1) <= Max(d(0, i), d(i, i + 1))
    {
      Triangle(versions[0], versions[i], versions[i + 1]);
    }
    ChainBound(d, k);
  }

  /** Clean in both directions means the same contract, in every part that is compared. */
  lemma CleanBothWays(a: ProtoBody, b: ProtoBody)
    ensures SeverityOf(Some(ProtoFile(Some(a))), Some(ProtoFile(Some(b)))) == Info
         && SeverityOf(Some(ProtoFile(Some(b))), Some(ProtoFile(Some(a)))) == Info
       <==> ContractOf(a) == ContractOf(b)
  {
    var x, y := ContractOf(a), ContractOf(b);
    if Judge(x, y) == Info && Judge(y, x) == Info {
      assert x.fields.Keys == y.fields.Keys;
      assert forall k :: k in x.fields ==> x.fields[k] == y.fields[k];
      assert x.rpcs == y.rpcs;
    }
  }
}
