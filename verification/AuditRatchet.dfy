/** npm audit evidence, and the policy that lets a tree get better but not worse
    (hyqs/pipeline/npm_audit.py). */
module AuditRatchet {
  import opened PyValues
  import opened Sorting

  // ---- decoded JSON -----------------------------------------------------------------

  type Fields = seq<(string, Json)>

  /** A decoded value; an object keeps the order of its keys. */
  datatype Json =
    | JNull
    | JBool(b: bool)
    | JNum(n: int)
    | JStr(s: string)
    | JList(items: seq<Json>)
    | JObj(fields: Fields)

  function Lookup(fields: Fields, key: string): Option<Json> {
    if fields == [] then None else if fields[0].0 == key then Some(fields[0].1) else Lookup(fields[1..], key)
  }

  /** `d.get(key)` */
  function Field(fields: Fields, key: string): Json {
    if Lookup(fields, key).Some? then Lookup(fields, key).value else JNull
  }

  // ---- evidence ---------------------------------------------------------------------

  const SEVERITY: map<string, int> := map["info" := 0, "low" := 1, "moderate" := 2, "high" := 3, "critical" := 4]

  datatype Scope = Production | Development | Unknown

  datatype Identity = Identity(advisory: string, package: string, path: string)

  datatype Record = Record(id: Identity, severity: string, scope: Scope, exploitable: bool)

  datatype AuditResult =
    | AuditResult(records: seq<Record>, attributable: bool, error: Option<string>)
    | Raised

  predicate IdentityLess(a: Identity, b: Identity) {
    if a.advisory != b.advisory then StringLess(a.advisory, b.advisory)
    else if a.package != b.package then StringLess(a.package, b.package)
    else StringLess(a.path, b.path)
  }

  predicate RecordLess(a: Record, b: Record) { IdentityLess(a.id, b.id) }

  // ---- parsing ----------------------------------------------------------------------

  /** The report, the lockfile's package table, and `str()` of a value that is no string. */
  datatype Env = Env(str: Json -> string, vulnerabilities: Fields, packages: Fields)

  function ScopeForNode(packages: Fields, node: string): Scope {
    match Field(packages, node)
    case JObj(metadata) => if Field(metadata, "dev") == JBool(true) then Development else Production
    case _ => Unknown
  }

  predicate IsInstalled(packages: Fields, node: string) {
    Field(packages, node).JObj? && Field(Field(packages, node).fields, "version").JStr?
  }

  /** The objects in a list. */
  function Objects(items: seq<Json>): (r: seq<Fields>)
    ensures forall i :: 0 <= i < |items| && items[i].JObj? ==> items[i].fields in r
  {
    if items == [] then []
    else
      var r := Objects(items[..|items| - 1]);
      assert items == items[..|items| - 1] + [items[|items| - 1]];
      if items[|items| - 1].JObj? then r + [items[|items| - 1].fields] else r
  }

  /** The advisories of the package a `via` entry names; None when iterating them raises. */
  function Referenced(vulnerabilities: Fields, via: Json): Option<seq<Fields>> {
    if !via.JStr? || !Field(vulnerabilities, via.s).JObj? then Some([])
    else
      match Lookup(Field(vulnerabilities, via.s).fields, "via")
      case None => Some([])
      case Some(JList(items)) => Some(Objects(items))
      case Some(JStr(_)) => Some([])
      case Some(JObj(_)) => Some([])
      case Some(_) => None
  }

  function ReferencedUpTo(vulnerabilities: Fields, vias: seq<Json>, k: nat): Option<seq<Fields>>
    requires k <= |vias|
  {
    if k == 0 then Some([])
    else
      var before := ReferencedUpTo(vulnerabilities, vias, k - 1);
      var more := Referenced(vulnerabilities, vias[k - 1]);
      if before.Some? && more.Some? then Some(before.value + more.value) else None
  }

  function Advisories(vulnerabilities: Fields, vias: seq<Json>): Option<seq<Fields>> {
    var named := ReferencedUpTo(vulnerabilities, vias, |vias|);
    if named.Some? then Some(Objects(vias) + named.value) else None
  }

  datatype NodeList = Nodes(names: seq<string>) | NotStrings | NotSortable

  predicate AllStrings(nodes: seq<Json>) { forall n :: n in nodes ==> n.JStr? }

  function Texts(nodes: seq<Json>): (r: seq<string>)
    requires AllStrings(nodes)
    ensures |r| == |nodes| && forall i :: 0 <= i < |r| ==> r[i] == nodes[i].s
  {
    seq(|nodes|, i requires 0 <= i < |nodes| => nodes[i].s)
  }

  /** `sorted(set(nodes))`: values that do not compare, or do not hash, raise. */
  function ReadNodes(nodes: seq<Json>): NodeList {
    if AllStrings(nodes) then Nodes(SortUnique(StringLess, Texts(nodes)))
    else if (forall n :: n in nodes ==> n.JNum? || n.JBool?) || (forall n :: n in nodes ==> n.JNull?) then NotStrings
    else NotSortable
  }

  function SeverityText(advisory: Fields, vulnerability: Fields): string {
    var v := if Lookup(advisory, "severity").Some? then Lookup(advisory, "severity").value
             else Field(vulnerability, "severity");
    if v.JStr? then Lower(v.s) else ""
  }

  predicate IsSourced(advisory: Fields) {
    Field(advisory, "source") != JNull && Field(advisory, "source") != JStr("")
  }

  predicate IsUsable(advisory: Fields, vulnerability: Fields) {
    IsSourced(advisory) && SeverityText(advisory, vulnerability) in SEVERITY
  }

  function TextOf(env: Env, v: Json): string { if v.JStr? then v.s else env.str(v) }

  function RecordOf(env: Env, package: string, vulnerability: Fields, node: string, advisory: Fields): Record {
    Record(Identity(TextOf(env, Field(advisory, "source")), package, node),
           SeverityText(advisory, vulnerability), ScopeForNode(env.packages, node), true)
  }

  /** The records of one node, for the first k advisories. */
  function NodeRecords(env: Env, package: string, vulnerability: Fields, node: string, advisories: seq<Fields>,
                       k: nat): seq<Record>
    requires k <= |advisories|
  {
    if k == 0 then []
    else
      var before := NodeRecords(env, package, vulnerability, node, advisories, k - 1);
      if IsUsable(advisories[k - 1], vulnerability)
      then before + [RecordOf(env, package, vulnerability, node, advisories[k - 1])] else before
  }

  function PackageRecords(env: Env, package: string, vulnerability: Fields, nodes: seq<string>, advisories: seq<Fields>,
                          k: nat): seq<Record>
    requires k <= |nodes|
  {
    if k == 0 then []
    else PackageRecords(env, package, vulnerability, nodes, advisories, k - 1) +
         NodeRecords(env, package, vulnerability, nodes[k - 1], advisories, |advisories|)
  }

  predicate NodeIsClear(env: Env, node: string) {
    ScopeForNode(env.packages, node) != Unknown && IsInstalled(env.packages, node)
  }

  datatype Examined = Examined(records: seq<Record>, ambiguous: bool) | Raises

  function Examine(env: Env, package: string, vulnerability: Json): Examined {
    if !vulnerability.JObj? then Examined([], true)
    else
      var v := vulnerability.fields;
      var nodes, vias := Field(v, "nodes"), Field(v, "via");
      if !nodes.JList? || nodes.items == [] || !vias.JList? then Examined([], true)
      else
        var advisories := Advisories(env.vulnerabilities, vias.items);
        if advisories.None? then Raises
        else if advisories.value == [] then Examined([], true)
        else
          match ReadNodes(nodes.items)
          case NotSortable => Raises
          case NotStrings => Examined([], true)
          case Nodes(names) =>
            Examined(PackageRecords(env, package, v, names, advisories.value, |names|),
                     (exists n :: n in names && !NodeIsClear(env, n)) ||
                     exists a :: a in advisories.value && !IsUsable(a, v))
  }

  function ExamineUpTo(env: Env, k: nat): Examined
    requires k <= |env.vulnerabilities|
  {
    if k == 0 then Examined([], false)
    else
      var before := ExamineUpTo(env, k - 1);
      var item := env.vulnerabilities[k - 1];
      if before.Raises? then Raises
      else
        match Examine(env, item.0, item.1)
        case Raises => Raises
        case Examined(records, ambiguous) => Examined(before.records + records, before.ambiguous || ambiguous)
  }

  function Parsed(env: Env): AuditResult {
    match ExamineUpTo(env, |env.vulnerabilities|)
    case Raises => Raised
    case Examined(records, ambiguous) =>
      AuditResult(StableSort(RecordLess, records), !ambiguous,
                  if ambiguous then Some("candidate attribution is incomplete") else None)
  }

  /** The package table: the lockfile's, or the report's own when there is no lockfile object. */
  function PackagesOf(data: Fields, lock: Json): Json {
    if lock.JObj? then Field(lock.fields, "packages") else Field(data, "packages")
  }

  function Refusal(error: string): AuditResult { AuditResult([], false, Some(error)) }

  /** `payload` is None when the report is no JSON; `lock` is JNull when the lockfile is missing
      or is no JSON. */
  function ParseSpec(str: Json -> string, payload: Option<Json>, lock: Json): AuditResult {
    if payload.None? then Refusal("malformed npm JSON")
    else if !payload.value.JObj? || Field(payload.value.fields, "auditReportVersion") != JNum(2) then
      Refusal("unsupported npm audit output")
    else
      var data := payload.value.fields;
      var vulnerabilities, packages := Field(data, "vulnerabilities"), PackagesOf(data, lock);
      if !vulnerabilities.JObj? || !packages.JObj? then Refusal("incomplete npm audit v2 output")
      else Parsed(Env(str, vulnerabilities.fields, packages.fields))
  }

  lemma SkippedIsUnusable(advisory: Fields, vulnerability: Fields)
    ensures !IsSourced(advisory) || SeverityText(advisory, vulnerability) !in SEVERITY <==>
              !IsUsable(advisory, vulnerability)
  {
  }

  /** The innermost loop. */
  method ReadAdvisories(env: Env, package: string, vulnerability: Fields, node: string, advisories: seq<Fields>)
    returns (records: seq<Record>, ambiguous: bool)
    ensures records == NodeRecords(env, package, vulnerability, node, advisories, |advisories|)
    ensures ambiguous <==> exists a :: a in advisories && !IsUsable(a, vulnerability)
  {
    hide IsUsable, IsSourced, SeverityText, RecordOf;
    records, ambiguous := [], false;
    for k := 0 to |advisories|
      invariant records == NodeRecords(env, package, vulnerability, node, advisories, k)
      invariant ambiguous <==> exists i :: 0 <= i < k && !IsUsable(advisories[i], vulnerability)
    {
      var advisory := advisories[k];
      SkippedIsUnusable(advisory, vulnerability);
      if !IsSourced(advisory) || SeverityText(advisory, vulnerability) !in SEVERITY {
        ambiguous := true;
        continue;
      }
      records := records + [RecordOf(env, package, vulnerability, node, advisory)];
    }
  }

  /** The loop over `via`. */
  method ReadVias(vulnerabilities: Fields, vias: seq<Json>) returns (r: Option<seq<Fields>>)
    ensures r == Advisories(vulnerabilities, vias)
  {
    var advisories := Objects(vias);
    for k := 0 to |vias|
      invariant ReferencedUpTo(vulnerabilities, vias, k).Some?
      invariant advisories == Objects(vias) + ReferencedUpTo(vulnerabilities, vias, k).value
    {
      var more := Referenced(vulnerabilities, vias[k]);
      if more.None? {
        OnceRaised(vulnerabilities, vias, k + 1, |vias|);
        return None;
      }
      advisories := advisories + more.value;
    }
    r := Some(advisories);
  }

  /** The loop over the nodes. */
  method ReadNodesOf(env: Env, package: string, v: Fields, names: seq<string>, advisories: seq<Fields>)
    returns (records: seq<Record>, ambiguous: bool)
    ensures records == PackageRecords(env, package, v, names, advisories, |names|)
    ensures ambiguous <==> (exists n :: n in names && !NodeIsClear(env, n)) ||
                           (names != [] && exists a :: a in advisories && !IsUsable(a, v))
  {
    hide NodeRecords, NodeIsClear, IsUsable;
    records, ambiguous := [], false;
    for k := 0 to |names|
      invariant records == PackageRecords(env, package, v, names, advisories, k)
      invariant ambiguous <==> (exists i :: 0 <= i < k && !NodeIsClear(env, names[i]))
                               || (k > 0 && exists a :: a in advisories && !IsUsable(a, v))
    {
      if !NodeIsClear(env, names[k]) {
        ambiguous := true;
      }
      var more, doubt := ReadAdvisories(env, package, v, names[k], advisories);
      records, ambiguous := records + more, ambiguous || doubt;
    }
  }

  method ReadPackage(env: Env, package: string, vulnerability: Json) returns (r: Examined)
    ensures r == Examine(env, package, vulnerability)
  {
    hide NodeIsClear, IsUsable, Advisories, PackageRecords;
    if !vulnerability.JObj? {
      return Examined([], true);
    }
    var v := vulnerability.fields;
    var nodes, vias := Field(v, "nodes"), Field(v, "via");
    if !nodes.JList? || nodes.items == [] || !vias.JList? {
      return Examined([], true);
    }
    var advisories := ReadVias(env.vulnerabilities, vias.items);
    if advisories.None? {
      return Raises;
    }
    if advisories.value == [] {
      return Examined([], true);
    }
    var list := ReadNodes(nodes.items);
    if list.NotSortable? {
      return Raises;
    }
    if list.NotStrings? {
      return Examined([], true);
    }
    NodesRemain(nodes.items);
    var records, ambiguous := ReadNodesOf(env, package, v, list.names, advisories.value);
    r := Examined(records, ambiguous);
  }

  lemma NodesRemain(nodes: seq<Json>)
    requires nodes != []
    ensures ReadNodes(nodes).Nodes? ==> ReadNodes(nodes).names != []
  {
    if AllStrings(nodes) {
      StringLessIsStrictOrder();
      SortUniqueSorts(StringLess, Texts(nodes));
      assert Texts(nodes)[0] in SortUnique(StringLess, Texts(nodes));
    }
  }

  lemma {:induction false} OnceRaised(vulnerabilities: Fields, vias: seq<Json>, k: nat, n: nat)
    requires k <= n <= |vias| && ReferencedUpTo(vulnerabilities, vias, k).None?
    ensures ReferencedUpTo(vulnerabilities, vias, n).None?
  {
    if k < n { OnceRaised(vulnerabilities, vias, k, n - 1); }
  }

  method ParseNpmAuditV2(str: Json -> string, payload: Option<Json>, lock: Json) returns (r: AuditResult)
    ensures r == ParseSpec(str, payload, lock)
  {
    hide Parsed, Field;
    if payload.None? {
      return Refusal("malformed npm JSON");
    }
    if !payload.value.JObj? || Field(payload.value.fields, "auditReportVersion") != JNum(2) {
      return Refusal("unsupported npm audit output");
    }
    var data := payload.value.fields;
    var vulnerabilities, packages := Field(data, "vulnerabilities"), PackagesOf(data, lock);
    if !vulnerabilities.JObj? || !packages.JObj? {
      return Refusal("incomplete npm audit v2 output");
    }
    r := ReadPackages(Env(str, vulnerabilities.fields, packages.fields));
  }

  /** The outermost loop. */
  method ReadPackages(env: Env) returns (r: AuditResult)
    ensures r == Parsed(env)
  {
    hide Examine;
    var records: seq<Record>, ambiguous := [], false;
    for k := 0 to |env.vulnerabilities|
      invariant ExamineUpTo(env, k) == Examined(records, ambiguous)
    {
      var found := ReadPackage(env, env.vulnerabilities[k].0, env.vulnerabilities[k].1);
      if found.Raises? {
        OnceRaises(env, k + 1, |env.vulnerabilities|);
        return Raised;
      }
      records, ambiguous := records + found.records, ambiguous || found.ambiguous;
    }
    r := AuditResult(StableSort(RecordLess, records), !ambiguous,
                     if ambiguous then Some("candidate attribution is incomplete") else None);
  }

  lemma {:induction false} OnceRaises(env: Env, k: nat, n: nat)
    requires k <= n <= |env.vulnerabilities| && ExamineUpTo(env, k).Raises?
    ensures ExamineUpTo(env, n).Raises?
  {
    if k < n { OnceRaises(env, k, n - 1); }
  }

  // ---- what attribution promises ------------------------------------------------------

  /** Everything the policy needs to know about a package is there. */
  ghost predicate IsAttributed(env: Env, vulnerability: Json) {
    && vulnerability.JObj?
    && var nodes, vias := Field(vulnerability.fields, "nodes"), Field(vulnerability.fields, "via");
       && nodes.JList? && nodes.items != [] && vias.JList? && AllStrings(nodes.items)
       && (forall n :: n in nodes.items ==> NodeIsClear(env, n.s))
       && var advisories := Advisories(env.vulnerabilities, vias.items);
          advisories.Some? && advisories.value != [] && forall a :: a in advisories.value ==>
            IsUsable(a, vulnerability.fields)
  }

  lemma NamesAre(nodes: seq<Json>)
    requires AllStrings(nodes)
    ensures ReadNodes(nodes).Nodes?
    ensures forall n :: n in ReadNodes(nodes).names <==> JStr(n) in nodes
  {
    StringLessIsStrictOrder();
    var texts := Texts(nodes);
    SortUniqueSorts(StringLess, texts);
    forall n ensures n in texts <==> JStr(n) in nodes {
      if n in texts {
        var i :| 0 <= i < |texts| && texts[i] == n;
        assert nodes[i] in nodes && nodes[i] == JStr(n);
      }
      if JStr(n) in nodes {
        var i :| 0 <= i < |nodes| && nodes[i] == JStr(n);
        assert texts[i] == n;
      }
    }
  }

  lemma ClearIffAttributed(env: Env, package: string, vulnerability: Json)
    requires Examine(env, package, vulnerability).Examined?
    ensures !Examine(env, package, vulnerability).ambiguous <==> IsAttributed(env, vulnerability)
  {
    hide NodeIsClear, IsUsable, Advisories, PackageRecords, SortUnique;
    if vulnerability.JObj? && Field(vulnerability.fields, "nodes").JList? {
      var nodes := Field(vulnerability.fields, "nodes").items;
      if AllStrings(nodes) {
        NamesAre(nodes);
        assert forall n :: n in nodes ==> n == JStr(n.s);
      }
    }
  }

  /** One advisory of one installed node of one reported package. */
  ghost predicate IsReported(env: Env, package: string, vulnerability: Json, node: string, advisory: Fields) {
    && (package, vulnerability) in env.vulnerabilities && vulnerability.JObj?
    && var nodes, vias := Field(vulnerability.fields, "nodes"), Field(vulnerability.fields, "via");
       && nodes.JList? && vias.JList? && JStr(node) in nodes.items
       && var advisories := Advisories(env.vulnerabilities, vias.items);
          advisories.Some? && advisory in advisories.value
  }

  lemma {:induction false} NodeRecordsAre(env: Env, package: string, v: Fields, node: string, advisories: seq<Fields>,
                                          k: nat)
    requires k <= |advisories|
    ensures forall r :: r in NodeRecords(env, package, v, node, advisories, k) <==>
              exists i :: 0 <= i < k && IsUsable(advisories[i], v) &&
                          r == RecordOf(env, package, v, node, advisories[i])
  {
    hide IsUsable, RecordOf;
    if k > 0 { NodeRecordsAre(env, package, v, node, advisories, k - 1); }
  }

  lemma {:induction false} PackageRecordsAre(env: Env, package: string, v: Fields, nodes: seq<string>,
                                             advisories: seq<Fields>, k: nat)
    requires k <= |nodes|
    ensures forall r :: r in PackageRecords(env, package, v, nodes, advisories, k) <==>
              exists i :: 0 <= i < k && r in NodeRecords(env, package, v, nodes[i], advisories, |advisories|)
  {
    hide NodeRecords;
    if k > 0 { PackageRecordsAre(env, package, v, nodes, advisories, k - 1); }
  }

  lemma {:induction false} ExaminedAre(env: Env, k: nat)
    requires k <= |env.vulnerabilities| && ExamineUpTo(env, k).Examined?
    ensures forall i :: 0 <= i < k ==> Examine(env, env.vulnerabilities[i].0, env.vulnerabilities[i].1).Examined?
    ensures ExamineUpTo(env, k).ambiguous <==>
            exists i :: 0 <= i < k && Examine(env, env.vulnerabilities[i].0, env.vulnerabilities[i].1).ambiguous
    ensures forall r :: r in ExamineUpTo(env, k).records <==>
              exists i :: 0 <= i < k && r in Examine(env, env.vulnerabilities[i].0, env.vulnerabilities[i].1).records
  {
    hide Examine;
    if k > 0 { ExaminedAre(env, k - 1); }
  }

  lemma RecordLessIsWeakOrder()
    ensures WeakOrder(RecordLess)
  {
    hide StringLess;
    IdentityLessIsStrictOrder();
    forall x, y | RecordLess(x, y) ensures !RecordLess(y, x) {
      assert IdentityLess(x.id, y.id) && IdentityLess(y.id, x.id) ==> IdentityLess(x.id, x.id);
    }
    forall x, y, z | RecordLess(x, z) ensures RecordLess(x, y) || RecordLess(y, z) {
      if IdentityLess(y.id, x.id) { assert IdentityLess(y.id, z.id); }
    }
  }

  lemma IdentityLessIsStrictOrder()
    ensures StrictOrder(IdentityLess)
  {
    hide StringLess;
    StringLessIsStrictOrder();
  }

  lemma SameElements<T>(s: seq<T>, t: seq<T>)
    requires multiset(s) == multiset(t)
    ensures forall x :: x in s <==> x in t
  {
    forall x ensures x in s <==> x in t {
      assert x in s <==> x in multiset(s);
      assert x in t <==> x in multiset(t);
    }
  }

  /** The parsed result is what the loop collected, in identity order. */
  lemma ParsedIsCollected(env: Env)
    requires Parsed(env).AuditResult?
    ensures var e := ExamineUpTo(env, |env.vulnerabilities|);
            && e.Examined? && (Parsed(env).attributable <==> !e.ambiguous)
            && (forall r :: r in Parsed(env).records <==> r in e.records)
            && Sorted(RecordLess, Parsed(env).records)
  {
    hide ExamineUpTo, StableSort, Sorted, WeakOrder;
    var e := ExamineUpTo(env, |env.vulnerabilities|);
    RecordLessIsWeakOrder();
    StableSortSorts(RecordLess, e.records);
    SameElements(StableSort(RecordLess, e.records), e.records);
  }

  lemma ReportedIsRecorded(env: Env, package: string, vulnerability: Json, node: string, advisory: Fields)
    requires IsReported(env, package, vulnerability, node, advisory) && IsAttributed(env, vulnerability)
    requires Examine(env, package, vulnerability).Examined?
    ensures RecordOf(env, package, vulnerability.fields, node, advisory) in Examine(env, package, vulnerability).records
  {
    hide NodeIsClear, IsUsable, Advisories, PackageRecords, SortUnique, NodeRecords, RecordOf;
    var v := vulnerability.fields;
    var nodes := Field(v, "nodes").items;
    var advisories := Advisories(env.vulnerabilities, Field(v, "via").items).value;
    NamesAre(nodes);
    var names := ReadNodes(nodes).names;
    var i :| 0 <= i < |names| && names[i] == node;
    var k :| 0 <= k < |advisories| && advisories[k] == advisory;
    NodeRecordsAre(env, package, v, node, advisories, |advisories|);
    PackageRecordsAre(env, package, v, names, advisories, |names|);
    assert advisory in advisories && IsUsable(advisory, v);
    assert RecordOf(env, package, v, node, advisory) in NodeRecords(env, package, v, names[i], advisories,
                                                                    |advisories|);
  }

  lemma RecordedIsReported(env: Env, package: string, vulnerability: Json, r: Record)
    returns (node: string, advisory: Fields)
    requires (package, vulnerability) in env.vulnerabilities
    requires Examine(env, package, vulnerability).Examined? && r in Examine(env, package, vulnerability).records
    ensures IsReported(env, package, vulnerability, node, advisory) && IsUsable(advisory, vulnerability.fields)
    ensures r == RecordOf(env, package, vulnerability.fields, node, advisory)
  {
    hide NodeIsClear, IsUsable, Advisories, PackageRecords, SortUnique, NodeRecords, RecordOf;
    var v := vulnerability.fields;
    var nodes := Field(v, "nodes").items;
    var advisories := Advisories(env.vulnerabilities, Field(v, "via").items).value;
    assert AllStrings(nodes);
    NamesAre(nodes);
    var names := ReadNodes(nodes).names;
    PackageRecordsAre(env, package, v, names, advisories, |names|);
    var i :| 0 <= i < |names| && r in NodeRecords(env, package, v, names[i], advisories, |advisories|);
    node := names[i];
    NodeRecordsAre(env, package, v, node, advisories, |advisories|);
    var k :| 0 <= k < |advisories| && IsUsable(advisories[k], v) && r == RecordOf(env, package, v, node, advisories[k]);
    advisory := advisories[k];
  }

  /** A report counts as attributable exactly when every package in it is, and then no advisory of
      any node is missing from the records. */
  lemma AttributionIsComplete(env: Env)
    requires Parsed(env).AuditResult?
    ensures Parsed(env).attributable <==> forall item :: item in env.vulnerabilities ==> IsAttributed(env, item.1)
    ensures Parsed(env).attributable ==>
              forall package, vulnerability, node, advisory ::
                IsReported(env, package, vulnerability, node, advisory) ==>
                RecordOf(env, package, vulnerability.fields, node, advisory) in Parsed(env).records
  {
    hide Parsed, ExamineUpTo, Examine, IsAttributed, RecordOf;
    var n := |env.vulnerabilities|;
    ParsedIsCollected(env);
    ExaminedAre(env, n);
    forall i | 0 <= i < n
      ensures Examine(env, env.vulnerabilities[i].0, env.vulnerabilities[i].1).ambiguous <==>
                !IsAttributed(env, env.vulnerabilities[i].1)
    {
      ClearIffAttributed(env, env.vulnerabilities[i].0, env.vulnerabilities[i].1);
    }
    if Parsed(env).attributable {
      forall package, vulnerability, node, advisory | IsReported(env, package, vulnerability, node, advisory)
        ensures RecordOf(env, package, vulnerability.fields, node, advisory) in Parsed(env).records
      {
        var i :| 0 <= i < n && env.vulnerabilities[i] == (package, vulnerability);
        ReportedIsRecorded(env, package, vulnerability, node, advisory);
      }
    }
  }

  /** No record without an advisory behind it, none with an unknown severity, and in an
      attributable result none with an unknown scope. */
  lemma RecordsAreFounded(env: Env, r: Record)
    requires Parsed(env).AuditResult? && r in Parsed(env).records
    ensures exists vulnerability, node, advisory ::
              IsReported(env, r.id.package, vulnerability, node, advisory) &&
              r == RecordOf(env, r.id.package, vulnerability.fields, node, advisory)
    ensures r.severity in SEVERITY
    ensures Parsed(env).attributable ==> r.scope != Unknown
  {
    hide Parsed, ExamineUpTo, Examine, IsReported;
    var n := |env.vulnerabilities|;
    ParsedIsCollected(env);
    ExaminedAre(env, n);
    var i :| 0 <= i < n && r in Examine(env, env.vulnerabilities[i].0, env.vulnerabilities[i].1).records;
    var package, vulnerability := env.vulnerabilities[i].0, env.vulnerabilities[i].1;
    assert env.vulnerabilities[i] == (package, vulnerability);
    var node, advisory := RecordedIsReported(env, package, vulnerability, r);
    if Parsed(env).attributable {
      AttributionIsComplete(env);
      ReportedIsClear(env, package, vulnerability, node, advisory);
    }
  }

  lemma ReportedIsClear(env: Env, package: string, vulnerability: Json, node: string, advisory: Fields)
    requires IsReported(env, package, vulnerability, node, advisory) && IsAttributed(env, vulnerability)
    ensures ScopeForNode(env.packages, node) != Unknown
  {
    assert JStr(node) in Field(vulnerability.fields, "nodes").items;
    assert NodeIsClear(env, JStr(node).s);
  }

  /** Whatever is parsed, the result is fit for the comparison and the ratchet below. */
  lemma ParsedIsFit(str: Json -> string, payload: Option<Json>, lock: Json)
    requires ParseSpec(str, payload, lock).AuditResult?
    ensures SeveritiesKnown(ParseSpec(str, payload, lock).records) && ScopesKnown(ParseSpec(str, payload, lock))
  {
    hide Parsed;
    var result := ParseSpec(str, payload, lock);
    forall r | r in result.records ensures r.severity in SEVERITY && (result.attributable ==> r.scope != Unknown) {
      var data := payload.value.fields;
      RecordsAreFounded(Env(str, Field(data, "vulnerabilities").fields, PackagesOf(data, lock).fields), r);
    }
  }

  // ---- the policy -----------------------------------------------------------------------

  datatype Status = Introduced | Worsened | UnchangedBaseline | Removed | Indeterminate

  datatype Finding = Finding(status: Status, candidate: Option<Record>, baseline: Option<Record>, reason: string,
                             blocks: bool)

  datatype Policy = Policy(threshold: string, blockIndeterminate: bool, blockCriticalProductionBaseline: bool)

  predicate SeveritiesKnown(records: seq<Record>) { forall r :: r in records ==> r.severity in SEVERITY }

  /** `{record.identity: record for record in records}`: the last record of an identity stays. */
  function Effective(records: seq<Record>): (m: map<Identity, Record>)
    ensures forall id :: id in m ==> m[id] in records && m[id].id == id
  {
    if records == [] then map[]
    else
      var r := records[|records| - 1];
      var before := Effective(records[..|records| - 1]);
      assert records == records[..|records| - 1] + [r];
      before[r.id := r]
  }

  function At(m: map<Identity, Record>, id: Identity): Option<Record> { if id in m then Some(m[id]) else None }

  function First(records: seq<Record>): Option<Record> { if records == [] then None else Some(records[0]) }

  /** At the same or lower risk. */
  predicate NoWorse(was: Record, now: Record)
    requires was.severity in SEVERITY && now.severity in SEVERITY
  {
    SEVERITY[now.severity] <= SEVERITY[was.severity] && !(was.scope == Development && now.scope == Production)
  }

  predicate Known(r: Option<Record>) { r.Some? ==> r.value.severity in SEVERITY }

  function StatusOf(before: Option<Record>, after: Option<Record>): (Status, string)
    requires Known(before) && Known(after)
  {
    if before.None? then (Introduced, "advisory/path introduced by candidate")
    else if after.None? then (Removed, "advisory/path removed by candidate")
    else if SEVERITY[after.value.severity] > SEVERITY[before.value.severity] then (Worsened, "severity increased")
    else if before.value.scope == Development && after.value.scope == Production then
      (Worsened, "dependency scope changed from development to production")
    else (UnchangedBaseline, "present at the same or lower risk in baseline")
  }

  predicate Blocks(before: Option<Record>, after: Option<Record>, policy: Policy)
    requires Known(before) && Known(after) && policy.threshold in SEVERITY
  {
    var status := StatusOf(before, after).0;
    || (after.Some? && (status == Introduced || status == Worsened) &&
        SEVERITY[after.value.severity] >= SEVERITY[policy.threshold])
    || (status == UnchangedBaseline && policy.blockCriticalProductionBaseline && after.Some?
        && after.value.severity == "critical" && after.value.scope == Production && after.value.exploitable)
  }

  function FindingFor(before: Option<Record>, after: Option<Record>, policy: Policy): Finding
    requires Known(before) && Known(after) && policy.threshold in SEVERITY
  {
    var (status, reason) := StatusOf(before, after);
    Finding(status, after, before, reason, Blocks(before, after, policy))
  }

  /** What a policy and two results must satisfy for the comparison not to raise. */
  predicate Comparable(baseline: AuditResult, candidate: AuditResult, policy: Policy) {
    && policy.threshold in SEVERITY && baseline.AuditResult? && candidate.AuditResult?
    && SeveritiesKnown(baseline.records) && SeveritiesKnown(candidate.records)
  }

  lemma EffectiveIsKnown(records: seq<Record>, id: Identity)
    requires SeveritiesKnown(records)
    ensures Known(At(Effective(records), id))
  {
  }

  /** The error reported: the candidate's, else the baseline's, else the fallback. An empty text
      counts as none. */
  function ErrorOf(baseline: AuditResult, candidate: AuditResult): string
    requires baseline.AuditResult? && candidate.AuditResult?
  {
    if candidate.error.Some? && candidate.error.value != "" then candidate.error.value
    else if baseline.error.Some? && baseline.error.value != "" then baseline.error.value
    else "audit attribution unavailable"
  }

  ghost predicate IsComparison(baseline: AuditResult, candidate: AuditResult, policy: Policy, keys: seq<Identity>,
                               findings: seq<Finding>)
    requires Comparable(baseline, candidate, policy)
  {
    var base, cand := Effective(baseline.records), Effective(candidate.records);
    && StrictlySorted(IdentityLess, keys) && (forall id :: id in keys <==> id in base || id in cand)
    && |findings| == |keys|
    && forall i :: 0 <= i < |keys| ==>
         Known(At(base, keys[i])) && Known(At(cand, keys[i])) &&
         findings[i] == FindingFor(At(base, keys[i]), At(cand, keys[i]), policy)
  }

  ghost predicate IsClassified(baseline: AuditResult, candidate: AuditResult, policy: Policy, findings: seq<Finding>)
    requires Comparable(baseline, candidate, policy)
  {
    if !baseline.attributable || !candidate.attributable then
      findings == [Finding(Indeterminate, First(candidate.records), First(baseline.records),
                           ErrorOf(baseline, candidate), policy.blockIndeterminate)]
    else
      exists keys :: IsComparison(baseline, candidate, policy, keys, findings)
  }

  predicate Blocked(findings: seq<Finding>) { exists f :: f in findings && f.blocks }

  method ClassifyProject(baseline: AuditResult, candidate: AuditResult, policy: Policy) returns (findings: seq<Finding>)
    requires Comparable(baseline, candidate, policy)
    ensures IsClassified(baseline, candidate, policy, findings)
  {
    if !baseline.attributable || !candidate.attributable {
      return [Finding(Indeterminate, First(candidate.records), First(baseline.records), ErrorOf(baseline, candidate),
                      policy.blockIndeterminate)];
    }
    var base, cand := Effective(baseline.records), Effective(candidate.records);
    IdentityLessIsStrictOrder();
    var keys := SortedOf(base.Keys + cand.Keys, IdentityLess);
    findings := [];
    for i := 0 to |keys|
      invariant |findings| == i
      invariant forall j :: 0 <= j < i ==>
                  Known(At(base, keys[j])) && Known(At(cand, keys[j])) &&
                  findings[j] == FindingFor(At(base, keys[j]), At(cand, keys[j]), policy)
    {
      EffectiveIsKnown(baseline.records, keys[i]);
      EffectiveIsKnown(candidate.records, keys[i]);
      findings := findings + [FindingFor(At(base, keys[i]), At(cand, keys[i]), policy)];
    }
    assert IsComparison(baseline, candidate, policy, keys, findings);
  }

  // ---- the ratchet ------------------------------------------------------------------------

  predicate IsSerious(r: Record, policy: Policy)
    requires r.severity in SEVERITY && policy.threshold in SEVERITY
  {
    SEVERITY[r.severity] >= SEVERITY[policy.threshold]
  }

  /** Every serious record of `after` was there before, at no lower risk. */
  ghost predicate OnlyImproves(before: AuditResult, after: AuditResult, policy: Policy)
    requires Comparable(before, after, policy)
  {
    var base, cand := Effective(before.records), Effective(after.records);
    forall id :: id in cand && IsSerious(cand[id], policy) ==> id in base && NoWorse(base[id], cand[id])
  }

  predicate IsCriticalProduction(r: Record) { r.severity == "critical" && r.scope == Production && r.exploitable }

  /** No unchanged record is an exploitable critical one in production. */
  ghost predicate BaselineIsClear(before: AuditResult, after: AuditResult, policy: Policy)
    requires Comparable(before, after, policy)
  {
    var base, cand := Effective(before.records), Effective(after.records);
    forall id :: id in base && id in cand && NoWorse(base[id], cand[id]) ==> !IsCriticalProduction(cand[id])
  }

  lemma FindingBlocks(before: Option<Record>, after: Option<Record>, policy: Policy)
    requires Known(before) && Known(after) && policy.threshold in SEVERITY
    ensures var kept := before.Some? && after.Some? && NoWorse(before.value, after.value);
            Blocks(before, after, policy) <==>
            (after.Some? && IsSerious(after.value, policy) && !kept)
            || (kept && policy.blockCriticalProductionBaseline && IsCriticalProduction(after.value))
  {
  }

  /** With attribution on both sides a candidate passes exactly when it only improves and, where
      the policy asks for it, keeps no critical production finding. */
  lemma UnblockedIffOnlyImproves(baseline: AuditResult, candidate: AuditResult, policy: Policy, findings: seq<Finding>)
    requires Comparable(baseline, candidate, policy) && IsClassified(baseline, candidate, policy, findings)
    requires baseline.attributable && candidate.attributable
    ensures !Blocked(findings) <==>
            OnlyImproves(baseline, candidate, policy)
            && (policy.blockCriticalProductionBaseline ==> BaselineIsClear(baseline, candidate, policy))
  {
    hide StatusOf, NoWorse, IsSerious, Blocks, IdentityLess, IsCriticalProduction;
    var base, cand := Effective(baseline.records), Effective(candidate.records);
    var keys :| IsComparison(baseline, candidate, policy, keys, findings);
    forall i | 0 <= i < |keys|
      ensures findings[i].blocks <==>
              (keys[i] in cand && IsSerious(cand[keys[i]], policy) &&
               !(keys[i] in base && NoWorse(base[keys[i]], cand[keys[i]])))
              || (keys[i] in base && keys[i] in cand && NoWorse(base[keys[i]], cand[keys[i]])
                  && policy.blockCriticalProductionBaseline && IsCriticalProduction(cand[keys[i]]))
    {
      FindingBlocks(At(base, keys[i]), At(cand, keys[i]), policy);
    }
    forall id | id in cand ensures exists i :: 0 <= i < |keys| && keys[i] == id {
      assert id in keys;
    }
  }

  /** No record of an attributable result has an unknown scope, as the parser guarantees. */
  predicate ScopesKnown(r: AuditResult) {
    r.AuditResult? && (r.attributable ==> forall x :: x in r.records ==> x.scope != Unknown)
  }

  ghost predicate IsChain(trees: seq<AuditResult>, verdicts: seq<seq<Finding>>, policy: Policy) {
    && |trees| == |verdicts| + 1
    && forall k :: 0 <= k < |verdicts| ==> IsLink(trees, verdicts, policy, k)
  }

  ghost predicate IsLink(trees: seq<AuditResult>, verdicts: seq<seq<Finding>>, policy: Policy, k: nat)
    requires k < |verdicts| && |trees| == |verdicts| + 1
  {
    && Comparable(trees[k], trees[k + 1], policy) && ScopesKnown(trees[k]) && ScopesKnown(trees[k + 1])
    && IsClassified(trees[k], trees[k + 1], policy, verdicts[k]) && !Blocked(verdicts[k])
  }

  lemma UnattributedBlocks(before: AuditResult, after: AuditResult, policy: Policy, findings: seq<Finding>)
    requires Comparable(before, after, policy) && IsClassified(before, after, policy, findings)
    requires !before.attributable || !after.attributable
    ensures Blocked(findings) <==> policy.blockIndeterminate
  {
    assert findings[0] in findings;
  }

  lemma LinkOnlyImproves(trees: seq<AuditResult>, verdicts: seq<seq<Finding>>, policy: Policy, k: nat)
    requires |trees| == |verdicts| + 1 && k < |verdicts| && IsLink(trees, verdicts, policy, k)
    requires policy.blockIndeterminate
    ensures trees[k].attributable && trees[k + 1].attributable && OnlyImproves(trees[k], trees[k + 1], policy)
  {
    hide OnlyImproves, IsComparison;
    if trees[k].attributable && trees[k + 1].attributable {
      UnblockedIffOnlyImproves(trees[k], trees[k + 1], policy, verdicts[k]);
    } else {
      UnattributedBlocks(trees[k], trees[k + 1], policy, verdicts[k]);
    }
  }

  lemma ImprovesTransitively(a: AuditResult, b: AuditResult, c: AuditResult, policy: Policy)
    requires Comparable(a, b, policy) && Comparable(b, c, policy)
    requires b.attributable && ScopesKnown(b)
    requires OnlyImproves(a, b, policy) && OnlyImproves(b, c, policy)
    ensures OnlyImproves(a, c, policy)
  {
  }

  /** The ratchet: over any chain of trees each of which passed against the one before, under any
      policy that blocks indeterminate comparisons, every serious finding of the last tree was
      already in the first, at least as severe, and did not move from development to production. */
  lemma {:induction false} RatchetOnlyImproves(trees: seq<AuditResult>, verdicts: seq<seq<Finding>>, policy: Policy,
                                               k: nat)
    requires IsChain(trees, verdicts, policy) && 0 < k <= |verdicts|
    requires policy.blockIndeterminate
    ensures Comparable(trees[0], trees[k], policy) && OnlyImproves(trees[0], trees[k], policy)
  {
    hide OnlyImproves, IsClassified;
    assert IsLink(trees, verdicts, policy, k - 1) && IsLink(trees, verdicts, policy, 0);
    LinkOnlyImproves(trees, verdicts, policy, k - 1);
    if k > 1 {
      RatchetOnlyImproves(trees, verdicts, policy, k - 1);
      ImprovesTransitively(trees[0], trees[k - 1], trees[k], policy);
    }
  }

  /** Over every chain of trees that passed one after the other, the last only improves the first. */
  ghost predicate RatchetHolds(policy: Policy) {
    forall trees, verdicts :: IsChain(trees, verdicts, policy) && verdicts != [] ==>
      Comparable(trees[0], trees[|verdicts|], policy) && OnlyImproves(trees[0], trees[|verdicts|], policy)
  }

  /** Three trees: a clean one, one that cannot be attributed, and one with a critical finding in
      production. */
  ghost function OpenTrees(id: Identity): seq<AuditResult> {
    [AuditResult([], true, None), AuditResult([], false, None),
     AuditResult([Record(id, "critical", Production, true)], true, None)]
  }

  ghost function OpenVerdicts(id: Identity): seq<seq<Finding>> {
    var reason := "audit attribution unavailable";
    [[Finding(Indeterminate, None, None, reason, false)],
     [Finding(Indeterminate, Some(Record(id, "critical", Production, true)), None, reason, false)]]
  }

  /** Without blocking, each of them passes after the one before it, and the last did get worse. */
  lemma IndeterminateOpensTheRatchet(policy: Policy, id: Identity)
    requires policy.threshold in SEVERITY && !policy.blockIndeterminate
    ensures var trees := OpenTrees(id);
            && IsChain(trees, OpenVerdicts(id), policy)
            && Comparable(trees[0], trees[2], policy) && !OnlyImproves(trees[0], trees[2], policy)
  {
    var trees, verdicts := OpenTrees(id), OpenVerdicts(id);
    OpenLinks(policy, id);
    forall k | 0 <= k < |verdicts| ensures IsLink(trees, verdicts, policy, k) {
      assert k == 0 || k == 1;
    }
    var bad := trees[2].records;
    assert Effective(bad)[id] == bad[0] && IsSerious(bad[0], policy) && id !in Effective(trees[0].records);
  }

  lemma OpenLinks(policy: Policy, id: Identity)
    requires policy.threshold in SEVERITY && !policy.blockIndeterminate
    ensures IsLink(OpenTrees(id), OpenVerdicts(id), policy, 0)
    ensures IsLink(OpenTrees(id), OpenVerdicts(id), policy, 1)
  {
    var trees, verdicts := OpenTrees(id), OpenVerdicts(id);
    assert verdicts[0] == [verdicts[0][0]] && verdicts[1] == [verdicts[1][0]];
  }

  /** The policies with a ratchet are exactly those that block indeterminate comparisons. */
  lemma RatchetHoldsIffIndeterminateBlocks(policy: Policy)
    requires policy.threshold in SEVERITY
    ensures RatchetHolds(policy) <==> policy.blockIndeterminate
  {
    hide IsChain, OnlyImproves, OpenTrees, OpenVerdicts;
    if policy.blockIndeterminate {
      forall trees, verdicts | IsChain(trees, verdicts, policy) && verdicts != []
        ensures |trees| == |verdicts| + 1 && Comparable(trees[0], trees[|verdicts|], policy)
             && OnlyImproves(trees[0], trees[|verdicts|], policy)
      {
        ChainIsLonger(trees, verdicts, policy);
        RatchetOnlyImproves(trees, verdicts, policy, |verdicts|);
      }
    } else {
      var id := Identity("", "", "");
      IndeterminateOpensTheRatchet(policy, id);
      OpenVerdictsAreTwo(id);
    }
  }

  lemma ChainIsLonger(trees: seq<AuditResult>, verdicts: seq<seq<Finding>>, policy: Policy)
    requires IsChain(trees, verdicts, policy)
    ensures |trees| == |verdicts| + 1
  {
  }

  lemma OpenVerdictsAreTwo(id: Identity)
    ensures |OpenVerdicts(id)| == 2 && |OpenTrees(id)| == 3
  {
  }
}
