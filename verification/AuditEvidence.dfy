/** What an audit report says, and what is recorded of it: the records of `parse_npm_audit_v2`
    (hyqs/pipeline/npm_audit.py) read off the report and the lockfile. */
module AuditEvidence {
  import opened PyValues
  import opened Sorting
  import opened AuditRatchet

  /** `d.get(key)` on a dict, whose keys are distinct. */
  lemma {:induction false} FieldIsEntry(fields: Fields, key: string, value: Json)
    requires forall i, j :: 0 <= i < j < |fields| ==> fields[i].0 != fields[j].0
    ensures (key, value) in fields ==> Field(fields, key) == value && Lookup(fields, key) == Some(value)
    ensures (forall v :: (key, v) !in fields) ==> Field(fields, key) == JNull && Lookup(fields, key) == None
  {
    if fields != [] {
      assert fields == [fields[0]] + fields[1..];
      assert fields[0] in fields;
      FieldIsEntry(fields[1..], key, value);
      if (key, value) in fields[1..] {
        var i :| 0 <= i < |fields[1..]| && fields[1..][i] == (key, value);
        assert fields[i + 1] == (key, value);
      }
    }
  }

  // ---- the parts of the report --------------------------------------------------------------

  ghost predicate HasKey(fields: Fields, key: string) { exists i :: 0 <= i < |fields| && fields[i].0 == key }

  /** An object in the `via` list, or in that of a package the list names. */
  ghost predicate Advises(vulnerabilities: Fields, vulnerability: Fields, advisory: Fields) {
    && Field(vulnerability, "via").JList?
    && (|| JObj(advisory) in Field(vulnerability, "via").items
        || IsNamed(vulnerabilities, Field(vulnerability, "via").items, advisory))
  }

  ghost predicate IsNamed(vulnerabilities: Fields, vias: seq<Json>, advisory: Fields) {
    exists name :: JStr(name) in vias && ListsUnder(vulnerabilities, name, advisory)
  }

  ghost predicate ListsUnder(vulnerabilities: Fields, name: string, advisory: Fields) {
    && Field(vulnerabilities, name).JObj? && Field(Field(vulnerabilities, name).fields, "via").JList?
    && JObj(advisory) in Field(Field(vulnerabilities, name).fields, "via").items
  }

  /** The advisory's own "severity", or the package's when it has none. */
  ghost function Given(advisory: Fields, vulnerability: Fields): Json {
    if HasKey(advisory, "severity") then Field(advisory, "severity") else Field(vulnerability, "severity")
  }

  /** t is s with its capital letters made small. */
  ghost predicate IsLowered(s: string, t: string) {
    && |t| == |s|
    && forall i :: 0 <= i < |s| ==>
         (if 'A' <= s[i] <= 'Z' then 'a' <= t[i] <= 'z' && t[i] - 'a' == s[i] - 'A' else t[i] == s[i])
  }

  /** Names a source, and one of the five severities. */
  ghost predicate IsUsableAdvice(advisory: Fields, vulnerability: Fields, severity: string) {
    && Field(advisory, "source") !in {JNull, JStr("")}
    && Given(advisory, vulnerability).JStr? && IsLowered(Given(advisory, vulnerability).s, severity)
    && severity in {"info", "low", "moderate", "high", "critical"}
  }

  ghost predicate IsScope(packages: Fields, node: string, scope: Scope) {
    if !Field(packages, node).JObj? then scope == Unknown
    else if Field(Field(packages, node).fields, "dev") == JBool(true) then scope == Development
    else scope == Production
  }

  /** The record one advisory of one node of one reported package leaves. */
  ghost predicate IsRecordOf(env: Env, package: string, vulnerability: Fields, node: string, advisory: Fields,
                             r: Record)
  {
    && (package, JObj(vulnerability)) in env.vulnerabilities
    && Field(vulnerability, "nodes").JList? && JStr(node) in Field(vulnerability, "nodes").items
    && Advises(env.vulnerabilities, vulnerability, advisory)
    && IsUsableAdvice(advisory, vulnerability, r.severity)
    && r.id.advisory == (var source := Field(advisory, "source"); if source.JStr? then source.s else env.str(source))
    && r.id.package == package && r.id.path == node
    && IsScope(env.packages, node, r.scope) && r.exploitable
  }

  /** Every node is installed, and every advisory usable, of at least one of each. */
  ghost predicate IsClearPackage(env: Env, item: Json) {
    && item.JObj? && Field(item.fields, "nodes").JList? && Field(item.fields, "via").JList?
    && Field(item.fields, "nodes").items != []
    && (forall n :: n in Field(item.fields, "nodes").items ==>
          && n.JStr? && Field(env.packages, n.s).JObj? && Field(Field(env.packages, n.s).fields, "version").JStr?)
    && (exists a :: Advises(env.vulnerabilities, item.fields, a))
    && forall a :: Advises(env.vulnerabilities, item.fields, a) ==> exists s :: IsUsableAdvice(a, item.fields, s)
  }

  // ---- the definitions say that ---------------------------------------------------------------

  lemma {:induction false} HasKeyIs(fields: Fields, key: string)
    ensures HasKey(fields, key) <==> Lookup(fields, key).Some?
    ensures Field(fields, key) != JNull ==> HasKey(fields, key)
    ensures !HasKey(fields, key) ==> Field(fields, key) == JNull
  {
    if fields != [] {
      HasKeyIs(fields[1..], key);
      if HasKey(fields[1..], key) {
        var i :| 0 <= i < |fields[1..]| && fields[1..][i].0 == key;
        assert fields[i + 1].0 == key;
      }
      if HasKey(fields, key) && fields[0].0 != key {
        var i :| 0 <= i < |fields| && fields[i].0 == key;
        assert fields[1..][i - 1].0 == key;
      }
    }
  }

  lemma LoweredIs(s: string, t: string)
    ensures IsLowered(s, t) <==> t == Lower(s)
  {
    if IsLowered(s, t) {
      forall i | 0 <= i < |s| ensures t[i] == Lower(s)[i] {
      }
    }
  }

  lemma UsableIs(advisory: Fields, vulnerability: Fields, severity: string)
    ensures IsUsableAdvice(advisory, vulnerability, severity) <==>
            IsUsable(advisory, vulnerability) && severity == SeverityText(advisory, vulnerability)
  {
    hide Lower, Lookup, IsLowered;
    HasKeyIs(advisory, "severity");
    var given := Given(advisory, vulnerability);
    if given.JStr? { LoweredIs(given.s, severity); }
    assert SEVERITY.Keys == {"info", "low", "moderate", "high", "critical"};
    assert "" !in SEVERITY;
  }

  lemma ScopeIs(packages: Fields, node: string, scope: Scope)
    ensures IsScope(packages, node, scope) <==> scope == ScopeForNode(packages, node)
  {
  }

  lemma {:induction false} ObjectsAre(items: seq<Json>)
    ensures forall o :: o in Objects(items) <==> JObj(o) in items
  {
    if items != [] {
      var init, last := items[..|items| - 1], items[|items| - 1];
      ObjectsAre(init);
      assert items == init + [last];
    }
  }

  lemma NamedAre(vulnerabilities: Fields, via: Json)
    requires Referenced(vulnerabilities, via).Some?
    ensures forall a :: a in Referenced(vulnerabilities, via).value <==>
              via.JStr? && ListsUnder(vulnerabilities, via.s, a)
  {
    hide Objects;
    if via.JStr? && Field(vulnerabilities, via.s).JObj? {
      var listed := Field(Field(vulnerabilities, via.s).fields, "via");
      if listed.JList? { ObjectsAre(listed.items); }
    }
  }

  lemma {:induction false} NamedUpToAre(vulnerabilities: Fields, vias: seq<Json>, k: nat)
    requires k <= |vias| && ReferencedUpTo(vulnerabilities, vias, k).Some?
    ensures forall a :: a in ReferencedUpTo(vulnerabilities, vias, k).value <==>
              exists i :: 0 <= i < k && vias[i].JStr? && ListsUnder(vulnerabilities, vias[i].s, a)
  {
    hide ListsUnder, Referenced;
    if k > 0 {
      NamedUpToAre(vulnerabilities, vias, k - 1);
      NamedAre(vulnerabilities, vias[k - 1]);
    }
  }

  lemma AdvisoriesAre(vulnerabilities: Fields, vulnerability: Fields)
    requires Field(vulnerability, "via").JList? && Advisories(vulnerabilities, Field(vulnerability, "via").items).Some?
    ensures forall a :: a in Advisories(vulnerabilities, Field(vulnerability, "via").items).value <==>
              Advises(vulnerabilities, vulnerability, a)
  {
    hide Objects, ReferencedUpTo, ListsUnder;
    var vias := Field(vulnerability, "via").items;
    ObjectsAre(vias);
    NamedUpToAre(vulnerabilities, vias, |vias|);
    forall a
      ensures IsNamed(vulnerabilities, vias, a) <==>
              exists i :: 0 <= i < |vias| && vias[i].JStr? && ListsUnder(vulnerabilities, vias[i].s, a)
    {
      if i :| 0 <= i < |vias| && vias[i].JStr? && ListsUnder(vulnerabilities, vias[i].s, a) {
        assert vias[i] == JStr(vias[i].s) && vias[i] in vias;
      }
      if name :| JStr(name) in vias && ListsUnder(vulnerabilities, name, a) {
        var i :| 0 <= i < |vias| && vias[i] == JStr(name);
      }
    }
  }

  lemma RecordIs(env: Env, package: string, vulnerability: Fields, node: string, advisory: Fields, r: Record)
    requires Field(vulnerability, "via").JList? &&
             Advisories(env.vulnerabilities, Field(vulnerability, "via").items).Some?
    ensures IsRecordOf(env, package, vulnerability, node, advisory, r) <==>
            && IsReported(env, package, JObj(vulnerability), node, advisory) && IsUsable(advisory, vulnerability)
            && r == RecordOf(env, package, vulnerability, node, advisory)
  {
    hide Advisories, Advises, IsUsable, IsUsableAdvice, ScopeForNode, SeverityText, IsScope;
    AdvisoriesAre(env.vulnerabilities, vulnerability);
    UsableIs(advisory, vulnerability, r.severity);
    UsableIs(advisory, vulnerability, SeverityText(advisory, vulnerability));
    ScopeIs(env.packages, node, r.scope);
  }

  lemma ClearIs(env: Env, item: Json)
    requires item.JObj? && Field(item.fields, "via").JList? ==>
               Advisories(env.vulnerabilities, Field(item.fields, "via").items).Some?
    ensures IsClearPackage(env, item) <==> IsAttributed(env, item)
  {
    hide Advisories, Advises, IsUsable, IsUsableAdvice, SeverityText;
    if item.JObj? && Field(item.fields, "via").JList? {
      var v := item.fields;
      AdvisoriesAre(env.vulnerabilities, v);
      var found := Advisories(env.vulnerabilities, Field(v, "via").items).value;
      assert found != [] <==> exists a :: Advises(env.vulnerabilities, v, a) by {
        if found != [] { assert found[0] in found; }
      }
      forall a ensures (exists s :: IsUsableAdvice(a, v, s)) <==> IsUsable(a, v) {
        UsableIs(a, v, SeverityText(a, v));
        if s :| IsUsableAdvice(a, v, s) { UsableIs(a, v, s); }
      }
      if Field(v, "nodes").JList? { NodesAreClear(env, Field(v, "nodes").items); }
    }
  }

  lemma NodesAreClear(env: Env, nodes: seq<Json>)
    ensures AllStrings(nodes) && (forall n :: n in nodes ==> NodeIsClear(env, n.s)) <==>
            forall n :: n in nodes ==>
              && n.JStr? && Field(env.packages, n.s).JObj?
              && Field(Field(env.packages, n.s).fields, "version").JStr?
  {
  }

  // ---- the records are the advice ---------------------------------------------------------------

  lemma ViasAreRead(env: Env, i: nat)
    requires Parsed(env).AuditResult? && i < |env.vulnerabilities|
    ensures var item := env.vulnerabilities[i].1;
            IsAttributed(env, item) || (item.JObj? && Field(item.fields, "nodes").JList? &&
            Field(item.fields, "nodes").items != [] && Field(item.fields, "via").JList?) ==>
              Advisories(env.vulnerabilities, Field(item.fields, "via").items).Some?
  {
    hide ExamineUpTo, Advisories, NodeIsClear, IsUsable, PackageRecords, ReadNodes;
    ParsedIsCollected(env);
    ExaminedAre(env, |env.vulnerabilities|);
  }

  /** Every record is that of an advisory of a node of a reported package. */
  lemma RecordsAreAdvice(env: Env, r: Record)
    requires Parsed(env).AuditResult? && r in Parsed(env).records
    ensures exists vulnerability, node, advisory :: IsRecordOf(env, r.id.package, vulnerability, node, advisory, r)
  {
    hide Parsed, ExamineUpTo, Examine, IsRecordOf, IsUsable, RecordOf, Advisories;
    var n := |env.vulnerabilities|;
    ParsedIsCollected(env);
    ExaminedAre(env, n);
    var i :| 0 <= i < n && r in Examine(env, env.vulnerabilities[i].0, env.vulnerabilities[i].1).records;
    var package, vulnerability := env.vulnerabilities[i].0, env.vulnerabilities[i].1;
    assert env.vulnerabilities[i] == (package, vulnerability);
    var node, advisory := RecordedIsReported(env, package, vulnerability, r);
    assert vulnerability == JObj(vulnerability.fields);
    RecordIs(env, package, vulnerability.fields, node, advisory, r);
    RecordNamesPackage(env, package, vulnerability.fields, node, advisory);
  }

  lemma RecordNamesPackage(env: Env, package: string, vulnerability: Fields, node: string, advisory: Fields)
    ensures RecordOf(env, package, vulnerability, node, advisory).id.package == package
  {
  }

  /** A report is attributable exactly when every package in it is clear, as read off the report and
      the lockfile. */
  lemma AttributableIffClear(env: Env)
    requires Parsed(env).AuditResult?
    ensures Parsed(env).attributable <==> forall item :: item in env.vulnerabilities ==> IsClearPackage(env, item.1)
  {
    hide Parsed, IsAttributed, IsClearPackage;
    AttributionIsComplete(env);
    forall i | 0 <= i < |env.vulnerabilities|
      ensures IsClearPackage(env, env.vulnerabilities[i].1) <==> IsAttributed(env, env.vulnerabilities[i].1)
    {
      ClearIsAt(env, i);
    }
  }

  lemma ClearIsAt(env: Env, i: nat)
    requires Parsed(env).AuditResult? && i < |env.vulnerabilities|
    ensures IsClearPackage(env, env.vulnerabilities[i].1) <==> IsAttributed(env, env.vulnerabilities[i].1)
  {
    hide Parsed, Advisories, Advises, IsUsable, IsUsableAdvice, NodeIsClear;
    ViasAreRead(env, i);
    var item := env.vulnerabilities[i].1;
    if item.JObj? && Field(item.fields, "nodes").JList? && Field(item.fields, "nodes").items != [] &&
       Field(item.fields, "via").JList? {
      ClearIs(env, item);
    }
  }

  /** In an attributable result no advice is missing: every advisory of every node of every reported
      package has left its record, and whatever is such a record is there. */
  lemma AdviceIsRecorded(env: Env, package: string, vulnerability: Fields, node: string, advisory: Fields)
    requires Parsed(env).AuditResult? && Parsed(env).attributable
    requires (package, JObj(vulnerability)) in env.vulnerabilities && Field(vulnerability, "nodes").JList?
    requires JStr(node) in Field(vulnerability, "nodes").items && Advises(env.vulnerabilities, vulnerability, advisory)
    ensures exists r :: r in Parsed(env).records && IsRecordOf(env, package, vulnerability, node, advisory, r)
    ensures forall r :: IsRecordOf(env, package, vulnerability, node, advisory, r) ==> r in Parsed(env).records
  {
    hide Parsed, IsRecordOf, IsUsable, RecordOf, Advisories, Advises, IsClearPackage, IsAttributed;
    AttributionIsComplete(env);
    var i :| 0 <= i < |env.vulnerabilities| && env.vulnerabilities[i] == (package, JObj(vulnerability));
    ViasAreRead(env, i);
    AdvisoriesOf(env, vulnerability, advisory);
    AdvisoriesAre(env.vulnerabilities, vulnerability);
    assert IsReported(env, package, JObj(vulnerability), node, advisory);
    var r := RecordOf(env, package, vulnerability, node, advisory);
    AttributedIsUsable(env, vulnerability, advisory);
    RecordIs(env, package, vulnerability, node, advisory, r);
    forall q | IsRecordOf(env, package, vulnerability, node, advisory, q) ensures q in Parsed(env).records {
      RecordIs(env, package, vulnerability, node, advisory, q);
    }
  }

  lemma AdvisoriesOf(env: Env, vulnerability: Fields, advisory: Fields)
    requires Advises(env.vulnerabilities, vulnerability, advisory)
    ensures Field(vulnerability, "via").JList?
  {
  }

  lemma AttributedIsUsable(env: Env, vulnerability: Fields, advisory: Fields)
    requires IsAttributed(env, JObj(vulnerability)) &&
             Advisories(env.vulnerabilities, Field(vulnerability, "via").items).Some?
    requires advisory in Advisories(env.vulnerabilities, Field(vulnerability, "via").items).value
    ensures IsUsable(advisory, vulnerability)
  {
  }

  /** Which reports are read at all, and what of them; of the others nothing is recorded. */
  lemma ReportIsRead(str: Json -> string, payload: Option<Json>, lock: Json)
    ensures var report := if payload.Some? && payload.value.JObj? then payload.value.fields else [];
            var packages := Field(if lock.JObj? then lock.fields else report, "packages");
            if payload.Some? && payload.value.JObj? && Field(report, "auditReportVersion") == JNum(2) &&
               Field(report, "vulnerabilities").JObj? && packages.JObj?
            then ParseSpec(str, payload, lock) ==
                 Parsed(Env(str, Field(report, "vulnerabilities").fields, packages.fields))
            else exists text :: ParseSpec(str, payload, lock) == AuditResult([], false, Some(text))
  {
    hide Parsed, Field;
  }

  // ---- reports that cannot be read, and the order of the records --------------------------------

  /** The named package has a `via` that cannot be run through. */
  ghost predicate NamesNoList(vulnerabilities: Fields, name: string) {
    && Field(vulnerabilities, name).JObj? && HasKey(Field(vulnerabilities, name).fields, "via")
    && var via := Field(Field(vulnerabilities, name).fields, "via"); via.JNull? || via.JBool? || via.JNum?
  }

  /** The nodes are not all texts, nor all numbers, nor nothing but null. */
  ghost predicate AreJumbled(nodes: seq<Json>) {
    && (exists n :: n in nodes && !n.JStr?)
    && (exists n :: n in nodes && !n.JNum? && !n.JBool?)
    && (exists n :: n in nodes && !n.JNull?)
  }

  ghost predicate CannotBeRead(env: Env, item: Json) {
    && item.JObj? && Field(item.fields, "nodes").JList? && Field(item.fields, "via").JList?
    && Field(item.fields, "nodes").items != []
    && (|| (exists name :: JStr(name) in Field(item.fields, "via").items && NamesNoList(env.vulnerabilities, name))
        || ((exists a :: Advises(env.vulnerabilities, item.fields, a)) &&
            AreJumbled(Field(item.fields, "nodes").items)))
  }

  /** Reading a report raises exactly when a package names one whose `via` is no list, or has advice
      for nodes that cannot be sorted. */
  lemma RaisedIff(env: Env)
    ensures Parsed(env).Raised? <==> exists item :: item in env.vulnerabilities && CannotBeRead(env, item.1)
  {
    hide Examine, CannotBeRead;
    var n := |env.vulnerabilities|;
    RaisesUpTo(env, n);
    forall i | 0 <= i < n
      ensures Examine(env, env.vulnerabilities[i].0, env.vulnerabilities[i].1).Raises? <==>
                CannotBeRead(env, env.vulnerabilities[i].1)
    {
      RaisesIff(env, env.vulnerabilities[i].0, env.vulnerabilities[i].1);
    }
  }

  lemma {:induction false} RaisesUpTo(env: Env, k: nat)
    requires k <= |env.vulnerabilities|
    ensures ExamineUpTo(env, k).Raises? <==>
            exists i :: 0 <= i < k && Examine(env, env.vulnerabilities[i].0, env.vulnerabilities[i].1).Raises?
  {
    hide Examine;
    if k > 0 { RaisesUpTo(env, k - 1); }
  }

  lemma RaisesIff(env: Env, package: string, item: Json)
    ensures Examine(env, package, item).Raises? <==> CannotBeRead(env, item)
  {
    hide Advisories, Advises, NamesNoList, IsUsable, NodeIsClear, PackageRecords, SortUnique;
    if item.JObj? && Field(item.fields, "via").JList? {
      var v := item.fields;
      AdvisoriesRaise(env.vulnerabilities, Field(v, "via").items);
      if Advisories(env.vulnerabilities, Field(v, "via").items).Some? {
        AdvisoriesAre(env.vulnerabilities, v);
        var found := Advisories(env.vulnerabilities, Field(v, "via").items).value;
        assert found != [] <==> exists a :: Advises(env.vulnerabilities, v, a) by {
          if found != [] { assert found[0] in found; }
        }
      }
    }
  }

  lemma AdvisoriesRaise(vulnerabilities: Fields, vias: seq<Json>)
    ensures Advisories(vulnerabilities, vias).None? <==>
            exists name :: JStr(name) in vias && NamesNoList(vulnerabilities, name)
  {
    hide Referenced, NamesNoList;
    NamedRaise(vulnerabilities, vias, |vias|);
    forall i | 0 <= i < |vias|
      ensures Referenced(vulnerabilities, vias[i]).None? <==> vias[i].JStr? && NamesNoList(vulnerabilities, vias[i].s)
    {
      OneRaises(vulnerabilities, vias[i]);
    }
    if name :| JStr(name) in vias && NamesNoList(vulnerabilities, name) {
      var i :| 0 <= i < |vias| && vias[i] == JStr(name);
    }
    if i :| 0 <= i < |vias| && Referenced(vulnerabilities, vias[i]).None? {
      assert vias[i] == JStr(vias[i].s) && vias[i] in vias;
    }
  }

  lemma {:induction false} NamedRaise(vulnerabilities: Fields, vias: seq<Json>, k: nat)
    requires k <= |vias|
    ensures ReferencedUpTo(vulnerabilities, vias, k).None? <==>
            exists i :: 0 <= i < k && Referenced(vulnerabilities, vias[i]).None?
  {
    hide Referenced;
    if k > 0 { NamedRaise(vulnerabilities, vias, k - 1); }
  }

  lemma OneRaises(vulnerabilities: Fields, via: Json)
    ensures Referenced(vulnerabilities, via).None? <==> via.JStr? && NamesNoList(vulnerabilities, via.s)
  {
    hide Objects;
    if via.JStr? && Field(vulnerabilities, via.s).JObj? {
      HasKeyIs(Field(vulnerabilities, via.s).fields, "via");
    }
  }
}
