// What the default rule list reaches, read off segment by segment, and how the
// container shortcut relates to matching rule by rule.
module DefaultRules {
  import opened GoStrings
  import opened Json
  import opened Redaction
  import opened RedactionLaws

  /** The rule list as a decision on the split path, with the classes as they appear in a marker. */
  function ClassBySegments(kind: string, segs: seq<string>): Option<string> {
    if kind == "Secret" && |segs| == 2 && (segs[0] == "data" || segs[0] == "stringData") then Some("secret-bytes")
    else if segs == ["spec", "webhook", "secret"] || segs == ["spec", "webhook", "secretRef"]
    then Some("webhook-secret")
    else if segs == ["data", "tls\\", "crt"] || segs == ["data", "tls\\", "key"] then Some("tls-material")
    else if |segs| == 2 && (segs[1] == "token" || segs[1] == "bearerToken") then Some("bearer-token")
    else None
  }

  /** No two classes look alike in a marker. */
  lemma ClassesAreDistinct()
    ensures "secret-bytes" != "webhook-secret" && "secret-bytes" != "tls-material" && "secret-bytes" != "bearer-token"
    ensures "webhook-secret" != "tls-material" && "webhook-secret" != "bearer-token"
    ensures "tls-material" != "bearer-token"
  {
    assert "secret-bytes"[0] == 's' && "webhook-secret"[0] == 'w';
    assert "tls-material"[0] == 't' && "bearer-token"[0] == 'b';
  }

  lemma SplitPair(a: string, b: string, s: string)
    requires DotFree(a) && DotFree(b) && s == a + "." + b
    ensures Split(s) == [a, b]
  {
    SplitAtDot(a, b);
    SplitOfDotFree(a);
    SplitOfDotFree(b);
  }

  lemma SplitTriple(a: string, b: string, c: string, s: string)
    requires DotFree(a) && DotFree(b) && DotFree(c) && s == a + "." + (b + "." + c)
    ensures Split(s) == [a, b, c]
  {
    SplitAtDot(a, b + "." + c);
    SplitPair(b, c, b + "." + c);
    SplitOfDotFree(a);
  }

  /** The segments of each default rule's field path, in rule order. */
  const PATTERNS: seq<seq<string>> := [
    ["data", "*"], ["stringData", "*"],
    ["spec", "webhook", "secret"], ["spec", "webhook", "secretRef"],
    ["data", "tls\\", "crt"], ["data", "tls\\", "key"],
    ["*", "token"], ["*", "bearerToken"]]

  lemma PairPattern(i: nat, s: string)
    requires i < 8 && (i < 2 || 6 <= i) && s == DEFAULT_RULES[i].fieldPath
    ensures Split(s) == PATTERNS[i]
  {
    hide Split;
    SplitPair(PATTERNS[i][0], PATTERNS[i][1], s);
  }

  lemma BelowWebhook(name: string, s: string)
    requires DotFree(name) && s == "spec.webhook." + name
    ensures Split(s) == ["spec", "webhook", name]
  {
    hide Split;
    SplitTriple("spec", "webhook", name, s);
  }

  lemma WebhookPattern(i: nat, s: string)
    requires 2 <= i < 4 && s == DEFAULT_RULES[i].fieldPath
    ensures Split(s) == PATTERNS[i]
  {
    hide Split;
    BelowWebhook(if i == 2 then "secret" else "secretRef", s);
  }

  /** The backslash stays in the middle segment: the split comes before the unescape. */
  lemma TlsPattern(i: nat, s: string)
    requires 4 <= i < 6 && s == DEFAULT_RULES[i].fieldPath
    ensures Split(s) == PATTERNS[i]
  {
    hide Split;
    SplitTriple(PATTERNS[i][0], PATTERNS[i][1], PATTERNS[i][2], s);
  }

  /** Rule i looks at the split path only through its pattern. */
  lemma RuleBySegments(kind: string, path: string, i: nat)
    requires i < 8
    ensures RuleApplies(DEFAULT_RULES[i], kind, path)
       <==> (i >= 2 || kind == "Secret") && SegmentsMatch(PATTERNS[i], Split(path))
  {
    hide Split, Unescape;
    var pattern := DEFAULT_RULES[i].fieldPath;
    PathMatchesIsSegmentWise(pattern, path);
    if i < 2 || 6 <= i {
      PairPattern(i, pattern);
    } else if i < 4 {
      WebhookPattern(i, pattern);
    } else {
      TlsPattern(i, pattern);
    }
  }

  /** First match from rule i on, by segments. */
  function FirstBySegments(kind: string, segs: seq<string>, i: nat): Option<string>
    requires i <= 8
    decreases 8 - i
  {
    if i == 8 then None
    else if (i >= 2 || kind == "Secret") && SegmentsMatch(PATTERNS[i], segs) then Some(DEFAULT_RULES[i].class_)
    else FirstBySegments(kind, segs, i + 1)
  }

  lemma {:induction false} FirstMatchFrom(kind: string, path: string, i: nat)
    requires i <= 8
    ensures FirstMatch(DEFAULT_RULES[i..], kind, path) == FirstBySegments(kind, Split(path), i)
    decreases 8 - i
  {
    if i < 8 {
      RuleBySegments(kind, path, i);
      FirstMatchFrom(kind, path, i + 1);
      assert DEFAULT_RULES[i..][1..] == DEFAULT_RULES[i + 1..];
    } else {
      assert DEFAULT_RULES[8..] == [];
    }
  }

  /** First match over the rule list is the segment decision, for every kind and path. */
  lemma MatchRuleBySegments(kind: string, path: string)
    ensures MatchRule(kind, path) == ClassBySegments(kind, Split(path))
  {
    FirstMatchFrom(kind, path, 0);
    assert DEFAULT_RULES[0..] == DEFAULT_RULES;
    FirstIsClass(kind, Split(path));
  }

  lemma ShortClass(kind: string, segs: seq<string>)
    requires |segs| == 2
    ensures FirstBySegments(kind, segs, 0) == ClassBySegments(kind, segs)
  {
    assert FirstBySegments(kind, segs, 2) == FirstBySegments(kind, segs, 4) == FirstBySegments(kind, segs, 6);
  }

  lemma LongClass(kind: string, segs: seq<string>)
    requires |segs| == 3
    ensures FirstBySegments(kind, segs, 0) == ClassBySegments(kind, segs)
  {
    assert FirstBySegments(kind, segs, 0) == FirstBySegments(kind, segs, 2);
    assert segs == [segs[0], segs[1], segs[2]];
    assert FirstBySegments(kind, segs, 6) == None;
  }

  lemma FirstIsClass(kind: string, segs: seq<string>)
    ensures FirstBySegments(kind, segs, 0) == ClassBySegments(kind, segs)
  {
    if |segs| == 2 {
      ShortClass(kind, segs);
    } else if |segs| == 3 {
      LongClass(kind, segs);
    } else {
      assert FirstBySegments(kind, segs, 4) == FirstBySegments(kind, segs, 6) == None;
    }
  }

  /** "data" and "stringData" of a Secret are the only containers. */
  lemma ContainersOfDefaultRules(kind: string, path: string)
    ensures ContainerRule(kind, path)
         == if kind == "Secret" && (path == "data" || path == "stringData") then Some("secret-bytes") else None
  {
    hide Split, MatchRule;
    MatchRuleBySegments(kind, path + ".*");
    assert path + "." + "*" == path + ".*";
    SplitAtDot(path, "*");
    SplitOfDotFree("*");
    SingleSegment(path, "data");
    SingleSegment(path, "stringData");
    var segs := Split(path + ".*");
    assert segs == Split(path) + ["*"] && segs[|segs| - 1] == "*";
    if |segs| == 2 {
      assert Split(path) == [segs[0]];
    }
  }

  lemma SingleSegment(path: string, name: string)
    requires DotFree(name)
    ensures Split(path) == [name] <==> path == name
  {
    SplitOfDotFree(name);
    JoinSplit(path);
  }

  lemma ShortcutClass(path: string, ck: string, segs: seq<string>)
    requires path == "data" || path == "stringData"
    requires segs == [path] + Split(ck)
    ensures ClassBySegments("Secret", segs) == Some("secret-bytes") <==> |Split(ck)| == 1
  {
    ClassesAreDistinct();
    assert |segs| == 1 + |Split(ck)| && segs[0] == path;
  }

  lemma OneSegmentIffDotFree(s: string)
    ensures |Split(s)| == 1 <==> DotFree(s)
  {
    if DotFree(s) {
      SplitOfDotFree(s);
    } else if |Split(s)| == 1 {
      SplitSegmentsAreDotFree(s);
      JoinSplit(s);
      assert AllDotFree(Split(s));
    }
  }

  /**
   * The container shortcut against the rule-by-rule form: for a child key of a
   * container, first match on the child's own path gives the container's class
   * exactly when the key has no dot. The shortcut covers every key.
   */
  lemma ShortcutAgreesWithRules(kind: string, path: string, ck: string, cls: string)
    requires ContainerRule(kind, path) == Some(cls)
    ensures MatchRule(kind, JoinPath(path, ck)) == Some(cls) <==> DotFree(ck)
  {
    ContainersOfDefaultRules(kind, path);
    MatchRuleBySegments(kind, JoinPath(path, ck));
    SplitAtDot(path, ck);
    SplitOfDotFree(path);
    ShortcutClass(path, ck, Split(JoinPath(path, ck)));
    OneSegmentIffDotFree(ck);
  }

  /** No rule names a dot-free top-level field, so the field's own value decides. */
  lemma TopLevelField(kind: string, fs: map<string, Json>, field: string)
    requires DotFree(field) && field in fs
    ensures Apply(kind, Obj(fs)).fields[field]
         == if kind == "Secret" && (field == "data" || field == "stringData") && fs[field].Obj?
            then Obj(map ck | ck in fs[field].fields :: Mark("secret-bytes"))
            else Redact(kind, field, fs[field])
  {
    hide Split, MatchRule;
    MatchRuleBySegments(kind, field);
    SplitOfDotFree(field);
    ContainersOfDefaultRules(kind, field);
    assert JoinPath("", field) == field;
    assert MatchRule(kind, field).None?;
    assert Apply(kind, Obj(fs)).fields[field] == RedactEntry(kind, field, fs[field]);
  }

  /** Every value under a map-valued data or stringData of a Secret becomes the secret-bytes marker. */
  lemma SecretValuesAreBlanketed(fs: map<string, Json>, field: string, ck: string)
    requires field in {"data", "stringData"} && field in fs && fs[field].Obj? && ck in fs[field].fields
    ensures var after := Apply("Secret", Obj(fs)).fields[field];
            after.Obj? && after.fields.Keys == fs[field].fields.Keys && after.fields[ck] == Mark("secret-bytes")
  {
    TopLevelField("Secret", fs, field);
  }

  lemma DottedTlsPath(kind: string, file: string)
    requires file == "tls.crt" || file == "tls.key"
    ensures MatchRule(kind, JoinPath("data", file)).None?
    ensures ContainerRule(kind, JoinPath("data", file)).None?
  {
    var ext := file[4..];
    var path := JoinPath("data", file);
    assert path == "data" + "." + ("tls" + "." + ext);
    SplitTriple("data", "tls", ext, path);
    MatchRuleBySegments(kind, path);
    ContainersOfDefaultRules(kind, path);
    assert path[4] == '.';
  }

  /** A dotted key of a Secret: no rule matches its own path, the shortcut still covers it. */
  lemma DottedSecretKey(fs: map<string, Json>)
    requires "data" in fs && fs["data"].Obj? && "tls.crt" in fs["data"].fields
    ensures MatchRule("Secret", JoinPath("data", "tls.crt")).None?
    ensures var after := Apply("Secret", Obj(fs)).fields["data"];
            after.Obj? && "tls.crt" in after.fields && after.fields["tls.crt"] == Mark("secret-bytes")
  {
    hide MatchRule, ContainerRule, Redact;
    DottedTlsPath("Secret", "tls.crt");
    SecretValuesAreBlanketed(fs, "data", "tls.crt");
  }

  /**
   * The two TLS rules promise tls-material for `tls.crt` and `tls.key` under
   * `data`. Such a value is redacted exactly when the object is a Secret, and
   * then as secret-bytes by the container rule; for any other kind it is only
   * walked like every unmatched value, and a scalar stays as it is.
   */
  lemma TlsFilesAreRedactedOnlyInSecrets(kind: string, fs: map<string, Json>, file: string)
    requires file == "tls.crt" || file == "tls.key"
    requires "data" in fs && fs["data"].Obj? && file in fs["data"].fields && !fs["data"].fields[file].Mark?
    ensures var v, after := fs["data"].fields[file], Apply(kind, Obj(fs)).fields["data"];
            after.Obj? && file in after.fields
            && (after.fields[file].Mark? <==> kind == "Secret")
            && after.fields[file]
               == (if kind == "Secret" then Mark("secret-bytes") else Redact(kind, JoinPath("data", file), v))
            && (kind != "Secret" && !v.Container() ==> after.fields[file] == v)
  {
    TopLevelField(kind, fs, "data");
    DottedTlsPath(kind, file);
    if kind != "Secret" {
      var v := fs["data"].fields[file];
      assert RedactEntry(kind, JoinPath("data", file), v) == Redact(kind, JoinPath("data", file), v);
    }
  }

  lemma TlsSegments(kind: string, segs: seq<string>)
    ensures ClassBySegments(kind, segs) == Some("tls-material") <==> segs == PATTERNS[4] || segs == PATTERNS[5]
  {
    ClassesAreDistinct();
    assert PATTERNS[4][0] == "data" && PATTERNS[4][0][0] == 'd' && |PATTERNS[4]| == 3;
  }

  /** tls-material is reached only by the path spelled with a backslash. */
  lemma TlsMaterialPaths(kind: string, path: string)
    ensures MatchRule(kind, path) == Some("tls-material")
       <==> path == DEFAULT_RULES[4].fieldPath || path == DEFAULT_RULES[5].fieldPath
  {
    MatchRuleBySegments(kind, path);
    TlsSegments(kind, Split(path));
    JoinSplit(path);
    var crt, key := DEFAULT_RULES[4].fieldPath, DEFAULT_RULES[5].fieldPath;
    TlsPattern(4, crt);
    TlsPattern(5, key);
    JoinSplit(crt);
    JoinSplit(key);
  }

  /** The concrete failure: a ConfigMap certificate goes through unredacted. */
  lemma ConfigMapCertificateSurvives(pem: string)
    ensures Apply("ConfigMap", Obj(map["data" := Obj(map["tls.crt" := Str(pem)])]))
         == Obj(map["data" := Obj(map["tls.crt" := Str(pem)])])
  {
    var inner := map["tls.crt" := Str(pem)];
    var fs := map["data" := Obj(inner)];
    TopLevelField("ConfigMap", fs, "data");
    DottedTlsPath("ConfigMap", "tls.crt");
    var after := Apply("ConfigMap", Obj(fs));
    assert after.fields["data"] == Redact("ConfigMap", "data", Obj(inner));
    assert RedactEntry("ConfigMap", JoinPath("data", "tls.crt"), Str(pem)) == Str(pem);
    assert after.fields["data"].fields == inner;
    assert after.fields == fs;
  }

  // ----- What a redacted object shows -----------------------------------

  /** The value under key k of a child map at `path`, when no container covers it. */
  lemma ChildOfWalkedMap(kind: string, path: string, child: Json, k: string)
    requires child.Obj? && k in child.fields
    ensures var after := Redact(kind, path, child);
            after.Obj? && k in after.fields && after.fields[k] == RedactEntry(kind, JoinPath(path, k), child.fields[k])
  {}

  /**
   * token and bearerToken one level down are bearer tokens, whatever stands
   * there and whatever the kind, below every dot-free field but the empty one.
   */
  lemma TokensAreBearerTokens(kind: string, fs: map<string, Json>, field: string, name: string)
    requires DotFree(field) && field in fs && fs[field].Obj?
    requires (name == "token" || name == "bearerToken") && name in fs[field].fields && !fs[field].fields[name].Mark?
    requires !(kind == "Secret" && (field == "data" || field == "stringData"))
    ensures var after := Apply(kind, Obj(fs)).fields[field];
            after.Obj? && name in after.fields
            && (field != "" ==> after.fields[name] == Mark("bearer-token"))
            && (field == "" ==> !after.fields[name].Mark?)
  {
    hide MatchRule, ContainerRule, Split;
    var v := fs[field].fields[name];
    TopLevelField(kind, fs, field);
    ChildOfWalkedMap(kind, field, fs[field], name);
    MatchRuleBySegments(kind, JoinPath(field, name));
    ContainersOfDefaultRules(kind, JoinPath(field, name));
    if field == "" {
      SplitOfDotFree(name);
      assert !Redact(kind, name, v).Mark?;
    } else {
      SplitPair(field, name, JoinPath(field, name));
    }
  }

  lemma WebhookClass(kind: string, name: string)
    requires name == "secret" || name == "secretRef"
    ensures MatchRule(kind, JoinPath("spec.webhook", name)) == Some("webhook-secret")
    ensures MatchRule(kind, JoinPath("spec", "webhook")).None? && ContainerRule(kind, JoinPath("spec", "webhook")).None?
    ensures JoinPath("spec", "webhook") == "spec.webhook"
  {
    hide MatchRule, ContainerRule, Split;
    var parent := JoinPath("spec", "webhook");
    assert parent == "spec" + "." + "webhook" == "spec.webhook";
    SplitPair("spec", "webhook", parent);
    MatchRuleBySegments(kind, parent);
    ContainersOfDefaultRules(kind, parent);
    BelowWebhook(name, JoinPath("spec.webhook", name));
    MatchRuleBySegments(kind, JoinPath("spec.webhook", name));
    assert parent[0] == 's' && |parent| == 12;
  }

  /** spec.webhook.secret and spec.webhook.secretRef are webhook secrets, for every kind. */
  lemma WebhookSecrets(kind: string, fs: map<string, Json>, name: string)
    requires "spec" in fs && fs["spec"].Obj? && "webhook" in fs["spec"].fields && fs["spec"].fields["webhook"].Obj?
    requires (name == "secret" || name == "secretRef") && name in fs["spec"].fields["webhook"].fields
    ensures var spec := Apply(kind, Obj(fs)).fields["spec"];
            spec.Obj? && "webhook" in spec.fields && spec.fields["webhook"].Obj?
            && name in spec.fields["webhook"].fields
            && spec.fields["webhook"].fields[name] == Mark("webhook-secret")
  {
    hide MatchRule, ContainerRule, Redact, JoinPath;
    TopLevelField(kind, fs, "spec");
    WebhookClass(kind, name);
    ChildOfWalkedMap(kind, "spec", fs["spec"], "webhook");
    ChildOfWalkedMap(kind, "spec.webhook", fs["spec"].fields["webhook"], name);
  }

  /** The two keys the TLS rules do reach, spelled with a backslash, outside Secrets. */
  lemma BackslashKeysAreTlsMaterial(kind: string, fs: map<string, Json>, key: string)
    requires kind != "Secret" && (key == "tls\\.crt" || key == "tls\\.key")
    requires "data" in fs && fs["data"].Obj? && key in fs["data"].fields
    ensures var after := Apply(kind, Obj(fs)).fields["data"];
            after.Obj? && key in after.fields && after.fields[key] == Mark("tls-material")
  {
    hide MatchRule, ContainerRule, Redact;
    TopLevelField(kind, fs, "data");
    ChildOfWalkedMap(kind, "data", fs["data"], key);
    TlsMaterialPaths(kind, JoinPath("data", key));
    assert JoinPath("data", "tls\\.crt") == DEFAULT_RULES[4].fieldPath;
    assert JoinPath("data", "tls\\.key") == DEFAULT_RULES[5].fieldPath;
  }

  /** The objects of a top-level list: of their dot-free keys exactly the two token keys are hit. */
  lemma ListElementFields(kind: string, es: seq<Json>, i: nat, k: string)
    requires i < |es| && es[i].Obj? && DotFree(k) && k in es[i].fields && !es[i].fields[k].Mark?
    ensures var after := Apply(kind, Arr(es));
            after.Arr? && |after.elems| == |es| && after.elems[i].Obj? && k in after.elems[i].fields
            && (after.elems[i].fields[k].Mark? <==> k == "token" || k == "bearerToken")
  {
    hide MatchRule, ContainerRule, Split;
    ChildOfWalkedMap(kind, "[]", es[i], k);
    assert JoinPath("", INDEX_SEGMENT) == "[]";
    var path := JoinPath("[]", k);
    SplitPair("[]", k, path);
    MatchRuleBySegments(kind, path);
    ContainersOfDefaultRules(kind, path);
    assert "[]"[0] == '[' && "data"[0] == 'd' && "stringData"[0] == 's' && path[0] == '[';
  }

  /** How a Secret's value is stored: the marker object of the schema. */
  lemma SecretOnTheWire(fs: map<string, Json>, field: string, ck: string)
    requires field in {"data", "stringData"} && field in fs && fs[field].Obj? && ck in fs[field].fields
    ensures var stored := OnWire(Apply("Secret", Obj(fs)));
            stored.Obj? && field in stored.fields && stored.fields[field].Obj? && ck in stored.fields[field].fields
            && stored.fields[field].fields[ck] == Obj(map["@redacted" := Str("secret-bytes")])
  {
    hide MatchRule, ContainerRule;
    SecretValuesAreBlanketed(fs, field, ck);
    WireOfField(Apply("Secret", Obj(fs)), field);
    WireOfField(Apply("Secret", Obj(fs)).fields[field], ck);
  }

  lemma WireOfField(j: Json, k: string)
    requires j.Obj? && k in j.fields
    ensures OnWire(j).Obj? && k in OnWire(j).fields && OnWire(j).fields[k] == OnWire(j.fields[k])
  {}
}
