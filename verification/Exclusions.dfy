/** Which entries of a source tree a sanitized copy leaves out. */
module Exclusions {
  import opened JsText
  import opened Paths
  import opened ProtectedRoots
  import opened Wrappers

  datatype RuleKind = Literal | Prefix | Suffix

  datatype Rule = Rule(code: string, kind: RuleKind, name: Text)

  // The static rules, in the order of the source, those of each code together.

  const VCS_RULES: seq<Rule> := [
    Rule("vcs_metadata", Literal, U(".git")),
    Rule("vcs_metadata", Literal, U(".hg")),
    Rule("vcs_metadata", Literal, U(".svn")),
    Rule("vcs_metadata", Literal, U(".bzr"))
  ]

  const ENV_RULES: seq<Rule> := [
    Rule("env_secrets", Literal, U(".env")),
    Rule("env_secrets", Prefix, U(".env."))
  ]

  const KEY_RULES: seq<Rule> := [
    Rule("key_material", Suffix, U(".pem")),
    Rule("key_material", Suffix, U(".key")),
    Rule("key_material", Suffix, U(".p12")),
    Rule("key_material", Suffix, U(".pfx")),
    Rule("key_material", Suffix, U(".crt")),
    Rule("key_material", Suffix, U(".cer")),
    Rule("key_material", Suffix, U(".der")),
    Rule("key_material", Literal, U("id_rsa")),
    Rule("key_material", Literal, U("id_ed25519")),
    Rule("key_material", Literal, U("id_ecdsa")),
    Rule("key_material", Literal, U("id_dsa")),
    Rule("key_material", Literal, U(".ssh"))
  ]

  const CREDENTIAL_RULES: seq<Rule> := [
    Rule("credential_files", Literal, U("credentials")),
    Rule("credential_files", Literal, U("credentials.json")),
    Rule("credential_files", Literal, U(".credentials")),
    Rule("credential_files", Literal, U(".credentials.json")),
    Rule("credential_files", Prefix, U("secret")),
    Rule("credential_files", Prefix, U(".secret"))
  ]

  const DEPENDENCY_RULES: seq<Rule> := [
    Rule("dependency_directories", Literal, U("node_modules")),
    Rule("dependency_directories", Literal, U(".venv")),
    Rule("dependency_directories", Literal, U("venv")),
    Rule("dependency_directories", Literal, U("__pycache__")),
    Rule("dependency_directories", Literal, U(".pytest_cache"))
  ]

  const BUILD_RULES: seq<Rule> := [
    Rule("build_output", Literal, U("dist")),
    Rule("build_output", Literal, U("build")),
    Rule("build_output", Literal, U(".turbo")),
    Rule("build_output", Literal, U(".next")),
    Rule("build_output", Literal, U(".nuxt")),
    Rule("build_output", Literal, U(".svelte-kit"))
  ]

  const COVERAGE_RULES: seq<Rule> := [
    Rule("coverage_output", Literal, U("coverage")),
    Rule("coverage_output", Literal, U(".coverage"))
  ]

  const CACHE_RULES: seq<Rule> := [
    Rule("cache_directories", Literal, U(".cache")),
    Rule("cache_directories", Literal, U("cache"))
  ]

  const LOG_RULES: seq<Rule> := [
    Rule("log_files", Literal, U("logs")),
    Rule("log_files", Literal, U("log")),
    Rule("log_files", Suffix, U(".log"))
  ]

  const JOURNAL_RULES: seq<Rule> := [
    Rule("session_journals", Suffix, U(".session")),
    Rule("session_journals", Suffix, U(".session-journal"))
  ]

  const DATABASE_RULES: seq<Rule> := [
    Rule("database_files", Suffix, U(".db")),
    Rule("database_files", Suffix, U(".db-wal")),
    Rule("database_files", Suffix, U(".db-shm")),
    Rule("database_files", Suffix, U(".sqlite")),
    Rule("database_files", Suffix, U(".sqlite3"))
  ]

  const TRANSIENT_RULES: seq<Rule> := [
    Rule("transient_files", Literal, U("tmp")),
    Rule("transient_files", Literal, U(".tmp")),
    Rule("transient_files", Suffix, U(".tmp")),
    Rule("transient_files", Suffix, U(".temp")),
    Rule("transient_files", Suffix, U(".swp")),
    Rule("transient_files", Suffix, U(".swo")),
    Rule("transient_files", Suffix, U(".part")),
    Rule("transient_files", Literal, U(".DS_Store")),
    Rule("transient_files", Literal, U(".idea")),
    Rule("transient_files", Literal, U(".vscode"))
  ]

  const RESERVED_RULES: seq<Rule> := [
    Rule("reserved_broker_metadata", Literal, U(".ashley-meta"))
  ]

  const MANDATORY_EXCLUSION_RULES: seq<Rule> :=
    VCS_RULES + ENV_RULES + KEY_RULES + CREDENTIAL_RULES + DEPENDENCY_RULES + BUILD_RULES + COVERAGE_RULES +
    CACHE_RULES + LOG_RULES + JOURNAL_RULES + DATABASE_RULES + TRANSIENT_RULES + RESERVED_RULES

  predicate Hits(rule: Rule, segment: Text) {
    match rule.kind
    case Literal => segment == rule.name
    case Prefix => StartsWith(segment, rule.name)
    case Suffix => EndsWith(segment, rule.name)
  }

  datatype Verdict = Excluded(code: string) | Admitted

  datatype ExclusionSet = ExclusionSet(rules: seq<Rule>, protectedPaths: seq<Text>)
  {
    predicate Excludes(relPath: Text) {
      || (exists s <- Split(relPath, SLASH), r <- rules :: s != [] && Hits(r, s))
      || (exists p <- protectedPaths :: AtOrBelow(p, relPath))
    }

    /** Segment `i` hits rule `j`, and nothing earlier hits. */
    ghost predicate FirstHit(segments: seq<Text>, i: nat, j: nat) {
      && i < |segments| && j < |rules| && segments[i] != [] && Hits(rules[j], segments[i])
      && (forall s <- segments[..i], r <- rules :: s != [] ==> !Hits(r, s))
      && (forall r <- rules[..j] :: !Hits(r, segments[i]))
    }

    /** The nested loops of the source: rules segment by segment, then the
        protected paths; the first hit decides the reported code. */
    method Evaluate(relPath: Text) returns (verdict: Verdict)
      ensures verdict.Excluded? <==> Excludes(relPath)
      ensures verdict.Excluded? ==>
                || (exists i: nat, j: nat :: FirstHit(Split(relPath, SLASH), i, j) && verdict.code == rules[j].code)
                || ((forall s <- Split(relPath, SLASH), r <- rules :: s != [] ==> !Hits(r, s))
                    && verdict.code == "protected_root_path")
    {
      var segments := Split(relPath, SLASH);
      var i := 0;
      while i < |segments|
        invariant 0 <= i <= |segments|
        invariant forall s <- segments[..i], r <- rules :: s != [] ==> !Hits(r, s)
      {
        if segments[i] != [] {
          var j := 0;
          while j < |rules|
            invariant 0 <= j <= |rules|
            invariant forall r <- rules[..j] :: !Hits(r, segments[i])
          {
            if Hits(rules[j], segments[i]) {
              assert segments[i] in segments && rules[j] in rules;
              assert FirstHit(segments, i, j);
              return Excluded(rules[j].code);
            }
            j := j + 1;
          }
          assert rules[..j] == rules;
        }
        i := i + 1;
      }
      assert segments[..i] == segments;
      var k := 0;
      while k < |protectedPaths|
        invariant 0 <= k <= |protectedPaths|
        invariant forall p <- protectedPaths[..k] :: !AtOrBelow(p, relPath)
      {
        if AtOrBelow(protectedPaths[k], relPath) {
          assert protectedPaths[k] in protectedPaths;
          return Excluded("protected_root_path");
        }
        k := k + 1;
      }
      assert protectedPaths[..k] == protectedPaths;
      return Admitted;
    }
  }

  predicate AtOrBelow(base: Text, relPath: Text) {
    relPath == base || StartsWith(relPath, base + ROOT)
  }

  /** Excluding a path excludes everything below it. */
  lemma ExclusionIsInherited(ex: ExclusionSet, relPath: Text, below: Text)
    requires ex.Excludes(relPath)
    ensures ex.Excludes(relPath + ROOT + below)
  {
    SplitAppend(relPath, SLASH, below);
    var all := Split(relPath + ROOT + below, SLASH);
    if s, r :| s in Split(relPath, SLASH) && r in ex.rules && s != [] && Hits(r, s) {
      assert s in all;
    } else {
      var p :| p in ex.protectedPaths && AtOrBelow(p, relPath);
      assert AtOrBelow(p, relPath + ROOT + below);
    }
  }

  // ---- Building the set for a source root ----

  /** `text.replace(/^\/+/, "")`. */
  function WithoutLeadingSlashes(t: Text): Text {
    if t != [] && t[0] == SLASH then WithoutLeadingSlashes(t[1..]) else t
  }

  function ProtectedPathRelative(sourceRoot: Text, root: Text): Option<Text> {
    if root == sourceRoot then None
    else if !IsWithin(sourceRoot, root) then None
    else
      var rel := WithoutLeadingSlashes(root[if |sourceRoot| <= |root| then |sourceRoot| else |root|..]);
      if rel == [] || Includes(rel, PARENT) then None else Some(rel)
  }

  /** Some root of the list contributes the relative path. */
  predicate Contributed(roots: seq<Text>, sourceRoot: Text, rel: Text) {
    exists root <- roots :: ProtectedPathRelative(sourceRoot, root) == Some(rel)
  }

  lemma ContributedStep(roots: seq<Text>, root: Text, sourceRoot: Text, rel: Text)
    ensures Contributed(roots + [root], sourceRoot, rel) <==>
            Contributed(roots, sourceRoot, rel) || ProtectedPathRelative(sourceRoot, root) == Some(rel)
  {
    var all := roots + [root];
    assert root == all[|roots|];
    if r :| r in roots && ProtectedPathRelative(sourceRoot, r) == Some(rel) {
      assert r in all;
    }
  }

  method BuildWorkspaceExclusionSet(roots: ProtectedRootsConfig, sourceRoot: Text) returns (ex: ExclusionSet)
    ensures ex.rules == MANDATORY_EXCLUSION_RULES
    ensures forall rel :: rel in ex.protectedPaths <==>
              Contributed(roots.delegatedWriteDeniedOwnerApprovable + roots.absoluteDenial, sourceRoot, rel)
    ensures forall i, j :: 0 <= i < j < |ex.protectedPaths| ==> ex.protectedPaths[i] != ex.protectedPaths[j]
  {
    var all := roots.delegatedWriteDeniedOwnerApprovable + roots.absoluteDenial;
    var protectedPaths: seq<Text> := [];
    var i := 0;
    while i < |all|
      invariant 0 <= i <= |all|
      invariant forall rel :: rel in protectedPaths <==> Contributed(all[..i], sourceRoot, rel)
      invariant forall a, b :: 0 <= a < b < |protectedPaths| ==> protectedPaths[a] != protectedPaths[b]
    {
      assert all[..i + 1] == all[..i] + [all[i]];
      forall r {
        ContributedStep(all[..i], all[i], sourceRoot, r);
      }
      var rel := ProtectedPathRelative(sourceRoot, all[i]);
      if rel.Some? && rel.value !in protectedPaths {
        protectedPaths := protectedPaths + [rel.value];
      }
      i := i + 1;
    }
    assert all[..i] == all;
    ex := ExclusionSet(MANDATORY_EXCLUSION_RULES, protectedPaths);
  }

  /** The path of a strict descendant of the source root, relative to it. */
  function RelativeTo(sourceRoot: Text, path: Text): Text {
    var segs := Segments(path);
    Join(if |Segments(sourceRoot)| <= |segs| then segs[|Segments(sourceRoot)|..] else segs, SLASH)
  }

  lemma RelativeIsJoined(sourceRoot: Text, root: Text)
    requires IsWithin(sourceRoot, root) && root != sourceRoot
    ensures |sourceRoot| <= |root|
    ensures WithoutLeadingSlashes(root[|sourceRoot|..]) == RelativeTo(sourceRoot, root)
    ensures RelativeTo(sourceRoot, root) != []
  {
    hide CleanSegment, Join, Render, WithoutLeadingSlashes;
    CanonicalFormIff(sourceRoot);
    CanonicalFormIff(root);
    var ss, sr := Segments(sourceRoot), Segments(root);
    var rest := sr[|ss|..];
    assert sr == ss + rest && sr != ss;
    FirstUnitIsNotSlash(rest);
    RenderedTail(ss, rest);
    PlainTail(root[|sourceRoot|..], Join(rest, SLASH));
  }

  lemma RenderedTail(ss: seq<Text>, rest: seq<Text>)
    requires rest != []
    ensures Render(ss) <= Render(ss + rest)
    ensures Render(ss + rest)[|Render(ss)|..] == (if ss == [] then [] else [SLASH]) + Join(rest, SLASH)
  {
    hide Join;
    if ss == [] {
      assert ss + rest == rest;
    } else {
      JoinAppend(ss, rest, SLASH);
      var head := ROOT + Join(ss, SLASH);
      assert Render(ss + rest) == head + ([SLASH] + Join(rest, SLASH));
    }
  }

  lemma PlainTail(tail: Text, rel: Text)
    requires rel != [] && rel[0] != SLASH && (tail == [] + rel || tail == [SLASH] + rel)
    ensures WithoutLeadingSlashes(tail) == rel
  {
    if tail == [SLASH] + rel {
      assert tail[1..] == rel;
    }
  }

  lemma FirstUnitIsNotSlash(rest: seq<Text>)
    requires Clean(rest) && rest != []
    ensures Join(rest, SLASH) != [] && Join(rest, SLASH)[0] != SLASH
  {
    assert CleanSegment(rest[0]);
    assert rest[0][0] in rest[0];
    assert Join(rest, SLASH)[0] == rest[0][0];
  }

  /** A protected root strictly inside the source root contributes its relative
      path exactly when that path has no two consecutive dots: the guard drops
      every path with `..` anywhere in its text, also inside a plain name. */
  lemma ProtectedPathIff(sourceRoot: Text, root: Text)
    ensures ProtectedPathRelative(sourceRoot, root) ==
            if IsWithin(sourceRoot, root) && root != sourceRoot && !Includes(RelativeTo(sourceRoot, root), PARENT)
            then Some(RelativeTo(sourceRoot, root))
            else None
  {
    if IsWithin(sourceRoot, root) && root != sourceRoot {
      RelativeIsJoined(sourceRoot, root);
    }
  }

  // ---- Which names the static rules bar, and the code they report ----

  ghost predicate IsHistory(s: Text) {
    s in {U(".git"), U(".hg"), U(".svn"), U(".bzr")}
  }

  ghost predicate IsEnvironment(s: Text) {
    s == U(".env") || StartsWith(s, U(".env."))
  }

  ghost predicate IsKey(s: Text) {
    || s in {U("id_rsa"), U("id_ed25519"), U("id_ecdsa"), U("id_dsa"), U(".ssh")} || EndsWith(s, U(".pem"))
    || EndsWith(s, U(".key")) || EndsWith(s, U(".p12")) || EndsWith(s, U(".pfx")) || EndsWith(s, U(".crt"))
    || EndsWith(s, U(".cer")) || EndsWith(s, U(".der"))
  }

  ghost predicate IsCredential(s: Text) {
    || s in {U("credentials"), U("credentials.json"), U(".credentials"), U(".credentials.json")}
    || StartsWith(s, U("secret")) || StartsWith(s, U(".secret"))
  }

  ghost predicate IsDependency(s: Text) {
    s in {U("node_modules"), U(".venv"), U("venv"), U("__pycache__"), U(".pytest_cache")}
  }

  ghost predicate IsBuild(s: Text) {
    s in {U("dist"), U("build"), U(".turbo"), U(".next"), U(".nuxt"), U(".svelte-kit")}
  }

  ghost predicate IsCoverage(s: Text) {
    s in {U("coverage"), U(".coverage")}
  }

  ghost predicate IsCache(s: Text) {
    s in {U(".cache"), U("cache")}
  }

  ghost predicate IsLog(s: Text) {
    s in {U("logs"), U("log")} || EndsWith(s, U(".log"))
  }

  ghost predicate IsJournal(s: Text) {
    EndsWith(s, U(".session")) || EndsWith(s, U(".session-journal"))
  }

  ghost predicate IsDatabase(s: Text) {
    || EndsWith(s, U(".db")) || EndsWith(s, U(".db-wal")) || EndsWith(s, U(".db-shm"))
    || EndsWith(s, U(".sqlite")) || EndsWith(s, U(".sqlite3"))
  }

  ghost predicate IsTransient(s: Text) {
    || s in {U("tmp"), U(".tmp"), U(".DS_Store"), U(".idea"), U(".vscode")} || EndsWith(s, U(".tmp"))
    || EndsWith(s, U(".temp")) || EndsWith(s, U(".swp")) || EndsWith(s, U(".swo")) || EndsWith(s, U(".part"))
  }

  ghost predicate IsReserved(s: Text) {
    s == U(".ashley-meta")
  }

  /** The code a name is left out for. */
  ghost function BarredFor(s: Text): Option<string> {
    if IsHistory(s) then Some("vcs_metadata")
    else if IsEnvironment(s) then Some("env_secrets")
    else if IsKey(s) then Some("key_material")
    else if IsCredential(s) then Some("credential_files")
    else if IsDependency(s) then Some("dependency_directories")
    else if IsBuild(s) then Some("build_output")
    else if IsCoverage(s) then Some("coverage_output")
    else if IsCache(s) then Some("cache_directories")
    else if IsLog(s) then Some("log_files")
    else if IsJournal(s) then Some("session_journals")
    else if IsDatabase(s) then Some("database_files")
    else if IsTransient(s) then Some("transient_files")
    else if IsReserved(s) then Some("reserved_broker_metadata")
    else None
  }

  ghost predicate SomeHits(rules: seq<Rule>, s: Text) {
    exists i :: 0 <= i < |rules| && Hits(rules[i], s)
  }

  ghost predicate FirstHits(rules: seq<Rule>, j: int, s: Text) {
    0 <= j < |rules| && Hits(rules[j], s) && forall i :: 0 <= i < j ==> !Hits(rules[i], s)
  }

  /** The rules report this code for a segment, or nothing. */
  ghost predicate Report(rules: seq<Rule>, s: Text, code: Option<string>) {
    && (SomeHits(rules, s) <==> code.Some?)
    && forall j :: FirstHits(rules, j, s) ==> Some(rules[j].code) == code
  }

  lemma FirstOfTwo(a: seq<Rule>, b: seq<Rule>, s: Text)
    ensures SomeHits(a + b, s) <==> SomeHits(a, s) || SomeHits(b, s)
    ensures forall j :: FirstHits(a + b, j, s) ==>
              if SomeHits(a, s) then j < |a| && FirstHits(a, j, s) else j >= |a| && FirstHits(b, j - |a|, s)
  {
    hide Hits;
    assert forall i :: 0 <= i < |a| ==> (a + b)[i] == a[i];
    assert forall i :: 0 <= i < |b| ==> (a + b)[i + |a|] == b[i];
  }

  lemma HistoriesHit(s: Text)
    ensures Report(VCS_RULES, s, if IsHistory(s) then Some("vcs_metadata") else None)
  {
    hide U, EndsWith, StartsWith;
    var rules := VCS_RULES;
    if IsHistory(s) {
      assert Hits(rules[0], s) || Hits(rules[1], s) || Hits(rules[2], s) || Hits(rules[3], s);
    }
  }

  lemma EnvironmentsHit(s: Text)
    ensures Report(ENV_RULES, s, if IsEnvironment(s) then Some("env_secrets") else None)
  {
    hide U, EndsWith, StartsWith;
    var rules := ENV_RULES;
    if IsEnvironment(s) {
      assert Hits(rules[0], s) || Hits(rules[1], s);
    }
  }

  lemma KeysHit(s: Text)
    ensures Report(KEY_RULES, s, if IsKey(s) then Some("key_material") else None)
  {
    hide U, EndsWith, StartsWith;
    var rules := KEY_RULES;
    if IsKey(s) {
      assert Hits(rules[0], s) || Hits(rules[1], s) || Hits(rules[2], s) || Hits(rules[3], s)
          || Hits(rules[4], s) || Hits(rules[5], s) || Hits(rules[6], s) || Hits(rules[7], s)
          || Hits(rules[8], s) || Hits(rules[9], s) || Hits(rules[10], s) || Hits(rules[11], s);
    }
  }

  lemma CredentialsHit(s: Text)
    ensures Report(CREDENTIAL_RULES, s, if IsCredential(s) then Some("credential_files") else None)
  {
    hide U, EndsWith, StartsWith;
    var rules := CREDENTIAL_RULES;
    if IsCredential(s) {
      assert Hits(rules[0], s) || Hits(rules[1], s) || Hits(rules[2], s) || Hits(rules[3], s)
          || Hits(rules[4], s) || Hits(rules[5], s);
    }
  }

  lemma DependenciesHit(s: Text)
    ensures Report(DEPENDENCY_RULES, s, if IsDependency(s) then Some("dependency_directories") else None)
  {
    hide U, EndsWith, StartsWith;
    var rules := DEPENDENCY_RULES;
    if IsDependency(s) {
      assert Hits(rules[0], s) || Hits(rules[1], s) || Hits(rules[2], s) || Hits(rules[3], s)
          || Hits(rules[4], s);
    }
  }

  lemma BuildsHit(s: Text)
    ensures Report(BUILD_RULES, s, if IsBuild(s) then Some("build_output") else None)
  {
    hide U, EndsWith, StartsWith;
    var rules := BUILD_RULES;
    if IsBuild(s) {
      assert Hits(rules[0], s) || Hits(rules[1], s) || Hits(rules[2], s) || Hits(rules[3], s)
          || Hits(rules[4], s) || Hits(rules[5], s);
    }
  }

  lemma CoverageHits(s: Text)
    ensures Report(COVERAGE_RULES, s, if IsCoverage(s) then Some("coverage_output") else None)
  {
    hide U, EndsWith, StartsWith;
    var rules := COVERAGE_RULES;
    if IsCoverage(s) {
      assert Hits(rules[0], s) || Hits(rules[1], s);
    }
  }

  lemma CachesHit(s: Text)
    ensures Report(CACHE_RULES, s, if IsCache(s) then Some("cache_directories") else None)
  {
    hide U, EndsWith, StartsWith;
    var rules := CACHE_RULES;
    if IsCache(s) {
      assert Hits(rules[0], s) || Hits(rules[1], s);
    }
  }

  lemma LogsHit(s: Text)
    ensures Report(LOG_RULES, s, if IsLog(s) then Some("log_files") else None)
  {
    hide U, EndsWith, StartsWith;
    var rules := LOG_RULES;
    if IsLog(s) {
      assert Hits(rules[0], s) || Hits(rules[1], s) || Hits(rules[2], s);
    }
  }

  lemma JournalsHit(s: Text)
    ensures Report(JOURNAL_RULES, s, if IsJournal(s) then Some("session_journals") else None)
  {
    hide U, EndsWith, StartsWith;
    var rules := JOURNAL_RULES;
    if IsJournal(s) {
      assert Hits(rules[0], s) || Hits(rules[1], s);
    }
  }

  lemma DatabasesHit(s: Text)
    ensures Report(DATABASE_RULES, s, if IsDatabase(s) then Some("database_files") else None)
  {
    hide U, EndsWith, StartsWith;
    var rules := DATABASE_RULES;
    if IsDatabase(s) {
      assert Hits(rules[0], s) || Hits(rules[1], s) || Hits(rules[2], s) || Hits(rules[3], s)
          || Hits(rules[4], s);
    }
  }

  lemma TransientsHit(s: Text)
    ensures Report(TRANSIENT_RULES, s, if IsTransient(s) then Some("transient_files") else None)
  {
    hide U, EndsWith, StartsWith;
    var rules := TRANSIENT_RULES;
    if IsTransient(s) {
      assert Hits(rules[0], s) || Hits(rules[1], s) || Hits(rules[2], s) || Hits(rules[3], s)
          || Hits(rules[4], s) || Hits(rules[5], s) || Hits(rules[6], s) || Hits(rules[7], s)
          || Hits(rules[8], s) || Hits(rules[9], s);
    }
  }

  lemma ReservedHits(s: Text)
    ensures Report(RESERVED_RULES, s, if IsReserved(s) then Some("reserved_broker_metadata") else None)
  {
    hide U, EndsWith, StartsWith;
    var rules := RESERVED_RULES;
    if IsReserved(s) {
      assert Hits(rules[0], s);
    }
  }

  function OrElse<T>(x: Option<T>, y: Option<T>): Option<T> {
    if x.Some? then x else y
  }

  lemma Longer(a: seq<Rule>, b: seq<Rule>, s: Text, x: Option<string>, y: Option<string>)
    returns (r: seq<Rule>, z: Option<string>)
    requires Report(a, s, x) && Report(b, s, y)
    ensures r == a + b && z == OrElse(x, y) && Report(r, s, z)
  {
    r, z := a + b, OrElse(x, y);
    hide SomeHits, Hits;
    FirstOfTwo(a, b, s);
  }

  /** The static rules bar exactly the names with a code, and the first of them
      that a name hits reports it. */
  lemma MandatoryRulesReport(s: Text)
    ensures Report(MANDATORY_EXCLUSION_RULES, s, BarredFor(s))
  {
    hide Report;
    hide IsHistory, IsEnvironment, IsKey, IsCredential, IsDependency, IsBuild, IsCoverage, IsCache, IsLog,
         IsJournal, IsDatabase, IsTransient, IsReserved;
    var r, x := VCS_RULES, if IsHistory(s) then Some("vcs_metadata") else None;
    HistoriesHit(s);
    EnvironmentsHit(s);
    r, x := Longer(r, ENV_RULES, s, x, if IsEnvironment(s) then Some("env_secrets") else None);
    KeysHit(s);
    r, x := Longer(r, KEY_RULES, s, x, if IsKey(s) then Some("key_material") else None);
    CredentialsHit(s);
    r, x := Longer(r, CREDENTIAL_RULES, s, x, if IsCredential(s) then Some("credential_files") else None);
    DependenciesHit(s);
    r, x := Longer(r, DEPENDENCY_RULES, s, x, if IsDependency(s) then Some("dependency_directories") else None);
    BuildsHit(s);
    r, x := Longer(r, BUILD_RULES, s, x, if IsBuild(s) then Some("build_output") else None);
    CoverageHits(s);
    r, x := Longer(r, COVERAGE_RULES, s, x, if IsCoverage(s) then Some("coverage_output") else None);
    CachesHit(s);
    r, x := Longer(r, CACHE_RULES, s, x, if IsCache(s) then Some("cache_directories") else None);
    LogsHit(s);
    r, x := Longer(r, LOG_RULES, s, x, if IsLog(s) then Some("log_files") else None);
    JournalsHit(s);
    r, x := Longer(r, JOURNAL_RULES, s, x, if IsJournal(s) then Some("session_journals") else None);
    DatabasesHit(s);
    r, x := Longer(r, DATABASE_RULES, s, x, if IsDatabase(s) then Some("database_files") else None);
    TransientsHit(s);
    r, x := Longer(r, TRANSIENT_RULES, s, x, if IsTransient(s) then Some("transient_files") else None);
    ReservedHits(s);
    r, x := Longer(r, RESERVED_RULES, s, x, if IsReserved(s) then Some("reserved_broker_metadata") else None);
    assert r == MANDATORY_EXCLUSION_RULES;
  }
}
