/** Side, policy and presence of a mod, and how verdicts on them are decided
    (src/domain/side.rs, src/registry/classify.rs, src/registry/authored.rs).
    Verdicts cross the registry as text, so they are parsed back here. */
module Sides {
  import opened Base

  datatype SideClass = Client | Server | Both {
    function AsStr(): string
    {
      match this
      case Client => "client"
      case Server => "server"
      case Both => "both"
    }
  }

  datatype MatchPolicy = MustMatch | Tolerant {
    function AsStr(): string
    {
      match this
      case MustMatch => "must_match"
      case Tolerant => "tolerant"
    }
  }

  datatype PresenceClass = Required | OptionalClient | OptionalServer | OptionalBoth | Coremod

  datatype JarKind = Mod | CoremodJar | Library {
    function AsStr(): string
    {
      match this
      case Mod => "mod"
      case CoremodJar => "coremod"
      case Library => "library"
    }
  }

  datatype SideConfidence = High | Low {
    function AsStr(): string
    {
      if this == High then "high" else "low"
    }
  }

  function ParseSide(s: string): Option<SideClass>
  {
    if s == "client" then Some(Client)
    else if s == "server" then Some(Server)
    else if s == "both" then Some(Both)
    else None
  }

  function ParsePolicy(s: string): Option<MatchPolicy>
  {
    if s == "must_match" then Some(MustMatch)
    else if s == "tolerant" then Some(Tolerant)
    else None
  }

  /** What a bytecode scan decided: side, how solid, policy, kind. */
  datatype Verdict = Verdict(
    side: Option<SideClass>, confidence: Option<SideConfidence>, policy: Option<MatchPolicy>, kind: JarKind)

  /** A stored `jar_class` row. */
  datatype JarClassRow = JarClassRow(
    kind: string, side: Option<string>, policy: Option<string>, confidence: Option<string>)

  datatype Provenance = FromJarKind | ModrinthEnv | Bytecode | Unclassified

  datatype Classification = Classification(
    side: Option<SideClass>,
    policy: Option<MatchPolicy>,
    kind: Option<string>,
    provenance: Provenance,
    bytecodeSide: Option<SideClass>,
    bytecodePolicy: Option<MatchPolicy>,
    sideConfidence: Option<string>,
    optionalBoth: bool)
  {
    predicate IsNonMod()
    {
      kind == Some("coremod") || kind == Some("library")
    }

    predicate ClientVerdictIsSoft()
    {
      side == Some(Client) && provenance == Bytecode && sideConfidence == Some("low")
    }
  }

  /** The environment flags of a Modrinth project, on the two axes. */
  function SideFromModrinthEnv(client: string, server: string): (r: Option<(SideClass, MatchPolicy)>)
    ensures r.Some? && r.value.1 == MustMatch ==> r.value.0 == Both && client == "required" == server
    ensures r.Some? && r.value.0 == Client ==> server == "unsupported"
    ensures r.Some? && r.value.0 == Server ==> client == "unsupported"
  {
    var known := (v: string) => v == "required" || v == "optional" || v == "unsupported";
    if !known(client) || !known(server) then None
    else if client == "unsupported" && server == "unsupported" then None
    else
      var side := if client == "unsupported" then Server else if server == "unsupported" then Client else Both;
      Some((side, if client == "required" && server == "required" then MustMatch else Tolerant))
  }

  /** `classify_artifact` on the row stored for the jar and the flags stored for the mod. */
  function ClassifyArtifact(jar: Option<JarClassRow>, env: Option<(Option<string>, Option<string>)>): Classification
  {
    var bytecodeSide := if jar.Some? && jar.value.side.Some? then ParseSide(jar.value.side.value) else None;
    var bytecodePolicy := if jar.Some? && jar.value.policy.Some? then ParsePolicy(jar.value.policy.value) else None;
    var confidence := if jar.Some? then jar.value.confidence else None;
    var kind := if jar.Some? then Some(jar.value.kind) else None;
    var modrinth :=
      if env.Some? && env.value.0.Some? && env.value.1.Some?
      then SideFromModrinthEnv(env.value.0.value, env.value.1.value) else None;
    var optionalBoth := env == Some((Some("optional"), Some("optional")));
    if kind == Some("coremod") || kind == Some("library") then
      Classification(None, None, kind, FromJarKind, bytecodeSide, bytecodePolicy, None, false)
    else if modrinth.Some? then
      Classification(Some(modrinth.value.0), Some(modrinth.value.1), kind, ModrinthEnv,
                     bytecodeSide, bytecodePolicy, Some("high"), optionalBoth)
    else if bytecodeSide.Some? || bytecodePolicy.Some? then
      Classification(bytecodeSide, bytecodePolicy, kind, Bytecode, bytecodeSide, bytecodePolicy, confidence, false)
    else
      Classification(None, None, kind, Unclassified, bytecodeSide, bytecodePolicy, None, false)
  }

  /** The row a harvest stores for a scanned jar. */
  function HarvestedRow(v: Verdict): JarClassRow
  {
    JarClassRow(
      v.kind.AsStr(),
      if v.side.Some? then Some(v.side.value.AsStr()) else None,
      if v.policy.Some? then Some(v.policy.value.AsStr()) else None,
      if v.confidence.Some? then Some(v.confidence.value.AsStr()) else None)
  }

  /** The row an operator may assert, or nothing when the writer refuses it. */
  function AuthoredRow(kind: string, side: Option<string>, policy: Option<string>, modrinth: bool)
    : Option<JarClassRow>
  {
    if kind !in {"mod", "coremod", "library"} then None
    else if side.Some? && ParseSide(side.value).None? then None
    else if policy.Some? && ParsePolicy(policy.value).None? then None
    else if side == Some("client") && policy == Some("must_match") then None
    else if modrinth then None
    else Some(JarClassRow(kind, side, policy, if side.Some? then Some("high") else None))
  }

  // ----- What no classification says --------------------------------------------------

  /** A mod that runs on the client alone cannot have to match the server. */
  predicate Consistent(c: Classification)
  {
    !(c.side == Some(Client) && c.policy == Some(MustMatch))
  }

  predicate RowConsistent(row: JarClassRow)
  {
    !(row.side == Some("client") && row.policy == Some("must_match"))
  }

  /** Whatever the two writers store and Modrinth declares, a classification is
      consistent, and a client side read from flags or asserted by hand is never soft. */
  lemma ClassifiedConsistently(jar: Option<JarClassRow>, env: Option<(Option<string>, Option<string>)>)
    requires jar.Some? ==> RowConsistent(jar.value)
    ensures Consistent(ClassifyArtifact(jar, env))
    ensures ClassifyArtifact(jar, env).ClientVerdictIsSoft()
            ==> jar.Some? && jar.value.side == Some("client") && jar.value.confidence == Some("low")
  {
  }

  lemma AuthoredRowConsistent(kind: string, side: Option<string>, policy: Option<string>, modrinth: bool)
    requires AuthoredRow(kind, side, policy, modrinth).Some?
    ensures RowConsistent(AuthoredRow(kind, side, policy, modrinth).value)
    ensures AuthoredRow(kind, side, policy, modrinth).value.confidence != Some("low")
  {
  }

  /** What a harvest stores reads back as the verdict it stored. */
  lemma HarvestedVerdictReadsBack(v: Verdict)
    requires v.kind == Mod
    ensures var c := ClassifyArtifact(Some(HarvestedRow(v)), None);
            c.side == v.side && c.policy == v.policy
  {
  }
}
