/** Which source decides what of a classification (src/domain/side.rs,
    src/registry/classify.rs, src/registry/authored.rs), told from the flags and rows
    themselves. */
module SidesLaws {
  import opened Base
  import opened Sides

  predicate Supports(flag: string)
  {
    flag == "required" || flag == "optional"
  }

  /** The nine combinations of known flags, and everything else. */
  lemma ModrinthEnvIff(client: string, server: string)
    ensures var r := SideFromModrinthEnv(client, server);
            && (r == Some((Client, Tolerant)) <==> Supports(client) && server == "unsupported")
            && (r == Some((Server, Tolerant)) <==> client == "unsupported" && Supports(server))
            && (r == Some((Both, MustMatch)) <==> client == "required" && server == "required")
            && (r == Some((Both, Tolerant)) <==>
                  Supports(client) && Supports(server) && !(client == "required" && server == "required"))
            && (r == None <==> !(Supports(client) && Supports(server)) && !(Supports(client) && server == "unsupported")
                               && !(client == "unsupported" && Supports(server)))
  {
  }

  /** The registry's words, both ways. */
  lemma WordsReadBack(side: SideClass, policy: MatchPolicy, word: string)
    ensures ParseSide(side.AsStr()) == Some(side) && ParsePolicy(policy.AsStr()) == Some(policy)
    ensures ParseSide(word).Some? ==> ParseSide(word).value.AsStr() == word
    ensures ParsePolicy(word).Some? ==> ParsePolicy(word).value.AsStr() == word
    ensures Client.AsStr() == "client" && Server.AsStr() == "server" && Both.AsStr() == "both"
    ensures MustMatch.AsStr() == "must_match" && Tolerant.AsStr() == "tolerant"
  {
  }

  /** A jar that is no mod. */
  predicate OnTheShelf(jar: Option<JarClassRow>)
  {
    jar.Some? && (jar.value.kind == "library" || jar.value.kind == "coremod")
  }

  function StoredSide(jar: Option<JarClassRow>): Option<SideClass>
  {
    if jar.Some? && jar.value.side.Some? then ParseSide(jar.value.side.value) else None
  }

  function StoredPolicy(jar: Option<JarClassRow>): Option<MatchPolicy>
  {
    if jar.Some? && jar.value.policy.Some? then ParsePolicy(jar.value.policy.value) else None
  }

  /** What the project's two flags say, when both are there and say something. */
  function Declared(env: Option<(Option<string>, Option<string>)>): Option<(SideClass, MatchPolicy)>
  {
    match env
    case Some((Some(client), Some(server))) => SideFromModrinthEnv(client, server)
    case _ => None
  }

  /** Four sources in this order: the kind of the jar, the project's flags, the scan,
      nothing. Only the deciding one speaks for side, policy and confidence, and only
      flags can make a mod optional on both sides. */
  lemma OneSourceDecides(jar: Option<JarClassRow>, env: Option<(Option<string>, Option<string>)>)
    ensures var c := ClassifyArtifact(jar, env);
            && (c.provenance == FromJarKind <==> OnTheShelf(jar))
            && (c.provenance == ModrinthEnv <==> !OnTheShelf(jar) && Declared(env).Some?)
            && (c.provenance == Bytecode <==> !OnTheShelf(jar) && Declared(env).None?
                                              && (StoredSide(jar).Some? || StoredPolicy(jar).Some?))
            && (c.provenance == Unclassified ==> c.side.None? && c.policy.None? && c.sideConfidence.None?)
            && (c.provenance == FromJarKind ==> c.side.None? && c.policy.None? && c.sideConfidence.None?)
            && (c.provenance == ModrinthEnv ==>
                  (c.side, c.policy) == (Some(Declared(env).value.0), Some(Declared(env).value.1))
                  && c.sideConfidence == Some("high"))
            && (c.provenance == Bytecode ==>
                  c.side == StoredSide(jar) && c.policy == StoredPolicy(jar)
                  && c.sideConfidence == jar.value.confidence)
            && (c.optionalBoth <==> !OnTheShelf(jar) && env == Some((Some("optional"), Some("optional"))))
            && c.bytecodeSide == StoredSide(jar) && c.bytecodePolicy == StoredPolicy(jar)
            && c.kind == (if jar.Some? then Some(jar.value.kind) else None)
            && (c.IsNonMod() <==> OnTheShelf(jar))
  {
  }

  /** What an operator may assert, and that it is stored as asserted, a side with full
      confidence. */
  lemma AuthoredRowIff(kind: string, side: Option<string>, policy: Option<string>, modrinth: bool)
    ensures AuthoredRow(kind, side, policy, modrinth).Some? <==>
              && (kind == "mod" || kind == "coremod" || kind == "library")
              && (side.Some? ==> side.value == "client" || side.value == "server" || side.value == "both")
              && (policy.Some? ==> policy.value == "must_match" || policy.value == "tolerant")
              && !(side == Some("client") && policy == Some("must_match"))
              && !modrinth
    ensures var row := AuthoredRow(kind, side, policy, modrinth);
            row.Some? ==> row.value.kind == kind && row.value.side == side && row.value.policy == policy
                          && (row.value.confidence == Some("high") <==> side.Some?)
                          && (row.value.confidence == None <==> side.None?)
  {
  }

  /** A scanned jar's row classifies as the scan decided: its whole verdict when it is a
      mod, its kind alone when it is not. */
  lemma ScannedRowSays(v: Verdict)
    requires v.kind != Mod ==> v.side.None? && v.policy.None?
    ensures var c := ClassifyArtifact(Some(HarvestedRow(v)), None);
            && c.side == v.side && c.policy == v.policy && (c.IsNonMod() <==> v.kind != Mod)
            && (v.side.Some? ==> (c.sideConfidence == Some("low") <==> v.confidence == Some(Low)))
            && (v.side.Some? ==> (c.sideConfidence == Some("high") <==> v.confidence == Some(High)))
            && (c.ClientVerdictIsSoft() <==> v.side == Some(Client) && v.confidence == Some(Low))
  {
  }
}
