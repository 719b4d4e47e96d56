/**
 * What the parsers yield on the signature documented in moduleinfo.h.
 * Long string literals are written out in segments of a few words each.
 */
module DocumentedSignatures {
  import opened StringView
  import opened ModuleInfo

  /** The documented head holds no brackets. */
  lemma DocumentedHeadPlain()
    ensures '[' !in DOCUMENTED_HEAD && ']' !in DOCUMENTED_HEAD
  {
    assert '[' !in "constexpr mu::modularity::" && ']' !in "constexpr mu::modularity::";
    assert '[' !in "InterfaceInfo " && ']' !in "InterfaceInfo ";
    assert '[' !in "mu::modularity::" && ']' !in "mu::modularity::";
    assert '[' !in "getInterfaceInfo() " && ']' !in "getInterfaceInfo() ";
  }

  /**
   * The documented signature
   * `constexpr mu::modularity::InterfaceInfo mu::modularity::getInterfaceInfo() [with I = mu::update::IUpdateConfiguration]`
   * yields the id `IUpdateConfiguration` and the module `update`.
   */
  lemma DocumentedInterface(sig: string)
    requires sig == WithClause(DOCUMENTED_HEAD, "mu" + "::" + "update" + "::" + "IUpdateConfiguration")
    ensures InterfaceName(sig) == "IUpdateConfiguration"
    ensures ModuleNameByInterface(sig) == "update"
  {
    DocumentedHeadPlain();
    assert IsSegment("mu") && IsSegment("update") && IsSegment("IUpdateConfiguration");
    assert |sig| == 118;
    QualifiedModule(DOCUMENTED_HEAD, "mu", "update", "IUpdateConfiguration");
    QualifiedName(DOCUMENTED_HEAD, "mu", "update", "IUpdateConfiguration");
  }
}
