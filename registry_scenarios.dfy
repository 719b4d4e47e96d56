/**
 * How the registry behaves over a sequence of calls.  Each scenario
 * starts from a new, empty registry (as `reset` leaves the shared one)
 * and states what the caller observes.
 */
module RegistryScenarios {
  import opened Wrappers
  import opened StringView
  import opened ModuleInfo
  import opened ModulesIoC

  /** Registering an instance and resolving the same interface hands back that very instance. */
  method RegisterThenResolve(byModule: string, usageModule: string, sig: string, p: Instance)
    returns (report: Option<Report>, q: Instance?)
    requires IsView(sig)
    ensures report == None && q == p
  {
    var r := new Registry();
    report := r.RegisterExport(byModule, sig, p);
    q := r.Resolve(usageModule, sig, "");
  }

  /** An internal registration resolves from any module, exactly like an exported one. */
  method InternalResolvesAnywhere(byModule: string, usageModule: string, sig: string, p: Instance)
    returns (report: Option<Report>, q: Instance?)
    requires IsView(sig)
    ensures report == None && q == p
  {
    var r := new Registry();
    report := r.RegisterInternal(byModule, sig, p);
    q := r.Resolve(usageModule, sig, "");
  }

  /** A creator gives a different, non-null object on each resolution. */
  method FactoryFreshness(byModule: string, sig: string, c: ModuleCreator)
    returns (p1: Instance?, p2: Instance?)
    requires IsView(sig)
    ensures p1 != null && p2 != null && p1 != p2
  {
    var r := new Registry();
    var report := r.RegisterExportCreator(byModule, sig, c);
    p1 := r.Resolve(byModule, sig, "");
    p2 := r.Resolve(byModule, sig, "");
  }

  /**
   * A second registration of an interface, of whatever kind, is reported
   * with both modules and leaves the first in force.
   */
  method DoubleRegisterKeepsFirst(firstModule: string, secondModule: string, sig: string, p: Instance, c: ModuleCreator)
    returns (first: Option<Report>, second: Option<Report>, q: Instance?)
    requires IsView(sig)
    ensures first == None
    ensures second == Some(DoubleRegister(secondModule, InterfaceName(sig), firstModule))
    ensures q == p
  {
    var r := new Registry();
    first := r.RegisterExport(firstModule, sig, p);
    second := r.RegisterInternalCreator(secondModule, sig, c);
    q := r.Resolve(secondModule, sig, "");
  }

  /** A null provider is refused and registers nothing. */
  method NullProviderRefused(byModule: string, sig: string)
    returns (first: Option<Report>, second: Option<Report>, q: Instance?)
    requires IsView(sig)
    ensures first == Some(NullProvider) && second == Some(NullProvider)
    ensures q == null
  {
    var r := new Registry();
    first := r.RegisterExport(byModule, sig, null);
    second := r.RegisterExportCreator(byModule, sig, null);
    q := r.Resolve(byModule, sig, "");
  }

  /** After `unregister` the interface resolves to null and can be registered anew. */
  method UnregisterFreesId(byModule: string, sig: string, p: Instance, p': Instance)
    returns (gone: Instance?, again: Option<Report>, q: Instance?)
    requires IsView(sig)
    ensures gone == null
    ensures again == None && q == p'
  {
    var r := new Registry();
    var report := r.RegisterExport(byModule, sig, p);
    r.Unregister(byModule, sig);
    gone := r.Resolve(byModule, sig, "");
    again := r.RegisterExport(byModule, sig, p');
    q := r.Resolve(byModule, sig, "");
  }

  /**
   * `unregisterIfRegistered` with a handle other than the registered one
   * leaves the registration alone; with the registered one it removes it.
   */
  method UnregisterIfCurrent(byModule: string, sig: string, p: Instance, stale: Instance)
    returns (afterStale: Instance?, afterCurrent: Instance?)
    requires IsView(sig)
    requires stale != p
    ensures afterStale == p
    ensures afterCurrent == null
  {
    var r := new Registry();
    var report := r.RegisterExport(byModule, sig, p);
    r.UnregisterIfRegistered(byModule, sig, stale);
    afterStale := r.Resolve(byModule, sig, "");
    r.UnregisterIfRegistered(byModule, sig, p);
    afterCurrent := r.Resolve(byModule, sig, "");
  }

  /**
   * A creator's registration survives `unregisterIfRegistered` even with
   * an object that creator made: the comparison resolves a new one.
   */
  method CreatorSurvivesUnregisterIfRegistered(byModule: string, sig: string, c: ModuleCreator)
    returns (made: Instance?, after: Instance?)
    requires IsView(sig)
    ensures made != null && after != null && after != made
  {
    var r := new Registry();
    var report := r.RegisterExportCreator(byModule, sig, c);
    made := r.Resolve(byModule, sig, "");
    r.UnregisterIfRegistered(byModule, sig, made);
    after := r.Resolve(byModule, sig, "");
  }

  /** After `reset` nothing resolves and a required import is reported missing. */
  method ResetForgets(byModule: string, sig: string, p: Instance)
    returns (q: Instance?, report: Option<Report>)
    requires IsView(sig)
    ensures q == null
    ensures report == Some(NotFound(InterfaceName(sig)))
  {
    var r := new Registry();
    var registered := r.RegisterExport(byModule, sig, p);
    r.Reset();
    q, report := r.ResolveRequiredImport(byModule, sig);
  }

  /** A required import that is registered resolves without a report. */
  method RequiredImportFound(byModule: string, usageModule: string, sig: string, p: Instance)
    returns (q: Instance?, report: Option<Report>)
    requires IsView(sig)
    ensures q == p && report == None
  {
    var r := new Registry();
    var registered := r.RegisterExport(byModule, sig, p);
    q, report := r.ResolveRequiredImport(usageModule, sig);
  }

  /**
   * An interface marked internal, resolved from another module, is
   * reported with "unknown" for a missing call site, and its registered
   * instance is still handed out.
   */
  method InternalViolationReported(byModule: string, usageModule: string, sig: string, p: Instance)
    returns (q: Instance?, report: Option<Report>)
    requires IsView(sig)
    requires usageModule != ModuleNameByInterface(sig)
    ensures q == p
    ensures report == Some(InternalViolation(InterfaceName(sig), usageModule, ModuleNameByInterface(sig), "unknown"))
  {
    var r := new Registry();
    var registered := r.RegisterExport(byModule, sig, p);
    q, report := r.DoResolvePtrByInfo(usageModule, GetInterfaceInfo(sig).(internal := true), "");
  }
}
