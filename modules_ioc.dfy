/**
 * The service registry (modulesioc.h): a map from interface id to the
 * service that provides it, with registration, unregistration and
 * resolution.
 *
 * A template parameter `I` of the source is replaced by the signature
 * text the compiler writes for `getInterfaceInfo<I>()`, from which the
 * registry derives the interface's id and module.  `std::shared_ptr<void>`
 * and `IModuleCreator*` become references to the classes Instance and
 * ModuleCreator, with `null` for an empty pointer.  A failed check (an
 * `assert`, possibly after a message to `std::cerr`) is returned as a Report.
 */
module ModulesIoC {
  import opened Wrappers
  import opened StringView
  import opened ModuleInfo

  /** The object a `std::shared_ptr<void>` points to; only its identity matters. */
  class Instance {
  }

  /** `IModuleCreator` as `Creator<T>` implements it: every `create()` makes a new object. */
  class ModuleCreator {
    method Create() returns (p: Instance)
      ensures fresh(p)
    {
      p := new Instance;
    }
  }

  /** A registry entry: the creator or the instance that provides the interface, and who registered it. */
  datatype Service = Service(creator: ModuleCreator?, sourceModule: string, instance: Instance?)

  /**
   * What a failed check of the registry leaves behind: `NullProvider` for
   * the bare `assert` on a null provider, which prints nothing; the others
   * for the message written to `std::cerr` before an `assert` or `std::abort`.
   */
  datatype Report =
    | NullProvider
    | DoubleRegister(byModule: string, id: string, firstModule: string)
    | InternalViolation(id: string, usageModule: string, interfaceModule: string, calledFrom: string)
    | NotFound(id: string)

  /**
   * `getInterfaceInfo<I>()`: the id and module parsed from the signature
   * text `sig`.  It never marks an interface internal.
   */
  function GetInterfaceInfo(sig: string): (info: InterfaceInfo)
    requires IsView(sig)
    ensures !info.internal
    ensures IsSliceOf(info.id, sig) && IsSliceOf(info.moduleName, sig)
  {
    InterfaceNameIsSlice(sig);
    ModuleNameByInterfaceIsSlice(sig);
    InterfaceInfo(InterfaceName(sig), ModuleNameByInterface(sig), false)
  }

  /** For `I = <root>::<module>::<name>` the registry keys the interface by `name` and assigns it to `module`. */
  lemma GetInterfaceInfoQualified(head: string, root: string, modName: string, name: string)
    requires '[' !in head && ']' !in head
    requires IsSegment(root) && IsSegment(modName) && IsSegment(name)
    requires IsView(WithClause(head, root + "::" + modName + "::" + name))
    ensures GetInterfaceInfo(WithClause(head, root + "::" + modName + "::" + name)) == InterfaceInfo(name, modName, false)
  {
    QualifiedModule(head, root, modName, name);
    QualifiedName(head, root, modName, name);
  }

  /**
   * The id drops every namespace: two interfaces of one name in different
   * modules share an entry of the registry.
   */
  lemma SameNameSameId(head: string, root: string, modA: string, modB: string, name: string)
    requires '[' !in head && ']' !in head
    requires IsSegment(root) && IsSegment(modA) && IsSegment(modB) && IsSegment(name)
    requires IsView(WithClause(head, root + "::" + modA + "::" + name))
    requires IsView(WithClause(head, root + "::" + modB + "::" + name))
    ensures GetInterfaceInfo(WithClause(head, root + "::" + modA + "::" + name)).id
         == GetInterfaceInfo(WithClause(head, root + "::" + modB + "::" + name)).id
  {
    QualifiedName(head, root, modA, name);
    QualifiedName(head, root, modB, name);
  }

  /**
   * How `registerService` leaves the map `m` (now `m'`) and what it
   * reports, for a registration under `id` by `byModule` of service `s`:
   * a taken id is rejected with both module names and nothing changes;
   * otherwise `s` is stored under `id` and no other key changes.
   */
  ghost predicate RegisterEffect(m: map<string, Service>, m': map<string, Service>, report: Option<Report>,
                                 byModule: string, id: string, s: Service)
  {
    if id in m then m' == m && report == Some(DoubleRegister(byModule, id, m[id].sourceModule))
    else m' == m[id := s] && report == None
  }

  /** `ModulesIoC`: the registry. */
  class Registry {
    /** `m_map`. */
    var services: map<string, Service>

    /**
     * Every entry holds exactly one of an instance and a creator: each
     * public registration passes one non-null provider and one null.
     */
    ghost predicate Valid()
      reads this
    {
      forall id | id in services :: (services[id].instance != null) != (services[id].creator != null)
    }

    constructor ()
      ensures Valid() && services == map[]
    {
      services := map[];
    }

    /** `registerService`: refuses an id that is already taken. */
    method RegisterService(byModule: string, info: InterfaceInfo, p: Instance?, c: ModuleCreator?)
      returns (report: Option<Report>)
      modifies this
      ensures RegisterEffect(old(services), services, report, byModule, info.id, Service(c, byModule, p))
    {
      if info.id in services {
        report := Some(DoubleRegister(byModule, info.id, services[info.id].sourceModule));
        return;
      }
      services := services[info.id := Service(c, byModule, p)];
      report := None;
    }

    /** `registerExportCreator<I>`: a null creator is refused. */
    method RegisterExportCreator(byModule: string, sig: string, c: ModuleCreator?) returns (report: Option<Report>)
      requires IsView(sig) && Valid()
      modifies this
      ensures Valid()
      ensures c == null ==> services == old(services) && report == Some(NullProvider)
      ensures c != null ==>
                RegisterEffect(old(services), services, report, byModule, InterfaceName(sig), Service(c, byModule, null))
    {
      if c == null {
        report := Some(NullProvider);
        return;
      }
      report := RegisterService(byModule, GetInterfaceInfo(sig), null, c);
    }

    /**
     * `registerExport<I>`, in all three forms (a raw pointer, a raw pointer
     * that is never deleted, a shared pointer): a null instance is refused.
     */
    method RegisterExport(byModule: string, sig: string, p: Instance?) returns (report: Option<Report>)
      requires IsView(sig) && Valid()
      modifies this
      ensures Valid()
      ensures p == null ==> services == old(services) && report == Some(NullProvider)
      ensures p != null ==>
                RegisterEffect(old(services), services, report, byModule, InterfaceName(sig), Service(null, byModule, p))
    {
      if p == null {
        report := Some(NullProvider);
        return;
      }
      report := RegisterService(byModule, GetInterfaceInfo(sig), p, null);
    }

    /** `registerInternalCreator<I>`: registers exactly as registerExportCreator does. */
    method RegisterInternalCreator(byModule: string, sig: string, c: ModuleCreator?) returns (report: Option<Report>)
      requires IsView(sig) && Valid()
      modifies this
      ensures Valid()
      ensures c == null ==> services == old(services) && report == Some(NullProvider)
      ensures c != null ==>
                RegisterEffect(old(services), services, report, byModule, InterfaceName(sig), Service(c, byModule, null))
    {
      if c == null {
        report := Some(NullProvider);
        return;
      }
      report := RegisterService(byModule, GetInterfaceInfo(sig), null, c);
    }

    /** `registerInternal<I>`, in all three forms: registers exactly as registerExport does. */
    method RegisterInternal(byModule: string, sig: string, p: Instance?) returns (report: Option<Report>)
      requires IsView(sig) && Valid()
      modifies this
      ensures Valid()
      ensures p == null ==> services == old(services) && report == Some(NullProvider)
      ensures p != null ==>
                RegisterEffect(old(services), services, report, byModule, InterfaceName(sig), Service(null, byModule, p))
    {
      if p == null {
        report := Some(NullProvider);
        return;
      }
      report := RegisterService(byModule, GetInterfaceInfo(sig), p, null);
    }

    /** `unregisterService`: erases the entry, if any. */
    method UnregisterService(info: InterfaceInfo)
      modifies this
      ensures services == old(services) - {info.id}
      ensures info.id !in old(services) ==> services == old(services)
    {
      services := services - {info.id};
    }

    /** `unregister<I>`: the module argument is not used. */
    method Unregister(byModule: string, sig: string)
      requires IsView(sig) && Valid()
      modifies this
      ensures Valid()
      ensures services == old(services) - {InterfaceName(sig)}
      ensures InterfaceName(sig) !in old(services) ==> services == old(services)
    {
      UnregisterService(GetInterfaceInfo(sig));
    }

    /**
     * `doResolvePtrByInfo`: reports an internal interface used from another
     * module and resolves it anyway; then an absent id gives null, a stored
     * instance is handed out and stays stored, and a creator makes a new
     * object on every call that is not stored back.  Nothing of the
     * registry changes (the method modifies nothing).
     */
    method DoResolvePtrByInfo(usageModule: string, info: InterfaceInfo, callInfo: string)
      returns (p: Instance?, report: Option<Report>)
      ensures report.Some? <==> info.internal && usageModule != info.moduleName
      ensures report.Some? ==>
                report.value == InternalViolation(info.id, usageModule, info.moduleName,
                                                  if callInfo == "" then "unknown" else callInfo)
      ensures info.id !in services ==> p == null
      ensures info.id in services && services[info.id].instance != null ==> p == services[info.id].instance
      ensures info.id in services && services[info.id].instance == null && services[info.id].creator != null ==>
                p != null && fresh(p)
      ensures info.id in services && services[info.id].instance == null && services[info.id].creator == null ==>
                p == null
    {
      report := None;
      if info.internal {
        if usageModule != info.moduleName {
          report := Some(InternalViolation(info.id, usageModule, info.moduleName,
                                           if callInfo == "" then "unknown" else callInfo));
        }
      }

      if info.id !in services {
        return null, report;
      }

      var inj := services[info.id];
      if inj.instance != null {
        return inj.instance, report;
      }

      if inj.creator != null {
        p := inj.creator.Create();
        return;
      }

      p := null;
    }

    /**
     * `resolve<I>`: null exactly when the interface is not registered; a
     * registered instance is returned as it is; a creator's result is new.
     */
    method Resolve(usageModule: string, sig: string, callInfo: string) returns (p: Instance?)
      requires IsView(sig) && Valid()
      ensures InterfaceName(sig) !in services <==> p == null
      ensures InterfaceName(sig) in services && services[InterfaceName(sig)].instance != null ==>
                p == services[InterfaceName(sig)].instance
      ensures InterfaceName(sig) in services && services[InterfaceName(sig)].instance == null ==> fresh(p)
    {
      var report;
      p, report := DoResolvePtrByInfo(usageModule, GetInterfaceInfo(sig), callInfo);
      // getInterfaceInfo never marks an interface internal
      assert report == None;
    }

    /**
     * `resolveRequiredImport<I>`: resolves as `resolve<I>` does and reports
     * an interface that is not registered.
     */
    method ResolveRequiredImport(usageModule: string, sig: string) returns (p: Instance?, report: Option<Report>)
      requires IsView(sig) && Valid()
      ensures InterfaceName(sig) !in services <==> p == null
      ensures report == if p == null then Some(NotFound(InterfaceName(sig))) else None
      ensures InterfaceName(sig) in services && services[InterfaceName(sig)].instance != null ==>
                p == services[InterfaceName(sig)].instance
      ensures InterfaceName(sig) in services && services[InterfaceName(sig)].instance == null ==> fresh(p)
    {
      var info := GetInterfaceInfo(sig);
      p, report := DoResolvePtrByInfo(usageModule, info, "");
      if p == null {
        report := Some(NotFound(info.id));
      }
    }

    /**
     * `unregisterIfRegistered<I>`: erases the entry only when resolving it
     * gives back `p`, which is when `p` is the stored instance; an entry
     * holding a creator resolves to a new object and is never erased.
     */
    method UnregisterIfRegistered(byModule: string, sig: string, p: Instance?)
      requires IsView(sig) && Valid()
      modifies this
      ensures Valid()
      ensures var id := InterfaceName(sig);
              if id in old(services) && old(services)[id].instance != null && old(services)[id].instance == p
              then services == old(services) - {id}
              else services == old(services)
    {
      var current := Resolve(byModule, sig, "");
      if current == p {
        Unregister(byModule, sig);
      }
    }

    /** `reset`: forgets every entry. */
    method Reset()
      modifies this
      ensures Valid() && services == map[]
    {
      services := map[];
    }
  }
}
