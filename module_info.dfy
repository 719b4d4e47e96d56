/**
 * Identity extraction (moduleinfo.h): the compiler writes the fully
 * qualified name of an interface into the signature text of a function
 * template instantiated for it, and these three functions slice the
 * interface name and the owning module name out of that text.
 *
 * Each one is a fixed sequence of searches with early "return the whole
 * input" fallbacks and a final `substr`, written here over the searches of
 * module StringView.  The lemmas after each function characterise its
 * result by the reference predicates of StringView, case by case.
 */
module ModuleInfo {
  import opened Wrappers
  import opened StringView

  /** What the registry knows about an interface: its id, its owning module and whether it is internal. */
  datatype InterfaceInfo = InterfaceInfo(id: string, moduleName: string, internal: bool)

  /** The result of a parser that may reach a `substr` whose position is past the end. */
  datatype Parsed = Parsed(value: string) | OutOfRange

  /** `s.substr(pos, count)`, which throws `std::out_of_range` when `pos > s.size()`. */
  function CheckedSubstr(s: string, pos: nat, count: nat): (r: Parsed)
    ensures r.OutOfRange? <==> pos > |s|
  {
    if pos > |s| then OutOfRange else Parsed(Substr(s, pos, count))
  }

  /** What a checked `substr` that does not throw returns is a contiguous piece of the view. */
  lemma CheckedSubstrIsSlice(s: string, pos: nat, count: nat)
    ensures CheckedSubstr(s, pos, count).Parsed? ==> IsSliceOf(CheckedSubstr(s, pos, count).value, s)
  {
    if pos <= |s| {
      SubstrIsSlice(s, pos, count);
    }
  }

  // ===== moduleNameBySig =====

  /**
   * The module name in a plain method signature such as
   * `SomeType mu::modulename::maybe::ClassName::methodName()`: the text
   * from two past the first `:` after the last space before the first `(`,
   * up to the next `:`.  `find_first_of("::")` matches single colons.
   *
   * As written, the position of the first colon is incremented by 2
   * without an `npos` check: when no colon follows the space, `npos + 2`
   * wraps around to 1 (see ModuleNameBySigChecked).
   */
  function ModuleNameBySig(sig: string): (r: Parsed)
    requires IsView(sig)
  {
    match FindFirstOf(sig, "(", 0)
    case None => Parsed(sig)
    case Some(endMethod) =>
      match FindLastOf(sig, " ", endMethod)
      case None => Parsed(sig)
      case Some(beginMethod) =>
        var beginModule := SizeAdd(SizeOf(FindFirstOf(sig, "::", beginMethod)), 2);
        var endModule := SizeOf(FindFirstOf(sig, "::", beginModule));
        CheckedSubstr(sig, beginModule, SizeSub(endModule, beginModule))
  }

  /** Whatever moduleNameBySig returns without throwing is a contiguous piece of the signature. */
  lemma ModuleNameBySigIsSlice(sig: string)
    requires IsView(sig)
    ensures ModuleNameBySig(sig).Parsed? ==> IsSliceOf(ModuleNameBySig(sig).value, sig)
  {
    WholeIsSlice(sig);
    match FindFirstOf(sig, "(", 0)
    case None =>
    case Some(endMethod) =>
      match FindLastOf(sig, " ", endMethod)
      case None =>
      case Some(beginMethod) =>
        var beginModule := SizeAdd(SizeOf(FindFirstOf(sig, "::", beginMethod)), 2);
        var endModule := SizeOf(FindFirstOf(sig, "::", beginModule));
        CheckedSubstrIsSlice(sig, beginModule, SizeSub(endModule, beginModule));
  }

  /** Without a `(` the whole signature comes back. */
  lemma ModuleNameBySigWithoutParen(sig: string)
    requires IsView(sig)
    requires '(' !in sig
    ensures ModuleNameBySig(sig) == Parsed(sig)
  {
    FindFirstOfAbsent(sig, "(", 0);
  }

  /** Without a space before the first `(` the whole signature comes back. */
  lemma ModuleNameBySigWithoutSpace(sig: string, p: nat)
    requires IsView(sig)
    requires IsFirstOf(sig, "(", 0, p)
    requires ' ' !in sig[..p]
    ensures ModuleNameBySig(sig) == Parsed(sig)
  {
    FindFirstOfAt(sig, "(", 0, p);
    assert NoneOfUpTo(sig, " ", p) by {
      forall k: nat | k <= p && k < |sig| ensures sig[k] !in " " {
        if k < p {
          assert sig[..p][k] == sig[k];
        }
      }
    }
    FindLastOfAbsent(sig, " ", p);
  }

  /**
   * The three positions every successful slice depends on: the first `(`
   * at `p`, the last space before it at `b`, and the first colon after
   * that space at `c`; the module name then starts at `c + 2`.
   */
  ghost predicate SigPositions(sig: string, p: nat, b: nat, c: nat)
  {
    IsFirstOf(sig, "(", 0, p) && IsLastOf(sig, " ", p, b) && IsFirstOf(sig, ":", b, c)
  }

  /** `find_first_of("::")` matches exactly the colons. */
  lemma ColonSet(s: string, from: nat, i: nat)
    ensures IsFirstOf(s, ":", from, i) <==> IsFirstOf(s, "::", from, i)
    ensures NoneOfFrom(s, ":", from) <==> NoneOfFrom(s, "::", from)
  {
  }

  /** The searches of moduleNameBySig land on `p`, `b` and `c`, and the module starts at `c + 2`. */
  lemma ModuleNameBySigStart(sig: string, p: nat, b: nat, c: nat)
    requires IsView(sig)
    requires SigPositions(sig, p, b, c)
    ensures ModuleNameBySig(sig) ==
            var endModule := SizeOf(FindFirstOf(sig, "::", c + 2));
            CheckedSubstr(sig, c + 2, SizeSub(endModule, c + 2))
  {
    FindFirstOfAt(sig, "(", 0, p);
    FindLastOfAt(sig, " ", p, b);
    ColonSet(sig, b, c);
    FindFirstOfAt(sig, "::", b, c);
  }

  /** A colon in the very last position makes the final `substr` throw. */
  lemma ModuleNameBySigOutOfRange(sig: string, p: nat, b: nat, c: nat)
    requires IsView(sig)
    requires SigPositions(sig, p, b, c)
    requires c + 2 > |sig|
    ensures ModuleNameBySig(sig) == OutOfRange
  {
    ModuleNameBySigStart(sig, p, b, c);
  }

  /** The module name runs from `c + 2` up to the next colon at `d`. */
  lemma ModuleNameBySigToColon(sig: string, p: nat, b: nat, c: nat, d: nat)
    requires IsView(sig)
    requires SigPositions(sig, p, b, c)
    requires IsFirstOf(sig, ":", c + 2, d)
    ensures ModuleNameBySig(sig) == Parsed(sig[c + 2..d])
  {
    ModuleNameBySigStart(sig, p, b, c);
    ColonSet(sig, c + 2, d);
    FindFirstOfAt(sig, "::", c + 2, d);
  }

  /** Without a further colon the module name runs from `c + 2` to the end. */
  lemma ModuleNameBySigToEnd(sig: string, p: nat, b: nat, c: nat)
    requires IsView(sig)
    requires SigPositions(sig, p, b, c)
    requires c + 2 <= |sig| && NoneOfFrom(sig, ":", c + 2)
    ensures ModuleNameBySig(sig) == Parsed(sig[c + 2..])
  {
    ModuleNameBySigStart(sig, p, b, c);
    ColonSet(sig, c + 2, 0);
    FindFirstOfAbsent(sig, "::", c + 2);
  }

  /**
   * The wrap-around of `npos + 2`: with a space before the `(` and no colon
   * after that space, slicing starts at index 1, before the space, instead
   * of falling back to the whole signature.
   */
  lemma ModuleNameBySigWraps(sig: string, p: nat, b: nat)
    requires IsView(sig)
    requires IsFirstOf(sig, "(", 0, p)
    requires IsLastOf(sig, " ", p, b)
    requires NoneOfFrom(sig, ":", b)
    ensures exists j | 1 <= j <= |sig| :: ModuleNameBySig(sig) == Parsed(sig[1..j])
  {
    FindFirstOfAt(sig, "(", 0, p);
    FindLastOfAt(sig, " ", p, b);
    ColonSet(sig, b, 0);
    FindFirstOfAbsent(sig, "::", b);
    assert SizeAdd(NPOS, 2) == 1;
    var count := SizeSub(SizeOf(FindFirstOf(sig, "::", 1)), 1);
    var j := if count <= |sig| - 1 then 1 + count else |sig|;
    assert ModuleNameBySig(sig) == Parsed(sig[1..j]);
  }

  /** The smallest such signature: `void f()` yields `oid f()`, which does not lie after the space. */
  lemma ModuleNameBySigWrapsExample()
    ensures ModuleNameBySig("void f()") == Parsed("oid f()")
    ensures forall i, j | 4 < i <= j <= 8 :: ModuleNameBySig("void f()") != Parsed("void f()"[i..j])
  {
    var sig := "void f()";
    FindFirstOfAt(sig, "(", 0, 6);
    FindLastOfAt(sig, " ", 6, 4);
    assert FindFirstOf(sig, "::", 4) == None;
    assert SizeAdd(NPOS, 2) == 1;
    assert FindFirstOf(sig, "::", 1) == None;
    assert sig[1..] == "oid f()";
  }

  /**
   * moduleNameBySig with the `npos` check its two sibling parsers make
   * before stepping over the separator: no colon after the space falls
   * back to the whole signature.
   */
  function ModuleNameBySigChecked(sig: string): (r: Parsed)
    requires IsView(sig)
  {
    match FindFirstOf(sig, "(", 0)
    case None => Parsed(sig)
    case Some(endMethod) =>
      match FindLastOf(sig, " ", endMethod)
      case None => Parsed(sig)
      case Some(beginMethod) =>
        match FindFirstOf(sig, "::", beginMethod)
        case None => Parsed(sig)
        case Some(colon) =>
          var beginModule := colon + 2;
          var endModule := SizeOf(FindFirstOf(sig, "::", beginModule));
          CheckedSubstr(sig, beginModule, SizeSub(endModule, beginModule))
  }

  /** Whatever the corrected parser returns without throwing is a contiguous piece of the signature. */
  lemma ModuleNameBySigCheckedIsSlice(sig: string)
    requires IsView(sig)
    ensures ModuleNameBySigChecked(sig).Parsed? ==> IsSliceOf(ModuleNameBySigChecked(sig).value, sig)
  {
    WholeIsSlice(sig);
    match FindFirstOf(sig, "(", 0)
    case None =>
    case Some(endMethod) =>
      match FindLastOf(sig, " ", endMethod)
      case None =>
      case Some(beginMethod) =>
        match FindFirstOf(sig, "::", beginMethod)
        case None =>
        case Some(colon) =>
          var beginModule := colon + 2;
          var endModule := SizeOf(FindFirstOf(sig, "::", beginModule));
          CheckedSubstrIsSlice(sig, beginModule, SizeSub(endModule, beginModule));
  }

  /**
   * The corrected parser never reaches back before the space that precedes
   * the method name: its result is the whole signature or a slice that
   * starts after that space.
   */
  lemma ModuleNameBySigCheckedStaysAfterSpace(sig: string, p: nat, b: nat)
    requires IsView(sig)
    requires IsFirstOf(sig, "(", 0, p)
    requires IsLastOf(sig, " ", p, b)
    ensures ModuleNameBySigChecked(sig) == Parsed(sig) || ModuleNameBySigChecked(sig) == OutOfRange ||
            exists i, j | b < i <= j <= |sig| :: ModuleNameBySigChecked(sig) == Parsed(sig[i..j])
  {
    FindFirstOfAt(sig, "(", 0, p);
    FindLastOfAt(sig, " ", p, b);
    match FindFirstOf(sig, "::", b)
    case None =>
    case Some(c) =>
      var beginModule := c + 2;
      if beginModule <= |sig| {
        var endModule := SizeOf(FindFirstOf(sig, "::", beginModule));
        assert beginModule <= endModule < SIZE_MODULUS;
        var count := endModule - beginModule;
        assert SizeSub(endModule, beginModule) == count;
        var j := if count <= |sig| - beginModule then beginModule + count else |sig|;
        assert ModuleNameBySigChecked(sig) == Parsed(sig[beginModule..j]);
      }
  }

  /** The corrected parser agrees with the one as written whenever a colon follows the space. */
  lemma ModuleNameBySigCheckedAgrees(sig: string, p: nat, b: nat, c: nat)
    requires IsView(sig)
    requires IsFirstOf(sig, "(", 0, p)
    requires IsLastOf(sig, " ", p, b)
    requires IsFirstOf(sig, ":", b, c)
    ensures ModuleNameBySigChecked(sig) == ModuleNameBySig(sig)
  {
    FindFirstOfAt(sig, "(", 0, p);
    FindLastOfAt(sig, " ", p, b);
    assert IsFirstOf(sig, "::", b, c);
    FindFirstOfAt(sig, "::", b, c);
  }

  /** On `void f()` the corrected parser falls back to the whole signature. */
  lemma ModuleNameBySigCheckedFallsBack()
    ensures ModuleNameBySigChecked("void f()") == Parsed("void f()")
  {
    var sig := "void f()";
    FindFirstOfAt(sig, "(", 0, 6);
    FindLastOfAt(sig, " ", 6, 4);
    assert FindFirstOf(sig, "::", 4) == None;
  }

  /**
   * The documented shape `<type> <root>::<module>::<rest>` with the
   * argument list opening in `rest`: the module name is the second
   * namespace segment.
   */
  lemma ModuleNameBySigOfMethod(ret: string, root: string, modName: string, rest: string, q: nat)
    requires '(' !in ret && '(' !in root && '(' !in modName
    requires ' ' !in root && ' ' !in modName && ':' !in root && ':' !in modName
    requires q < |rest| && rest[q] == '(' && '(' !in rest[..q] && ' ' !in rest[..q]
    requires IsView(ret + " " + root + "::" + modName + "::" + rest)
    ensures ModuleNameBySig(ret + " " + root + "::" + modName + "::" + rest) == Parsed(modName)
  {
    var sig := ret + " " + root + "::" + modName + "::" + rest;
    var b := |ret|;
    var c := b + 1 + |root|;
    var d := c + 2 + |modName|;
    MethodPositions(ret, root, modName, rest, q);
    ModuleNameBySigToColon(sig, d + 2 + q, b, c, d);
    assert sig[c + 2..d] == modName;
  }

  /** Where the searches of moduleNameBySig land in `<type> <root>::<module>::<rest>`. */
  lemma MethodPositions(ret: string, root: string, modName: string, rest: string, q: nat)
    requires '(' !in ret && '(' !in root && '(' !in modName
    requires ' ' !in root && ' ' !in modName && ':' !in root && ':' !in modName
    requires q < |rest| && rest[q] == '(' && '(' !in rest[..q] && ' ' !in rest[..q]
    ensures var sig := ret + " " + root + "::" + modName + "::" + rest;
            var c := |ret| + 1 + |root|;
            var d := c + 2 + |modName|;
            SigPositions(sig, d + 2 + q, |ret|, c) && IsFirstOf(sig, ":", c + 2, d)
  {
    var sig := ret + " " + root + "::" + modName + "::" + rest;
    var b := |ret|;
    var c := b + 1 + |root|;
    var d := c + 2 + |modName|;
    var p := d + 2 + q;
    assert sig[p] == '(';
    forall k: nat | k < p ensures sig[k] !in "(" {
      if d + 2 <= k { assert sig[k] == rest[..q][k - d - 2]; }
    }
    forall k: nat | b < k <= p ensures sig[k] !in " " {
      if d + 2 <= k < p { assert sig[k] == rest[..q][k - d - 2]; }
    }
    forall k: nat | b <= k < c ensures sig[k] !in ":" {
    }
    forall k: nat | c + 2 <= k < d ensures sig[k] !in ":" {
    }
  }

  /**
   * The signature shape documented next to moduleNameBySig,
   * `SomeType mu::modulename::maybe::ClassName::methodName()` (written out
   * in its segments), names module `modulename`.
   */
  lemma ModuleNameBySigExample()
    ensures ModuleNameBySig("SomeType" + " " + "mu" + "::" + "modulename" + "::" + "maybe::ClassName::methodName()")
         == Parsed("modulename")
  {
    var rest := "maybe::ClassName::methodName()";
    assert rest[28] == '(' && '(' !in rest[..28] && ' ' !in rest[..28];
    ModuleNameBySigOfMethod("SomeType", "mu", "modulename", rest, 28);
  }

  // ===== moduleNameByInterface =====

  /**
   * The owning module of the interface named in a `[with I = ...]` clause:
   * the segment after the first `::` that follows `[with `, up to the next
   * `::`; when no second `::` follows, the rest of the text minus its last
   * character (taken to be the closing `]`).
   */
  function ModuleNameByInterface(sig: string): (r: string)
    requires IsView(sig)
  {
    match Find(sig, "[with ", 0)
    case None => sig
    case Some(beginInterface) =>
      match Find(sig, "::", beginInterface)
      case None => sig
      case Some(colon) =>
        // a found "::" ends inside the view, so this `+= 2` cannot wrap
        var beginModule := colon + 2;
        match Find(sig, "::", beginModule)
        case None => Substr(sig, beginModule, SizeSub(SizeSub(|sig|, beginModule), 1))
        case Some(endModule) => Substr(sig, beginModule, endModule - beginModule)
  }

  /** The module name moduleNameByInterface returns is a contiguous piece of the signature. */
  lemma ModuleNameByInterfaceIsSlice(sig: string)
    requires IsView(sig)
    ensures IsSliceOf(ModuleNameByInterface(sig), sig)
  {
    WholeIsSlice(sig);
    match Find(sig, "[with ", 0)
    case None =>
    case Some(beginInterface) =>
      match Find(sig, "::", beginInterface)
      case None =>
      case Some(colon) =>
        var beginModule := colon + 2;
        match Find(sig, "::", beginModule)
        case None => SubstrIsSlice(sig, beginModule, SizeSub(SizeSub(|sig|, beginModule), 1));
        case Some(endModule) => SubstrIsSlice(sig, beginModule, endModule - beginModule);
  }

  /** Without `[with ` the whole signature comes back. */
  lemma ModuleNameByInterfaceWithoutClause(sig: string)
    requires IsView(sig)
    requires AbsentFrom(sig, "[with ", 0)
    ensures ModuleNameByInterface(sig) == sig
  {
    FindAbsent(sig, "[with ", 0);
  }

  /** Without a `::` after the first `[with ` the whole signature comes back. */
  lemma ModuleNameByInterfaceWithoutSeparator(sig: string, w: nat)
    requires IsView(sig)
    requires IsFirst(sig, "[with ", 0, w)
    requires AbsentFrom(sig, "::", w)
    ensures ModuleNameByInterface(sig) == sig
  {
    FindAt(sig, "[with ", 0, w);
    FindAbsent(sig, "::", w);
  }

  /**
   * With `[with ` first at `w`, the first `::` after it at `c` and the next
   * `::` at `d`, the module name is the text strictly between the two.
   */
  lemma ModuleNameByInterfaceExtracts(sig: string, w: nat, c: nat, d: nat)
    requires IsView(sig)
    requires IsFirst(sig, "[with ", 0, w)
    requires IsFirst(sig, "::", w, c)
    requires IsFirst(sig, "::", c + 2, d)
    ensures ModuleNameByInterface(sig) == sig[c + 2..d]
  {
    FindAt(sig, "[with ", 0, w);
    FindAt(sig, "::", w, c);
    FindAt(sig, "::", c + 2, d);
    ModuleNameByInterfaceOfFinds(sig, w, c, d);
  }

  /** moduleNameByInterface once its three searches have answered `w`, `c` and `d`. */
  lemma ModuleNameByInterfaceOfFinds(sig: string, w: nat, c: nat, d: nat)
    requires IsView(sig)
    requires Find(sig, "[with ", 0) == Some(w)
    requires Find(sig, "::", w) == Some(c)
    requires Find(sig, "::", c + 2) == Some(d)
    ensures ModuleNameByInterface(sig) == sig[c + 2..d]
  {
  }

  /**
   * With no second `::` the module name is the rest of the signature less
   * its last character, the closing `]`; it is empty when the `::` ends the text.
   */
  lemma ModuleNameByInterfaceToBracket(sig: string, w: nat, c: nat)
    requires IsView(sig)
    requires IsFirst(sig, "[with ", 0, w)
    requires IsFirst(sig, "::", w, c)
    requires AbsentFrom(sig, "::", c + 2)
    ensures c + 2 <= |sig|
    ensures ModuleNameByInterface(sig) == if c + 2 < |sig| then sig[c + 2..|sig| - 1] else []
  {
    FindAt(sig, "[with ", 0, w);
    FindAt(sig, "::", w, c);
    FindAbsent(sig, "::", c + 2);
    ModuleNameByInterfaceOfFindsNone(sig, w, c);
    RestLessOne(|sig|, c + 2);
  }

  /** moduleNameByInterface once its searches have answered `w`, `c` and `npos`. */
  lemma ModuleNameByInterfaceOfFindsNone(sig: string, w: nat, c: nat)
    requires IsView(sig)
    requires Find(sig, "[with ", 0) == Some(w)
    requires Find(sig, "::", w) == Some(c)
    requires Find(sig, "::", c + 2) == None
    ensures c + 2 <= |sig|
    ensures ModuleNameByInterface(sig) == Substr(sig, c + 2, SizeSub(SizeSub(|sig|, c + 2), 1))
  {
  }

  /** `size - begin - 1` in `size_t`: one less than the rest, or `npos` when nothing is left. */
  lemma RestLessOne(n: nat, b: nat)
    requires b <= n < SIZE_MODULUS
    ensures SizeSub(SizeSub(n, b), 1) == if b < n then n - b - 1 else NPOS
  {
  }

  // ===== interfaceName =====

  /**
   * The interface name: the text between the last `::` at or before the
   * first `]` and that `]`.
   */
  function InterfaceName(sig: string): (r: string)
    requires IsView(sig)
  {
    match Find(sig, "]", 0)
    case None => sig
    case Some(endInterface) =>
      match RFind(sig, "::", endInterface)
      case None => sig
      case Some(colon) =>
        FoundBeforeBracket(sig, colon, endInterface);
        var beginInterface := colon + 2;
        Substr(sig, beginInterface, endInterface - beginInterface)
  }

  /** The last `::` found at or before the first `]` ends before it. */
  lemma FoundBeforeBracket(sig: string, c: nat, e: nat)
    requires Find(sig, "]", 0) == Some(e)
    requires RFind(sig, "::", e) == Some(c)
    ensures c + 2 <= e
  {
    FindIsFirst(sig, "]", 0);
    RFindIsLast(sig, "::", e);
    SeparatorBeforeBracket(sig, c, e);
  }

  /** The interface name interfaceName returns is a contiguous piece of the signature. */
  lemma InterfaceNameIsSlice(sig: string)
    requires IsView(sig)
    ensures IsSliceOf(InterfaceName(sig), sig)
  {
    WholeIsSlice(sig);
    match Find(sig, "]", 0)
    case None =>
    case Some(endInterface) =>
      match RFind(sig, "::", endInterface)
      case None =>
      case Some(colon) =>
        FoundBeforeBracket(sig, colon, endInterface);
        SubstrIsSlice(sig, colon + 2, endInterface - (colon + 2));
  }

  /** A `::` starting at or before a `]` ends before it. */
  lemma SeparatorBeforeBracket(sig: string, c: nat, e: nat)
    requires c <= e && OccursAt(sig, "::", c) && OccursAt(sig, "]", e)
    ensures c + 2 <= e
  {
    OccursAtChar(sig, ']', e);
    assert sig[c..c + 2][0] == sig[c] && sig[c..c + 2][1] == sig[c + 1];
  }

  /** Without a `]` the whole signature comes back. */
  lemma InterfaceNameWithoutBracket(sig: string)
    requires IsView(sig)
    requires ']' !in sig
    ensures InterfaceName(sig) == sig
  {
    forall k: nat ensures !OccursAt(sig, "]", k) {
      OccursAtChar(sig, ']', k);
    }
    FindAbsent(sig, "]", 0);
  }

  /** Without a `::` at or before the first `]` the whole signature comes back. */
  lemma InterfaceNameWithoutSeparator(sig: string, e: nat)
    requires IsView(sig)
    requires IsFirst(sig, "]", 0, e)
    requires AbsentUpTo(sig, "::", e)
    ensures InterfaceName(sig) == sig
  {
    FindAt(sig, "]", 0, e);
    RFindAbsent(sig, "::", e);
  }

  /**
   * With the first `]` at `e` and the last `::` at or before it at `c`,
   * the interface name is exactly the text strictly between them.
   */
  lemma InterfaceNameExtracts(sig: string, e: nat, c: nat)
    requires IsView(sig)
    requires IsFirst(sig, "]", 0, e)
    requires IsLast(sig, "::", e, c)
    ensures c + 2 <= e
    ensures InterfaceName(sig) == sig[c + 2..e]
  {
    FindAt(sig, "]", 0, e);
    RFindAt(sig, "::", e, c);
    SeparatorBeforeBracket(sig, c, e);
  }

  // ===== signatures of the shape the compiler writes =====

  /**
   * The signature GCC writes for an instantiation of a function template: the function's own text `head` followed by the clause
   * `[with I = <qualified>]` naming the interface.
   */
  function WithClause(head: string, qualified: string): string
  {
    head + "[with I = " + qualified + "]"
  }

  /** A namespace segment or name: no colon and no closing bracket. */
  predicate IsSegment(t: string)
  {
    ':' !in t && ']' !in t
  }

  /**
   * For an interface `<root>::<module>::<name>` named in a signature whose
   * head holds no brackets, the module is `module` ...
   */
  lemma QualifiedModule(head: string, root: string, modName: string, name: string)
    requires '[' !in head && ']' !in head
    requires IsSegment(root) && IsSegment(modName) && IsSegment(name)
    requires IsView(WithClause(head, root + "::" + modName + "::" + name))
    ensures ModuleNameByInterface(WithClause(head, root + "::" + modName + "::" + name)) == modName
  {
    var sig := WithClause(head, root + "::" + modName + "::" + name);
    var w := |head|;
    var c := w + 10 + |root|;
    var d := c + 2 + |modName|;
    assert sig[w..w + 6] == "[with ";
    assert sig[c..c + 2] == "::";
    assert sig[d..d + 2] == "::";
    forall k: nat | k < w ensures !OccursAt(sig, "[with ", k) {
      NotOccursAt(sig, "[with ", k, 0);
    }
    assert IsFirst(sig, "[with ", 0, w);
    forall k: nat | w <= k < c ensures !OccursAt(sig, "::", k) {
      NotOccursAt(sig, "::", k, 0);
    }
    assert IsFirst(sig, "::", w, c);
    forall k: nat | c + 2 <= k < d ensures !OccursAt(sig, "::", k) {
      NotOccursAt(sig, "::", k, 0);
    }
    assert IsFirst(sig, "::", c + 2, d);
    ModuleNameByInterfaceExtracts(sig, w, c, d);
    assert sig[c + 2..d] == modName;
  }

  /** ... and the id is `name`. */
  lemma QualifiedName(head: string, root: string, modName: string, name: string)
    requires '[' !in head && ']' !in head
    requires IsSegment(root) && IsSegment(modName) && IsSegment(name)
    requires IsView(WithClause(head, root + "::" + modName + "::" + name))
    ensures InterfaceName(WithClause(head, root + "::" + modName + "::" + name)) == name
  {
    var sig := WithClause(head, root + "::" + modName + "::" + name);
    var d := |head| + 10 + |root| + 2 + |modName|;
    var e := d + 2 + |name|;
    assert |sig| == e + 1;
    assert sig[d..d + 2] == "::";
    assert sig[e..e + 1] == "]";
    forall k: nat | k < e ensures !OccursAt(sig, "]", k) {
      NotOccursAt(sig, "]", k, 0);
    }
    forall k: nat | d < k <= e ensures !OccursAt(sig, "::", k) {
      if k == d + 1 {
        NotOccursAt(sig, "::", k, 1);
      } else {
        NotOccursAt(sig, "::", k, 0);
      }
    }
    InterfaceNameExtracts(sig, e, d);
    assert sig[d + 2..e] == name;
  }

  /**
   * For an interface `<root>::<name>` directly in the root namespace the
   * module name is the interface name itself (the TODO next to
   * moduleNameByInterface mentions `mu::ICryptographicHash`) ...
   */
  lemma RootModule(head: string, root: string, name: string)
    requires '[' !in head && ']' !in head
    requires IsSegment(root) && IsSegment(name)
    requires IsView(WithClause(head, root + "::" + name))
    ensures ModuleNameByInterface(WithClause(head, root + "::" + name)) == name
  {
    var sig := WithClause(head, root + "::" + name);
    var w := |head|;
    var c := w + 10 + |root|;
    assert sig[w..w + 6] == "[with ";
    assert sig[c..c + 2] == "::";
    forall k: nat | k < w ensures !OccursAt(sig, "[with ", k) {
      NotOccursAt(sig, "[with ", k, 0);
    }
    assert IsFirst(sig, "[with ", 0, w);
    forall k: nat | w <= k < c ensures !OccursAt(sig, "::", k) {
      NotOccursAt(sig, "::", k, 0);
    }
    assert IsFirst(sig, "::", w, c);
    forall k: nat | c + 2 <= k ensures !OccursAt(sig, "::", k) {
      if k < |sig| {
        NotOccursAt(sig, "::", k, 0);
      }
    }
    assert AbsentFrom(sig, "::", c + 2);
    ModuleNameByInterfaceToBracket(sig, w, c);
    assert sig[c + 2..|sig| - 1] == name;
  }

  /** ... and the id is that same name. */
  lemma RootName(head: string, root: string, name: string)
    requires '[' !in head && ']' !in head
    requires IsSegment(root) && IsSegment(name)
    requires IsView(WithClause(head, root + "::" + name))
    ensures InterfaceName(WithClause(head, root + "::" + name)) == name
  {
    var sig := WithClause(head, root + "::" + name);
    var c := |head| + 10 + |root|;
    var e := c + 2 + |name|;
    assert |sig| == e + 1;
    assert sig[c..c + 2] == "::";
    assert sig[e..e + 1] == "]";
    forall k: nat | k < e ensures !OccursAt(sig, "]", k) {
      NotOccursAt(sig, "]", k, 0);
    }
    assert IsFirst(sig, "]", 0, e);
    forall k: nat | c < k <= e ensures !OccursAt(sig, "::", k) {
      if k == c + 1 {
        NotOccursAt(sig, "::", k, 1);
      } else {
        NotOccursAt(sig, "::", k, 0);
      }
    }
    assert IsLast(sig, "::", e, c);
    InterfaceNameExtracts(sig, e, c);
    assert sig[c + 2..e] == name;
  }

  /** The head of the signature documented next to moduleNameByInterface and interfaceName. */
  const DOCUMENTED_HEAD := "constexpr mu::modularity::" + "InterfaceInfo " + "mu::modularity::" + "getInterfaceInfo() "
}
